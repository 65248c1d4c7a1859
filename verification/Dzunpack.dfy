/** `unpack`: the stream is expanded in place in the output buffer, progress being reported on the way. */
module Dzunpack {
  import opened Bytes
  import opened Crc
  import opened LzFormat
  import opened Dzimage

  // ---------------------------------------------------------------- progress

  function Progress(written: nat, total: nat): nat
    requires total > 0
  {
    written * 100 / total
  }

  /** Reports begin at 0 and rise strictly up to `last`. */
  ghost predicate Rising(reports: seq<nat>, last: nat) {
    && reports != [] && reports[0] == 0 && reports[|reports| - 1] == last
    && forall i, j | 0 <= i < j < |reports| :: reports[i] < reports[j]
  }

  lemma ProgressGrows(a: nat, b: nat, total: nat)
    requires a <= b <= total && total > 0
    ensures Progress(a, total) <= Progress(b, total) <= 100
    ensures Progress(total, total) == 100 && Progress(0, total) == 0
  {
    assert a * 100 <= b * 100 <= total * 100;
    Divides(a * 100, b * 100, total);
    Divides(b * 100, total * 100, total);
    assert total * 100 / total == 100 by {
      Cancels(100, total);
    }
  }

  lemma Divides(a: nat, b: nat, d: nat)
    requires a <= b && d > 0
    ensures a / d <= b / d
  {
    assert d * (a / d) < d * (b / d + 1);
    LessTimes(a / d, b / d + 1, d);
  }

  lemma LessTimes(x: int, y: int, d: nat)
    requires d * x < d * y
    ensures x < y
  {}

  lemma Cancels(a: nat, d: nat)
    requires d > 0
    ensures d * a / d == a
  {
    var q := d * a / d;
    LessTimes(q, a + 1, d);
    LessTimes(a, q + 1, d);
  }

  /** `report_new_progress`. */
  method ReportNew(written: nat, total: nat, last: nat, reports: seq<nat>) returns (last': nat, reports': seq<nat>)
    requires total > 0 && Rising(reports, last) && last <= Progress(written, total)
    ensures Rising(reports', last') && last' == Progress(written, total) == written * 100 / total
    ensures reports' == if last' > last then reports + [last'] else reports
  {
    var progress := Progress(written, total);
    if progress > last {
      return progress, reports + [progress];
    }
    return last, reports;
  }

  // ---------------------------------------------------------------- reading

  /** `read_extended_length` on the bytes that are left. */
  method TakeLength(input: seq<byte>, initial: nat) returns (r: Result<(nat, seq<byte>), UnpackError>)
    ensures ReadLength(input, initial).None? ==> r == Err(InvalidLz4)
    ensures ReadLength(input, initial).Some? ==>
      var l := ReadLength(input, initial).value; l.1 <= |input| && r == Ok((l.0, input[l.1..]))
  {
    if initial != 15 {
      return Ok((initial, input));
    }
    var length: nat, rest: seq<byte> := initial, input;
    ghost var at: nat := 0;
    while true
      invariant at <= |input| && rest == input[at..]
      invariant ReadMore(input, 15, 0) == ReadMore(input, length, at)
      decreases |rest|
    {
      if rest == [] {
        return Err(InvalidLz4);
      }
      var b: nat := rest[0];
      assert b == input[at];
      rest := rest[1..];
      length := length + b;
      at := at + 1;
      if b != 255 {
        return Ok((length, rest));
      }
    }
  }

  // ---------------------------------------------------------------- writing

  /** The buffer holds `out` at its start and, from `size` on, what it held before. */
  ghost predicate Holds(now: seq<byte>, before: seq<byte>, out: seq<byte>, size: nat) {
    && |now| == |before| && |out| <= size <= |now|
    && now[..|out|] == out && now[size..] == before[size..]
  }

  method CopyLiterals(output: array<byte>, written: nat, literals: seq<byte>, ghost before: seq<byte>, ghost out: seq<byte>,
                      ghost size: nat)
    requires Holds(output[..], before, out, size) && |out| == written && written + |literals| <= size
    modifies output
    ensures Holds(output[..], before, out + literals, size)
  {
    for k := 0 to |literals|
      invariant Holds(output[..], before, out + literals[..k], size)
    {
      WriteNext(output[..], before, out + literals[..k], size, literals[k]);
      output[written + k] := literals[k];
      assert out + literals[..k] + [literals[k]] == out + literals[..k + 1];
    }
    assert literals[..|literals|] == literals;
  }

  lemma WriteNext(now: seq<byte>, before: seq<byte>, out: seq<byte>, size: nat, v: byte)
    requires Holds(now, before, out, size) && |out| < size
    ensures Holds(now[|out| := v], before, out + [v], size)
  {
    var next := now[|out| := v];
    assert next[..|out| + 1] == now[..|out|] + [v];
  }

  /** The match loop: each byte comes from `offset` back, out of what has been written already. */
  method CopyMatch(output: array<byte>, begun: nat, offset: nat, end: nat, size: nat, last: nat, reports: seq<nat>,
                   ghost before: seq<byte>, ghost out: seq<byte>)
    returns (last': nat, reports': seq<nat>)
    requires Holds(output[..], before, out, size) && |out| == begun <= end <= size && 1 <= offset <= begun
    requires Rising(reports, last) && last <= Progress(begun, size) && size > 0
    modifies output
    ensures Holds(output[..], before, Copied(out, offset, end - begun), size)
    ensures Rising(reports', last') && last' <= Progress(end, size)
  {
    var written := begun;
    last', reports' := last, reports;
    while written < end
      invariant begun <= written <= end
      invariant Holds(output[..], before, Copied(out, offset, written - begun), size)
      invariant Rising(reports', last') && last' <= Progress(written, size)
    {
      hide Rising, Progress;
      ghost var now := Copied(out, offset, written - begun);
      assert output[written - offset] == output[..][..written][written - offset] == now[|now| - offset];
      WriteNext(output[..], before, now, size, output[written - offset]);
      output[written] := output[written - offset];
      ProgressGrows(written, written + 1, size);
      written := written + 1;
      if written % 0x1000 == 0 {
        last', reports' := ReportNew(written, size, last', reports');
      }
    }
  }

  // ---------------------------------------------------------------- the loop

  /** The literals of a token: where they end and what is left behind them. */
  method LiteralTurn(input: seq<byte>, output: array<byte>, begun: nat, size: nat, last: nat, reports: seq<nat>,
                     ghost before: seq<byte>, ghost out: seq<byte>)
    returns (r: Result<(seq<byte>, nat), UnpackError>, last': nat, reports': seq<nat>, ghost literals: seq<byte>)
    requires input != [] && size > 0 && |out| == begun <= size && Holds(output[..], before, out, size)
    requires Rising(reports, last) && last == Progress(begun, size)
    modifies output
    ensures Rising(reports', last')
    ensures r.Err? ==> r.error == InvalidLz4 && Decode(input, out, size) == None && Holds(output[..], before, out, size)
    ensures r.Ok? ==>
      && |r.value.0| < |input| && r.value.1 == |out + literals| <= size
      && Holds(output[..], before, out + literals, size) && Facing(input, literals, r.value.0)
      && last' == Progress(r.value.1, size)
  {
    hide Decode, ReadPiece, Rising, Progress, Holds, ReadLength;
    last', reports', literals := last, reports, [];
    var token := input[0];
    var lit := TakeLength(input[1..], token / 16);
    if lit.Err? {
      NoLength(input, out, size);
      return Err(InvalidLz4), last', reports', literals;
    }
    var literalLength: nat, rest := lit.value.0, lit.value.1;
    var literalEnd := begun + literalLength;
    if literalEnd > size {
      TooLong(input, out, size, literalLength, rest);
      return Err(InvalidLz4), last', reports', literals;
    }
    if |rest| < literalLength {
      TooShort(input, out, size, literalLength, rest);
      return Err(InvalidLz4), last', reports', literals;
    }
    CopyLiterals(output, begun, rest[..literalLength], before, out, size);
    literals := rest[..literalLength];
    assert rest == literals + rest[literalLength..];
    ProgressGrows(begun, literalEnd, size);
    last', reports' := ReportNew(literalEnd, size, last', reports');
    return Ok((rest[literalLength..], literalEnd)), last', reports', literals;
  }

  /** One token: literals, then, unless the input ends there, a reference. */
  method UnpackTurn(input: seq<byte>, output: array<byte>, begun: nat, size: nat, last: nat, reports: seq<nat>,
                    ghost before: seq<byte>, ghost out: seq<byte>)
    returns (r: Result<(seq<byte>, nat), UnpackError>, last': nat, reports': seq<nat>, ghost next: seq<byte>)
    requires input != [] && size > 0 && |out| == begun <= size && Holds(output[..], before, out, size)
    requires Rising(reports, last) && last == Progress(begun, size)
    modifies output
    ensures Rising(reports', last') && Holds(output[..], before, next, size)
    ensures r.Err? ==> r.error == InvalidLz4 && Decode(input, out, size) == None
    ensures r.Ok? ==>
      && |r.value.0| < |input| && r.value.1 == |next| <= size
      && Decode(input, out, size) == Decode(r.value.0, next, size)
      && last' == Progress(r.value.1, size)
  {
    hide Decode, ReadPiece, Rising, Progress, Holds, ReadLength, Facing, FromLe, Copied;
    ghost var literals;
    var lit;
    lit, last', reports', literals := LiteralTurn(input, output, begun, size, last, reports, before, out);
    if lit.Err? {
      return Err(lit.error), last', reports', out;
    }
    next := out + literals;
    var rest, written := lit.value.0, lit.value.1;
    if rest == [] {
      LastTurn(input, out, size, literals);
      return Ok(([], written)), last', reports', next;
    }
    if |rest| < 2 {
      ShortTurn(input, out, size, literals, rest);
      return Err(InvalidLz4), last', reports', next;
    }
    var offset := FromLe(rest[..2]);
    MatchTurn(input, out, size, literals, rest);
    if offset == 0 || offset > written {
      return Err(InvalidLz4), last', reports', next;
    }
    var matching := TakeLength(rest[2..], input[0] % 16);
    if matching.Err? {
      return Err(InvalidLz4), last', reports', next;
    }
    var end: nat := written + (matching.value.0 + MIN_MATCH);
    if end > size {
      return Err(InvalidLz4), last', reports', next;
    }
    last', reports' := CopyMatch(output, written, offset, end, size, last', reports', before, next);
    next := Copied(next, offset, end - written);
    last', reports' := ReportNew(end, size, last', reports');
    return Ok((matching.value.1, end)), last', reports', next;
  }

  lemma NoLength(input: seq<byte>, out: seq<byte>, size: nat)
    requires input != [] && ReadLength(input[1..], input[0] / 16).None?
    ensures Decode(input, out, size) == None
  {}

  lemma TooShort(input: seq<byte>, out: seq<byte>, size: nat, count: nat, body: seq<byte>)
    requires input != [] && ReadLength(input[1..], input[0] / 16).Some?
    requires var l := ReadLength(input[1..], input[0] / 16).value;
      l.1 < |input| && count == l.0 && body == input[1..][l.1..]
    requires |body| < count
    ensures Decode(input, out, size) == None
  {
    hide ReadReference, ReadLength;
    assert ReadPiece(input) == ReadBody(input[0] % 16, count, body);
  }

  /** The pieces of the input as the turn meets them. */
  ghost predicate Facing(input: seq<byte>, literals: seq<byte>, rest: seq<byte>) {
    && input != [] && ReadLength(input[1..], input[0] / 16).Some?
    && var l := ReadLength(input[1..], input[0] / 16).value;
    l.1 < |input| && |literals| == l.0 && input[1..][l.1..] == literals + rest
  }

  lemma TooLong(input: seq<byte>, out: seq<byte>, size: nat, count: nat, body: seq<byte>)
    requires input != [] && ReadLength(input[1..], input[0] / 16).Some?
    requires var l := ReadLength(input[1..], input[0] / 16).value;
      l.1 < |input| && count == l.0 && body == input[1..][l.1..]
    requires |out| + count > size
    ensures Decode(input, out, size) == None
  {
    hide ReadLength;
    assert ReadPiece(input) == ReadBody(input[0] % 16, count, body);
  }

  lemma LastTurn(input: seq<byte>, out: seq<byte>, size: nat, literals: seq<byte>)
    requires Facing(input, literals, []) && |out + literals| <= size
    ensures Decode(input, out, size) == Decode([], out + literals, size)
  {
    hide ReadReference, ReadLength;
    assert literals + [] == literals;
    assert ReadPiece(input) == Last(Tail(literals, input[0] % 16));
  }

  lemma ShortTurn(input: seq<byte>, out: seq<byte>, size: nat, literals: seq<byte>, rest: seq<byte>)
    requires Facing(input, literals, rest) && |rest| == 1
    ensures Decode(input, out, size) == None
  {
    hide ReadReference, ReadLength;
    assert ReadPiece(input) == Bad;
  }

  /** A reference: every way it can fail, and what it does when it does not. */
  lemma MatchTurn(input: seq<byte>, out: seq<byte>, size: nat, literals: seq<byte>, rest: seq<byte>)
    requires Facing(input, literals, rest) && |rest| >= 2 && |out + literals| <= size
    ensures var offset, m := FromLe(rest[..2]), ReadLength(rest[2..], input[0] % 16);
      if m.None? || offset == 0 || offset > |out + literals| || |out + literals| + m.value.0 + MIN_MATCH > size
      then Decode(input, out, size) == None
      else
        m.value.1 <= |rest[2..]|
        && Decode(input, out, size)
           == Decode(rest[2..][m.value.1..], Copied(out + literals, offset, m.value.0 + MIN_MATCH), size)
  {
    hide FromLe, ReadLength;
    var body := literals + rest;
    assert body[..|literals|] == literals && body[|literals|..|literals| + 2] == rest[..2];
    assert body[|literals| + 2..] == rest[2..];
    assert ReadPiece(input) == ReadReference(literals, FromLe(rest[..2]), input[0] % 16, rest[2..]);
    if ReadLength(rest[2..], input[0] % 16).Some? {
      LengthFits(rest[2..], input[0] % 16);
    }
  }

  lemma LengthFits(input: seq<byte>, initial: nat)
    requires ReadLength(input, initial).Some?
    ensures ReadLength(input, initial).value.1 <= |input|
  {}

  /** The answer and the bytes are those of `Unpacked`; nothing is written from the unpacked size on, and
    * progress rises from 0, to 100 when all is well. */
  method Unpack(step: ByteStep, image: seq<byte>, output: array<byte>)
    returns (r: Result<nat, UnpackError>, reports: seq<nat>)
    modifies output
    ensures r == UnpackVerdict(step, image, output.Length)
    ensures r.Ok? ==> r.value <= output.Length && Unpacked(step, image, output.Length) == Ok(output[..r.value])
    ensures UnpackedSize(image).Err? || UnpackedSize(image).value > output.Length ==>
      output[..] == old(output[..]) && reports == []
    ensures UnpackedSize(image).Ok? && UnpackedSize(image).value <= output.Length ==>
      && output[UnpackedSize(image).value..] == old(output[..])[UnpackedSize(image).value..]
      && RisesTo(reports, r.Ok?)
  {
    var header := UnpackedSize(image);
    if header.Err? {
      return Err(header.error), [];
    }
    var size := header.value;
    if size > output.Length {
      return Err(InvalidSize), [];
    }
    hide UnpackedSize, Decode, Rising, Progress;
    r, reports := UnpackStream(step, image, output, size);
  }

  method UnpackStream(step: ByteStep, image: seq<byte>, output: array<byte>, size: nat)
    returns (r: Result<nat, UnpackError>, reports: seq<nat>)
    requires UnpackedSize(image) == Ok(size) && size <= output.Length
    modifies output
    ensures r == UnpackVerdict(step, image, output.Length)
    ensures r.Ok? ==> r.value <= output.Length && Unpacked(step, image, output.Length) == Ok(output[..r.value])
    ensures output[size..] == old(output[..])[size..]
    ensures RisesTo(reports, r.Ok?)
  {
    hide Decode, Progress, UnpackedSize, Rising;
    ghost var before, payload := output[..], image[HEADER_SIZE..];
    var expected := Read32(image, 16);
    reports := [0];
    var last: nat := 0;
    RisesFromZero();
    var input, written := image[HEADER_SIZE..], 0;
    ProgressGrows(0, size, size);
    ghost var out: seq<byte> := [];
    while input != []
      invariant written == |out| && Holds(output[..], before, out, size)
      invariant Decode(payload, [], size) == Decode(input, out, size)
      invariant Rising(reports, last) && last == Progress(written, size)
      decreases |input|
    {
      var turn;
      turn, last, reports, out := UnpackTurn(input, output, written, size, last, reports, before, out);
      if turn.Err? {
        return Err(turn.error), reports;
      }
      input, written := turn.value.0, turn.value.1;
    }
    DecodeEnd(out, size);
    if written != size {
      return Err(InvalidLz4), reports;
    }
    if Crc32(step, output[..size]) != expected {
      return Err(ChecksumMismatch), reports;
    }
    reports := FinishReports(last, reports);
    return Ok(size), reports;
  }

  /** Progress rises from 0, and gets to 100 if all is well. */
  ghost predicate RisesTo(reports: seq<nat>, ok: bool) {
    exists last: nat :: Rising(reports, last) && (ok ==> last == 100)
  }

  lemma RisesFromZero()
    ensures Rising([0], 0)
  {}

  /** The last report is 100. */
  method FinishReports(last: nat, reports: seq<nat>) returns (reports': seq<nat>)
    requires Rising(reports, last) && last <= 100
    ensures RisesTo(reports', true)
  {
    reports' := reports;
    if last != 100 {
      reports' := reports + [100];
    }
    assert Rising(reports', 100);
  }

  lemma DecodeEnd(out: seq<byte>, size: nat)
    ensures Decode([], out, size) == Some(out)
  {}
}
