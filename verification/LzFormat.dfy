/** The compressed stream: blocks of literals and back references, as bytes and as what they expand to. */
module LzFormat {
  import opened Bytes

  /** `literals`, then `length` bytes copied from `offset` bytes back. */
  datatype Block = Block(literals: seq<byte>, offset: nat, length: nat)

  /** The literals that may end a stream; the low half of their token means nothing. */
  datatype Tail = Tail(literals: seq<byte>, low: nat)

  datatype Stream = Stream(blocks: seq<Block>, tail: Option<Tail>)

  const MIN_MATCH := 4

  predicate BlockOk(b: Block) { b.length >= MIN_MATCH && 1 <= b.offset < 0x1_0000 }

  ghost predicate StreamOk(s: Stream) {
    && (forall k | 0 <= k < |s.blocks| :: BlockOk(s.blocks[k]))
    && (s.tail.Some? ==> s.tail.value.low < 16)
  }

  // ---------------------------------------------------------------- bytes

  /** `emit_extended_length`: as many 255s as fit, then the rest. */
  function LengthBytes(n: nat): (b: seq<byte>)
    ensures |b| > 0
  {
    if n >= 255 then [255] + LengthBytes(n - 255) else [n]
  }

  /** What follows a nibble that stands for `n`. */
  function Extension(n: nat): seq<byte> {
    if n >= 15 then LengthBytes(n - 15) else []
  }

  function Nibble(n: nat): (k: nat)
    ensures k < 16
  {
    Min(n, 15)
  }

  function TokenByte(high: nat, low: nat): byte
    requires high < 16 && low < 16
  {
    high * 16 + low
  }

  function BlockBytes(b: Block): (r: seq<byte>)
    requires BlockOk(b)
    ensures |r| > 0
  {
    [TokenByte(Nibble(|b.literals|), Nibble(b.length - MIN_MATCH))] + Extension(|b.literals|) + b.literals
    + Le(b.offset, 2) + Extension(b.length - MIN_MATCH)
  }

  function TailBytes(t: Tail): (r: seq<byte>)
    requires t.low < 16
    ensures |r| > 0
  {
    [TokenByte(Nibble(|t.literals|), t.low)] + Extension(|t.literals|) + t.literals
  }

  function BlocksBytes(bs: seq<Block>): seq<byte>
    requires forall k | 0 <= k < |bs| :: BlockOk(bs[k])
  {
    if bs == [] then [] else BlocksBytes(bs[..|bs| - 1]) + BlockBytes(bs[|bs| - 1])
  }

  /** A stream as bytes. */
  function Wire(s: Stream): seq<byte>
    requires StreamOk(s)
  {
    BlocksBytes(s.blocks) + if s.tail.Some? then TailBytes(s.tail.value) else []
  }

  // ---------------------------------------------------------------- meaning

  /** `n` bytes copied one at a time from `offset` back: a copy may read what it has just written. */
  function Copied(out: seq<byte>, offset: nat, n: nat): (r: seq<byte>)
    requires 1 <= offset <= |out|
    ensures |r| == |out| + n
    decreases n
  {
    if n == 0 then out
    else
      var before := Copied(out, offset, n - 1);
      before + [before[|before| - offset]]
  }

  /** The bytes after a block, if its reference does not reach back before the start. */
  function After(out: seq<byte>, b: Block): Option<seq<byte>> {
    if 1 <= b.offset <= |out + b.literals| then Some(Copied(out + b.literals, b.offset, b.length)) else None
  }

  function ExpandBlocks(bs: seq<Block>): Option<seq<byte>> {
    if bs == [] then Some([])
    else
      match ExpandBlocks(bs[..|bs| - 1])
      case None => None
      case Some(out) => After(out, bs[|bs| - 1])
  }

  /** What a stream stands for. */
  function Expand(s: Stream): Option<seq<byte>> {
    match ExpandBlocks(s.blocks)
    case None => None
    case Some(out) => Some(if s.tail.Some? then out + s.tail.value.literals else out)
  }

  lemma ExpandMore(bs: seq<Block>, b: Block)
    ensures ExpandBlocks(bs + [b]) ==
      match ExpandBlocks(bs)
      case None => None
      case Some(out) => After(out, b)
  {
    assert (bs + [b])[..|bs|] == bs;
  }

  lemma BlocksMore(bs: seq<Block>, b: Block)
    requires (forall k | 0 <= k < |bs| :: BlockOk(bs[k])) && BlockOk(b)
    ensures BlocksBytes(bs + [b]) == BlocksBytes(bs) + BlockBytes(b)
  {
    assert (bs + [b])[..|bs|] == bs;
  }

  // ---------------------------------------------------------------- reading it back

  /** `read_extended_length`: the length, and how many bytes it took. */
  function ReadLength(input: seq<byte>, initial: nat): Option<(nat, nat)>
  {
    if initial != 15 then Some((initial, 0)) else ReadMore(input, 15, 0)
  }

  function ReadMore(input: seq<byte>, length: nat, at: nat): (r: Option<(nat, nat)>)
    requires at <= |input|
    ensures r.Some? ==> at < r.value.1 <= |input|
    decreases |input| - at
  {
    if at == |input| then None
    else if input[at] != 255 then Some((length + input[at], at + 1))
    else ReadMore(input, length + 255, at + 1)
  }

  /** The next thing in the stream. */
  datatype Piece = Bad | Last(tail: Tail) | More(block: Block, rest: seq<byte>)

  function ReadPiece(input: seq<byte>): (p: Piece)
    requires input != []
    ensures p.More? ==> |p.rest| < |input| && p.block.length >= MIN_MATCH
  {
    match ReadLength(input[1..], input[0] / 16)
    case None => Bad
    case Some(l) => ReadBody(input[0] % 16, l.0, input[1..][l.1..])
  }

  /** What follows the literal length: the literals, then a reference unless the stream ends. */
  function ReadBody(nibble: nat, count: nat, body: seq<byte>): (p: Piece)
    ensures p.More? ==> |p.rest| <= |body| && p.block.length >= MIN_MATCH
  {
    if |body| < count then Bad
    else if |body| == count then Last(Tail(body, nibble))
    else if |body| < count + 2 then Bad
    else ReadReference(body[..count], FromLe(body[count..count + 2]), nibble, body[count + 2..])
  }

  function ReadReference(literals: seq<byte>, offset: nat, nibble: nat, rest: seq<byte>): (p: Piece)
    ensures !p.Last? && (p.More? ==> |p.rest| <= |rest| && p.block.length >= MIN_MATCH)
  {
    match ReadLength(rest, nibble)
    case None => Bad
    case Some(m) => More(Block(literals, offset, m.0 + MIN_MATCH), rest[m.1..])
  }

  /** Everything the stream says, onto what was written before, as long as it stays within `size` bytes. */
  function Decode(input: seq<byte>, out: seq<byte>, size: nat): Option<seq<byte>>
    decreases |input|
  {
    if input == [] then Some(out)
    else
      match ReadPiece(input)
      case Bad => None
      case Last(tail) => if |out + tail.literals| <= size then Some(out + tail.literals) else None
      case More(b, rest) =>
        if |out + b.literals| > size then None
        else
          match After(out, b)
          case None => None
          case Some(next) => if |next| <= size then Decode(rest, next, size) else None
  }

  // ---------------------------------------------------------------- the two agree

  /** An extended length reads back, whatever follows. */
  lemma {:induction false} LengthReads(n: nat, prefix: seq<byte>, rest: seq<byte>, length: nat)
    ensures ReadMore(prefix + LengthBytes(n) + rest, length, |prefix|) == Some((length + n, |prefix| + |LengthBytes(n)|))
    decreases n
  {
    var all := prefix + LengthBytes(n) + rest;
    if n >= 255 {
      assert LengthBytes(n) == [255] + LengthBytes(n - 255);
      assert all == (prefix + [255]) + LengthBytes(n - 255) + rest;
      LengthReads(n - 255, prefix + [255], rest, length + 255);
    } else {
      assert LengthBytes(n) == [n];
    }
  }

  lemma ExtensionReads(n: nat, rest: seq<byte>)
    ensures ReadLength(Extension(n) + rest, Nibble(n)) == Some((n, |Extension(n)|))
    ensures (Extension(n) + rest)[|Extension(n)|..] == rest
  {
    if n >= 15 {
      LengthReads(n - 15, [], rest, 15);
      assert [] + LengthBytes(n - 15) + rest == Extension(n) + rest;
    }
  }

  lemma TokenSplits(high: nat, low: nat)
    requires high < 16 && low < 16
    ensures TokenByte(high, low) / 16 == high && TokenByte(high, low) % 16 == low
  {}

  lemma Regroup(a: seq<byte>, b: seq<byte>, c: seq<byte>, d: seq<byte>, e: seq<byte>, f: seq<byte>)
    ensures a + b + c + d + e + f == a + (b + (c + (d + (e + f))))
  {}

  lemma SplitBody(c: seq<byte>, d: seq<byte>, e: seq<byte>)
    ensures (c + (d + e))[..|c|] == c && (c + (d + e))[|c|..|c| + |d|] == d && (c + (d + e))[|c| + |d|..] == e
  {}

  lemma Headed(a: byte, b: seq<byte>)
    ensures ([a] + b)[0] == a && ([a] + b)[1..] == b
  {}

  /** A block in front of anything reads back; so does a tail at the end. */
  lemma BlockReads(b: Block, rest: seq<byte>)
    requires BlockOk(b)
    ensures ReadPiece(BlockBytes(b) + rest) == More(b, rest)
  {
    hide Extension, Le, FromLe, ReadLength, Nibble, TokenByte;
    var l, m := |b.literals|, b.length - MIN_MATCH;
    var token := TokenByte(Nibble(l), Nibble(m));
    var behind := Extension(m) + rest;
    var body := b.literals + (Le(b.offset, 2) + behind);
    Regroup([token], Extension(l), b.literals, Le(b.offset, 2), Extension(m), rest);
    Headed(token, Extension(l) + body);
    TokenSplits(Nibble(l), Nibble(m));
    ExtensionReads(l, body);
    SplitBody(b.literals, Le(b.offset, 2), behind);
    Le16(b.offset);
    ExtensionReads(m, rest);
  }

  /** The last literals read back where the input ends. */
  lemma TailReads(t: Tail)
    requires t.low < 16
    ensures ReadPiece(TailBytes(t)) == Last(t)
  {
    hide Extension, ReadLength, Nibble, TokenByte;
    var l := |t.literals|;
    var token := TokenByte(Nibble(l), t.low);
    assert [token] + Extension(l) + t.literals == [token] + (Extension(l) + t.literals);
    Headed(token, Extension(l) + t.literals);
    TokenSplits(Nibble(l), t.low);
    ExtensionReads(l, t.literals);
  }

  lemma {:induction false} ReadsLength(input: seq<byte>, length: nat, at: nat)
    requires at <= |input| && ReadMore(input, length, at).Some?
    ensures var r := ReadMore(input, length, at).value;
      r.0 >= length && input[at..r.1] == LengthBytes(r.0 - length)
    decreases |input| - at
  {
    var r := ReadMore(input, length, at).value;
    if input[at] == 255 {
      ReadsLength(input, length + 255, at + 1);
      assert input[at..r.1] == [255] + input[at + 1..r.1];
    } else {
      assert input[at..r.1] == [input[at]];
    }
  }

  lemma ReadsExtension(input: seq<byte>, initial: nat)
    requires initial < 16 && ReadLength(input, initial).Some?
    ensures var r := ReadLength(input, initial).value;
      && r.1 <= |input| && Nibble(r.0) == initial && input == Extension(r.0) + input[r.1..]
  {
    var r := ReadLength(input, initial).value;
    if initial == 15 {
      ReadsLength(input, 15, 0);
      assert input[0..r.1] == input[..r.1];
    }
    assert input == input[..r.1] + input[r.1..];
  }

  lemma TokenJoins(token: byte)
    ensures token / 16 < 16 && token % 16 < 16 && token == TokenByte(token / 16, token % 16)
  {}

  /** Whatever reads as a block, or as a tail, is written that way. */
  lemma ReadsPiece(input: seq<byte>)
    requires input != []
    ensures ReadPiece(input).Last? ==>
      var t := ReadPiece(input).tail; t.low < 16 && input == TailBytes(t)
    ensures ReadPiece(input).More? && ReadPiece(input).block.offset != 0 ==>
      var p := ReadPiece(input); BlockOk(p.block) && input == BlockBytes(p.block) + p.rest
  {
    hide Extension, ReadLength, Nibble, TokenByte, ReadReference, FromLe;
    var token, rest := input[0], input[1..];
    TokenJoins(token);
    if ReadLength(rest, token / 16).Some? {
      ReadsExtension(rest, token / 16);
      var l := ReadLength(rest, token / 16).value;
      var body := rest[l.1..];
      assert input == [token] + (Extension(l.0) + body);
      assert ReadPiece(input) == ReadBody(token % 16, l.0, body);
      if |body| == l.0 {
        assert [token] + (Extension(l.0) + body) == [token] + Extension(l.0) + body;
      } else if |body| >= l.0 + 2 {
        ReadsReference(token, body[..l.0], body[l.0..l.0 + 2], body[l.0 + 2..]);
        assert body == body[..l.0] + (body[l.0..l.0 + 2] + body[l.0 + 2..]);
      }
    }
  }

  lemma ReadsReference(token: byte, literals: seq<byte>, offset: seq<byte>, behind: seq<byte>)
    requires |offset| == 2 && Nibble(|literals|) == token / 16
    ensures var p := ReadReference(literals, FromLe(offset), token % 16, behind);
      p.More? && p.block.offset != 0 ==>
        BlockOk(p.block) && BlockBytes(p.block) + p.rest == [token] + (Extension(|literals|) + (literals + (offset + behind)))
  {
    hide Extension, ReadLength, Nibble, TokenByte, FromLe, Le;
    FromLeRoundTrip(offset);
    Widths();
    TokenJoins(token);
    var p := ReadReference(literals, FromLe(offset), token % 16, behind);
    if p.More? && p.block.offset != 0 {
      ReadsExtension(behind, token % 16);
      assert p.block.length - MIN_MATCH == ReadLength(behind, token % 16).value.0;
      assert behind == Extension(p.block.length - MIN_MATCH) + p.rest;
      assert BlockOk(p.block) && Le(p.block.offset, 2) == offset;
      Regroup([token], Extension(|literals|), literals, offset, Extension(p.block.length - MIN_MATCH), p.rest);
    }
  }

  // ---------------------------------------------------------------- decoding is inverting

  ghost predicate BlocksOk(bs: seq<Block>) {
    forall k | 0 <= k < |bs| :: BlockOk(bs[k])
  }

  function TailOf(t: Option<Tail>): seq<byte>
    requires t.Some? ==> t.value.low < 16
  {
    if t.Some? then TailBytes(t.value) else []
  }

  /** `input` is a stream that stands for `x`. */
  ghost predicate Says(input: seq<byte>, x: seq<byte>) {
    exists s: Stream :: Spells(s, input, x)
  }

  ghost predicate Spells(s: Stream, input: seq<byte>, x: seq<byte>) {
    StreamOk(s) && Wire(s) == input && Expand(s) == Some(x)
  }

  lemma {:induction false} BlocksFirst(b: Block, bs: seq<Block>)
    requires BlockOk(b) && BlocksOk(bs)
    ensures BlocksOk([b] + bs) && BlocksBytes([b] + bs) == BlockBytes(b) + BlocksBytes(bs)
    decreases |bs|
  {
    hide BlockBytes;
    if bs == [] {
      assert [b] + bs == [b];
      assert [b][..0] == [];
    } else {
      var n := |bs| - 1;
      BlocksFirst(b, bs[..n]);
      assert ([b] + bs)[..n + 1] == [b] + bs[..n];
      assert BlockBytes(b) + BlocksBytes(bs[..n]) + BlockBytes(bs[n])
          == BlockBytes(b) + (BlocksBytes(bs[..n]) + BlockBytes(bs[n]));
    }
  }

  /** Expansion only ever adds, so a prefix of what expands expands to no more. */
  lemma {:induction false} PrefixExpands(done: seq<Block>, todo: seq<Block>)
    requires ExpandBlocks(done + todo).Some?
    ensures ExpandBlocks(done).Some? && |ExpandBlocks(done).value| <= |ExpandBlocks(done + todo).value|
    decreases |todo|
  {
    if todo == [] {
      assert done + todo == done;
    } else {
      var n := |todo| - 1;
      assert (done + todo)[..|done| + n] == done + todo[..n];
      PrefixExpands(done, todo[..n]);
    }
  }

  lemma DecodeBlock(b: Block, behind: seq<byte>, out: seq<byte>, size: nat)
    requires BlockOk(b) && After(out, b).Some? && |After(out, b).value| <= size
    ensures Decode(BlockBytes(b) + behind, out, size) == Decode(behind, After(out, b).value, size)
  {
    hide ReadPiece, BlockBytes;
    BlockReads(b, behind);
  }

  lemma DecodeTail(tail: Option<Tail>, out: seq<byte>, size: nat)
    requires tail.Some? ==> tail.value.low < 16
    requires var x := (if tail.Some? then out + tail.value.literals else out); |x| <= size
    ensures Decode(TailOf(tail), out, size) == Some(if tail.Some? then out + tail.value.literals else out)
  {
    hide ReadPiece, TailBytes;
    if tail.Some? {
      TailReads(tail.value);
    }
  }

  lemma {:induction false} Completes(done: seq<Block>, todo: seq<Block>, tail: Option<Tail>, x: seq<byte>, size: nat)
    requires StreamOk(Stream(done + todo, tail)) && Expand(Stream(done + todo, tail)) == Some(x) && |x| <= size
    requires BlocksOk(todo) && ExpandBlocks(done).Some?
    ensures Decode(BlocksBytes(todo) + TailOf(tail), ExpandBlocks(done).value, size) == Some(x)
    decreases |todo|
  {
    hide Decode, BlockBytes, TailOf, After;
    var out := ExpandBlocks(done).value;
    if todo == [] {
      assert done + todo == done;
      assert BlocksBytes(todo) + TailOf(tail) == TailOf(tail);
      DecodeTail(tail, out, size);
    } else {
      var b, rest := todo[0], todo[1..];
      assert todo == [b] + rest;
      assert done + todo == (done + [b]) + rest;
      BlocksFirst(b, rest);
      var behind := BlocksBytes(rest) + TailOf(tail);
      assert BlocksBytes(todo) + TailOf(tail) == BlockBytes(b) + behind;
      BlockReads(b, behind);
      PrefixExpands(done + [b], rest);
      ExpandMore(done, b);
      DecodeBlock(b, behind, out, size);
      Completes(done + [b], rest, tail, x, size);
    }
  }

  lemma DecodeStep(input: seq<byte>, out: seq<byte>, size: nat)
    requires input != [] && Decode(input, out, size).Some?
    ensures !ReadPiece(input).Bad?
    ensures ReadPiece(input).Last? ==>
      && Decode(input, out, size) == Some(out + ReadPiece(input).tail.literals)
      && |out + ReadPiece(input).tail.literals| <= size
    ensures ReadPiece(input).More? ==>
      && After(out, ReadPiece(input).block).Some? && |After(out, ReadPiece(input).block).value| <= size
      && ReadPiece(input).block.offset != 0
      && Decode(input, out, size) == Decode(ReadPiece(input).rest, After(out, ReadPiece(input).block).value, size)
  {
    hide ReadPiece;
  }

  lemma {:induction false} Accounts(done: seq<Block>, input: seq<byte>, out: seq<byte>, x: seq<byte>, size: nat)
    returns (s: Stream)
    requires BlocksOk(done) && ExpandBlocks(done) == Some(out) && |out| <= size
    requires Decode(input, out, size) == Some(x)
    ensures StreamOk(s) && Wire(s) == BlocksBytes(done) + input && Expand(s) == Some(x) && |x| <= size
    decreases |input|
  {
    hide ReadPiece, BlockBytes, TailBytes, After, BlocksBytes, ExpandBlocks;
    if input == [] {
      s := Stream(done, None);
    } else {
      ReadsPiece(input);
      DecodeStep(input, out, size);
      match ReadPiece(input)
      case Last(tail) => s := Stream(done, Some(tail));
      case More(b, rest) =>
        ExpandMore(done, b);
        BlocksMore(done, b);
        s := Accounts(done + [b], rest, After(out, b).value, x, size);
        assert BlocksBytes(done) + BlockBytes(b) + rest == BlocksBytes(done) + (BlockBytes(b) + rest);
    }
  }

  /** Decoding left to right succeeds exactly on streams, with exactly what they stand for. */
  lemma DecodeIff(input: seq<byte>, size: nat, x: seq<byte>)
    ensures Decode(input, [], size) == Some(x) <==> Says(input, x) && |x| <= size
  {
    if Decode(input, [], size) == Some(x) {
      var s := Accounts([], input, [], x, size);
      assert BlocksBytes([]) + input == input;
      assert Spells(s, input, x);
    }
    if Says(input, x) && |x| <= size {
      var s: Stream :| Spells(s, input, x);
      assert [] + s.blocks == s.blocks;
      Completes([], s.blocks, s.tail, x, size);
    }
  }
}
