/** The kernel image packer: greedy matching through a hash table of recent positions. */
module Dzpack {
  import opened Bytes
  import opened Crc
  import opened LzFormat
  import opened LzParse
  import opened Dzimage

  /** 255 as long as it fits, then the rest. */
  method EmitExtendedLength(output: seq<byte>, length: nat) returns (r: seq<byte>)
    ensures r == output + LengthBytes(length)
  {
    r := output;
    var left := length;
    while left >= 255
      invariant r + LengthBytes(left) == output + LengthBytes(length)
    {
      assert r + ([255] + LengthBytes(left - 255)) == r + [255] + LengthBytes(left - 255);
      r := r + [255];
      left := left - 255;
    }
    r := r + [left];
  }

  /** Token, literals, offset and the extended lengths. */
  method EmitSequence(output: seq<byte>, literals: seq<byte>, offset: nat, matchLength: nat) returns (r: seq<byte>)
    requires BlockOk(Block(literals, offset, matchLength))
    ensures r == output + BlockBytes(Block(literals, offset, matchLength))
  {
    hide Le, LengthBytes;
    ghost var block := Block(literals, offset, matchLength);
    var token := TokenByte(Nibble(|literals|), Nibble(matchLength - MIN_MATCH));
    r := output + [token];
    if |literals| >= 15 {
      r := EmitExtendedLength(r, |literals| - 15);
    }
    assert r == output + [token] + Extension(|literals|);
    r := r + literals;
    r := r + Le(offset, 2);
    ghost var sofar := [token] + Extension(|literals|) + literals + Le(offset, 2);
    assert r == output + sofar;
    if matchLength - MIN_MATCH >= 15 {
      r := EmitExtendedLength(r, matchLength - MIN_MATCH - 15);
    }
    assert output + sofar + Extension(matchLength - MIN_MATCH) == output + (sofar + Extension(matchLength - MIN_MATCH));
  }

  /** The literals behind the last match. */
  method EmitLastLiterals(output: seq<byte>, literals: seq<byte>) returns (r: seq<byte>)
    ensures r == output + TailBytes(Tail(literals, 0))
  {
    hide LengthBytes;
    var token := TokenByte(Nibble(|literals|), 0);
    r := output + [token];
    if |literals| >= 15 {
      r := EmitExtendedLength(r, |literals| - 15);
    }
    assert r == output + [token] + Extension(|literals|);
    r := r + literals;
    assert r == output + ([token] + Extension(|literals|) + literals);
  }

  /** From `from` to `end` the input is what it was `gap` bytes earlier. */
  ghost predicate Repeats(input: seq<byte>, from: nat, end: nat, gap: nat) {
    1 <= gap <= from <= end <= |input| && forall k | from <= k < end :: input[k] == input[k - gap]
  }

  /** So copying from `gap` back reproduces it, overlapping or not. */
  lemma {:induction false} CopyReproduces(input: seq<byte>, from: nat, end: nat, gap: nat)
    requires Repeats(input, from, end, gap)
    ensures Copied(input[..from], gap, end - from) == input[..end]
    decreases end
  {
    if end > from {
      CopyReproduces(input, from, end - 1, gap);
      assert input[..end] == input[..end - 1] + [input[end - 1]];
    }
  }

  /** How far the match goes. */
  method MatchEnd(input: seq<byte>, candidate: nat, cursor: nat) returns (end: nat)
    requires candidate < cursor && cursor + 4 <= |input|
    requires input[candidate..candidate + 4] == input[cursor..cursor + 4]
    ensures cursor + 4 <= end && Repeats(input, cursor, end, cursor - candidate)
    ensures end < |input| ==> input[end] != input[end - (cursor - candidate)]
    ensures end == MatchLimit(input, cursor - candidate, cursor + 4)
  {
    hide MatchLimit;
    FirstFour(input, candidate, cursor);
    end := cursor + 4;
    var candidateEnd := candidate + 4;
    while end < |input| && input[end] == input[candidateEnd]
      invariant cursor + 4 <= end <= |input| && candidateEnd == candidate + (end - cursor)
      invariant Repeats(input, cursor, end, cursor - candidate)
    {
      end := end + 1;
      candidateEnd := candidateEnd + 1;
    }
    LimitIs(input, cursor - candidate, cursor + 4, end);
  }

  lemma LimitIs(input: seq<byte>, gap: nat, k: nat, end: nat)
    requires gap <= k <= end <= |input| && (forall j | k <= j < end :: input[j] == input[j - gap])
    requires end < |input| ==> input[end] != input[end - gap]
    ensures MatchLimit(input, gap, k) == end
  {}

  lemma FirstFour(input: seq<byte>, candidate: nat, cursor: nat)
    requires candidate < cursor && cursor + 4 <= |input|
    requires input[candidate..candidate + 4] == input[cursor..cursor + 4]
    ensures Repeats(input, cursor, cursor + 4, cursor - candidate)
  {
    forall k | cursor <= k < cursor + 4
      ensures input[k] == input[k - (cursor - candidate)]
    {
      assert input[k] == input[cursor..cursor + 4][k - cursor];
      assert input[k - (cursor - candidate)] == input[candidate..candidate + 4][k - cursor];
    }
  }

  /** What has been emitted stands for the input up to the anchor. */
  ghost predicate Covers(output: seq<byte>, blocks: seq<Block>, input: seq<byte>, anchor: nat) {
    && BlocksOk(blocks) && output == BlocksBytes(blocks)
    && anchor <= |input| && ExpandBlocks(blocks) == Some(input[..anchor])
  }

  lemma CoversMore(output: seq<byte>, blocks: seq<Block>, input: seq<byte>, anchor: nat, cursor: nat, candidate: nat, end: nat)
    requires Covers(output, blocks, input, anchor) && anchor <= cursor && candidate < cursor
    requires cursor - candidate < 0x1_0000 && cursor + 4 <= end && Repeats(input, cursor, end, cursor - candidate)
    ensures var b := Block(input[anchor..cursor], cursor - candidate, end - cursor);
      BlockOk(b) && Covers(output + BlockBytes(b), blocks + [b], input, end)
  {
    hide BlockBytes, BlocksBytes, ExpandBlocks;
    var b := Block(input[anchor..cursor], cursor - candidate, end - cursor);
    assert input[..anchor] + input[anchor..cursor] == input[..cursor];
    CopyReproduces(input, cursor, end, cursor - candidate);
    BlocksMore(blocks, b);
    ExpandMore(blocks, b);
  }

  /** The compressed stream stands for the input; every reference in it is between 1 and 65535 bytes back. */
  method Compress(input: seq<byte>) returns (output: seq<byte>, ghost stream: Stream)
    requires |input| < NOWHERE
    ensures StreamOk(stream) && output == Wire(stream) && Expand(stream) == Some(input)
    ensures Says(output, input) && stream == Packed(input)
    ensures stream.tail.Some? && forall b | b in stream.blocks :: 1 <= b.offset <= 65535 && b.length >= MIN_MATCH
  {
    hide BlockBytes, BlocksBytes, ExpandBlocks, TailBytes, HashSequence, LengthBytes, Parse, MatchLimit, Matches,
      Behind;
    output := [];
    ghost var blocks: seq<Block> := [];
    var table := new nat[HASH_SIZE](_ => NOWHERE);
    var anchor, cursor := 0, 0;
    CoversNothing(input);
    ParsedNothing(input);
    assert table[..] == NoPositions();
    while cursor + 4 <= |input|
      invariant anchor <= cursor <= |input|
      invariant Behind(table[..], cursor) && Parsed(input, blocks, anchor, cursor, table[..])
      invariant Covers(output, blocks, input, anchor)
    {
      var hash := HashSequence(input[cursor..cursor + 4]);
      var candidate := table[hash];
      ghost var was := table[..];
      ParseStep(input, blocks, anchor, cursor, was);
      MatchesIff(input, candidate, cursor);
      assert candidate == was[hash];
      table[hash] := cursor;
      assert table[..] == was[hash := cursor];
      if candidate == NOWHERE || cursor - candidate > 65535
         || input[candidate..candidate + 4] != input[cursor..cursor + 4] {
        cursor := cursor + 1;
        continue;
      }
      var end := MatchEnd(input, candidate, cursor);
      CoversMore(output, blocks, input, anchor, cursor, candidate, end);
      ParseMatch(input, blocks, anchor, cursor, was, end);
      blocks := blocks + [Block(input[anchor..cursor], cursor - candidate, end - cursor)];
      output := EmitSequence(output, input[anchor..cursor], cursor - candidate, end - cursor);
      cursor := end;
      anchor := cursor;
      Refresh(input, table, Max(cursor - 2, 0), cursor);
    }
    ParseEnds(input, blocks, anchor, cursor, table[..]);
    output := EmitLastLiterals(output, input[anchor..]);
    stream := Stream(blocks, Some(Tail(input[anchor..], 0)));
    assert input[..anchor] + input[anchor..] == input;
    assert Spells(stream, output, input);
  }

  /** What is left to make from here completes the packer's references. */
  ghost predicate Parsed(input: seq<byte>, blocks: seq<Block>, anchor: nat, cursor: nat, table: seq<nat>) {
    && |input| < NOWHERE && anchor <= cursor <= |input| && Behind(table, cursor)
    && var rest := Parse(input, anchor, cursor, table);
    Parse(input, 0, 0, NoPositions()) == (blocks + rest.0, rest.1)
  }

  lemma ParsedNothing(input: seq<byte>)
    requires |input| < NOWHERE
    ensures Parsed(input, [], 0, 0, NoPositions())
  {
    hide Parse;
    var r := Parse(input, 0, 0, NoPositions());
    assert [] + r.0 == r.0;
  }

  lemma MatchesIff(input: seq<byte>, candidate: nat, cursor: nat)
    requires cursor + 4 <= |input| < NOWHERE && (candidate == NOWHERE || candidate < cursor)
    ensures Matches(input, candidate, cursor) <==>
      candidate != NOWHERE && cursor - candidate <= 65535 && input[candidate..candidate + 4] == input[cursor..cursor + 4]
  {}

  /** One turn: a position passed over, or a reference. */
  lemma ParseStep(input: seq<byte>, blocks: seq<Block>, anchor: nat, cursor: nat, table: seq<nat>)
    requires Parsed(input, blocks, anchor, cursor, table) && cursor + 4 <= |input|
    ensures var hash := HashSequence(input[cursor..cursor + 4]);
      && hash < |table| && (table[hash] == NOWHERE || table[hash] < cursor)
      && Behind(table[hash := cursor], cursor + 1)
      && (!Matches(input, table[hash], cursor) ==> Parsed(input, blocks, anchor, cursor + 1, table[hash := cursor]))
  {
    hide HashSequence, Matches, MatchLimit;
  }

  lemma ParseMatch(input: seq<byte>, blocks: seq<Block>, anchor: nat, cursor: nat, table: seq<nat>, end: nat)
    requires Parsed(input, blocks, anchor, cursor, table) && cursor + 4 <= |input|
    requires var candidate := table[HashSequence(input[cursor..cursor + 4])];
      Matches(input, candidate, cursor) && end == MatchLimit(input, cursor - candidate, cursor + 4)
    ensures var hash := HashSequence(input[cursor..cursor + 4]);
      && cursor + 4 <= end && Behind(table[hash := cursor], end)
      && Parsed(input, blocks + [Block(input[anchor..cursor], cursor - table[hash], end - cursor)], end, end,
                table[hash := cursor])
  {
    hide HashSequence, MatchLimit;
    var hash := HashSequence(input[cursor..cursor + 4]);
    var b := Block(input[anchor..cursor], cursor - table[hash], end - cursor);
    var rest := Parse(input, end, end, table[hash := cursor]);
    assert blocks + ([b] + rest.0) == blocks + [b] + rest.0;
  }

  lemma ParseEnds(input: seq<byte>, blocks: seq<Block>, anchor: nat, cursor: nat, table: seq<nat>)
    requires Parsed(input, blocks, anchor, cursor, table) && cursor + 4 > |input|
    ensures Packed(input) == Stream(blocks, Some(Tail(input[anchor..], 0)))
  {
    assert blocks + [] == blocks;
  }

  lemma CoversNothing(input: seq<byte>)
    ensures Covers([], [], input, 0)
  {}

  /** The positions from `from` on that lie wholly inside the match are entered into the table. */
  method Refresh(input: seq<byte>, table: array<nat>, from: nat, cursor: nat)
    requires table.Length == HASH_SIZE && cursor <= |input| && Behind(table[..], cursor)
    modifies table
    ensures Behind(table[..], cursor)
    ensures from + 4 > cursor ==> table[..] == old(table[..])
  {
    hide HashSequence;
    var update := from;
    while update + 4 <= cursor
      invariant Behind(table[..], cursor)
      invariant from + 4 > cursor ==> table[..] == old(table[..])
    {
      var hash := HashSequence(input[update..update + 4]);
      table[hash] := update;
      update := update + 1;
    }
  }

  /** The image file: what it holds unpacks to the input. */
  method Pack(step: ByteStep, input: seq<byte>) returns (r: Option<seq<byte>>)
    requires |input| < NOWHERE
    ensures r.Some? <==> 1 <= |input| <= MAX_KERNEL_SIZE
    ensures r.Some? ==> forall room: nat | room >= |input| ::
      UnpackVerdict(step, r.value, room) == Ok(|input|) && Unpacked(step, r.value, room) == Ok(input)
  {
    hide Unpacked, UnpackVerdict, Says, Crc32, Le, StreamOk, Wire, ImageOf;
    if |input| == 0 || |input| > MAX_KERNEL_SIZE {
      return None;
    }
    var compressed, stream := Compress(input);
    var image := Assemble(step, input, compressed);
    forall room: nat | room >= |input|
      ensures UnpackVerdict(step, image, room) == Ok(|input|) && Unpacked(step, image, room) == Ok(input)
    {
      PackedUnpacks(step, input, compressed, room);
    }
    return Some(image);
  }

  method Assemble(step: ByteStep, input: seq<byte>, compressed: seq<byte>) returns (image: seq<byte>)
    ensures image == ImageOf(step, input, compressed)
  {
    image := MAGIC;
    image := image + Le(|input|, 8);
    image := image + Le(Crc32(step, input), 4);
    image := image + [0, 0, 0, 0];
    image := image + compressed;
  }
}
