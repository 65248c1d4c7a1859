/** Which references the packer makes: greedily, from the last position with the same hash. */
module LzParse {
  import opened Bytes
  import opened LzFormat

  const HASH_SIZE := 0x1_0000
  const NOWHERE: nat := 0xffff_ffff_ffff_ffff

  function HashSequence(bytes: seq<byte>): (h: nat)
    requires |bytes| == 4
    ensures h < HASH_SIZE
  {
    Read32(bytes, 0) * 2_654_435_761 % 0x1_0000_0000 / 0x1_0000
  }

  /** The hash is the upper half of the product. */
  lemma HashIs(bytes: seq<byte>)
    requires |bytes| == 4
    ensures HashSequence(bytes) * 0x1_0000 <= FromLe(bytes) * 2_654_435_761 % 0x1_0000_0000
              < (HashSequence(bytes) + 1) * 0x1_0000
  {
    assert bytes[0..4] == bytes;
  }

  /** Every entry of the hash table is a position before the cursor, or none. */
  ghost predicate Behind(table: seq<nat>, cursor: nat) {
    |table| == HASH_SIZE && forall h | 0 <= h < HASH_SIZE :: table[h] == NOWHERE || table[h] < cursor
  }

  /** A position with the same four bytes, at most 65535 back. */
  predicate Matches(input: seq<byte>, candidate: nat, cursor: nat)
    requires cursor + 4 <= |input|
  {
    candidate < cursor && cursor - candidate <= 65535 && input[candidate..candidate + 4] == input[cursor..cursor + 4]
  }

  /** From `k` on, the first position whose byte is not the one `gap` before it. */
  function MatchLimit(input: seq<byte>, gap: nat, k: nat): (end: nat)
    requires gap <= k <= |input|
    ensures k <= end <= |input|
    ensures forall j | k <= j < end :: input[j] == input[j - gap]
    ensures end < |input| ==> input[end] != input[end - gap]
    decreases |input| - k
  {
    if k < |input| && input[k] == input[k - gap] then MatchLimit(input, gap, k + 1) else k
  }

  /** The references made from `cursor` on, with literals waiting since `anchor`, and where the last ones begin. */
  ghost function Parse(input: seq<byte>, anchor: nat, cursor: nat, table: seq<nat>): (r: (seq<Block>, nat))
    requires anchor <= cursor <= |input| < NOWHERE && Behind(table, cursor)
    ensures anchor <= r.1 <= |input|
    decreases |input| - cursor
  {
    if cursor + 4 > |input| then ([], anchor)
    else
      var hash := HashSequence(input[cursor..cursor + 4]);
      var candidate := table[hash];
      if !Matches(input, candidate, cursor) then Parse(input, anchor, cursor + 1, table[hash := cursor])
      else
        var end := MatchLimit(input, cursor - candidate, cursor + 4);
        var rest := Parse(input, end, end, table[hash := cursor]);
        ([Block(input[anchor..cursor], cursor - candidate, end - cursor)] + rest.0, rest.1)
  }

  function NoPositions(): (table: seq<nat>)
    ensures Behind(table, 0)
  {
    seq(HASH_SIZE, _ => NOWHERE)
  }

  /** The stream for an input: those references, and what is left as literals. */
  ghost function Packed(input: seq<byte>): Stream
    requires |input| < NOWHERE
  {
    var r := Parse(input, 0, 0, NoPositions());
    Stream(r.0, Some(Tail(input[r.1..], 0)))
  }

  /** Four bytes or fewer stay literals. */
  lemma ShortStays(input: seq<byte>)
    requires |input| <= 4
    ensures Packed(input) == Stream([], Some(Tail(input, 0)))
  {
    assert input[0..] == input;
    if |input| == 4 {
      var hash := HashSequence(input[0..4]);
      assert Parse(input, 0, 1, NoPositions()[hash := 0]) == ([], 0);
    }
  }

  /** A run of equal bytes, however long, becomes one literal and one reference. */
  lemma RunShrinks(c: byte, n: nat)
    requires 5 <= n < NOWHERE
    ensures Packed(seq(n, _ => c)) == Stream([Block([c], 1, n - 1)], Some(Tail([], 0)))
  {
    var input := seq(n, _ => c);
    var four := [c, c, c, c];
    assert input[0..4] == four && input[1..5] == four;
    var hash := HashSequence(four);
    var table := NoPositions()[hash := 0];
    assert Matches(input, 0, 1);
    assert MatchLimit(input, 1, 5) == n;
    assert Parse(input, n, n, table[hash := 1]) == ([], n);
    assert input[0..1] == [c] && input[n..] == [];
    var b := Block(input[0..1], 1, n - 1);
    assert Parse(input, 0, 1, table) == ([b] + [], n);
    assert [b] + [] == [b];
    assert Parse(input, 0, 0, NoPositions()) == Parse(input, 0, 1, table);
  }
}
