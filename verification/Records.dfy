/** Records laid out as fields at fixed offsets of a byte buffer. */
module Records {
  import opened Bytes

  datatype Field = Field(at: nat, bytes: seq<byte>)

  function Past(f: Field): nat { f.at + |f.bytes| }

  predicate Apart(f: Field, g: Field) {
    Past(f) <= g.at || Past(g) <= f.at
  }

  ghost predicate Within(fields: seq<Field>, n: nat) {
    forall f | f in fields :: Past(f) <= n
  }

  ghost predicate Disjoint(fields: seq<Field>) {
    forall i, j | 0 <= i < j < |fields| :: Apart(fields[i], fields[j])
  }

  /** The buffer after the fields were copied into it in order. */
  function Filled(s: seq<byte>, fields: seq<Field>): (r: seq<byte>)
    requires Within(fields, |s|)
    ensures |r| == |s|
    decreases |fields|
  {
    if fields == [] then s
    else
      var last := fields[|fields| - 1];
      assert last in fields;
      Put(Filled(s, fields[..|fields| - 1]), last.at, last.bytes)
  }

  /** Every field is found at its place. */
  ghost predicate HoldsFields(s: seq<byte>, fields: seq<Field>) {
    Within(fields, |s|) && forall k | 0 <= k < |fields| :: HoldsField(s, fields[k])
  }

  ghost predicate HoldsField(s: seq<byte>, f: Field) {
    Past(f) <= |s| && s[f.at..Past(f)] == f.bytes
  }

  lemma Field16(s: seq<byte>, at: nat, v: u16)
    requires at + 2 <= |s|
    ensures HoldsField(s, Field(at, Le(v, 2))) <==> Read16(s, at) == v
  {
    Le16(v);
    FromLeRoundTrip(s[at..at + 2]);
  }

  lemma Field32(s: seq<byte>, at: nat, v: u32)
    requires at + 4 <= |s|
    ensures HoldsField(s, Field(at, Le(v, 4))) <==> Read32(s, at) == v
  {
    Le32(v);
    FromLeRoundTrip(s[at..at + 4]);
  }

  lemma Field64(s: seq<byte>, at: nat, v: u64)
    requires at + 8 <= |s|
    ensures HoldsField(s, Field(at, Le(v, 8))) <==> Read64(s, at) == v
  {
    Le64(v);
    FromLeRoundTrip(s[at..at + 8]);
  }

  lemma FilledNothing(s: seq<byte>)
    ensures Within([], |s|) && Filled(s, []) == s
  {}

  lemma FilledStep(s: seq<byte>, fields: seq<Field>, f: Field)
    requires Within(fields, |s|) && Past(f) <= |s|
    ensures Within(fields + [f], |s|)
    ensures Filled(s, fields + [f]) == Put(Filled(s, fields), f.at, f.bytes)
  {
    assert (fields + [f])[..|fields|] == fields;
  }

  /** The fields of a layout up to the `k`-th, and one more. */
  lemma FilledFrom(s: seq<byte>, fields: seq<Field>, n: nat, k: nat)
    requires Within(fields, n) && n <= |s| && k < |fields|
    ensures Within(fields[..k], |s|) && Within(fields[..k + 1], |s|) && Past(fields[k]) <= |s|
    ensures Filled(s, fields[..k + 1]) == Put(Filled(s, fields[..k]), fields[k].at, fields[k].bytes)
    ensures k + 1 == |fields| ==> fields[..k + 1] == fields
  {
    hide Filled, Put, Within;
    WithinPrefix(fields, n, |s|, k);
    WithinPrefix(fields, n, |s|, k + 1);
    FilledStep(s, fields[..k], fields[k]);
    PrefixGrows(fields, k);
  }

  lemma PrefixGrows(fields: seq<Field>, k: nat)
    requires k < |fields|
    ensures fields[..k] + [fields[k]] == fields[..k + 1]
    ensures k + 1 == |fields| ==> fields[..k + 1] == fields
  {}

  lemma WithinPrefix(fields: seq<Field>, n: nat, m: nat, k: nat)
    requires Within(fields, n) && n <= m && k <= |fields|
    ensures Within(fields[..k], m)
    ensures k < |fields| ==> Past(fields[k]) <= m
  {
    assert k < |fields| ==> fields[k] in fields;
    forall f | f in fields[..k]
      ensures f in fields
    {
      var i :| 0 <= i < k && fields[..k][i] == f;
      assert fields[i] == f;
    }
  }

  /** A range that no field touches keeps what was there. */
  lemma {:induction false} FilledElsewhere(s: seq<byte>, fields: seq<Field>, from: nat, to: nat)
    requires Within(fields, |s|) && from <= to <= |s|
    requires forall f | f in fields :: Past(f) <= from || to <= f.at
    ensures Filled(s, fields)[from..to] == s[from..to]
    decreases |fields|
  {
    if fields != [] {
      var init, last := fields[..|fields| - 1], fields[|fields| - 1];
      assert last in fields;
      FilledElsewhere(s, init, from, to);
      PutElsewhere(Filled(s, init), last.at, last.bytes, from, to);
    }
  }

  /** Every field of a disjoint layout reads back. */
  lemma {:induction false} FilledReads(s: seq<byte>, fields: seq<Field>, k: nat)
    requires Within(fields, |s|) && Disjoint(fields) && k < |fields|
    ensures fields[k] in fields
    ensures Filled(s, fields)[fields[k].at..Past(fields[k])] == fields[k].bytes
    decreases |fields|
  {
    var init, last := fields[..|fields| - 1], fields[|fields| - 1];
    assert last in fields;
    if k < |fields| - 1 {
      FilledReads(s, init, k);
      assert Apart(fields[k], fields[|fields| - 1]);
      PutElsewhere(Filled(s, init), last.at, last.bytes, fields[k].at, Past(fields[k]));
    }
  }

  /** Fields in ascending order do not overlap. */
  lemma Ascending(fields: seq<Field>)
    requires forall k | 0 <= k < |fields| - 1 :: Past(fields[k]) <= fields[k + 1].at
    ensures Disjoint(fields)
  {
    forall i, j | 0 <= i < j < |fields|
      ensures Past(fields[i]) <= fields[j].at
    {
      Before(fields, i, j);
    }
  }

  lemma {:induction false} Before(fields: seq<Field>, i: nat, j: nat)
    requires forall k | 0 <= k < |fields| - 1 :: Past(fields[k]) <= fields[k + 1].at
    requires i < j < |fields|
    ensures Past(fields[i]) <= fields[j].at
    decreases j
  {
    if i < j - 1 {
      Before(fields, i, j - 1);
      assert Past(fields[j - 1]) <= fields[j - 1 + 1].at;
    } else {
      assert Past(fields[i]) <= fields[i + 1].at;
    }
  }
}
