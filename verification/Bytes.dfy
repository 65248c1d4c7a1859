/** Bytes, sectors and the little-endian fields every on-disk record is made of. */
module Bytes {
  type byte = x: int | 0 <= x < 256
  type u16 = x: int | 0 <= x < 0x1_0000
  type u32 = x: int | 0 <= x < 0x1_0000_0000
  type u64 = x: int | 0 <= x < 0x1_0000_0000_0000_0000

  const SECTOR_SIZE := 512

  type Sector = s: seq<byte> | |s| == 512 witness seq(512, _ => 0)

  const ZERO_SECTOR: Sector := Zeros(512)

  datatype Result<+T, +E> = Ok(value: T) | Err(error: E) {
    predicate IsFailure() {
      Err?
    }

    function PropagateFailure<U>(): Result<U, E>
      requires Err?
    {
      Err(error)
    }

    function Extract(): T
      requires Ok?
    {
      value
    }
  }

  datatype Option<+T> = None | Some(value: T)

  function Min(a: int, b: int): int { if a < b then a else b }

  function Max(a: int, b: int): int { if a < b then b else a }

  function Pow256(k: nat): nat {
    if k == 0 then 1 else 256 * Pow256(k - 1)
  }

  /** `v.to_le_bytes()` for a `k`-byte integer. */
  function Le(v: nat, k: nat): (b: seq<byte>)
    ensures |b| == k
  {
    if k == 0 then [] else [v % 256] + Le(v / 256, k - 1)
  }

  function FromLe(b: seq<byte>): nat {
    if b == [] then 0 else b[0] + 256 * FromLe(b[1..])
  }

  lemma {:induction false} LeRoundTrip(v: nat, k: nat)
    requires v < Pow256(k)
    ensures FromLe(Le(v, k)) == v
  {
    if k > 0 {
      LeRoundTrip(v / 256, k - 1);
      assert Le(v, k)[1..] == Le(v / 256, k - 1);
    }
  }

  lemma {:induction false} FromLeRoundTrip(b: seq<byte>)
    ensures FromLe(b) < Pow256(|b|)
    ensures Le(FromLe(b), |b|) == b
  {
    if b != [] {
      FromLeRoundTrip(b[1..]);
      assert b == [b[0]] + b[1..];
    }
  }

  lemma Widths()
    ensures Pow256(1) == 0x100
    ensures Pow256(2) == 0x1_0000
    ensures Pow256(4) == 0x1_0000_0000
    ensures Pow256(8) == 0x1_0000_0000_0000_0000
  {
    assert Pow256(2) == 256 * Pow256(1);
    assert Pow256(3) == 256 * Pow256(2);
    assert Pow256(4) == 256 * Pow256(3);
    assert Pow256(5) == 256 * Pow256(4);
    assert Pow256(6) == 256 * Pow256(5);
    assert Pow256(7) == 256 * Pow256(6);
  }

  lemma Le16(v: u16)
    ensures FromLe(Le(v, 2)) == v
  {
    Widths();
    LeRoundTrip(v, 2);
  }

  lemma Le32(v: u32)
    ensures FromLe(Le(v, 4)) == v
  {
    Widths();
    LeRoundTrip(v, 4);
  }

  lemma Le64(v: u64)
    ensures FromLe(Le(v, 8)) == v
  {
    Widths();
    LeRoundTrip(v, 8);
  }

  function Place(b: seq<byte>, i: nat, weight: nat): int
    requires i < |b|
  {
    b[i] * weight
  }

  /** The first byte counts 1, each further one 256 times as much as the one before. */
  lemma FromLeIs(b: seq<byte>)
    ensures |b| == 2 ==> FromLe(b) == Place(b, 0, 1) + Place(b, 1, 0x100)
    ensures |b| == 4 ==>
      FromLe(b) == Place(b, 0, 1) + Place(b, 1, 0x100) + Place(b, 2, 0x1_0000) + Place(b, 3, 0x100_0000)
    ensures |b| == 8 ==>
      FromLe(b) == Place(b, 0, 1) + Place(b, 1, 0x100) + Place(b, 2, 0x1_0000) + Place(b, 3, 0x100_0000)
        + Place(b, 4, 0x1_0000_0000) + Place(b, 5, 0x100_0000_0000) + Place(b, 6, 0x1_0000_0000_0000)
        + Place(b, 7, 0x100_0000_0000_0000)
  {
    if |b| >= 2 {
      assert FromLe(b[1..]) == b[1] + 0x100 * FromLe(b[1..][1..]);
      assert b[1..][1..] == b[2..];
    }
    if |b| == 4 {
      FromLeIs(b[2..]);
    }
    if |b| == 8 {
      assert FromLe(b[2..]) == b[2] + 0x100 * FromLe(b[3..]) && FromLe(b[3..]) == b[3] + 0x100 * FromLe(b[4..]) by {
        assert b[2..][1..] == b[3..] && b[3..][1..] == b[4..];
      }
      FromLeIs(b[4..]);
    }
  }

  function Read32(s: seq<byte>, at: nat): (v: u32)
    requires at + 4 <= |s|
  {
    Widths();
    FromLeRoundTrip(s[at..at + 4]);
    FromLe(s[at..at + 4])
  }

  function Read64(s: seq<byte>, at: nat): (v: u64)
    requires at + 8 <= |s|
  {
    Widths();
    FromLeRoundTrip(s[at..at + 8]);
    FromLe(s[at..at + 8])
  }

  function Read16(s: seq<byte>, at: nat): (v: u16)
    requires at + 2 <= |s|
  {
    Widths();
    FromLeRoundTrip(s[at..at + 2]);
    FromLe(s[at..at + 2])
  }

  /** `s[at..at + b.len()].copy_from_slice(b)`. */
  function Put(s: seq<byte>, at: nat, b: seq<byte>): (r: seq<byte>)
    requires at + |b| <= |s|
    ensures |r| == |s|
    ensures r[at..at + |b|] == b
  {
    s[..at] + b + s[at + |b|..]
  }

  lemma PutAt(s: seq<byte>, at: nat, b: seq<byte>, j: nat)
    requires at + |b| <= |s| && j < |s|
    ensures Put(s, at, b)[j] == if at <= j < at + |b| then b[j - at] else s[j]
  {}

  /** A field written elsewhere leaves `s[from..to]` alone. */
  lemma PutElsewhere(s: seq<byte>, at: nat, b: seq<byte>, from: nat, to: nat)
    requires at + |b| <= |s|
    requires from <= to <= |s|
    requires to <= at || at + |b| <= from
    ensures Put(s, at, b)[from..to] == s[from..to]
  {
    var r := Put(s, at, b);
    assert forall i | from <= i < to :: r[i] == s[i];
  }

  /** Concatenations of parts of equal lengths are equal exactly when the parts are. */
  lemma ThreeParts(a: seq<byte>, b: seq<byte>, c: seq<byte>, x: seq<byte>, y: seq<byte>, z: seq<byte>)
    requires |a| == |x| && |b| == |y| && |c| == |z|
    ensures a + b + c == x + y + z <==> a == x && b == y && c == z
  {
    if a + b + c == x + y + z {
      assert a == (a + b + c)[..|a|] == (x + y + z)[..|a|] == x;
      assert b == (a + b + c)[|a|..|a| + |b|] == (x + y + z)[|a|..|a| + |b|] == y;
      assert c == (a + b + c)[|a| + |b|..] == (x + y + z)[|a| + |b|..] == z;
    }
  }

  lemma SubSlice(s: seq<byte>, at: nat, n: nat, lo: nat, hi: nat)
    requires at + n <= |s| && lo <= hi <= n
    ensures s[at..at + n][lo..hi] == s[at + lo..at + hi]
  {
    var a, b := s[at..at + n][lo..hi], s[at + lo..at + hi];
    assert forall i | 0 <= i < |a| :: a[i] == b[i];
  }

  function Zeros(n: nat): (s: seq<byte>)
    ensures |s| == n
    ensures forall i :: 0 <= i < n ==> s[i] == 0
  {
    seq(n, _ => 0)
  }
}
