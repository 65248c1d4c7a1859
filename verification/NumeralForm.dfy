/** Which texts are numerals, told by their parts: section 7.22.1.4 of ISO/IEC 9899:2011. */
module NumeralForm {
  import opened Bytes
  import opened Numerals

  /** White space: blank, tab, newline, vertical tab, form feed, carriage return. */
  ghost predicate AllWhite(run: seq<byte>) {
    forall k | 0 <= k < |run| :: run[k] in {0x20, 0x09, 0x0a, 0x0b, 0x0c, 0x0d}
  }

  /** A digit stands for its place among "0" to "9", or for 10 more than its place in either alphabet. */
  predicate StandsFor(c: byte, d: nat) {
    if d < 10 then c == 0x30 + d else d < 36 && (c == 0x41 + (d - 10) || c == 0x61 + (d - 10))
  }

  lemma DigitIff(c: byte, d: nat)
    requires d < 36
    ensures DigitValue(c) == d <==> StandsFor(c, d)
  {}

  /** Digits in front of another one count as often again as the base says. */
  lemma NumberIs(ds: seq<byte>, c: byte, d: nat, base: nat)
    requires StandsFor(c, d)
    ensures NumberOf([], base) == 0 && NumberOf(ds + [c], base) == NumberOf(ds, base) * base + d
  {
    NumberGrows(ds, c, base);
  }

  ghost predicate IsDigit(c: byte, base: nat) {
    exists d: nat :: d < base && StandsFor(c, d)
  }

  lemma IsDigitIff(c: byte, base: nat)
    requires base <= 36
    ensures IsDigit(c, base) <==> DigitValue(c) < base
    ensures DigitValue(c) < 36 ==> c != 0 && c !in {0x20, 0x09, 0x0a, 0x0b, 0x0c, 0x0d, 0x2b, 0x2d}
  {
    if DigitValue(c) < base {
      DigitIff(c, DigitValue(c));
    }
    if d: nat :| d < base && StandsFor(c, d) {
      DigitIff(c, d);
    }
  }

  /** A numeral in parts: white space, a sign, a base prefix, digits, and what follows them. */
  datatype Parts = Parts(white: seq<byte>, sign: seq<byte>, prefix: seq<byte>, digits: seq<byte>, rest: seq<byte>)

  function Whole(p: Parts): seq<byte> {
    p.white + (p.sign + (p.prefix + (p.digits + p.rest)))
  }

  predicate IsSign(s: seq<byte>) { s == [] || s == [0x2b] || s == [0x2d] }

  predicate IsHexPrefix(s: seq<byte>) { s == [0x30, 0x78] || s == [0x30, 0x58] }

  /** The base the digits are in: the one given; without one, 16 after a prefix, 8 if they begin with "0", else 10. */
  ghost predicate BaseUsed(prefix: seq<byte>, tail: seq<byte>, base: nat, used: nat) {
    if base != 0 then used == base
    else if prefix != [] then used == 16
    else used == if tail != [] && tail[0] == 0x30 then 8 else 10
  }

  /** A prefix that the base allows and digits follow, or none where one could not be taken; then all the digits. */
  ghost predicate DigitsForm(prefix: seq<byte>, digits: seq<byte>, rest: seq<byte>, base: nat, used: nat) {
    && BaseUsed(prefix, digits + rest, base, used)
    && (prefix != [] ==> (base == 0 || base == 16) && IsHexPrefix(prefix) && digits != [])
    && (prefix == [] && (base == 0 || base == 16) ==> !Prefixed(digits + rest))
    && (forall k | 0 <= k < |digits| :: IsDigit(digits[k], used))
    && (rest != [] ==> !IsDigit(rest[0], used))
  }

  /** How `base` takes a text apart: as much white space as there is, a sign or none, then as many digits as there
    * are. */
  ghost predicate Form(p: Parts, base: nat, used: nat) {
    && AllWhite(p.white) && IsSign(p.sign)
    && DigitsForm(p.prefix, p.digits, p.rest, base, used)
    && (p.sign + (p.prefix + p.digits) == [] && p.rest != [] ==>
          p.rest[0] !in {0x20, 0x09, 0x0a, 0x0b, 0x0c, 0x0d, 0x2b, 0x2d})
  }

  /** A hexadecimal prefix with a digit behind it. */
  ghost predicate Prefixed(text: seq<byte>) {
    |text| > 2 && IsHexPrefix(text[..2]) && IsDigit(text[2], 16)
  }

  // ---------------------------------------------------------------- scanning such a text

  lemma {:induction false} SkipsWhite(white: seq<byte>, text: seq<byte>, k: nat)
    requires AllWhite(white) && k <= |white|
    ensures SkipSpaces(white + text, k) == |white| + SkipSpaces(text, 0)
    decreases |white| - k
  {
    if k < |white| {
      assert (white + text)[k] == white[k];
      SkipsWhite(white, text, k + 1);
    } else {
      SkipShift(white, text, 0);
    }
  }

  lemma {:induction false} SkipShift(run: seq<byte>, text: seq<byte>, i: nat)
    requires i <= |text|
    ensures SkipSpaces(run + text, |run| + i) == |run| + SkipSpaces(text, i)
    decreases |text| - i
  {
    if i < |text| && IsSpace(text[i]) {
      SkipShift(run, text, i + 1);
    }
  }

  lemma {:induction false} DigitEndShift(run: seq<byte>, text: seq<byte>, i: nat, base: nat)
    requires i <= |text|
    ensures DigitEnd(run + text, |run| + i, base) == |run| + DigitEnd(text, i, base)
    decreases |text| - i
  {
    hide DigitValue;
    if i < |text| && text[i] != 0 && DigitValue(text[i]) < base {
      DigitEndShift(run, text, i + 1, base);
    }
  }

  lemma AtShift(run: seq<byte>, text: seq<byte>, i: nat)
    ensures At(run + text, |run| + i) == At(text, i)
  {}

  function Moved(n: Numeral, k: nat): Numeral {
    n.(start := n.start + k, end := n.end + k)
  }

  lemma ScanDigitsShift(run: seq<byte>, text: seq<byte>, i: nat, base: nat, negative: bool)
    requires i <= |text|
    ensures ScanDigits(run + text, |run| + i, base, negative) == Moved(ScanDigits(text, i, base, negative), |run|)
  {
    hide DigitEnd, DigitValue;
    AtShift(run, text, i);
    AtShift(run, text, i + 1);
    AtShift(run, text, i + 2);
    assert HexPrefix(run + text, |run| + i) == HexPrefix(text, i);
    if HexPrefix(text, i) {
      DigitEndShift(run, text, i + 2, 16);
    }
    forall b: nat
      ensures DigitEnd(run + text, |run| + i, b) == |run| + DigitEnd(text, i, b)
    {
      DigitEndShift(run, text, i, b);
    }
  }

  /**
   * White space in front of a text, however much, moves the numeral and changes neither its sign, its base nor its
   * digits, so neither value nor error.
   */
  lemma WhiteIsSkipped(white: seq<byte>, text: seq<byte>, base: nat)
    requires AllWhite(white)
    ensures Scan(white + text, base) == Moved(Scan(text, base), |white|)
    ensures Magnitude(white + text, Scan(white + text, base)) == Magnitude(text, Scan(text, base))
    ensures Said(white + text, base) == Said(text, base)
  {
    hide ScanDigits, NumberOf;
    SkipsWhite(white, text, 0);
    var s := SkipSpaces(text, 0);
    AtShift(white, text, s);
    ScanDigitsShift(white, text, s, base, At(text, s) == 0x2d);
    if s < |text| {
      ScanDigitsShift(white, text, s + 1, base, At(text, s) == 0x2d);
    }
    var n := Scan(text, base);
    assert (white + text)[|white| + n.start..|white| + n.end] == text[n.start..n.end];
  }

  /** The same of `strtoll` and `strtoull`. */
  method ParseBehindWhite(white: seq<byte>, text: seq<byte>, base: int)
    returns (value: int, end: nat, errno: int, unsigned: u64, unsignedEnd: nat, unsignedErrno: int)
    requires AllWhite(white)
    ensures !(base == 0 || 2 <= base <= 36) ==> value == 0 == unsigned && errno == EINVAL == unsignedErrno
    ensures base == 0 || 2 <= base <= 36 ==>
      && var n, said := Scan(text, base), Said(text, base);
      && LLONG_MIN <= value <= LLONG_MAX && (LLONG_MIN <= said <= LLONG_MAX ==> value == said)
      && (errno == 0 <==> value == said) && (errno != 0 ==> errno == ERANGE)
      && (unsignedErrno == 0 <==> Magnitude(text, n) <= ULLONG_MAX) && (unsignedErrno != 0 ==> unsignedErrno == ERANGE)
      && (unsignedErrno == 0 ==> unsigned == said % 0x1_0000_0000_0000_0000)
      && end == unsignedEnd == if n.start < n.end then |white| + n.end else 0
  {
    hide Scan, NumberOf;
    if base == 0 || 2 <= base <= 36 {
      WhiteIsSkipped(white, text, base);
    }
    value, end, errno := StrToLL(white + text, base);
    unsigned, unsignedEnd, unsignedErrno := StrToULL(white + text, base);
  }

  lemma {:induction false} DigitRun(digits: seq<byte>, rest: seq<byte>, k: nat, base: nat)
    requires base <= 36 && k <= |digits|
    requires forall j | 0 <= j < |digits| :: IsDigit(digits[j], base)
    requires rest != [] ==> !IsDigit(rest[0], base)
    ensures DigitEnd(digits + rest, k, base) == |digits|
    decreases |digits| - k
  {
    hide DigitValue, IsDigit;
    if k < |digits| {
      assert (digits + rest)[k] == digits[k];
      IsDigitIff(digits[k], base);
      DigitRun(digits, rest, k + 1, base);
    } else if rest != [] {
      assert (digits + rest)[k] == rest[0];
      IsDigitIff(rest[0], base);
    }
  }

  lemma HexPrefixIff(text: seq<byte>)
    ensures HexPrefix(text, 0) <==> Prefixed(text)
  {
    hide DigitValue, IsDigit;
    if |text| > 2 {
      IsDigitIff(text[2], 16);
      assert text[..2] == [text[0], text[1]];
    } else {
      ZeroIsNoDigit();
    }
  }

  lemma ZeroIsNoDigit()
    ensures DigitValue(0) == 36
  {}

  lemma PrefixedScans(prefix: seq<byte>, digits: seq<byte>, rest: seq<byte>, base: nat, negative: bool)
    requires (base == 0 || base == 16) && IsHexPrefix(prefix) && digits != []
    requires DigitEnd(digits + rest, 0, 16) == |digits|
    requires IsDigit(digits[0], 16)
    ensures ScanDigits(prefix + (digits + rest), 0, base, negative) == Numeral(negative, 16, 2, 2 + |digits|)
  {
    hide DigitEnd, DigitValue, IsDigit;
    var text := prefix + (digits + rest);
    HexPrefixIff(text);
    assert text[..2] == prefix && text[2] == digits[0];
    DigitEndShift(prefix, digits + rest, 0, 16);
  }

  lemma PlainScans(tail: seq<byte>, base: nat, used: nat, end: nat, negative: bool)
    requires BaseUsed([], tail, base, used) && (base == 0 || base == 16 ==> !Prefixed(tail))
    requires DigitEnd(tail, 0, used) == end
    ensures ScanDigits(tail, 0, base, negative) == Numeral(negative, used, 0, end)
  {
    hide DigitEnd, DigitValue, Prefixed;
    HexPrefixIff(tail);
  }

  /** From the prefix on. */
  lemma ScansDigits(p: Parts, base: nat, used: nat, negative: bool)
    requires DigitsForm(p.prefix, p.digits, p.rest, base, used) && (base == 0 || 2 <= base <= 36)
    ensures ScanDigits(p.prefix + (p.digits + p.rest), 0, base, negative)
            == Numeral(negative, used, |p.prefix|, |p.prefix| + |p.digits|)
  {
    hide DigitEnd, IsDigit, ScanDigits, Prefixed;
    DigitRun(p.digits, p.rest, 0, used);
    if p.prefix != [] {
      PrefixedScans(p.prefix, p.digits, p.rest, base, negative);
    } else {
      assert p.prefix + (p.digits + p.rest) == p.digits + p.rest;
      PlainScans(p.digits + p.rest, base, used, |p.digits|, negative);
    }
  }

  lemma StartsPlain(p: Parts, base: nat, used: nat)
    requires Form(p, base, used) && (base == 0 || 2 <= base <= 36)
    ensures var text := p.prefix + (p.digits + p.rest);
      && (p.sign == [] ==> !IsSpace(At(text, 0)) && At(text, 0) != 0x2d && At(text, 0) != 0x2b)
  {
    hide IsDigit;
    var text := p.prefix + (p.digits + p.rest);
    if p.prefix != [] {
      assert text[0] == 0x30;
    } else if p.digits != [] {
      assert text[0] == p.digits[0];
      IsDigitIff(p.digits[0], used);
    } else if p.rest != [] {
      assert text[0] == p.rest[0];
      assert p.sign + (p.prefix + p.digits) == p.sign;
    }
  }

  lemma SignScanned(sign: seq<byte>, tail: seq<byte>, base: nat)
    requires IsSign(sign)
    requires sign == [] ==> !IsSpace(At(tail, 0)) && At(tail, 0) != 0x2d && At(tail, 0) != 0x2b
    ensures Scan(sign + tail, base) == Moved(ScanDigits(tail, 0, base, sign == [0x2d]), |sign|)
  {
    hide ScanDigits;
    ScanDigitsShift(sign, tail, 0, base, sign == [0x2d]);
    if sign == [] {
      assert sign + tail == tail;
    } else {
      assert (sign + tail)[0] == sign[0];
    }
  }

  lemma DigitsStand(p: Parts)
    ensures var start := |p.white| + |p.sign| + |p.prefix|;
      start + |p.digits| <= |Whole(p)| && Whole(p)[start..start + |p.digits|] == p.digits
  {
    var a := p.white + p.sign + p.prefix;
    assert Whole(p) == a + p.digits + p.rest;
  }

  lemma FormHasSign(p: Parts, base: nat, used: nat)
    requires Form(p, base, used)
    ensures AllWhite(p.white) && IsSign(p.sign) && DigitsForm(p.prefix, p.digits, p.rest, base, used)
  {}

  /** Every text of that form is scanned as its parts say. */
  lemma FormIsScanned(p: Parts, base: nat, used: nat)
    requires Form(p, base, used) && (base == 0 || 2 <= base <= 36)
    ensures var n := Scan(Whole(p), base);
      && n.negative == (p.sign == [0x2d]) && n.base == used
      && n.start == |p.white| + |p.sign| + |p.prefix| && n.end == n.start + |p.digits|
      && Whole(p)[n.start..n.end] == p.digits
  {
    hide Scan, ScanDigits, Form, NumberOf, DigitsForm, AllWhite;
    var tail := p.prefix + (p.digits + p.rest);
    FormHasSign(p, base, used);
    StartsPlain(p, base, used);
    ScansDigits(p, base, used, p.sign == [0x2d]);
    SignScanned(p.sign, tail, base);
    WhiteIsSkipped(p.white, p.sign + tail, base);
    DigitsStand(p);
  }

  /** What stands behind white space and a sign. */
  lemma TailHasForm(tail: seq<byte>, base: nat)
    requires base == 0 || 2 <= base <= 36
    ensures var n := ScanDigits(tail, 0, base, false);
      DigitsForm(tail[..n.start], tail[n.start..n.end], tail[n.end..], base, n.base)
  {
    hide IsDigit, DigitValue, DigitEnd, Prefixed;
    var n := ScanDigits(tail, 0, base, false);
    var prefix, digits, rest := tail[..n.start], tail[n.start..n.end], tail[n.end..];
    assert digits + rest == tail[n.start..];
    HexPrefixIff(tail);
    forall k | 0 <= k < |digits|
      ensures IsDigit(digits[k], n.base)
    {
      IsDigitIff(tail[n.start + k], n.base);
    }
    EndOfDigits(tail, n.start, n.base);
    if n.start > 0 {
      PrefixTaken(tail);
    } else {
      assert tail == digits + rest;
    }
  }

  lemma PrefixTaken(tail: seq<byte>)
    requires HexPrefix(tail, 0)
    ensures |tail| > 2 && IsHexPrefix(tail[..2]) && DigitEnd(tail, 2, 16) > 2
  {
    hide DigitValue;
    ZeroIsNoDigit();
    IsDigitIff(At(tail, 2), 16);
    assert tail[..2] == [tail[0], tail[1]];
    FirstDigitStays(tail, 2, 16);
  }

  lemma SkippedIsWhite(text: seq<byte>)
    ensures AllWhite(text[..SkipSpaces(text, 0)])
  {}

  lemma Recut(text: seq<byte>, i: nat, j: nat)
    requires i <= j <= |text|
    ensures text == text[..i] + (text[i..j] + text[j..])
  {}

  /** Where the sign begins and where it ends. */
  function SignAt(text: seq<byte>): (at: (nat, nat))
    ensures at.0 == SkipSpaces(text, 0) <= at.1 <= |text| && IsSign(text[at.0..at.1])
    ensures at.0 == at.1 < |text| ==> text[at.0] !in {0x20, 0x09, 0x0a, 0x0b, 0x0c, 0x0d, 0x2b, 0x2d}
  {
    var s := SkipSpaces(text, 0);
    (s, if At(text, s) == 0x2d || At(text, s) == 0x2b then s + 1 else s)
  }

  /** And every text is of that form. */
  lemma EveryTextHasForm(text: seq<byte>, base: nat) returns (p: Parts, used: nat)
    requires base == 0 || 2 <= base <= 36
    ensures Form(p, base, used) && Whole(p) == text
  {
    hide DigitsForm, ScanDigits, AllWhite, SignAt, SkipSpaces;
    var (s, at) := SignAt(text);
    var tail := text[at..];
    TailHasForm(tail, base);
    SkippedIsWhite(text);
    var n := ScanDigits(tail, 0, base, false);
    used := n.base;
    p := Parts(text[..s], text[s..at], tail[..n.start], tail[n.start..n.end], tail[n.end..]);
    Recut(tail, n.start, n.end);
    Recut(text, s, at);
    if p.sign + (p.prefix + p.digits) == [] && p.rest != [] {
      assert |p.sign| == 0 && |p.prefix| == 0 && |p.digits| == 0;
      assert p.rest[0] == text[s];
    }
  }

  lemma EndOfDigits(text: seq<byte>, i: nat, base: nat)
    requires i <= |text| && base <= 36
    ensures var e := DigitEnd(text, i, base); e < |text| ==> !IsDigit(text[e], base)
  {
    hide IsDigit, DigitValue;
    var e := DigitEnd(text, i, base);
    DigitEndStops(text, i, base);
    if e < |text| {
      IsDigitIff(text[e], base);
      ZeroIsNoDigit();
    }
  }

  lemma {:induction false} DigitEndStops(text: seq<byte>, i: nat, base: nat)
    requires i <= |text|
    ensures var e := DigitEnd(text, i, base); e < |text| ==> text[e] == 0 || DigitValue(text[e]) >= base
    decreases |text| - i
  {
    hide DigitValue;
    if i < |text| && text[i] != 0 && DigitValue(text[i]) < base {
      DigitEndStops(text, i + 1, base);
    }
  }

  lemma FirstDigitStays(text: seq<byte>, i: nat, base: nat)
    requires i < |text| && text[i] != 0 && DigitValue(text[i]) < base
    ensures DigitEnd(text, i, base) > i
  {}
}
