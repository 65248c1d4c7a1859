/** `parse_unsigned` and the `strto` functions over it. */
module Numerals {
  import opened Bytes

  const ULLONG_MAX := 0xffff_ffff_ffff_ffff
  const LLONG_MAX := 0x7fff_ffff_ffff_ffff
  const LLONG_MIN := -0x8000_0000_0000_0000
  const EINVAL := 22
  const ERANGE := 34

  /** A text as C sees it: a NUL follows the last byte. */
  function At(text: seq<byte>, i: nat): byte {
    if i < |text| then text[i] else 0
  }

  predicate IsSpace(c: byte) { c == 0x20 || 9 <= c <= 13 }

  /** `digit_value`: 36 for what is no digit in any base. */
  function DigitValue(c: byte): (d: nat)
    ensures d <= 36
  {
    if 0x30 <= c <= 0x39 then c - 0x30
    else if 0x61 <= c <= 0x7a then c - 0x61 + 10
    else if 0x41 <= c <= 0x5a then c - 0x41 + 10
    else 36
  }

  // ---------------------------------------------------------------- what a text says

  function SkipSpaces(text: seq<byte>, i: nat): (j: nat)
    requires i <= |text|
    ensures i <= j <= |text| && !IsSpace(At(text, j))
    ensures forall k :: i <= k < j ==> IsSpace(text[k])
    decreases |text| - i
  {
    if i < |text| && IsSpace(text[i]) then SkipSpaces(text, i + 1) else i
  }

  /** The end of the digits of `base` that start at `i`. */
  function DigitEnd(text: seq<byte>, i: nat, base: nat): (j: nat)
    requires i <= |text|
    ensures i <= j <= |text|
    ensures forall k :: i <= k < j ==> text[k] != 0 && DigitValue(text[k]) < base
    decreases |text| - i
  {
    if i < |text| && text[i] != 0 && DigitValue(text[i]) < base then DigitEnd(text, i + 1, base) else i
  }

  /** The number a run of digits stands for. */
  function NumberOf(ds: seq<byte>, base: nat): nat {
    if ds == [] then 0 else NumberOf(ds[..|ds| - 1], base) * base + DigitValue(ds[|ds| - 1])
  }

  datatype Numeral = Numeral(negative: bool, base: nat, start: nat, end: nat)

  /** A base prefix at `i`: whether the digits are hexadecimal after "0x". */
  predicate HexPrefix(text: seq<byte>, i: nat) {
    At(text, i) == 0x30 && (At(text, i + 1) == 0x78 || At(text, i + 1) == 0x58) && DigitValue(At(text, i + 2)) < 16
  }

  /** Sign, base and digits of the numeral a text starts with. */
  function Scan(text: seq<byte>, base: nat): (n: Numeral)
    ensures n.start <= n.end <= |text|
  {
    var s := SkipSpaces(text, 0);
    var signed := At(text, s) == 0x2d || At(text, s) == 0x2b;
    ScanDigits(text, if signed then s + 1 else s, base, At(text, s) == 0x2d)
  }

  function ScanDigits(text: seq<byte>, i: nat, base: nat, negative: bool): (n: Numeral)
    requires i <= |text|
    ensures n.start <= n.end <= |text|
  {
    if (base == 0 || base == 16) && HexPrefix(text, i) then Numeral(negative, 16, i + 2, DigitEnd(text, i + 2, 16))
    else
      var b := if base != 0 then base else if At(text, i) == 0x30 then 8 else 10;
      Numeral(negative, b, i, DigitEnd(text, i, b))
  }

  function Magnitude(text: seq<byte>, n: Numeral): nat
    requires n.start <= n.end <= |text|
  {
    NumberOf(text[n.start..n.end], n.base)
  }

  predicate BadBase(base: int) { base != 0 && (base < 2 || base > 36) }

  function Signed(negative: bool, magnitude: int): int {
    if negative then -magnitude else magnitude
  }

  /** The number the text starts with, whatever its size; 0 if it starts with none. */
  function Said(text: seq<byte>, base: nat): int {
    Signed(Scan(text, base).negative, Magnitude(text, Scan(text, base)))
  }

  // ---------------------------------------------------------------- parsing

  /** Digits up to a maximum: once it would be passed the value stays there. */
  lemma Clamps(value: nat, digit: nat, base: nat, maximum: nat)
    requires 2 <= base && digit < base <= maximum
    ensures value > (maximum - digit) / base <==> value * base + digit > maximum
  {
    var q := (maximum - digit) / base;
    assert base * q <= maximum - digit < base * (q + 1);
    if value > q {
      TimesMono(q + 1, value, base);
    } else {
      TimesMono(value, q, base);
    }
  }

  lemma TimesMono(a: nat, b: nat, base: nat)
    requires a <= b
    ensures base * a <= base * b
  {}

  lemma NumberGrows(ds: seq<byte>, d: byte, base: nat)
    ensures NumberOf(ds + [d], base) == NumberOf(ds, base) * base + DigitValue(d)
  {
    assert (ds + [d])[..|ds|] == ds;
  }

  lemma StaysOver(value: nat, digit: nat, base: nat, maximum: nat)
    requires value > maximum && base >= 1
    ensures value * base + digit > maximum
  {
    TimesMono(1, base, value);
  }

  /** The digit loop of `parse_unsigned`. */
  method ParseDigits(text: seq<byte>, start: nat, base: nat, maximum: nat)
    returns (value: nat, overflow: bool, end: nat)
    requires start <= |text| && 2 <= base <= 36 <= maximum
    ensures end == DigitEnd(text, start, base)
    ensures value == Min(NumberOf(text[start..end], base), maximum)
    ensures overflow <==> NumberOf(text[start..end], base) > maximum
  {
    value, overflow, end := 0, false, start;
    while At(text, end) != 0 && DigitValue(At(text, end)) < base
      invariant start <= end <= |text|
      invariant DigitEnd(text, start, base) == DigitEnd(text, end, base)
      invariant value == Min(NumberOf(text[start..end], base), maximum)
      invariant overflow <==> NumberOf(text[start..end], base) > maximum
      decreases |text| - end
    {
      hide NumberOf, DigitValue, DigitEnd;
      var digit := DigitValue(At(text, end));
      OneMoreDigit(text, start, end, base, value, overflow, maximum);
      if value > (maximum - digit) / base {
        value := maximum;
        overflow := true;
      } else if !overflow {
        value := value * base + digit;
      }
      end := end + 1;
    }
  }

  /** What another digit does to a value that stops at the maximum, and to whether it has stopped. */
  lemma OneMoreDigit(text: seq<byte>, start: nat, end: nat, base: nat, value: nat, overflow: bool, maximum: nat)
    requires start <= end < |text| && 2 <= base <= 36 <= maximum && text[end] != 0 && DigitValue(text[end]) < base
    requires value == Min(NumberOf(text[start..end], base), maximum)
    requires overflow <==> NumberOf(text[start..end], base) > maximum
    ensures DigitEnd(text, end, base) == DigitEnd(text, end + 1, base)
    ensures var digit, next := DigitValue(text[end]), NumberOf(text[start..end + 1], base);
      && 0 <= digit <= maximum && (overflow ==> value == maximum)
      && (next > maximum <==> overflow || value > (maximum - digit) / base)
      && (overflow ==> value > (maximum - digit) / base)
      && (next <= maximum ==> next == value * base + digit)
  {
    hide NumberOf, DigitValue;
    var digit := DigitValue(text[end]);
    assert text[start..end + 1] == text[start..end] + [text[end]];
    NumberGrows(text[start..end], text[end], base);
    Clamps(value, digit, base, maximum);
    if overflow {
      StaysOver(NumberOf(text[start..end], base), digit, base, maximum);
      StaysOver2(maximum, digit, base);
    }
  }

  /** The maximum itself is past the point where another digit fits. */
  lemma StaysOver2(maximum: nat, digit: nat, base: nat)
    requires 2 <= base && 1 <= maximum
    ensures maximum * base + digit > maximum
  {
    TimesMono(2, base, maximum);
  }

  /** Leading white space. */
  method SkipBlanks(text: seq<byte>) returns (i: nat)
    ensures i == SkipSpaces(text, 0)
  {
    i := 0;
    while IsSpace(At(text, i))
      invariant i <= |text| && SkipSpaces(text, 0) == SkipSpaces(text, i)
      decreases |text| - i
    {
      i := i + 1;
    }
  }

  datatype Parsed = Parsed(value: nat, negative: bool, end: nat, errno: int)

  /** `parse_unsigned`; `errno` is 0 when it is left alone. */
  method ParseUnsigned(text: seq<byte>, base: int, maximum: nat) returns (r: Parsed)
    requires maximum >= 36
    ensures !(base == 0 || 2 <= base <= 36) ==> r.value == 0 && r.end == 0 && r.errno == EINVAL
    ensures base == 0 || 2 <= base <= 36 ==>
      && var n := Scan(text, base);
      && r.value == Min(Magnitude(text, n), maximum) && r.negative == n.negative
      && r.end == (if n.start == n.end then 0 else n.end)
      && r.errno == if Magnitude(text, n) > maximum then ERANGE else 0
  {
    hide NumberOf, DigitValue, IsSpace, SkipSpaces, DigitEnd;
    var i := SkipBlanks(text);
    var negative := false;
    if At(text, i) == 0x2d || At(text, i) == 0x2b {
      negative := At(text, i) == 0x2d;
      i := i + 1;
    }
    if BadBase(base) {
      return Parsed(0, negative, 0, EINVAL);
    }
    var b: nat := base;
    if (base == 0 || base == 16) && HexPrefix(text, i) {
      i := i + 2;
      b := 16;
    } else if base == 0 {
      b := if At(text, i) == 0x30 then 8 else 10;
    }
    var value, overflow, end := ParseDigits(text, i, b, maximum);
    if end == i {
      NothingIsZero(text, i, b);
      return Parsed(0, negative, 0, 0);
    }
    return Parsed(value, negative, end, if overflow then ERANGE else 0);
  }

  lemma NothingIsZero(text: seq<byte>, i: nat, base: nat)
    requires i <= |text|
    ensures NumberOf(text[i..i], base) == 0
  {}

  /** `strtoll`: the number itself when it fits, the nearer limit and a range error when it does not. */
  method StrToLL(text: seq<byte>, base: int) returns (value: int, end: nat, errno: int)
    ensures LLONG_MIN <= value <= LLONG_MAX
    ensures !(base == 0 || 2 <= base <= 36) ==> value == 0 && end == 0 && errno == EINVAL
    ensures base == 0 || 2 <= base <= 36 ==>
      && value == (if Said(text, base) < LLONG_MIN then LLONG_MIN
                   else if Said(text, base) > LLONG_MAX then LLONG_MAX else Said(text, base))
      && errno == (if LLONG_MIN <= Said(text, base) <= LLONG_MAX then 0 else ERANGE)
      && end == if Scan(text, base).start == Scan(text, base).end then 0 else Scan(text, base).end
  {
    hide Scan, NumberOf;
    var limit := LLONG_MAX + 1;
    var p := ParseUnsigned(text, base, limit);
    if p.value > (if p.negative then limit else LLONG_MAX) {
      return if p.negative then LLONG_MIN else LLONG_MAX, p.end, ERANGE;
    }
    if p.negative {
      return if p.value == limit then LLONG_MIN else Signed(true, p.value), p.end, p.errno;
    }
    return p.value, p.end, p.errno;
  }

  /** `strtoull`: a minus sign negates modulo 2^64. */
  method StrToULL(text: seq<byte>, base: int) returns (value: u64, end: nat, errno: int)
    ensures !(base == 0 || 2 <= base <= 36) ==> value == 0 && end == 0 && errno == EINVAL
    ensures base == 0 || 2 <= base <= 36 ==>
      && var m := Magnitude(text, Scan(text, base));
      && value == (if Said(text, base) < 0 then (0x1_0000_0000_0000_0000 - Min(m, ULLONG_MAX)) else Min(m, ULLONG_MAX))
      && errno == (if m <= ULLONG_MAX then 0 else ERANGE)
      && end == if Scan(text, base).start == Scan(text, base).end then 0 else Scan(text, base).end
  {
    hide Scan, NumberOf;
    var p := ParseUnsigned(text, base, ULLONG_MAX);
    if p.negative {
      return (0x1_0000_0000_0000_0000 - p.value) % 0x1_0000_0000_0000_0000, p.end, p.errno;
    }
    return p.value, p.end, p.errno;
  }
}
