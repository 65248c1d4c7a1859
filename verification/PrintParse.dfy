/** What `printf` writes, `strtoll` and `strtoull` read back. */
module PrintParse {
  import opened Bytes
  import opened Numerals
  import opened Printf

  /** A character that can stand in a numeral of this base and nowhere before one. */
  predicate DigitOk(c: byte, base: nat) {
    c != 0 && DigitValue(c) < base && !IsSpace(c) && c != MINUS && c != PLUS
  }

  ghost predicate AllDigits(ds: seq<byte>, base: nat) {
    forall k | 0 <= k < |ds| :: DigitOk(ds[k], base)
  }

  lemma CharReads(d: nat, base: nat, upper: bool)
    requires d < base <= 16
    ensures DigitValue(DigitChar(d, upper)) == d && DigitOk(DigitChar(d, upper), base)
  {}

  /** A value is what its other digits stand for, moved up, with the last one behind. */
  lemma Recombines(v: nat, base: nat, ds: seq<byte>, upper: bool)
    requires 2 <= base <= 16 && NumberOf(ds, base) == Others(v, base)
    ensures var c := DigitChar(LastDigit(v, base), upper);
      NumberOf(ds + [c], base) == v && DigitOk(c, base)
  {
    hide DigitChar, DigitValue, DigitOk, Others, LastDigit, NumberOf;
    var c := DigitChar(LastDigit(v, base), upper);
    CharReads(LastDigit(v, base), base, upper);
    NumberGrows(ds, c, base);
    Commutes(Others(v, base), base);
  }

  lemma Commutes(a: nat, b: nat)
    ensures a * b == b * a
  {}

  lemma DigitsUnfold(v: nat, base: nat, upper: bool)
    requires 2 <= base <= 16
    ensures var q := Others(v, base);
      DigitsOf(v, base, upper) == (if q == 0 then [] else DigitsOf(q, base, upper)) + [DigitChar(LastDigit(v, base), upper)]
  {
    hide DigitChar, LastDigit, Others;
  }

  lemma MoreDigits(ds: seq<byte>, c: byte, base: nat)
    requires AllDigits(ds, base) && DigitOk(c, base)
    ensures AllDigits(ds + [c], base)
  {
    hide DigitOk;
  }

  /** The digits of a value stand for it. */
  lemma {:induction false} DigitsStandFor(v: nat, base: nat, upper: bool)
    requires 2 <= base <= 16
    ensures NumberOf(DigitsOf(v, base, upper), base) == v && AllDigits(DigitsOf(v, base, upper), base)
    decreases v
  {
    hide DigitChar, DigitValue, DigitOk, Others, LastDigit, AllDigits, DigitsOf;
    var q := Others(v, base);
    var ds := if q == 0 then [] else DigitsOf(q, base, upper);
    if q == 0 {
      NoDigits(base);
    } else {
      DigitsStandFor(q, base, upper);
    }
    Recombines(v, base, ds, upper);
    MoreDigits(ds, DigitChar(LastDigit(v, base), upper), base);
    DigitsUnfold(v, base, upper);
  }

  lemma NoDigits(base: nat)
    ensures AllDigits([], base) && NumberOf([], base) == 0
  {}

  lemma {:induction false} ZerosAddNothing(n: nat, ds: seq<byte>, base: nat)
    ensures NumberOf(Repeat(ZERO, n) + ds, base) == NumberOf(ds, base)
    decreases |ds|, n
  {
    var zs := Repeat(ZERO, n);
    if ds != [] {
      var m := |ds| - 1;
      assert (zs + ds)[..n + m] == zs + ds[..m];
      ZerosAddNothing(n, ds[..m], base);
    } else if n > 0 {
      assert zs + ds == Repeat(ZERO, n - 1) + [ZERO];
      assert Repeat(ZERO, n - 1) + [] == Repeat(ZERO, n - 1);
      ZerosAddNothing(n - 1, [], base);
      NumberGrows(Repeat(ZERO, n - 1), ZERO, base);
    }
  }

  lemma ZerosAreDigits(n: nat, ds: seq<byte>, base: nat)
    requires AllDigits(ds, base) && base >= 2
    ensures AllDigits(Repeat(ZERO, n) + ds, base)
  {}

  /** A run of digits followed by blanks ends where the blanks begin. */
  lemma {:induction false} RunEnds(text: seq<byte>, i: nat, ds: seq<byte>, k: nat, base: nat)
    requires i + |ds| <= |text| && text[i..i + |ds|] == ds && AllDigits(ds, base) && k <= |ds|
    requires i + |ds| < |text| ==> text[i + |ds|] == BLANK
    requires base <= 36
    ensures DigitEnd(text, i + k, base) == i + |ds|
    decreases |ds| - k
  {
    hide DigitValue;
    if k < |ds| {
      assert text[i + k] == text[i..i + |ds|][k];
      RunEnds(text, i, ds, k + 1, base);
    } else {
      BlankIsNoDigit();
    }
  }

  lemma BlankIsNoDigit()
    ensures DigitValue(BLANK) == 36
  {}

  lemma {:induction false} BlanksSkipped(text: seq<byte>, i: nat, n: nat)
    requires i + n <= |text| && (forall k | i <= k < i + n :: text[k] == BLANK)
    requires !IsSpace(At(text, i + n))
    ensures SkipSpaces(text, i) == i + n
    decreases n
  {
    if n > 0 {
      BlanksSkipped(text, i + 1, n - 1);
    }
  }

  /** Blanks, a sign or none, and then something that is neither: the scan gets to it. */
  lemma ScanReaches(before: nat, sign: seq<byte>, rest: seq<byte>, base: nat)
    requires sign == [] || sign == [MINUS] || sign == [PLUS] || sign == [BLANK]
    requires rest != [] && !IsSpace(rest[0]) && rest[0] != MINUS && rest[0] != PLUS
    ensures var text := Repeat(BLANK, before) + sign + rest;
      Scan(text, base) == ScanDigits(text, before + |sign|, base, sign == [MINUS])
  {
    hide ScanDigits;
    var text := Repeat(BLANK, before) + sign + rest;
    assert text[before + |sign|] == rest[0];
    if sign == [BLANK] {
      assert text[before] == BLANK;
      BlanksSkipped(text, 0, before + 1);
    } else {
      if sign != [] {
        assert text[before] == sign[0];
      }
      BlanksSkipped(text, 0, before);
    }
  }

  /** Nothing but blanks says zero. */
  lemma BlanksSayNothing(n: nat, base: nat)
    requires base == 0 || 2 <= base <= 36
    ensures Said(Repeat(BLANK, n), base) == 0
    ensures !Scan(Repeat(BLANK, n), base).negative && Magnitude(Repeat(BLANK, n), Scan(Repeat(BLANK, n), base)) == 0
  {
    var text := Repeat(BLANK, n);
    BlanksSkipped(text, 0, n);
    var m := Scan(text, base);
    assert m.start == m.end == n;
    assert text[n..n] == [];
  }

  /** The core of a formatted number: its digits behind their leading zeros. */
  function Core(s: Spec, value: int): seq<byte> {
    Repeat(ZERO, LeadingZeros(s, value)) + DigitText(s, value)
  }

  /** The parts of a formatted number. */
  lemma TextParts(s: Spec, value: int)
    ensures Text(s, value) == Repeat(BLANK, |Before(s, value)|) + SignText(s, value)
                              + (PrefixText(s, |DigitText(s, value)|) + Core(s, value) + Behind(s, value))
  {
    hide Padding, DigitsOf, LeadingZeros, ContentLength, SignText, PrefixText, Behind, DigitText;
    assert Before(s, value) == Repeat(BLANK, |Before(s, value)|);
    Regroup(Before(s, value), SignText(s, value), PrefixText(s, |DigitText(s, value)|), Core(s, value), Behind(s, value));
  }

  lemma Regroup(a: seq<byte>, b: seq<byte>, c: seq<byte>, d: seq<byte>, e: seq<byte>)
    ensures a + b + c + d + e == a + b + (c + d + e)
  {}

  /** The digits with their leading zeros are read as the magnitude. */
  lemma CoreReads(s: Spec, value: int, text: seq<byte>, i: nat, extra: nat)
    requires var core := Repeat(ZERO, extra) + DigitText(s, value);
      && i + |core| <= |text| && text[i..i + |core|] == core
      && (i + |core| < |text| ==> text[i + |core|] == BLANK)
    ensures var base := BaseOf(s.conversion);
      && DigitEnd(text, i, base) == i + extra + |DigitText(s, value)|
      && NumberOf(text[i..DigitEnd(text, i, base)], base) == Magnitude64(value)
  {
    hide DigitsOf, NumberOf;
    var base := BaseOf(s.conversion);
    var ds := DigitText(s, value);
    if ds != [] {
      DigitsStandFor(Magnitude64(value), base, s.conversion.HexUpper?);
    } else {
      NothingIsZero(text, 0, base);
      assert text[0..0] == [];
    }
    ZerosAreDigits(extra, ds, base);
    RunEnds(text, i, Repeat(ZERO, extra) + ds, 0, base);
    ZerosAddNothing(extra, ds, base);
  }

  /** What stands before the blanks that fill up a left-justified field. */
  lemma TailIsBlank(a: seq<byte>, core: seq<byte>, n: nat)
    ensures var text := a + core + Repeat(BLANK, n);
      && text[|a|..|a| + |core|] == core && (|a| + |core| < |text| ==> text[|a| + |core|] == BLANK)
  {}

  /** Where neither digits nor zeros are printed, blanks and perhaps a plus sign are all there is. */
  lemma NoDigitsSayZero(before: nat, sign: seq<byte>, behind: nat, base: nat)
    requires base == 0 || 2 <= base <= 36
    requires sign == [] || sign == [PLUS] || sign == [BLANK]
    ensures SaysZero(Repeat(BLANK, before) + sign + Repeat(BLANK, behind), base)
  {
    hide Magnitude, NumberOf;
    var text := Repeat(BLANK, before) + sign + Repeat(BLANK, behind);
    if sign == [PLUS] {
      var i := before + 1;
      assert text[before] == PLUS;
      BlanksSkipped(text, 0, before);
      assert At(text, i) == BLANK || At(text, i) == 0;
      BlankIsNoDigit();
      assert Scan(text, base).start == Scan(text, base).end == i;
      Empty(text, i, Scan(text, base).base);
    } else {
      var blanks := if sign == [] then before + behind else before + 1 + behind;
      assert text == Repeat(BLANK, blanks);
      BlanksSayNothing(blanks, base);
    }
  }

  ghost predicate SaysZero(text: seq<byte>, base: nat) {
    !Scan(text, base).negative && Magnitude(text, Scan(text, base)) == 0
  }

  lemma Empty(text: seq<byte>, i: nat, base: nat)
    requires i <= |text|
    ensures forall negative :: Magnitude(text, Numeral(negative, base, i, i)) == 0
  {
    assert text[i..i] == [];
  }

  /** A text without a core is one of a zero, and says zero. */
  lemma NoCore(s: Spec, value: int, base: nat)
    requires Core(s, value) == [] && (base == 0 || 2 <= base <= 36) && !s.conversion.Pointer?
    ensures value == 0 && SaysZero(Text(s, value), base)
  {
    hide Padding, DigitsOf, ContentLength, SaysZero, Before, Behind;
    AllBlank(s, value);
    TextParts(s, value);
    BehindIsBlank(s, value);
    NoDigitsSayZero(|Before(s, value)|, SignText(s, value), |Behind(s, value)|, base);
    assert [] + Core(s, value) + Behind(s, value) == Behind(s, value);
  }

  /** Where the core stands in the text, and that it is read there as the magnitude. */
  lemma CoreStands(s: Spec, value: int)
    requires Core(s, value) != []
    ensures var text, prefix := Text(s, value), PrefixText(s, |DigitText(s, value)|);
      var at := |Before(s, value)| + |SignText(s, value)| + |prefix|;
      var base := BaseOf(s.conversion);
      && at <= |text| && NumberOf(text[at..DigitEnd(text, at, base)], base) == Magnitude64(value)
  {
    hide Padding, DigitsOf, ContentLength, NumberOf, Before, Behind, DigitEnd, LeadingZeros, DigitText, SignText,
      PrefixText, BaseOf;
    var head := Before(s, value) + SignText(s, value) + PrefixText(s, |DigitText(s, value)|);
    BehindIsBlank(s, value);
    assert Text(s, value) == head + Core(s, value) + Behind(s, value);
    TailIsBlank(head, Core(s, value), |Behind(s, value)|);
    CoreReads(s, value, Text(s, value), |head|, LeadingZeros(s, value));
  }

  /** Printed in base ten, with any flags, width and precision, and parsed in base ten: the same number. */
  lemma DecimalRoundTrip(s: Spec, value: int)
    requires SpecOk(s) && Printf.Fits(s, value) && (s.conversion.Decimal? || s.conversion.Unsigned?)
    ensures Said(Text(s, value), 10) == value
  {
    hide Padding, DigitsOf, ContentLength, Scan, Magnitude, NumberOf, Before, Behind, Text, LeadingZeros, DigitText,
      Core, DigitEnd, ScanDigits, At, PrefixText;
    var text, before, sign := Text(s, value), |Before(s, value)|, SignText(s, value);
    if Core(s, value) == [] {
      NoCore(s, value, 10);
    } else {
      TextParts(s, value);
      RestBegins(s, value);
      NoPrefix(s, |DigitText(s, value)|);
      ScanReaches(before, sign, PrefixText(s, |DigitText(s, value)|) + Core(s, value) + Behind(s, value), 10);
      CoreStands(s, value);
      ScanSays(text, before + |sign|, 10, sign == [MINUS]);
    }
  }

  /** What follows the sign is no blank and no sign. */
  lemma RestBegins(s: Spec, value: int)
    requires Core(s, value) != []
    ensures var rest := PrefixText(s, |DigitText(s, value)|) + Core(s, value) + Behind(s, value);
      rest != [] && !IsSpace(rest[0]) && rest[0] != MINUS && rest[0] != PLUS
  {
    hide Padding, DigitsOf, ContentLength, LeadingZeros, DigitText, Behind;
    FirstDigit(s, value, LeadingZeros(s, value));
  }

  /** The characters from the prefix on: prefix, core, and then blanks or nothing. */
  lemma Around(head: seq<byte>, prefix: seq<byte>, core: seq<byte>, behind: nat)
    ensures var text := head + (prefix + core + Repeat(BLANK, behind));
      && (forall k | 0 <= k < |prefix| :: At(text, |head| + k) == prefix[k])
      && (forall k | 0 <= k < |core| :: At(text, |head| + |prefix| + k) == core[k])
      && (At(text, |head| + |prefix| + |core|) == BLANK || At(text, |head| + |prefix| + |core|) == 0)
  {}

  /** How the scan sees a text with the prefix of its base, or with none in a base that is given. */
  lemma PrefixScans(s: Spec, text: seq<byte>, i: nat, prefix: seq<byte>, core: seq<byte>, base: nat)
    requires base == BaseOf(s.conversion) || (base == 0 && s.alternate)
    requires !s.conversion.Decimal? && !s.conversion.Unsigned? && !s.conversion.Pointer?
    requires core != [] && AllDigits(core, BaseOf(s.conversion))
    requires prefix == PrefixText(s, |core|) && i + |prefix| + |core| <= |text|
    requires forall k | 0 <= k < |prefix| :: At(text, i + k) == prefix[k]
    requires forall k | 0 <= k < |core| :: At(text, i + |prefix| + k) == core[k]
    requires At(text, i + |prefix| + |core|) == BLANK || At(text, i + |prefix| + |core|) == 0
    ensures var b := BaseOf(s.conversion);
      var start := if b == 16 then i + |prefix| else i;
      ScanDigits(text, i, base, false) == Numeral(false, b, start, DigitEnd(text, start, b))
  {
    hide DigitEnd;
    assert At(text, i + |prefix|) == core[0];
    if prefix == [] {
      assert !HexPrefix(text, i) by {
        assert |core| > 1 ==> At(text, i + 0 + 1) == core[1];
      }
    } else {
      assert At(text, i + 0) == prefix[0];
      assert |prefix| == 2 ==> At(text, i + 1) == prefix[1];
    }
  }

  /** A zero in front of octal digits is one more of them. */
  lemma ZeroInFront(text: seq<byte>, i: nat)
    requires i + 1 <= |text| && text[i] == ZERO
    ensures DigitEnd(text, i, 8) == DigitEnd(text, i + 1, 8)
    ensures NumberOf(text[i..DigitEnd(text, i, 8)], 8) == NumberOf(text[i + 1..DigitEnd(text, i + 1, 8)], 8)
  {
    hide NumberOf;
    var e := DigitEnd(text, i + 1, 8);
    assert text[i..e] == Repeat(ZERO, 1) + text[i + 1..e];
    ZerosAddNothing(1, text[i + 1..e], 8);
  }

  lemma CoreIsDigits(s: Spec, value: int)
    ensures AllDigits(Core(s, value), BaseOf(s.conversion))
  {
    hide DigitsOf, LeadingZeros, NumberOf;
    if DigitText(s, value) != [] {
      DigitsStandFor(Magnitude64(value), BaseOf(s.conversion), s.conversion.HexUpper?);
    }
    ZerosAreDigits(LeadingZeros(s, value), DigitText(s, value), BaseOf(s.conversion));
  }

  /** The prefix depends on whether there are digits, and there are where the core has anything but padding. */
  lemma PrefixOfCore(s: Spec, value: int)
    requires !s.conversion.Pointer? && Core(s, value) != []
    ensures PrefixText(s, |DigitText(s, value)|) == PrefixText(s, |Core(s, value)|)
  {
    hide DigitsOf, Padding, ContentLength;
    if DigitText(s, value) == [] {
      assert false;
    }
  }

  /**
   * Printed in octal or hexadecimal with any flags, width and precision, and parsed in the same base - or, if the
   * alternate form was asked for, in whatever base the text shows - the same number.
   */
  lemma PrefixedRoundTrip(s: Spec, value: int, base: nat)
    requires SpecOk(s) && Printf.Fits(s, value)
    requires s.conversion.Octal? || s.conversion.HexLower? || s.conversion.HexUpper?
    requires base == BaseOf(s.conversion) || (base == 0 && s.alternate)
    ensures !Scan(Text(s, value), base).negative
    ensures Magnitude(Text(s, value), Scan(Text(s, value), base)) == value
  {
    hide Padding, DigitsOf, ContentLength, Scan, NumberOf, Before, Behind, Text, LeadingZeros, DigitText, Core,
      PrefixText, DigitEnd, ScanDigits, AllDigits, At;
    var text, sign, core := Text(s, value), SignText(s, value), Core(s, value);
    var prefix := PrefixText(s, |DigitText(s, value)|);
    var i := |Before(s, value)| + |sign|;
    if core == [] {
      NoCore(s, value, base);
    } else {
      TextParts(s, value);
      RestBegins(s, value);
      ScanReaches(|Before(s, value)|, sign, prefix + core + Behind(s, value), base);
      BehindIsBlank(s, value);
      var head := Repeat(BLANK, |Before(s, value)|) + sign;
      Around(head, prefix, core, |Behind(s, value)|);
      CoreIsDigits(s, value);
      PrefixOfCore(s, value);
      PrefixScans(s, text, i, prefix, core, base);
      CoreStands(s, value);
      if s.conversion.Octal? && prefix != [] {
        OctalPrefix(s, |core|);
        ZeroStands(text, i, prefix);
        ZeroInFront(text, i);
      } else if s.conversion.Octal? {
        assert i + |prefix| == i;
      }
    }
  }

  lemma OctalPrefix(s: Spec, digits: nat)
    requires s.conversion.Octal?
    ensures PrefixText(s, digits) == [] || PrefixText(s, digits) == [ZERO]
  {}

  lemma ZeroStands(text: seq<byte>, i: nat, prefix: seq<byte>)
    requires prefix == [ZERO] && i < |text|
    requires forall k | 0 <= k < |prefix| :: At(text, i + k) == prefix[k]
    ensures text[i] == ZERO
  {
    assert At(text, i + 0) == prefix[0];
  }

  lemma NoPrefix(s: Spec, digits: nat)
    requires s.conversion.Decimal? || s.conversion.Unsigned?
    ensures PrefixText(s, digits) == []
  {}

  lemma BehindIsBlank(s: Spec, value: int)
    ensures Behind(s, value) == Repeat(BLANK, |Behind(s, value)|)
  {}

  /** Where no base prefix stands, the numeral is the digits from there. */
  lemma ScanSays(text: seq<byte>, i: nat, base: nat, negative: bool)
    requires i <= |text| && 2 <= base <= 36 && base != 16
    requires Scan(text, base) == ScanDigits(text, i, base, negative)
    ensures Said(text, base) == Signed(negative, NumberOf(text[i..DigitEnd(text, i, base)], base))
  {}

  /** The core begins with a digit. */
  lemma FirstDigit(s: Spec, value: int, extra: nat)
    requires Repeat(ZERO, extra) + DigitText(s, value) != []
    ensures var c := (Repeat(ZERO, extra) + DigitText(s, value))[0];
      DigitOk(c, BaseOf(s.conversion)) && !IsSpace(c) && c != MINUS && c != PLUS
  {
    hide DigitsOf, NumberOf;
    if DigitText(s, value) != [] {
      DigitsStandFor(Magnitude64(value), BaseOf(s.conversion), s.conversion.HexUpper?);
    }
  }

  /** Without digits the field is blank, but for a plus sign that says nothing either. */
  lemma AllBlank(s: Spec, value: int)
    requires Repeat(ZERO, LeadingZeros(s, value)) + DigitText(s, value) == []
    ensures value == 0 && s.precision == 0
  {}
}
