/** What an integer conversion prints, told without its parts: section 7.21.6.1 of ISO/IEC 9899:2011. */
module PrintField {
  import opened Bytes
  import opened Numerals
  import opened NumeralForm
  import opened Printf
  import opened PrintParse

  /** The same conversion without a width. */
  function Bare(s: Spec): Spec { s.(width := 0) }

  /** How many characters stand before the digits: a sign and a base prefix. */
  function HeadLength(s: Spec, value: int): nat {
    |StatedSign(s, value)| + |StatedPrefix(s, value)|
  }

  lemma NoShorter(s: Spec, value: int)
    ensures |Text(s, value)| >= ContentLength(s, value)
  {
    hide DigitsOf, Padding, DigitText, SignText, PrefixText, ZeroCount;
  }

  /** A width changes none of the parts but the padding. */
  lemma SameParts(s: Spec, value: int, digits: nat)
    ensures DigitText(Bare(s), value) == DigitText(s, value) && SignText(Bare(s), value) == SignText(s, value)
    ensures PrefixText(Bare(s), digits) == PrefixText(s, digits) && ZeroCount(Bare(s), digits) == ZeroCount(s, digits)
  {
    hide DigitsOf;
  }

  lemma SameContent(s: Spec, value: int)
    ensures ContentLength(Bare(s), value) == ContentLength(s, value)
  {
    hide DigitText, SignText, PrefixText, ZeroCount;
    SameParts(s, value, |DigitText(s, value)|);
  }

  lemma NoPadding(s: Spec, value: int)
    requires ContentLength(s, value) < INT_LIMIT
    ensures Before(Bare(s), value) == [] && Behind(Bare(s), value) == []
    ensures LeadingZeros(Bare(s), value) == ZeroCount(s, |DigitText(s, value)|)
  {
    hide DigitText, SignText, PrefixText, ZeroCount, ContentLength;
    SameContent(s, value);
    SameParts(s, value, |DigitText(s, value)|);
    assert Padding(Bare(s), ContentLength(s, value)) == 0;
  }

  lemma BareParts(s: Spec, value: int)
    requires |Text(Bare(s), value)| < INT_LIMIT
    ensures ContentLength(s, value) == |Text(Bare(s), value)|
    ensures Text(Bare(s), value) == SignText(s, value) + PrefixText(s, |DigitText(s, value)|)
      + (Repeat(ZERO, ZeroCount(s, |DigitText(s, value)|)) + DigitText(s, value))
  {
    hide DigitText, SignText, PrefixText, ZeroCount, Before, Behind, LeadingZeros;
    NoShorter(Bare(s), value);
    SameContent(s, value);
    NoPadding(s, value);
    SameParts(s, value, |DigitText(s, value)|);
    var t := SignText(s, value) + PrefixText(s, |DigitText(s, value)|)
      + (Repeat(ZERO, ZeroCount(s, |DigitText(s, value)|)) + DigitText(s, value));
    assert [] + SignText(s, value) == SignText(s, value) && t + [] == t;
  }

  function Fill(c: byte, n: nat): (r: seq<byte>)
    ensures |r| == n
  {
    seq(n, _ => c)
  }

  lemma HeadIs(s: Spec, value: int)
    ensures |SignText(s, value)| + |PrefixText(s, |DigitText(s, value)|)| == HeadLength(s, value)
  {
    hide SignText, PrefixText, DigitText, StatedSign, StatedPrefix;
    HeadStated(s, value);
  }

  lemma Filled(s: Spec, value: int, n: nat)
    requires SpecOk(s) && ContentLength(s, value) == n < INT_LIMIT
    ensures var fill := Max(0, s.width - n);
      && Before(s, value) == Fill(0x20, if !s.left && !(s.zero && s.precision < 0) then fill else 0)
      && Behind(s, value) == Fill(0x20, if s.left then fill else 0)
      && LeadingZeros(s, value)
         == ZeroCount(s, |DigitText(s, value)|) + if !s.left && s.zero && s.precision < 0 then fill else 0
  {
    hide DigitText, ContentLength;
    assert AsInt(n) == n;
    assert Padding(s, n) == Max(0, s.width - n);
  }

  lemma Spread(head: seq<byte>, zeros: nat, more: nat, digits: seq<byte>)
    ensures var t := head + (Repeat(ZERO, zeros) + digits);
      head + (Repeat(ZERO, zeros + more) + digits) == t[..|head|] + Fill(0x30, more) + t[|head|..]
  {
    assert Repeat(ZERO, zeros + more) == Fill(0x30, more) + Repeat(ZERO, zeros);
  }

  lemma TextSplit(s: Spec, value: int)
    ensures Text(s, value) ==
      Before(s, value)
      + (SignText(s, value) + PrefixText(s, |DigitText(s, value)|)
         + (Repeat(ZERO, LeadingZeros(s, value)) + DigitText(s, value)))
      + Behind(s, value)
  {
    hide DigitText, SignText, PrefixText, Before, Behind, LeadingZeros;
    var a, b, c := Before(s, value), SignText(s, value), PrefixText(s, |DigitText(s, value)|);
    assert a + b + c == a + (b + c);
  }

  lemma FillNone(t: seq<byte>)
    ensures Fill(0x20, 0) + t + Fill(0x20, 0) == t
    ensures forall n: nat :: Fill(0x20, 0) + t + Fill(0x20, n) == t + Fill(0x20, n)
    ensures forall n: nat :: Fill(0x20, n) + t + Fill(0x20, 0) == Fill(0x20, n) + t
  {
    forall n: nat
      ensures Fill(0x20, 0) + t + Fill(0x20, n) == t + Fill(0x20, n)
      ensures Fill(0x20, n) + t + Fill(0x20, 0) == Fill(0x20, n) + t
    {
      assert Fill(0x20, 0) == [];
    }
  }

  lemma FieldParts(s: Spec, value: int, t: seq<byte>, fill: nat)
    requires SpecOk(s) && t == Text(Bare(s), value) && |t| < INT_LIMIT && fill == Max(0, s.width - |t|)
    ensures HeadLength(s, value) <= |t|
    ensures Text(s, value) ==
      if s.left then Fill(0x20, 0) + t + Fill(0x20, fill)
      else if s.zero && s.precision < 0 then
        Fill(0x20, 0) + (t[..HeadLength(s, value)] + Fill(0x30, fill) + t[HeadLength(s, value)..]) + Fill(0x20, 0)
      else Fill(0x20, fill) + t + Fill(0x20, 0)
  {
    hide DigitText, SignText, PrefixText, ZeroCount, ContentLength, Padding, Before, Behind, LeadingZeros, HeadLength,
      Text, Fill;
    var zeros, digits := ZeroCount(s, |DigitText(s, value)|), DigitText(s, value);
    var head := SignText(s, value) + PrefixText(s, |digits|);
    BareParts(s, value);
    HeadIs(s, value);
    Filled(s, value, |t|);
    TextSplit(s, value);
    Spread(head, zeros, fill, digits);
  }

  /**
   * A width fills the text up where it is shorter: with blanks behind it under the left flag, with zeros between sign
   * or prefix and digits under the zero flag unless a precision is given, and with blanks before it otherwise.
   */
  lemma FieldIs(s: Spec, value: int)
    requires SpecOk(s) && |Text(Bare(s), value)| < INT_LIMIT
    ensures var t, f, h := Text(Bare(s), value), Text(s, value), HeadLength(s, value);
      && h <= |t| && |f| == Max(s.width, |t|)
      && (s.left ==> f == t + Fill(0x20, |f| - |t|))
      && (!s.left && s.zero && s.precision < 0 ==> f == t[..h] + Fill(0x30, |f| - |t|) + t[h..])
      && (!s.left && !(s.zero && s.precision < 0) ==> f == Fill(0x20, |f| - |t|) + t)
  {
    hide HeadLength, Text, Fill;
    var t, fill: nat, h := Text(Bare(s), value), Max(0, s.width - |Text(Bare(s), value)|), HeadLength(s, value);
    FieldParts(s, value, t, fill);
    FillNone(t);
    FillNone(t[..h] + Fill(0x30, fill) + t[h..]);
  }

  /** "0" to "9", and the letters of one case. */
  predicate InAlphabet(c: byte, upper: bool) {
    0x30 <= c <= 0x39 || (if upper then 0x41 <= c <= 0x46 else 0x61 <= c <= 0x66)
  }

  /** The shortest numeral of `v`: no leading zero, unless it is the whole of it. */
  ghost predicate Shortest(ds: seq<byte>, v: nat, base: nat, upper: bool) {
    && 2 <= base <= 16 && NumberOf(ds, base) == v && ds != [] && (|ds| > 1 ==> ds[0] != 0x30)
    && forall k | 0 <= k < |ds| :: IsDigit(ds[k], base) && InAlphabet(ds[k], upper)
  }

  lemma CharInAlphabet(d: nat, base: nat, upper: bool)
    requires d < base <= 16
    ensures var c := DigitChar(d, upper);
      InAlphabet(c, upper) && IsDigit(c, base) && (c == 0x30 <==> d == 0)
  {
    CharReads(d, base, upper);
    IsDigitIff(DigitChar(d, upper), base);
  }

  lemma {:induction false} DigitsShortest(v: nat, base: nat, upper: bool)
    requires 2 <= base <= 16
    ensures Shortest(DigitsOf(v, base, upper), v, base, upper)
    ensures v > 0 ==> DigitsOf(v, base, upper)[0] != 0x30
    decreases v
  {
    hide DigitChar, InAlphabet, IsDigit, NumberOf, Others, LastDigit, DigitsOf;
    DigitsStandFor(v, base, upper);
    DigitsUnfold(v, base, upper);
    CharInAlphabet(LastDigit(v, base), base, upper);
    var q := Others(v, base);
    if q > 0 {
      DigitsShortest(q, base, upper);
    }
  }

  /** `o` prints in octal, `x`, `X` and `p` in hexadecimal, `d`, `i` and `u` in decimal. */
  function StatedBase(c: Conversion): nat {
    match c
    case Octal => 8
    case HexLower | HexUpper | Pointer => 16
    case Decimal | Unsigned => 10
  }

  /** The digits a bare conversion ends with: the shortest numeral with zeros before it up to the precision, or none for
    * a zero with precision 0. */
  ghost predicate Digits(s: Spec, value: int, ds: seq<byte>) {
    if value == 0 && s.precision == 0 then ds == []
    else
      exists zeros: nat ::
        zeros < |ds| && |ds| == Max(s.precision, |ds| - zeros) && ds[..zeros] == Fill(0x30, zeros)
        && Shortest(ds[zeros..], if value < 0 then -value else value, StatedBase(s.conversion), s.conversion.HexUpper?)
  }

  /** A minus sign, or a plus sign or a blank where asked for. */
  function StatedSign(s: Spec, value: int): seq<byte> {
    if value < 0 then [0x2d] else if s.plus then [0x2b] else if s.space then [0x20] else []
  }

  /** "0x", "0X" or "0" in the alternate form of a number that has digits, and always "0x" for a pointer. */
  function StatedPrefix(s: Spec, value: int): seq<byte> {
    if s.conversion.Pointer? then [0x30, 0x78]
    else if !s.alternate || (value == 0 && s.precision == 0) then []
    else
      match s.conversion
      case HexLower => [0x30, 0x78]
      case HexUpper => [0x30, 0x58]
      case Octal => [0x30]
      case _ => []
  }

  /** Without a width: sign, prefix and digits. */
  lemma BareIs(s: Spec, value: int)
    requires |Text(Bare(s), value)| < INT_LIMIT
    ensures var t, h := Text(Bare(s), value), HeadLength(s, value);
      h <= |t| && t[..h] == StatedSign(s, value) + StatedPrefix(s, value) && Digits(s, value, t[h..])
  {
    hide DigitText, SignText, PrefixText, ContentLength, HeadLength, Text, Digits, StatedSign, StatedPrefix;
    BareParts(s, value);
    HeadIs(s, value);
    HeadStated(s, value);
    DigitsSay(s, value);
    var ds := DigitText(s, value);
    var head, body := SignText(s, value) + PrefixText(s, |ds|), Repeat(ZERO, ZeroCount(s, |ds|)) + ds;
    assert (head + body)[..|head|] == head && (head + body)[|head|..] == body;
  }

  lemma HeadStated(s: Spec, value: int)
    ensures SignText(s, value) == StatedSign(s, value)
    ensures PrefixText(s, |DigitText(s, value)|) == StatedPrefix(s, value)
  {
    hide DigitsOf;
  }

  lemma DigitsSay(s: Spec, value: int)
    ensures Digits(s, value, Repeat(ZERO, ZeroCount(s, |DigitText(s, value)|)) + DigitText(s, value))
  {
    hide DigitsOf, NumberOf, Shortest;
    var ds := DigitText(s, value);
    var zeros := ZeroCount(s, |ds|);
    var body := Repeat(ZERO, zeros) + ds;
    if value != 0 || s.precision != 0 {
      DigitsShortest(Magnitude64(value), BaseOf(s.conversion), s.conversion.HexUpper?);
      assert body[..zeros] == Fill(0x30, zeros) && body[zeros..] == ds;
    }
  }

  /** Sign, prefix, zeros and digits of 2^31 characters or more: the cast to `int` makes their length negative, and the
    * padding runs to the end of `size_t`. */
  lemma Overlong(s: Spec, value: int)
    requires SpecOk(s) && INT_LIMIT <= ContentLength(s, value) < 2 * INT_LIMIT
    ensures |Text(s, value)| > 0x8000_0000_0000_0000
  {
    hide DigitText, SignText, PrefixText, ZeroCount;
    var n := ContentLength(s, value);
    assert AsInt(n) + 0x1_0000_0000 == n;
    assert Padding(s, n) == s.width + 0x1_0000_0000_0000_0000 - n;
  }

  /** An input for that: a zero with the largest precision there is and a plus sign. */
  lemma OverlongInput()
    ensures var s := Spec(false, true, false, false, false, 0, 0x7fff_ffff, Decimal);
      SpecOk(s) && Printf.Fits(s, 0) && ContentLength(s, 0) == INT_LIMIT
  {
    assert |DigitsOf(0, 10, false)| == 1;
  }
}
