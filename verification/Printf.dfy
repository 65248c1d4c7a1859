/** The integer conversions of `format_write`. */
module Printf {
  import opened Bytes
  import opened Numerals

  const USIZE_MAX := 0xffff_ffff_ffff_ffff
  const INT_LIMIT := 0x8000_0000
  const BLANK: byte := 0x20
  const ZERO: byte := 0x30
  const MINUS: byte := 0x2d
  const PLUS: byte := 0x2b

  datatype Conversion = Decimal | Unsigned | Octal | HexLower | HexUpper | Pointer

  /** A parsed conversion: flags, width, precision (-1 for none). */
  datatype Spec = Spec(
    left: bool, plus: bool, space: bool, alternate: bool, zero: bool, width: nat, precision: int, conversion: Conversion)

  predicate SpecOk(s: Spec) {
    s.width < INT_LIMIT && -1 <= s.precision < INT_LIMIT
  }

  /** The values that may be given to a conversion. */
  predicate Fits(s: Spec, value: int) {
    if s.conversion.Decimal? then LLONG_MIN <= value <= LLONG_MAX else 0 <= value <= ULLONG_MAX
  }

  function BaseOf(c: Conversion): (b: nat)
    ensures b == 8 || b == 10 || b == 16
  {
    if c.Octal? then 8 else if c.HexLower? || c.HexUpper? || c.Pointer? then 16 else 10
  }

  /** `alphabet[d]`. */
  function DigitChar(d: nat, upper: bool): byte
    requires d < 16
  {
    if d < 10 then 0x30 + d else if upper then 0x41 + (d - 10) else 0x61 + (d - 10)
  }

  /** The lowest digit of a value, and what is left without it. */
  function LastDigit(v: nat, base: nat): (d: nat)
    requires 2 <= base <= 16
    ensures d < base
  {
    v % base
  }

  function Others(v: nat, base: nat): (q: nat)
    requires 2 <= base <= 16
    ensures v == base * q + LastDigit(v, base) && 2 * q <= v
  {
    var q := v / base;
    TimesMono(2, base, q);
    q
  }

  /** Most significant digit first. */
  function DigitsOf(v: nat, base: nat, upper: bool): (ds: seq<byte>)
    requires 2 <= base <= 16
    ensures |ds| > 0
    decreases v
  {
    var q := Others(v, base);
    if q == 0 then [DigitChar(LastDigit(v, base), upper)]
    else DigitsOf(q, base, upper) + [DigitChar(LastDigit(v, base), upper)]
  }

  function Repeat(c: byte, n: nat): (r: seq<byte>)
    ensures |r| == n
  {
    seq(n, _ => c)
  }

  // ---------------------------------------------------------------- the text

  function Magnitude64(value: int): nat { if value < 0 then -value else value }

  function DigitText(s: Spec, value: int): seq<byte> {
    if value != 0 || s.precision != 0
    then DigitsOf(Magnitude64(value), BaseOf(s.conversion), s.conversion.HexUpper?)
    else []
  }

  function SignText(s: Spec, value: int): seq<byte> {
    if value < 0 then [MINUS] else if s.plus then [PLUS] else if s.space then [BLANK] else []
  }

  /** `0x` or `0` in the alternate form; a pointer always has `0x`. */
  function PrefixText(s: Spec, digits: nat): seq<byte> {
    if s.conversion.Pointer? || (s.alternate && digits > 0 && BaseOf(s.conversion) != 10) then
      if BaseOf(s.conversion) == 16 then [ZERO, if s.conversion.HexUpper? then 0x58 else 0x78] else [ZERO]
    else []
  }

  function ZeroCount(s: Spec, digits: nat): nat {
    if s.precision > digits then s.precision - digits else 0
  }

  /** What the cast of a length to `int` gives, and what is padded to reach the width. */
  function AsInt(n: nat): int { if n % 0x1_0000_0000 < INT_LIMIT then n % 0x1_0000_0000 else n % 0x1_0000_0000 - 0x1_0000_0000 }

  function Padding(s: Spec, content: nat): nat {
    if s.width > AsInt(content) then (s.width - content) % 0x1_0000_0000_0000_0000 else 0
  }

  function ContentLength(s: Spec, value: int): nat {
    var n := |DigitText(s, value)|;
    n + ZeroCount(s, n) + |PrefixText(s, n)| + |SignText(s, value)|
  }

  /** Whether the padding is zeros behind the sign and prefix. */
  predicate PadsZeros(s: Spec) { s.zero && s.precision < 0 }

  function Before(s: Spec, value: int): seq<byte> {
    Repeat(BLANK, if !s.left && !PadsZeros(s) then Padding(s, ContentLength(s, value)) else 0)
  }

  function Behind(s: Spec, value: int): seq<byte> {
    Repeat(BLANK, if s.left then Padding(s, ContentLength(s, value)) else 0)
  }

  function LeadingZeros(s: Spec, value: int): nat {
    (if !s.left && PadsZeros(s) then Padding(s, ContentLength(s, value)) else 0) + ZeroCount(s, |DigitText(s, value)|)
  }

  /** All the characters a conversion produces. */
  function Text(s: Spec, value: int): seq<byte> {
    Before(s, value) + SignText(s, value) + PrefixText(s, |DigitText(s, value)|)
    + (Repeat(ZERO, LeadingZeros(s, value)) + DigitText(s, value)) + Behind(s, value)
  }

  // ---------------------------------------------------------------- emitting

  /** The buffer holds `text` cut to one less than the capacity; the rest of it is untouched. */
  ghost predicate Holds(now: seq<byte>, before: seq<byte>, capacity: nat, text: seq<byte>) {
    && |now| == |before| && capacity <= |now|
    && forall k | 0 <= k < |now| :: now[k] == if k < |text| && k + 1 < capacity then text[k] else before[k]
  }

  /** The running count saturates. */
  predicate Counts(used: nat, text: seq<byte>) { used == Min(|text|, USIZE_MAX) }

  /** One character, if there is room for it and a terminator behind it. */
  method EmitChar(buffer: array<byte>, used: nat, capacity: nat, value: byte, ghost before: seq<byte>, ghost text: seq<byte>)
    returns (used': nat)
    requires Holds(buffer[..], before, capacity, text) && Counts(used, text) && capacity <= USIZE_MAX
    modifies buffer
    ensures Holds(buffer[..], before, capacity, text + [value]) && Counts(used', text + [value])
  {
    if capacity != 0 && used < capacity - 1 {
      buffer[used] := value;
    }
    used' := if used < USIZE_MAX then used + 1 else used;
  }

  /** `emit_repeat`. */
  method EmitRepeat(buffer: array<byte>, used: nat, capacity: nat, value: byte, count: nat,
                    ghost before: seq<byte>, ghost text: seq<byte>) returns (used': nat)
    requires Holds(buffer[..], before, capacity, text) && Counts(used, text) && capacity <= USIZE_MAX
    modifies buffer
    ensures Holds(buffer[..], before, capacity, text + Repeat(value, count)) && Counts(used', text + Repeat(value, count))
  {
    hide Holds, Counts;
    used' := used;
    var left := count;
    assert text + Repeat(value, 0) == text;
    while left > 0
      invariant 0 <= left <= count
      invariant Holds(buffer[..], before, capacity, text + Repeat(value, count - left))
      invariant Counts(used', text + Repeat(value, count - left))
    {
      left := left - 1;
      used' := EmitChar(buffer, used', capacity, value, before, text + Repeat(value, count - left - 1));
      assert text + Repeat(value, count - left - 1) + [value] == text + Repeat(value, count - left);
    }
  }

  /** `emit_bytes`. */
  method EmitBytes(buffer: array<byte>, used: nat, capacity: nat, bytes: seq<byte>,
                   ghost before: seq<byte>, ghost text: seq<byte>) returns (used': nat)
    requires Holds(buffer[..], before, capacity, text) && Counts(used, text) && capacity <= USIZE_MAX
    modifies buffer
    ensures Holds(buffer[..], before, capacity, text + bytes) && Counts(used', text + bytes)
  {
    hide Holds, Counts;
    used' := used;
    assert text + bytes[..0] == text;
    for k := 0 to |bytes|
      invariant Holds(buffer[..], before, capacity, text + bytes[..k]) && Counts(used', text + bytes[..k])
    {
      used' := EmitChar(buffer, used', capacity, bytes[k], before, text + bytes[..k]);
      assert text + bytes[..k] + [bytes[k]] == text + bytes[..k + 1];
    }
    assert bytes[..|bytes|] == bytes;
  }

  // ---------------------------------------------------------------- digits

  function Power2(n: nat): (p: nat)
    ensures p > 0
  {
    if n == 0 then 1 else 2 * Power2(n - 1)
  }

  lemma Sixty4()
    ensures Power2(64) == 0x1_0000_0000_0000_0000
  {
    assert Power2(8) == 256;
    assert Power2(16) == 0x1_0000;
    assert Power2(24) == 0x100_0000;
    assert Power2(32) == 0x1_0000_0000;
    assert Power2(40) == 0x100_0000_0000;
    assert Power2(48) == 0x1_0000_0000_0000;
    assert Power2(56) == 0x100_0000_0000_0000;
  }

  function Reversed(s: seq<byte>): (r: seq<byte>)
    ensures |r| == |s|
  {
    if s == [] then [] else Reversed(s[1..]) + [s[0]]
  }

  lemma {:induction false} ReversedMore(s: seq<byte>, c: byte)
    ensures Reversed(s + [c]) == [c] + Reversed(s)
  {
    if s == [] {
      assert s + [c] == [c];
      assert [c][1..] == [];
    } else {
      ReversedMore(s[1..], c);
      assert (s + [c])[1..] == s[1..] + [c];
    }
  }

  /** `stored` are the last digits of `value`, backwards, and `left` is what its other digits stand for. */
  ghost predicate Filling(value: nat, base: nat, upper: bool, stored: seq<byte>, left: nat, more: bool)
    requires 2 <= base <= 16
  {
    && |stored| <= 64
    && if more then
         && left < Power2(64 - |stored|) && (stored != [] ==> left > 0)
         && DigitsOf(value, base, upper) == DigitsOf(left, base, upper) + Reversed(stored)
       else DigitsOf(value, base, upper) == Reversed(stored)
  }

  lemma FillStarts(value: nat, base: nat, upper: bool)
    requires value <= ULLONG_MAX && 2 <= base <= 16
    ensures Filling(value, base, upper, [], value, true)
  {
    hide DigitsOf, Power2;
    Sixty4();
  }

  lemma FillMore(value: nat, base: nat, upper: bool, stored: seq<byte>, left: nat)
    requires 2 <= base <= 16 && Filling(value, base, upper, stored, left, true)
    ensures |stored| < 64
    ensures Filling(value, base, upper, stored + [DigitChar(LastDigit(left, base), upper)], Others(left, base),
                    Others(left, base) != 0)
  {
    hide DigitsOf, Power2, DigitChar, Reversed, LastDigit, Others;
    SomeRoom(left, |stored|);
    ReversedMore(stored, DigitChar(LastDigit(left, base), upper));
    DigitsStep(left, base, upper, Reversed(stored));
    Halves(left, base, |stored|);
  }

  /** The digits of a value are stored least significant first; 64 places are always enough. */
  method FillDigits(value: nat, base: nat, upper: bool, digits: array<byte>) returns (count: nat)
    requires value <= ULLONG_MAX && 2 <= base <= 16 && digits.Length == 64
    modifies digits
    ensures count <= 64 && Reversed(digits[..count]) == DigitsOf(value, base, upper)
  {
    count := 0;
    var left: nat := value;
    var more := true;
    FillStarts(value, base, upper);
    assert digits[..0] == [];
    while more
      invariant count <= 64 && Filling(value, base, upper, digits[..count], left, more)
      invariant more && count > 0 ==> left > 0
      decreases if more then left + 1 else 0
    {
      hide Filling, DigitChar, LastDigit, Others;
      ghost var stored := digits[..count];
      FillMore(value, base, upper, stored, left);
      digits[count] := DigitChar(LastDigit(left, base), upper);
      assert digits[..count + 1] == stored + [DigitChar(LastDigit(left, base), upper)];
      count := count + 1;
      left := Others(left, base);
      more := left != 0;
    }
  }

  lemma SomeRoom(left: nat, count: nat)
    requires count <= 64 && left < Power2(64 - count) && (count > 0 ==> left > 0)
    ensures count < 64
  {}

  lemma Halves(left: nat, base: nat, count: nat)
    requires count < 64 && left < Power2(64 - count) && 2 <= base <= 16
    ensures Others(left, base) < Power2(63 - count)
  {
    hide LastDigit, Others;
    assert Power2(64 - count) == 2 * Power2(63 - count);
  }

  lemma DigitsStep(v: nat, base: nat, upper: bool, tail: seq<byte>)
    requires 2 <= base <= 16
    ensures var c, q := DigitChar(LastDigit(v, base), upper), Others(v, base);
      DigitsOf(v, base, upper) + tail == if q == 0 then [c] + tail else DigitsOf(q, base, upper) + ([c] + tail)
  {
    hide DigitChar, LastDigit, Others;
  }

  /** The digits, last stored first. */
  method EmitDigits(buffer: array<byte>, used: nat, capacity: nat, digits: array<byte>, count: nat,
                    ghost before: seq<byte>, ghost text: seq<byte>) returns (used': nat)
    requires Holds(buffer[..], before, capacity, text) && Counts(used, text) && capacity <= USIZE_MAX
    requires count <= digits.Length && buffer != digits
    modifies buffer
    ensures Holds(buffer[..], before, capacity, text + Reversed(digits[..count]))
    ensures Counts(used', text + Reversed(digits[..count]))
  {
    hide Holds, Counts;
    used' := used;
    var left := count;
    ghost var done: seq<byte> := [];
    assert text + done == text;
    assert done + Reversed(digits[..count]) == Reversed(digits[..count]);
    while left > 0
      invariant 0 <= left <= count
      invariant Holds(buffer[..], before, capacity, text + done) && Counts(used', text + done)
      invariant done + Reversed(digits[..left]) == Reversed(digits[..count])
    {
      left := left - 1;
      assert digits[..left + 1] == digits[..left] + [digits[left]];
      ReversedMore(digits[..left], digits[left]);
      used' := EmitChar(buffer, used', capacity, digits[left], before, text + done);
      assert text + done + [digits[left]] == text + (done + [digits[left]]);
      assert done + ([digits[left]] + Reversed(digits[..left])) == done + [digits[left]] + Reversed(digits[..left]);
      done := done + [digits[left]];
    }
    assert Reversed(digits[..0]) == [];
    assert done == Reversed(digits[..count]);
  }

  // ---------------------------------------------------------------- the conversion

  /** The integer branch: the text joins what is in the buffer, cut where the buffer ends. */
  method FormatInteger(buffer: array<byte>, used: nat, capacity: nat, s: Spec, value: int,
                       ghost before: seq<byte>, ghost text: seq<byte>) returns (used': nat)
    requires Holds(buffer[..], before, capacity, text) && Counts(used, text) && capacity <= USIZE_MAX
    requires SpecOk(s) && Fits(s, value)
    modifies buffer
    ensures Holds(buffer[..], before, capacity, text + Text(s, value)) && Counts(used', text + Text(s, value))
    ensures forall k | 0 <= k < buffer.Length ::
      buffer[k] == if |text| <= k < |text| + |Text(s, value)| && k < capacity - 1 then Text(s, value)[k - |text|]
                   else old(buffer[k])
    ensures used' == Min(used + |Text(s, value)|, USIZE_MAX)
  {
    hide Holds, Counts, DigitsOf, Padding, Repeat, Reversed;
    var digits := new byte[64](_ => 0);
    var count := 0;
    if value != 0 || s.precision != 0 {
      count := FillDigits(Magnitude64(value), BaseOf(s.conversion), s.conversion.HexUpper?, digits);
    }
    DigitsStored(s, value, digits[..count]);
    var zeroCount: nat := ZeroCount(s, count);
    var sign, prefix := SignText(s, value), PrefixText(s, count);
    var padding: nat := Padding(s, count + zeroCount + |prefix| + |sign|);
    ghost var ds := DigitText(s, value);
    used' := used;
    ghost var t := text;
    used' := EmitRepeat(buffer, used', capacity, BLANK, if !s.left && !PadsZeros(s) then padding else 0, before, t);
    t := t + Before(s, value);
    used' := EmitBytes(buffer, used', capacity, sign, before, t);
    t := t + sign;
    used' := EmitBytes(buffer, used', capacity, prefix, before, t);
    t := t + prefix;
    used' := EmitRepeat(buffer, used', capacity, ZERO, if !s.left && PadsZeros(s) then padding else 0, before, t);
    t := t + Repeat(ZERO, if !s.left && PadsZeros(s) then padding else 0);
    used' := EmitRepeat(buffer, used', capacity, ZERO, zeroCount, before, t);
    t := t + Repeat(ZERO, zeroCount);
    used' := EmitDigits(buffer, used', capacity, digits, count, before, t);
    t := t + ds;
    used' := EmitRepeat(buffer, used', capacity, BLANK, if s.left then padding else 0, before, t);
    t := t + Behind(s, value);
    TextAssembled(s, value, text, t);
    Joined(old(buffer[..]), buffer[..], before, capacity, text, Text(s, value));
  }

  lemma Joined(was: seq<byte>, now: seq<byte>, before: seq<byte>, capacity: nat, text: seq<byte>, more: seq<byte>)
    requires Holds(was, before, capacity, text) && Holds(now, before, capacity, text + more)
    ensures |now| == |was| && forall k | 0 <= k < |now| ::
      now[k] == if |text| <= k < |text| + |more| && k < capacity - 1 then more[k - |text|] else was[k]
    ensures forall used: nat, used': nat :: Counts(used, text) && Counts(used', text + more) ==>
      used' == Min(used + |more|, USIZE_MAX)
  {}

  lemma DigitsStored(s: Spec, value: int, stored: seq<byte>)
    requires value != 0 || s.precision != 0 ==>
      Reversed(stored) == DigitsOf(Magnitude64(value), BaseOf(s.conversion), s.conversion.HexUpper?)
    requires value == 0 && s.precision == 0 ==> stored == []
    ensures Reversed(stored) == DigitText(s, value) && |stored| == |DigitText(s, value)|
  {}

  lemma TextAssembled(s: Spec, value: int, text: seq<byte>, t: seq<byte>)
    requires var padding := Padding(s, ContentLength(s, value));
      t == text + Before(s, value) + SignText(s, value) + PrefixText(s, |DigitText(s, value)|)
           + Repeat(ZERO, if !s.left && PadsZeros(s) then padding else 0)
           + Repeat(ZERO, ZeroCount(s, |DigitText(s, value)|)) + DigitText(s, value) + Behind(s, value)
    ensures t == text + Text(s, value)
  {
    hide Before, Behind, SignText, PrefixText, DigitText, Padding, ContentLength;
    var padding := Padding(s, ContentLength(s, value));
    var a: nat := if !s.left && PadsZeros(s) then padding else 0;
    var b: nat := ZeroCount(s, |DigitText(s, value)|);
    assert Repeat(ZERO, a) + Repeat(ZERO, b) == Repeat(ZERO, a + b);
    Gather(text, Before(s, value), SignText(s, value), PrefixText(s, |DigitText(s, value)|), Repeat(ZERO, a),
           Repeat(ZERO, b), DigitText(s, value), Behind(s, value));
  }

  lemma Gather(a: seq<byte>, b: seq<byte>, c: seq<byte>, d: seq<byte>, e: seq<byte>, f: seq<byte>, g: seq<byte>, h: seq<byte>)
    ensures a + b + c + d + e + f + g + h == a + (b + c + d + (e + f + g) + h)
  {}
}
