/** The integer side of the web panel's signal helpers (app.py): reading
    numbers from request text, signal bit lengths, two's-complement wrap
    and unwrap of raw values, raw hex formatting, the raw ranges a bit
    length allows and the clamp applied before encoding. Floats, and the
    float branch of number parsing, are not part of this model. */
module SignalRaw {
  import opened Base
  import opened Bits
  import opened Cast

  // ---------------------------------------------------------------------
  // _coerce_number
  // ---------------------------------------------------------------------

  /** The Python values a request field can carry, floats aside. */
  datatype Value = NoneValue | IntValue(i: int) | TextValue(s: string) | OtherValue

  /** What `_coerce_number` gives back: None, an int, or the text handed
      on to `float()`, whose outcome this model leaves open. */
  datatype Number = NoNumber | IntegerNumber(n: int) | PassedToFloat

  /** `int(t, base)` for text that starts with the base's prefix. A
      failure falls through to `float()`, which refuses such text too. */
  function PrefixedValue(t: string, base: nat): Number {
    match PyInt(t, base)
    case Some(n) => IntegerNumber(n)
    case None => NoNumber
  }

  /** `_coerce_number` on stripped text. */
  function CoerceText(t: string): Number {
    if t == [] then NoNumber
    else if HasBasePrefix(t, 16) then PrefixedValue(t, 16)
    else if HasBasePrefix(t, 2) then PrefixedValue(t, 2)
    else if HasBasePrefix(t, 8) then PrefixedValue(t, 8)
    else if '.' in t || 'e' in t || 'E' in t then PassedToFloat
    else
      match PyInt(t, 10)
      case Some(n) => IntegerNumber(n)
      case None => PassedToFloat
  }

  /** _coerce_number: None and objects without `strip` give None, ints
      pass through, text is stripped and read by its prefix. */
  function CoerceNumber(v: Value): Number {
    match v
    case NoneValue => NoNumber
    case IntValue(i) => IntegerNumber(i)
    case TextValue(s) => CoerceText(Strip(s))
    case OtherValue => NoNumber
  }

  /** Surrounding whitespace never matters. */
  lemma CoerceIgnoresSurroundingSpace(s: string)
    ensures CoerceNumber(TextValue(Strip(s))) == CoerceNumber(TextValue(s))
  {
    StripIdempotent(s);
  }

  lemma {:induction false} StripStartAllSpace(s: string)
    requires forall i :: 0 <= i < |s| ==> IsSpace(s[i])
    ensures StripStart(s) == []
  {
    if s != [] {
      StripStartAllSpace(s[1..]);
    }
  }

  /** Text made only of whitespace, the empty text included, is no number. */
  lemma CoerceBlank(s: string)
    requires forall i :: 0 <= i < |s| ==> IsSpace(s[i])
    ensures CoerceNumber(TextValue(s)) == NoNumber
  {
    StripStartAllSpace(s);
  }

  /** `0x` followed by the digits `hex()` writes reads back as the number. */
  lemma CoerceHexRoundTrip(n: nat)
    ensures CoerceNumber(TextValue("0x" + HexLower(n))) == IntegerNumber(n)
  {
    var h := HexLower(n);
    var t := "0x" + h;
    StripUnspaced(t);
    ParseHexLower(n);
    DigitsValueHex(h);
    assert t[2..] == h;
    PyIntPrefixed(t, 16);
  }

  predicate IsBinaryDigit(c: char) {
    c == '0' || c == '1'
  }

  lemma {:induction false} DigitsValueBinary(bits: string)
    requires forall i :: 0 <= i < |bits| ==> IsBinaryDigit(bits[i])
    ensures AllDigitsIn(bits, 2) && DigitsOrUnderscores(bits, 2) && DigitsValue(bits, 2) < Pow2(|bits|)
  {
    if bits != [] {
      DigitsValueBinary(bits[..|bits| - 1]);
    }
  }

  /** `0b` text is read in base 2, and `k` binary digits stay below 2^k. */
  lemma CoerceBinary(bits: string)
    requires bits != [] && forall i :: 0 <= i < |bits| ==> IsBinaryDigit(bits[i])
    ensures AllDigitsIn(bits, 2) && CoerceNumber(TextValue("0b" + bits)) == IntegerNumber(DigitsValue(bits, 2))
    ensures DigitsValue(bits, 2) < Pow2(|bits|)
  {
    var t := "0b" + bits;
    assert t[|t| - 1] == bits[|bits| - 1];
    StripUnspaced(t);
    DigitsValueBinary(bits);
    assert t[2..] == bits;
    PyIntPrefixed(t, 2);
  }

  /** On stripped text that `int()` accepts, _coerce_number agrees with it. */
  lemma CoerceTextDecimal(t: string)
    requires Strip(t) == t && PyInt(t, 10).Some?
    ensures CoerceText(t) == IntegerNumber(PyInt(t, 10).value)
  {
    IntStripStripped(t);
    var d := DigitsPart(t, 10);
    assert UnderscoredDigits(d, 10);
    var k := |t| - |d|;
    assert d == t[k..] && k <= 1;
    forall i | 0 <= i < |t|
      ensures t[i] != '.' && t[i] != 'e' && t[i] != 'E'
    {
      if i >= k {
        assert t[i] == d[i - k];
      }
    }
    if |t| >= 2 && t[0] == '0' {
      assert d == t;
      assert d[1] == '_' || IsDigitIn(d[1], 10);
      assert t[1] != 'x' && t[1] != 'X' && t[1] != 'b' && t[1] != 'B' && t[1] != 'o' && t[1] != 'O';
    }
  }

  /** Plain decimal digits read as the decimal number. */
  lemma CoerceDecimal(d: string)
    requires d != [] && AllDigitsIn(d, 10)
    ensures CoerceNumber(TextValue(d)) == IntegerNumber(DigitsValue(d, 10))
  {
    StripUnspaced(d);
    PyIntOfDigits(d, 10);
    CoerceTextDecimal(d);
  }

  /** A minus sign before decimal digits gives the negative number. */
  lemma CoerceNegativeDecimal(d: string)
    requires d != [] && AllDigitsIn(d, 10)
    ensures CoerceNumber(TextValue("-" + d)) == IntegerNumber(-(DigitsValue(d, 10) as int))
  {
    var m := "-" + d;
    assert m[|m| - 1] == d[|d| - 1];
    StripUnspaced(m);
    PyIntNegative(d, 10);
    CoerceTextDecimal(m);
  }

  // ---------------------------------------------------------------------
  // _signal_bit_length
  // ---------------------------------------------------------------------

  /** _signal_bit_length on the signal's `length` attribute: missing gives
      None, an int is kept, text goes through `int()`, anything else is
      refused by both `int()` attempts. */
  function BitLength(length: Value): Option<int> {
    match length
    case NoneValue => None
    case IntValue(i) => Some(i)
    case TextValue(s) => PyInt(s, 10)
    case OtherValue => None
  }

  /** A text length that `int()` accepts is read the same way by
      _coerce_number. */
  lemma BitLengthAgreesWithCoerce(s: string)
    requires BitLength(TextValue(s)).Some?
    ensures CoerceNumber(TextValue(s)) == IntegerNumber(BitLength(TextValue(s)).value)
  {
    StripIdempotent(s);
    PyIntStrip(s, 10);
    CoerceTextDecimal(Strip(s));
  }

  // ---------------------------------------------------------------------
  // _signal_unsigned and _signal_signed
  // ---------------------------------------------------------------------

  /** Whether a bit length is present and positive. */
  predicate HasWidth(bitLength: Option<int>) {
    bitLength.Some? && bitLength.value > 0
  }

  /** _signal_unsigned: the raw value modulo 2^n, Python's `%` with a
      positive modulus; passed through without a positive length. */
  function Unsigned(raw: Option<int>, bitLength: Option<int>): (r: Option<int>)
    ensures raw.Some? && HasWidth(bitLength) ==> r.Some? && 0 <= r.value < Pow2(bitLength.value)
    ensures !(raw.Some? && HasWidth(bitLength)) ==> r == raw
  {
    if raw.None? || !HasWidth(bitLength) then raw
    else Some(raw.value % Pow2(bitLength.value))
  }

  /** _signal_signed: for a signed signal, values from half the modulus
      up are moved down by the modulus. */
  function Signed(rawUnsigned: Option<int>, bitLength: Option<int>, isSigned: bool): Option<int> {
    if rawUnsigned.None? || !HasWidth(bitLength) then rawUnsigned
    else if !isSigned then rawUnsigned
    else
      var modulus := Pow2(bitLength.value);
      var half := modulus / 2;
      if rawUnsigned.value >= half then Some(rawUnsigned.value - modulus) else rawUnsigned
  }

  lemma Pow2Half(n: nat)
    requires n > 0
    ensures Pow2(n) / 2 == Pow2(n - 1) && Pow2(n) == 2 * Pow2(n - 1)
  {
  }

  /** Unwrapping the wrapped value of any `n`-bit two's-complement
      number gives the number back. */
  lemma SignedOfUnsigned(x: int, n: nat)
    requires n > 0 && -(Pow2(n - 1) as int) <= x < Pow2(n - 1)
    ensures Signed(Unsigned(Some(x), Some(n)), Some(n), true) == Some(x)
  {
    var p := Pow2(n);
    Pow2Half(n);
    if x >= 0 {
      DivModUnique(x, p, 0, x);
    } else {
      DivModUnique(x, p, -1, x + p);
    }
  }

  /** Wrapping the unwrapped value of any `n`-bit pattern gives the
      pattern back, and the unwrapped value lies in the signed range. */
  lemma UnsignedOfSigned(u: int, n: nat)
    requires n > 0 && 0 <= u < Pow2(n)
    ensures var s := Signed(Some(u), Some(n), true);
      s.Some? && -(Pow2(n - 1) as int) <= s.value < Pow2(n - 1) && Unsigned(s, Some(n)) == Some(u)
  {
    var p := Pow2(n);
    Pow2Half(n);
    if u >= p / 2 {
      DivModUnique(u - p, p, -1, u);
    } else {
      DivModUnique(u, p, 0, u);
    }
  }

  /** Adding a multiple of 2^n does not change the wrapped value. */
  lemma UnsignedPeriodic(x: int, k: int, n: nat)
    requires n > 0
    ensures Unsigned(Some(x + k * Pow2(n)), Some(n)) == Unsigned(Some(x), Some(n))
  {
    var p := Pow2(n);
    var q, r := x / p, x % p;
    assert x + k * p == (q + k) * p + r by {
      MulAddRight(q, k, p);
    }
    DivModUnique(x + k * p, p, q + k, r);
  }

  // ---------------------------------------------------------------------
  // _format_raw_hex
  // ---------------------------------------------------------------------

  /** The digits of `f"{n:X}"` for `n >= 0`. */
  function UpperHex(n: nat): string {
    Upper(HexLower(n))
  }

  function Zeros(k: int): (r: string)
    ensures |r| == if k > 0 then k else 0
  {
    seq(if k > 0 then k else 0, _ => '0')
  }

  /** `f"{n:X}"`: a minus sign, then the digits of the magnitude. */
  function PlainHex(n: int): string {
    if n >= 0 then UpperHex(n) else "-" + UpperHex(-n)
  }

  /** `f"{n:0{width}X}"`: zeros go between the sign and the digits until
      the text is `width` long; longer text is not cut. */
  function PaddedHex(n: int, width: int): string {
    if n >= 0 then Zeros(width - |UpperHex(n)|) + UpperHex(n)
    else "-" + Zeros(width - 1 - |UpperHex(-n)|) + UpperHex(-n)
  }

  /** _format_raw_hex: None for no value; "0x" and the upper-case digits,
      zero-padded to one digit per started nibble of the bit length. */
  function FormatRawHex(raw: Option<int>, bitLength: Option<int>): Option<string> {
    if raw.None? then None
    else if !HasWidth(bitLength) then Some("0x" + PlainHex(raw.value))
    else Some("0x" + PaddedHex(raw.value, (bitLength.value + 3) / 4))
  }

  lemma {:induction false} HexLowerFits(m: nat, w: nat)
    requires w >= 1 && m < Pow2(4 * w)
    ensures |HexLower(m)| <= w
  {
    if m >= 16 {
      Pow2Add(4, 4 * (w - 1));
      assert Pow2(4) == 16;
      assert w > 1;
      HexLowerFits(m / 16, w - 1);
    }
  }

  lemma {:induction false} ParseHexZeros(k: nat, h: string)
    requires AllHexDigits(h)
    ensures AllHexDigits(Zeros(k) + h) && ParseHex(Zeros(k) + h) == ParseHex(h)
  {
    if k > 0 {
      ParseHexZeros(k - 1, h);
      var rest := Zeros(k - 1) + h;
      assert Zeros(k) + h == "0" + rest;
      ParseHexLeadingZero(rest);
    } else {
      assert Zeros(k) + h == h;
    }
  }

  lemma UpperOfHexDigits(h: string)
    requires AllHexDigits(h)
    ensures AllUpperHexDigits(Upper(h))
  {
  }

  /** An `n`-bit value needs at most one digit per started nibble. */
  lemma NibbleWidth(raw: nat, n: nat)
    requires n > 0 && raw < Pow2(n)
    ensures |UpperHex(raw)| <= (n + 3) / 4
  {
    var width := (n + 3) / 4;
    assert 4 * width >= n;
    Pow2Monotone(n, 4 * width);
    HexLowerFits(raw, width);
  }

  /** Zero-padding a non-negative value to a width its digits fit in gives
      exactly `width` upper-case digits that read back as the value. */
  lemma PaddedDigits(raw: nat, width: int)
    requires |UpperHex(raw)| <= width
    ensures var t := PaddedHex(raw, width);
      |t| == width && AllUpperHexDigits(t) && ParseHex(t) == raw
  {
    var h := UpperHex(raw);
    ParseHexUpper(HexLower(raw));
    ParseHexLower(raw);
    UpperOfHexDigits(HexLower(raw));
    var z := Zeros(width - |h|);
    ParseHexZeros(width - |h|, h);
    assert AllUpperHexDigits(z + h) by {
      forall i | 0 <= i < |z + h|
        ensures IsUpperHexDigit((z + h)[i])
      {
        if i >= |z| {
          assert (z + h)[i] == h[i - |z|];
        }
      }
    }
  }

  /** For an `n`-bit raw value the text is "0x" and exactly one digit per
      started nibble, upper case, reading back as the value. */
  lemma FormatRawHexReadsBack(raw: int, n: nat)
    requires n > 0 && 0 <= raw < Pow2(n)
    ensures var s := FormatRawHex(Some(raw), Some(n)).value;
      |s| == 2 + (n + 3) / 4 && s[..2] == "0x" &&
      AllUpperHexDigits(s[2..]) && ParseHex(s[2..]) == raw
  {
    var width := (n + 3) / 4;
    NibbleWidth(raw, n);
    PaddedDigits(raw, width);
    var s := "0x" + PaddedHex(raw, width);
    assert s[2..] == PaddedHex(raw, width);
  }

  /** Without a bit length the digits are not padded. */
  lemma FormatRawHexUnpadded(raw: nat)
    ensures FormatRawHex(Some(raw), None) == Some("0x" + UpperHex(raw))
    ensures |UpperHex(raw)| == |HexLower(raw)| && ParseHex(UpperHex(raw)) == raw
  {
    ParseHexUpper(HexLower(raw));
    ParseHexLower(raw);
  }

  // ---------------------------------------------------------------------
  // _signal_bounds and the raw clamp
  // ---------------------------------------------------------------------

  datatype Bounds = Bounds(
    bitLength: Option<int>, isSigned: bool,
    signedMin: Option<int>, signedMax: Option<int>,
    unsignedMin: Option<int>, unsignedMax: Option<int>)

  /** _signal_bounds, from the bit length and signedness it reads. */
  function SignalBounds(bitLength: Option<int>, isSigned: bool): Bounds {
    if !HasWidth(bitLength) then Bounds(None, isSigned, None, None, None, None)
    else
      var n := bitLength.value;
      var signedMin := if isSigned then -(Pow2(n - 1) as int) else 0;
      var signedMax := if isSigned then Pow2(n - 1) - 1 else Pow2(n) - 1;
      Bounds(bitLength, isSigned, Some(signedMin), Some(signedMax), Some(0), Some(Pow2(n) - 1))
  }

  /** Without a positive length there are no bounds; with one, both
      ranges hold exactly 2^n values and the signed one contains 0. */
  lemma SignalBoundsRanges(bitLength: Option<int>, isSigned: bool)
    ensures var b := SignalBounds(bitLength, isSigned);
      !HasWidth(bitLength) ==> b.signedMin.None? && b.signedMax.None? && b.unsignedMin.None? && b.unsignedMax.None?
    ensures var b := SignalBounds(bitLength, isSigned);
      HasWidth(bitLength) ==>
        b.signedMin.Some? && b.signedMax.Some? && b.unsignedMin == Some(0) && b.unsignedMax.Some? &&
        b.signedMax.value - b.signedMin.value + 1 == Pow2(bitLength.value) &&
        b.unsignedMax.value + 1 == Pow2(bitLength.value) &&
        b.signedMin.value <= 0 <= b.signedMax.value
  {
    if HasWidth(bitLength) {
      Pow2Half(bitLength.value);
    }
  }

  /** The raw clamp of _prepare_signal_updates: below the minimum becomes
      the minimum, then above the maximum becomes the maximum; a missing
      bound does not clamp. */
  function ClampRaw(raw: Option<int>, lo: Option<int>, hi: Option<int>): Option<int> {
    var r1 := if raw.Some? && lo.Some? && raw.value < lo.value then lo else raw;
    if r1.Some? && hi.Some? && r1.value > hi.value then hi else r1
  }

  /** With both bounds and `lo <= hi` the result lies between them, a
      value already inside is kept, and clamping twice is clamping once. */
  lemma ClampRawWithin(x: int, lo: int, hi: int)
    requires lo <= hi
    ensures var r := ClampRaw(Some(x), Some(lo), Some(hi));
      r.Some? && lo <= r.value <= hi &&
      (lo <= x <= hi ==> r.value == x) &&
      ClampRaw(r, Some(lo), Some(hi)) == r
  {
  }

  /** A value clamped into a signal's raw range survives the wrap to its
      bit pattern and the unwrap back unchanged, signed or not. */
  lemma ClampedRawRoundTrip(x: int, n: nat, isSigned: bool)
    requires n > 0
    ensures var b := SignalBounds(Some(n), isSigned);
      var c := ClampRaw(Some(x), b.signedMin, b.signedMax);
      c.Some? && Signed(Unsigned(c, Some(n)), Some(n), isSigned) == c
  {
    var b := SignalBounds(Some(n), isSigned);
    SignalBoundsRanges(Some(n), isSigned);
    ClampRawWithin(x, b.signedMin.value, b.signedMax.value);
    var c := ClampRaw(Some(x), b.signedMin, b.signedMax);
    if isSigned {
      SignedOfUnsigned(c.value, n);
    } else {
      DivModUnique(c.value, Pow2(n), 0, c.value);
    }
  }
}
