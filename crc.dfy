// The CRCs and the end-to-end payload builder of E2E/crc.py: bit
// reflection, a bitwise CRC-16 with the CRC-16/CCITT-FALSE parameters and
// a byte-reflected CRC with the CAN FD CRC-17 polynomial of section
// 10.4.2.6 of ISO 11898-1:2015.
//
// Python integers are unbounded and the source masks its accumulator only
// once, after the last byte. The methods below keep that unbounded
// accumulator; the specification functions mask the register after every
// shift, and MaskOnce shows the two agree.

module Crc {
  import opened Base
  import opened Bits
  import opened Cast

  const Crc17Poly: nat := 0x1685B
  const Crc17Init: nat := 0x1FFFF
  const Crc17Width: nat := 17

  const Crc16Poly: nat := 0x1021
  const Crc16Init: nat := 0xFFFF
  const Crc16FinalXor: nat := 0x0
  const Crc16Width: nat := 16

  // ---------------------------------------------------------------------
  // reflect
  // ---------------------------------------------------------------------

  /** The low `n` bits of `x` in reverse order: bit 0 of `x` becomes bit
      n-1 of the result. */
  function Reflect(x: nat, n: nat): nat {
    if n == 0 then 0 else (if x % 2 == 1 then Pow2(n - 1) else 0) + Reflect(x / 2, n - 1)
  }

  /** reflect: shifts the low bit of `data` into the result `nBits` times.
      The shifted result has a zero low bit, so the source's OR is an
      addition. */
  method ReflectBits(data: nat, nBits: nat) returns (reflection: nat)
    ensures reflection == Reflect(data, nBits)
  {
    reflection := 0;
    var d: nat := data;
    var i := 0;
    while i < nBits
      invariant i <= nBits
      invariant reflection * Pow2(nBits - i) + Reflect(d, nBits - i) == Reflect(data, nBits)
    {
      ReflectLoopStep(reflection, d, nBits - i);
      reflection := reflection * 2 + d % 2;
      d := d / 2;
      i := i + 1;
    }
  }

  /** One step of Reflect, with the low bit deciding the top bit. */
  lemma ReflectStep(x: nat, n: nat)
    requires n > 0
    ensures x % 2 == 0 ==> Reflect(x, n) == Reflect(x / 2, n - 1)
    ensures x % 2 == 1 ==> Reflect(x, n) == Pow2(n - 1) + Reflect(x / 2, n - 1)
  {
  }

  /** One turn of reflect's loop moves the low bit of `d` into the result. */
  lemma ReflectLoopStep(r: nat, d: nat, k: nat)
    requires k > 0
    ensures (r * 2 + d % 2) * Pow2(k - 1) + Reflect(d / 2, k - 1) == r * Pow2(k) + Reflect(d, k)
  {
    var p := Pow2(k - 1);
    assert Pow2(k) == 2 * p;
    ReflectStep(d, k);
    MulAddRight(r * 2, d % 2, p);
    MulRotate(r, 2, p);
    if d % 2 == 0 {
      assert (d % 2) * p == 0;
    } else {
      assert (d % 2) * p == p;
    }
  }

  lemma {:induction false} ReflectBound(x: nat, n: nat)
    ensures Reflect(x, n) < Pow2(n)
  {
    if n > 0 {
      ReflectBound(x / 2, n - 1);
      ReflectStep(x, n);
      assert Pow2(n) == 2 * Pow2(n - 1);
    }
  }

  /** Reflection is the bit reversal of the low `n` bits. */
  lemma {:induction false} ReflectBit(x: nat, n: nat, i: nat)
    requires i < n
    ensures Bit(Reflect(x, n), i) == Bit(x, n - 1 - i)
  {
    var p := Pow2(n - 1);
    var rest := Reflect(x / 2, n - 1);
    var r := Reflect(x, n);
    ReflectBound(x / 2, n - 1);
    ReflectStep(x, n);
    if i == n - 1 {
      if x % 2 == 0 {
        DivModUnique(r, p, 0, rest);
      } else {
        DivModUnique(r, p, 1, rest);
      }
      assert Bit(x, 0) == (x % 2 == 1);
    } else {
      ReflectBitLow(x, n, i);
      ReflectBit(x / 2, n - 1, i);
      BitOfHalf(x, n - 2 - i);
    }
  }

  /** Below the top bit, the reflection of `x` has the bits of the
      reflection of `x / 2`. */
  lemma ReflectBitLow(x: nat, n: nat, i: nat)
    requires i < n - 1
    ensures Bit(Reflect(x, n), i) == Bit(Reflect(x / 2, n - 1), i)
  {
    var q := Pow2(i);
    var e := Pow2(n - 2 - i);
    var rest := Reflect(x / 2, n - 1);
    ReflectStep(x, n);
    if x % 2 == 1 {
      assert Pow2(n - 1) == (2 * e) * q by {
        Pow2Add(i, n - 1 - i);
        assert Pow2(n - 1 - i) == 2 * e;
        MulCommutes(q, 2 * e);
      }
      BitIgnoresHigh(e, rest, q);
    }
  }

  /** The top bit read last: reflecting n+1 bits doubles the reflection of
      the low n bits and appends bit n. */
  lemma {:induction false} ReflectTop(x: nat, n: nat)
    ensures Reflect(x, n + 1) == 2 * Reflect(x % Pow2(n), n) + (x / Pow2(n)) % 2
  {
    if n > 0 {
      var p := Pow2(n - 1);
      assert Pow2(n) == 2 * p;
      ReflectTop(x / 2, n - 1);
      ModHalf(x, p);
      DivDiv(x, 2, p);
      ReflectStep(x, n + 1);
      ReflectStep(x % Pow2(n), n);
    }
  }

  /** The top bit of a reflection is the bottom bit of its input, and the
      bits below it reflect the rest. */
  lemma ReflectSplit(x: nat, n: nat)
    requires n > 0
    ensures Reflect(x, n) / Pow2(n - 1) == x % 2
    ensures Reflect(x, n) % Pow2(n - 1) == Reflect(x / 2, n - 1)
  {
    var p := Pow2(n - 1);
    var rest := Reflect(x / 2, n - 1);
    ReflectBound(x / 2, n - 1);
    ReflectStep(x, n);
    if x % 2 == 0 {
      DivModUnique(Reflect(x, n), p, 0, rest);
    } else {
      DivModUnique(Reflect(x, n), p, 1, rest);
    }
  }

  /** Reflecting twice gives back any value of `n` bits. */
  lemma {:induction false} ReflectInvolution(x: nat, n: nat)
    requires x < Pow2(n)
    ensures Reflect(Reflect(x, n), n) == x
  {
    if n > 0 {
      var p := Pow2(n - 1);
      var r := Reflect(x, n);
      ReflectSplit(x, n);
      assert x / 2 < p by {
        assert Pow2(n) == 2 * p;
      }
      ReflectInvolution(x / 2, n - 1);
      ReflectTop(r, n - 1);
      assert Reflect(r, n) == 2 * (x / 2) + x % 2;
    }
  }

  /** All ones reflect to all ones. */
  lemma {:induction false} ReflectAllOnes(n: nat)
    ensures Reflect(Pow2(n) - 1, n) == Pow2(n) - 1
  {
    if n > 0 {
      var p := Pow2(n - 1);
      var x := Pow2(n) - 1;
      assert x == 2 * (p - 1) + 1;
      assert x % 2 == 1 && x / 2 == p - 1;
      ReflectStep(x, n);
      ReflectAllOnes(n - 1);
      assert Reflect(x, n) == p + (p - 1);
    } else {
      assert Pow2(0) - 1 == 0;
    }
  }

  /** One byte reflected. */
  function ReflectByte(b: Byte): (r: Byte)
    ensures r == Reflect(b, 8)
  {
    ReflectBound(b, 8);
    Pow2Values();
    Reflect(b, 8)
  }

  /** _REFLECT_BYTE. */
  function ReflectTable(): (t: seq<Byte>)
    ensures |t| == 256 && forall i :: 0 <= i < 256 ==> t[i] == Reflect(i, 8)
  {
    seq(256, i requires 0 <= i < 256 => ReflectByte(i))
  }

  /** The table as the module builds it, calling reflect on each byte. */
  method BuildReflectTable() returns (t: seq<Byte>)
    ensures t == ReflectTable()
  {
    t := [];
    for i := 0 to 256
      invariant t == ReflectTable()[..i]
    {
      var v := ReflectBits(i, 8);
      ReflectBound(i, 8);
      Pow2Values();
      t := t + [v];
    }
  }

  /** Every entry is the reflection of its index, and looking an entry up
      again gives the index back. */
  lemma ReflectTableInvolution(i: Byte)
    ensures ReflectTable()[i] == Reflect(i, 8)
    ensures ReflectTable()[ReflectTable()[i]] == i
  {
    Pow2Values();
    ReflectInvolution(i, 8);
  }

  // ---------------------------------------------------------------------
  // The shift register
  // ---------------------------------------------------------------------

  /** One shift, unbounded: the register doubles, and the polynomial is
      XORed in when the bit of weight 2^(w-1) was set. */
  function Shift(w: nat, poly: nat, c: nat): nat
    requires w > 0
  {
    if Bit(c, w - 1) then Xor(2 * c, poly) else 2 * c
  }

  /** `k` unbounded shifts, as the source's inner loop runs them. */
  function Shifts(w: nat, poly: nat, c: nat, k: nat): nat
    requires w > 0
  {
    if k == 0 then c else Shift(w, poly, Shifts(w, poly, c, k - 1))
  }

  /** `k` shifts of a `w`-bit register, masked after each shift. */
  function MaskedShifts(w: nat, poly: nat, c: nat, k: nat): (r: nat)
    requires w > 0
    ensures r < Pow2(w)
  {
    if k == 0 then c % Pow2(w) else Shift(w, poly, MaskedShifts(w, poly, c, k - 1)) % Pow2(w)
  }

  /** The unbounded accumulator after feeding `bs`, one byte at a time
      XORed into the top eight bits then shifted eight times. */
  function Unmasked(w: nat, poly: nat, init: nat, bs: seq<Byte>): nat
    requires w >= 8
  {
    if bs == [] then init
    else Shifts(w, poly, Xor(Unmasked(w, poly, init, bs[..|bs| - 1]), bs[|bs| - 1] * Pow2(w - 8)), 8)
  }

  lemma UnmaskedStep(w: nat, poly: nat, init: nat, bs: seq<Byte>, i: nat)
    requires w >= 8 && i < |bs|
    ensures Unmasked(w, poly, init, bs[..i + 1]) ==
      Shifts(w, poly, Xor(Unmasked(w, poly, init, bs[..i]), bs[i] * Pow2(w - 8)), 8)
  {
    assert bs[..i + 1][..i] == bs[..i];
  }

  /** The `w`-bit register after feeding `bs`. */
  function Register(w: nat, poly: nat, init: nat, bs: seq<Byte>): (r: nat)
    requires w >= 8
    ensures r < Pow2(w)
  {
    if bs == [] then init % Pow2(w)
    else MaskedShifts(w, poly, Xor(Register(w, poly, init, bs[..|bs| - 1]), bs[|bs| - 1] * Pow2(w - 8)), 8)
  }

  /** A shift depends on the low `w` bits alone, as far as the low `w`
      bits of its result go. */
  lemma ShiftMod(w: nat, poly: nat, c: nat)
    requires w > 0
    ensures Shift(w, poly, c) % Pow2(w) == Shift(w, poly, c % Pow2(w)) % Pow2(w)
  {
    var m := Pow2(w);
    BitOfMod(c, w);
    DoubleMod(c, w);
    XorMod(2 * c, poly, w);
    XorMod(2 * (c % m), poly, w);
  }

  lemma {:induction false} ShiftsMasked(w: nat, poly: nat, c: nat, k: nat)
    requires w > 0
    ensures Shifts(w, poly, c, k) % Pow2(w) == MaskedShifts(w, poly, c, k)
  {
    if k > 0 {
      ShiftsMasked(w, poly, c, k - 1);
      ShiftMod(w, poly, Shifts(w, poly, c, k - 1));
    }
  }

  lemma {:induction false} MaskedShiftsMod(w: nat, poly: nat, c: nat, k: nat)
    requires w > 0
    ensures MaskedShifts(w, poly, c, k) == MaskedShifts(w, poly, c % Pow2(w), k)
  {
    if k > 0 {
      MaskedShiftsMod(w, poly, c, k - 1);
    } else {
      ModMod(c, Pow2(w));
    }
  }

  /** Masking the accumulator once at the end gives the register masked
      after every shift: high bits never flow down. */
  lemma {:induction false} MaskOnce(w: nat, poly: nat, init: nat, bs: seq<Byte>)
    requires w >= 8
    ensures Unmasked(w, poly, init, bs) % Pow2(w) == Register(w, poly, init, bs)
  {
    if bs != [] {
      var init' := bs[..|bs| - 1];
      var u := Unmasked(w, poly, init, init');
      var x := bs[|bs| - 1] * Pow2(w - 8);
      MaskOnce(w, poly, init, init');
      FedByteFits(bs[|bs| - 1], w);
      FeedMod(w, poly, u, x);
    }
  }

  /** One byte fed into the unbounded accumulator, then masked, is that
      byte fed into the masked register. */
  lemma FeedMod(w: nat, poly: nat, u: nat, x: nat)
    requires w > 0 && x < Pow2(w)
    ensures Shifts(w, poly, Xor(u, x), 8) % Pow2(w) == MaskedShifts(w, poly, Xor(u % Pow2(w), x), 8)
  {
    var m := Pow2(w);
    ShiftsMasked(w, poly, Xor(u, x), 8);
    MaskedShiftsMod(w, poly, Xor(u, x), 8);
    XorMod(u, x, w);
    ModSmall(x, m);
    MaskedShiftsMod(w, poly, Xor(u % m, x), 8);
  }

  /** A byte shifted into the top eight bits stays below 2^w. */
  lemma FedByteFits(b: Byte, w: nat)
    requires w >= 8
    ensures b * Pow2(w - 8) < Pow2(w)
  {
    Pow2Add(8, w - 8);
    Pow2Values();
    MulBelow(b, Pow2(w - 8));
  }

  lemma MulBelow(b: nat, p: nat)
    requires b < 256 && p > 0
    ensures b * p < 256 * p
  {
  }

  // ---------------------------------------------------------------------
  // crc16_canfd and crc17_canfd
  // ---------------------------------------------------------------------

  /** crc16_canfd: CRC-16/CCITT-FALSE, returned below 2^16. */
  method Crc16CanFd(data: seq<Byte>) returns (r: nat)
    ensures r == Register(Crc16Width, Crc16Poly, Crc16Init, data)
    ensures r < 0x1_0000
  {
    var crc: nat := Crc16Init;
    for i := 0 to |data|
      invariant crc == Unmasked(Crc16Width, Crc16Poly, Crc16Init, data[..i])
    {
      UnmaskedStep(Crc16Width, Crc16Poly, Crc16Init, data, i);
      MulMonotone(0, data[i], Pow2(Crc16Width - 8));
      crc := Xor(crc, data[i] * Pow2(Crc16Width - 8));
      ghost var fed := crc;
      for j := 0 to 8
        invariant crc == Shifts(Crc16Width, Crc16Poly, fed, j)
      {
        if Bit(crc, Crc16Width - 1) {
          crc := Xor(2 * crc, Crc16Poly);
        } else {
          crc := 2 * crc;
        }
      }
    }
    assert data[..|data|] == data;
    Crc16Finish(crc, data);
    crc := crc % Pow2(Crc16Width);
    crc := Xor(crc, Crc16FinalXor);
    r := crc;
  }

  /** The last steps of crc16_canfd: mask to 16 bits, then the final XOR,
      which is 0. */
  lemma Crc16Finish(u: nat, data: seq<Byte>)
    requires u == Unmasked(Crc16Width, Crc16Poly, Crc16Init, data)
    ensures Xor(u % Pow2(Crc16Width), Crc16FinalXor) == Register(Crc16Width, Crc16Poly, Crc16Init, data)
    ensures Register(Crc16Width, Crc16Poly, Crc16Init, data) < 0x1_0000
  {
    MaskOnce(Crc16Width, Crc16Poly, Crc16Init, data);
    XorZero(u % Pow2(Crc16Width));
    Pow2Values();
  }

  /** Each byte of the input reflected, as the table lookup does. */
  function ReflectedBytes(data: seq<Byte>): (r: seq<Byte>)
    ensures |r| == |data| && forall i :: 0 <= i < |data| ==> r[i] == Reflect(data[i], 8)
  {
    seq(|data|, i requires 0 <= i < |data| => ReflectByte(data[i]))
  }

  /** crc17_canfd: bytes fed reflected, the register reflected on the way
      out, returned below 2^17. */
  method Crc17CanFd(data: seq<Byte>) returns (r: nat)
    ensures r == Reflect(Register(Crc17Width, Crc17Poly, Crc17Init, ReflectedBytes(data)), Crc17Width)
    ensures r < 0x2_0000
  {
    ghost var fedBytes := ReflectedBytes(data);
    var crc: nat := Crc17Init;
    for i := 0 to |data|
      invariant crc == Unmasked(Crc17Width, Crc17Poly, Crc17Init, fedBytes[..i])
    {
      UnmaskedStep(Crc17Width, Crc17Poly, Crc17Init, fedBytes, i);
      assert ReflectTable()[data[i]] == fedBytes[i];
      MulMonotone(0, ReflectTable()[data[i]], Pow2(Crc17Width - 8));
      crc := Xor(crc, ReflectTable()[data[i]] * Pow2(Crc17Width - 8));
      ghost var fed := crc;
      for j := 0 to 8
        invariant crc == Shifts(Crc17Width, Crc17Poly, fed, j)
      {
        if Bit(crc, Crc17Width - 1) {
          crc := Xor(2 * crc, Crc17Poly);
        } else {
          crc := 2 * crc;
        }
      }
    }
    assert fedBytes[..|data|] == fedBytes;
    MaskOnce(Crc17Width, Crc17Poly, Crc17Init, fedBytes);
    crc := crc % Pow2(Crc17Width);
    r := ReflectBits(crc, Crc17Width);
    ReflectBound(crc, Crc17Width);
    Pow2Values();
  }

  /** With no data the CRC-16 is its initial value 0xFFFF, and the CRC-17
      is the reflection of 0x1FFFF, which is 0x1FFFF again. */
  lemma CrcOfEmpty()
    ensures Register(Crc16Width, Crc16Poly, Crc16Init, []) == 0xFFFF
    ensures Reflect(Register(Crc17Width, Crc17Poly, Crc17Init, ReflectedBytes([])), Crc17Width) == 0x1FFFF
  {
    Pow2Values();
    assert ReflectedBytes([]) == [];
    ReflectAllOnes(17);
  }

  // ---------------------------------------------------------------------
  // hex2byte
  // ---------------------------------------------------------------------

  /** `bytes.fromhex`: ASCII whitespace before a pair is skipped, and each
      pair is two adjacent hexadecimal digits; None where it raises
      ValueError, which any other character causes. */
  function FromHex(s: string): Option<seq<Byte>>
  {
    if s == [] then Some([])
    else if IsAsciiSpace(s[0]) then FromHex(s[1..])
    else if |s| >= 2 && IsHexDigit(s[0]) && IsHexDigit(s[1]) then
      match FromHex(s[2..])
      case None => None
      case Some(rest) => Some([16 * DigitValue(s[0]) + DigitValue(s[1])] + rest)
    else None
  }

  /** Plain digit pairs are read pair by pair. */
  lemma {:induction false} FromHexDigits(u: string)
    requires |u| % 2 == 0 && AllHexDigits(u)
    ensures FromHex(u) == Some(PairValues(u))
    decreases |u|
  {
    if u != [] {
      var v := u[2..];
      FromHexDigits(v);
      assert !IsAsciiSpace(u[0]);
      assert PairValues(u) == [PairValue(u, 0)] + PairValues(v) by {
        forall k | 0 <= k < |v| / 2
          ensures PairValue(u, k + 1) == PairValue(v, k)
        {
          assert u[2 * (k + 1)] == v[2 * k] && u[2 * (k + 1) + 1] == v[2 * k + 1];
        }
      }
    }
  }

  /** Whitespace between two runs of pairs is skipped, so only the pairs
      count: reading `a`, then whitespace, then `b`, gives the bytes of
      `a` followed by those of `b`. */
  lemma {:induction false} FromHexSkipsSpace(a: string, c: char, b: string)
    requires |a| % 2 == 0 && AllHexDigits(a) && IsAsciiSpace(c)
    ensures FromHex(a + [c] + b) ==
      match FromHex(b)
      case None => None
      case Some(rest) => Some(PairValues(a) + rest)
    decreases |a|
  {
    if a == [] {
      var w := a + [c] + b;
      assert w[0] == c && w[1..] == b;
      assert PairValues(a) == [];
      match FromHex(b) {
        case None =>
        case Some(rest) => assert PairValues(a) + rest == rest;
      }
    } else {
      var v := a[2..];
      var w := a + [c] + b;
      assert w[2..] == v + [c] + b;
      assert w[0] == a[0] && w[1] == a[1];
      assert !IsAsciiSpace(a[0]);
      var x := 16 * DigitValue(a[0]) + DigitValue(a[1]);
      assert PairValues(a) == [x] + PairValues(v) by {
        FromHexDigits(a);
        FromHexDigits(v);
      }
      FromHexSkipsSpace(v, c, b);
      match FromHex(b) {
        case None =>
        case Some(rest) =>
          assert FromHex(w) == Some([x] + (PairValues(v) + rest));
          assert [x] + (PairValues(v) + rest) == PairValues(a) + rest;
      }
    }
  }

  /** hex2byte: whitespace stripped from the ends, spaces removed, an odd
      length padded on the LEFT with '0', then `bytes.fromhex`. */
  function Hex2Byte(s: string): Option<seq<Byte>>
  {
    var t := RemoveSpaces(Strip(s));
    var u := if |t| % 2 != 0 then "0" + t else t;
    FromHex(u)
  }

  /** hex2byte reads back the digit pairs of any byte list. */
  lemma Hex2BytePairsText(bs: seq<Byte>)
    ensures Hex2Byte(PairsText(bs)) == Some(bs)
  {
    var t := PairsText(bs);
    PairValuesOfPairsText(bs);
    assert forall i :: 0 <= i < |t| ==> t[i] != ' ' && !IsSpace(t[i]);
    assert StripStart(t) == t;
    assert StripEnd(t) == t;
    RemoveSpacesNoSpace(t);
    FromHexDigits(t);
  }

  /** An odd digit count is padded on the left here and on the right by
      Str2HexArr (DecodeHexPadsRight): the same digits read as different
      bytes. */
  lemma Hex2BytePadsLeft(s: string)
    requires |s| % 2 == 1 && AllHexDigits(s)
    ensures var u := ['0'] + s; |u| == |s| + 1 && AllHexDigits(u) && Hex2Byte(s) == Some(PairValues(u))
  {
    assert Strip(s) == s by {
      assert s[0] != ' ' && !IsSpace(s[0]);
      assert !IsSpace(s[|s| - 1]);
    }
    assert RemoveSpaces(s) == s by {
      assert forall i :: 0 <= i < |s| ==> s[i] != ' ';
      RemoveSpacesNoSpace(s);
    }
    var u := ['0'] + s;
    assert AllHexDigits(u) by {
      assert forall i :: 1 <= i < |u| ==> u[i] == s[i - 1];
    }
    FromHexDigits(u);
  }

  /** Once the ends are stripped and no plain space is left, an even
      length is read by `bytes.fromhex` as it stands. */
  lemma Hex2ByteEven(s: string)
    requires |Strip(s)| % 2 == 0 && forall i :: 0 <= i < |Strip(s)| ==> Strip(s)[i] != ' '
    ensures Hex2Byte(s) == FromHex(Strip(s))
  {
    RemoveSpacesNoSpace(Strip(s));
  }

  /** Tabs between pairs are skipped by `bytes.fromhex`, while hex2byte's
      padding counts them: "AB\tCD\tEF" reads as three bytes, but the odd
      "AB\tCD" is padded to "0AB\tCD", whose second pair "B\t" raises. */
  lemma FromHexTabs()
    ensures FromHex("AB\tCD\tEF") == Some([0xAB, 0xCD, 0xEF])
    ensures FromHex("0AB\tCD") == None
  {
    var s := "AB\tCD\tEF";
    assert s[2] == '\t' && s[5] == '\t';
    assert s[6..] == "EF" && s[3..] == "CD\tEF";
    var ef: seq<Byte> := [0xEF];
    var cdef: seq<Byte> := [0xCD, 0xEF];
    assert "EF"[2..] == [] && DigitValue('E') == 14 && DigitValue('F') == 15;
    assert [0xEF] + [] == ef;
    assert FromHex("EF") == Some(ef);
    assert FromHex("\tEF") == Some(ef);
    assert s[3..][2..] == "\tEF" && DigitValue('C') == 12 && DigitValue('D') == 13;
    assert [0xCD] + ef == cdef;
    assert FromHex(s[3..]) == Some(cdef);
    assert FromHex(s[2..]) == Some(cdef);
    assert DigitValue('A') == 10 && DigitValue('B') == 11;
    assert [0xAB] + cdef == [0xAB, 0xCD, 0xEF];
    var u := "0AB\tCD";
    assert u[2..] == "B\tCD" && !IsHexDigit('\t');
  }

  /** Str2HexArr pads an odd digit count on the right. */
  lemma DecodeHexPadsRight(s: string)
    requires |s| % 2 == 1 && AllHexDigits(s)
    ensures var v := Upper(s) + ['0']; |v| == |s| + 1 && AllHexDigits(v) && DecodeHex(s) == Some(PairValues(v))
  {
    assert RemoveSpaces(s) == s by {
      assert forall i :: 0 <= i < |s| ==> s[i] != ' ';
      RemoveSpacesNoSpace(s);
    }
    ParseHexUpper(s);
    var v := Upper(s) + ['0'];
    assert AllHexDigits(v) by {
      assert forall i :: 0 <= i < |s| ==> v[i] == Upper(s)[i];
    }
    assert NormalizedHex(s) == v;
    DecodeHexOfDigits(s);
  }

  /** For "123" the left pad gives 01 23 ... */
  lemma PairValuesPadLeft()
    ensures AllHexDigits("0123") && PairValues("0123") == [0x01, 0x23]
  {
    var u := "0123";
    assert PairValues(u)[0] == PairValue(u, 0) == 0x01;
    assert PairValues(u)[1] == PairValue(u, 1) == 0x23;
  }

  /** ... and the right pad 12 30. */
  lemma PairValuesPadRight()
    ensures AllHexDigits("1230") && PairValues("1230") == [0x12, 0x30]
  {
    var v := "1230";
    assert PairValues(v)[0] == PairValue(v, 0) == 0x12;
    assert PairValues(v)[1] == PairValue(v, 1) == 0x30;
  }

  // ---------------------------------------------------------------------
  // _build_crc_payload and crc_calculate
  // ---------------------------------------------------------------------

  /** What `msg_id` can be: an int, a text for `int()`, or something
      `int()` refuses with TypeError. */
  datatype IdArg = IntId(n: int) | TextId(text: string) | OtherId

  /** What `data_frame` can be: bytes-like, or anything else. */
  datatype DataArg = BytesData(bytes: seq<Byte>) | OtherData

  datatype PayloadError =
    | IdNotInteger     // TypeError: msg_id must be an integer value
    | IdNegative       // ValueError: msg_id must be non-negative
    | DataNotBytes     // TypeError: data_frame must be bytes-like
    | DataTooShort     // ValueError: data_frame must contain at least two bytes

  /** `int(msg_id)`. */
  function IdValue(id: IdArg): Option<int> {
    match id
    case IntId(n) => Some(n)
    case TextId(t) => PyInt(t, 10)
    case OtherId => None
  }

  /** The two trailing bytes: `(0xF800 + msg_id) & 0x0FFF`. */
  function PayloadSuffix(id: nat): (s: nat)
    ensures s < 0x1000 && s == (id + 0x800) % 0x1000
  {
    assert 0xF800 + id == 0xF * 0x1000 + (id + 0x800);
    ModAddMultiple(0xF, 0x1000, id + 0x800);
    (0xF800 + id) % 0x1000
  }

  /** _build_crc_payload: the checks in the source's order, then the frame
      without its first two bytes followed by the suffix, low byte first. */
  function BuildCrcPayload(id: IdArg, data: DataArg): Result<seq<Byte>, PayloadError>
  {
    var n := IdValue(id);
    if n.None? then Err(IdNotInteger)
    else if n.value < 0 then Err(IdNegative)
    else if data.OtherData? then Err(DataNotBytes)
    else if |data.bytes| < 2 then Err(DataTooShort)
    else Ok(PayloadBytes(data.bytes, n.value))
  }

  /** The frame without its first two bytes, then the suffix, low byte
      first. */
  function PayloadBytes(frame: seq<Byte>, id: nat): seq<Byte>
    requires |frame| >= 2
  {
    var s := PayloadSuffix(id);
    SuffixHighByte(s);
    frame[2..] + [s % 256, s / 256]
  }

  lemma SuffixHighByte(s: nat)
    requires s < 0x1000
    ensures s / 256 < 0x10
  {
  }

  /** The payload has the length of the frame, keeps bytes 2 onwards and
      ends with the 12-bit suffix, low byte first; each failure is raised
      exactly when its check is the first to fail. */
  lemma BuildCrcPayloadProperties(id: IdArg, data: DataArg)
    ensures BuildCrcPayload(id, data) == Err(IdNotInteger) <==> IdValue(id).None?
    ensures BuildCrcPayload(id, data) == Err(IdNegative) <==> IdValue(id).Some? && IdValue(id).value < 0
    ensures BuildCrcPayload(id, data) == Err(DataNotBytes) <==>
      IdValue(id).Some? && IdValue(id).value >= 0 && data.OtherData?
    ensures BuildCrcPayload(id, data) == Err(DataTooShort) <==>
      IdValue(id).Some? && IdValue(id).value >= 0 && data.BytesData? && |data.bytes| < 2
    ensures BuildCrcPayload(id, data).Ok? ==>
      var p := BuildCrcPayload(id, data).value;
      |p| == |data.bytes| && p[..|p| - 2] == data.bytes[2..] &&
      p[|p| - 2] as int + 256 * (p[|p| - 1] as int) == (IdValue(id).value + 0x800) % 0x1000 &&
      p[|p| - 1] < 0x10
  {
  }

  /** crc_calculate: the CRC-16 of the payload, or the payload's error. */
  method CrcCalculate(id: IdArg, data: DataArg) returns (r: Result<nat, PayloadError>)
    ensures BuildCrcPayload(id, data).Err? ==> r == Err(BuildCrcPayload(id, data).error)
    ensures BuildCrcPayload(id, data).Ok? ==>
      r == Ok(Register(Crc16Width, Crc16Poly, Crc16Init, BuildCrcPayload(id, data).value))
  {
    var payload := BuildCrcPayload(id, data);
    if payload.Err? {
      return Err(payload.error);
    }
    var crc := Crc16CanFd(payload.value);
    r := Ok(crc);
  }
}
