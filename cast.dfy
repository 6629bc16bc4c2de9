/** Casting helpers of the tool (COMMON/Cast.py): integers and byte lists to
    spaced upper-case hexadecimal text and back, fixed-width splitting,
    CAN FD length rounding and padding, and clamping. */
module Cast {
  import opened Base
  import opened Bits

  // ---------------------------------------------------------------------
  // Hexadecimal text of integers
  // ---------------------------------------------------------------------

  /** The digits Python's `hex(n)[2:]` yields for `n >= 0`: lower case, no
      leading zeros, "0" for zero. */
  function HexLower(n: nat): (r: string)
    ensures |r| >= 1 && AllHexDigits(r)
    ensures forall i :: 0 <= i < |r| ==> !('A' <= r[i] <= 'F')
  {
    if n < 16 then [LowerDigit(n)] else HexLower(n / 16) + [LowerDigit(n % 16)]
  }

  /** `hex(n)[2:]` for any integer: for a negative `n` Python's text is
      "-0x…", so the slice keeps "x" and the digits of `-n`. */
  function PyHexTail(n: int): string {
    if n >= 0 then HexLower(n) else "x" + HexLower(-n)
  }

  /** The value of a string of hexadecimal digits, most significant first. */
  function ParseHex(s: string): nat
    requires AllHexDigits(s)
  {
    if s == [] then 0 else 16 * ParseHex(s[..|s| - 1]) + DigitValue(s[|s| - 1])
  }

  lemma ParseHexTwo(p: string)
    requires |p| == 2 && AllHexDigits(p)
    ensures ParseHex(p) == 16 * DigitValue(p[0]) + DigitValue(p[1])
  {
    assert p[..1] == [p[0]] && p[..1][..0] == [];
    assert ParseHex(p[..1]) == DigitValue(p[0]);
  }

  /** Hexadecimal digits are read by `int(..., 16)` as ParseHex reads them. */
  lemma {:induction false} DigitsValueHex(s: string)
    requires AllHexDigits(s)
    ensures AllDigitsIn(s, 16) && DigitsOrUnderscores(s, 16) && DigitsValue(s, 16) == ParseHex(s)
  {
    if s != [] {
      DigitsValueHex(s[..|s| - 1]);
    }
  }

  /** `int(s, 16)` of plain hexadecimal digits. */
  lemma PyIntHex(s: string)
    requires s != [] && AllHexDigits(s)
    ensures PyInt(s, 16) == Some(ParseHex(s))
  {
    DigitsValueHex(s);
    PyIntOfDigits(s, 16);
  }

  lemma {:induction false} ParseHexLower(n: nat)
    ensures ParseHex(HexLower(n)) == n
  {
    if n >= 16 {
      var r := HexLower(n);
      assert r[..|r| - 1] == HexLower(n / 16);
      ParseHexLower(n / 16);
    }
  }

  lemma {:induction false} ParseHexLeadingZero(s: string)
    requires AllHexDigits(s)
    ensures AllHexDigits("0" + s) && ParseHex("0" + s) == ParseHex(s)
  {
    if s != [] {
      assert ("0" + s)[..|s|] == "0" + s[..|s| - 1];
      ParseHexLeadingZero(s[..|s| - 1]);
    }
  }

  lemma {:induction false} ParseHexUpper(s: string)
    requires AllHexDigits(s)
    ensures AllHexDigits(Upper(s)) && ParseHex(Upper(s)) == ParseHex(s)
  {
    if s != [] {
      assert Upper(s)[..|s| - 1] == Upper(s[..|s| - 1]);
      ParseHexUpper(s[..|s| - 1]);
    }
  }

  lemma UpperAppend(a: string, b: string)
    ensures Upper(a + b) == Upper(a) + Upper(b)
  {
  }

  lemma {:induction false} RemoveSpacesUpper(s: string)
    ensures RemoveSpaces(Upper(s)) == Upper(RemoveSpaces(s))
  {
    if s != [] {
      assert Upper(s) == [UpperChar(s[0])] + Upper(s[1..]);
      RemoveSpacesUpper(s[1..]);
    }
  }

  // ---------------------------------------------------------------------
  // Split_by_num and ' '.join
  // ---------------------------------------------------------------------

  function Concat<T>(pieces: seq<seq<T>>): seq<T> {
    if pieces == [] then [] else pieces[0] + Concat(pieces[1..])
  }

  /** `[s[i:i+num] for i in range(0, len(s), num)]`. A zero step makes
      Python's `range` raise; a negative step yields no pieces. */
  function SplitByNum<T>(s: seq<T>, num: int): (r: seq<seq<T>>)
    requires num != 0
    ensures num < 0 ==> r == []
    ensures num > 0 ==> Concat(r) == s
    ensures num > 0 ==> forall k :: 0 <= k < |r| ==> 0 < |r[k]| <= num
    ensures num > 0 ==> forall k :: 0 <= k < |r| - 1 ==> |r[k]| == num
    decreases |s|
  {
    if num < 0 || s == [] then []
    else if |s| <= num then [s]
    else [s[..num]] + SplitByNum(s[num..], num)
  }

  function Join(pieces: seq<string>, sep: string): string {
    if pieces == [] then ""
    else if |pieces| == 1 then pieces[0]
    else pieces[0] + sep + Join(pieces[1..], sep)
  }

  lemma {:induction false} RemoveSpacesJoin(pieces: seq<string>)
    ensures RemoveSpaces(Join(pieces, " ")) == RemoveSpaces(Concat(pieces))
  {
    if |pieces| == 1 {
      assert pieces[1..] == [];
      assert Concat(pieces[1..]) == [];
      assert Concat(pieces) == pieces[0] + [];
      assert pieces[0] + [] == pieces[0];
      assert Join(pieces, " ") == pieces[0];
    } else if |pieces| > 1 {
      RemoveSpacesJoin(pieces[1..]);
      RemoveSpacesAppend(pieces[0] + " ", Join(pieces[1..], " "));
      RemoveSpacesAppend(pieces[0], " ");
      RemoveSpacesAppend(pieces[0], Concat(pieces[1..]));
    }
  }

  /** Text made of upper-case digit pairs separated by single spaces. */
  predicate SpacedPairs(s: string)
    decreases |s|
  {
    |s| >= 2 && IsUpperHexDigit(s[0]) && IsUpperHexDigit(s[1]) &&
    (|s| == 2 || (|s| > 2 && s[2] == ' ' && SpacedPairs(s[3..])))
  }

  lemma {:induction false} SpacedPairsOfJoin(t: string)
    requires |t| >= 2 && |t| % 2 == 0 && AllHexDigits(t)
    ensures SpacedPairs(Upper(Join(SplitByNum(t, 2), " ")))
    decreases |t|
  {
    var p := SplitByNum(t, 2);
    if |t| == 2 {
      assert p == [t];
    } else {
      assert p == [t[..2]] + SplitByNum(t[2..], 2);
      assert p[1..] == SplitByNum(t[2..], 2);
      SpacedPairsOfJoin(t[2..]);
      var rest := Join(p[1..], " ");
      assert Join(p, " ") == t[..2] + " " + rest;
      UpperAppend(t[..2] + " ", rest);
      var u := Upper(Join(p, " "));
      assert u[3..] == Upper(rest);
    }
  }

  // ---------------------------------------------------------------------
  // Hex: integer to spaced hexadecimal text
  // ---------------------------------------------------------------------

  /** `hex(n)[2:]` with a '0' put in front when its length is odd. */
  function EvenHexTail(n: int): string {
    var t := PyHexTail(n);
    if |t| % 2 != 0 then "0" + t else t
  }

  /** `Hex(n)`: the digits in pairs joined by single spaces, upper-cased. */
  function Hex(n: int): string {
    Upper(Join(SplitByNum(EvenHexTail(n), 2), " "))
  }

  lemma HexZero()
    ensures Hex(0) == "00"
  {
    assert EvenHexTail(0) == "00";
    assert SplitByNum("00", 2) == ["00"];
  }

  /** `Hex(n)` for `n >= 0` is upper-case digit pairs separated by single
      spaces, and with the spaces removed it reads back as `n`. */
  lemma HexOfNatural(n: nat)
    ensures SpacedPairs(Hex(n))
    ensures AllHexDigits(RemoveSpaces(Hex(n))) && ParseHex(RemoveSpaces(Hex(n))) == n
  {
    var t := EvenHexTail(n);
    assert AllHexDigits(t) && ParseHex(t) == n by {
      ParseHexLower(n);
      if |HexLower(n)| % 2 != 0 {
        ParseHexLeadingZero(HexLower(n));
      }
    }
    assert SpacedPairs(Hex(n)) by {
      SpacedPairsOfJoin(t);
    }
    assert RemoveSpaces(Hex(n)) == Upper(t) by {
      RemoveSpacesNoSpace(t);
      CorrectStrHexKeepsText(t);
    }
    ParseHexUpper(t);
  }

  // ---------------------------------------------------------------------
  // Byte lists to text
  // ---------------------------------------------------------------------

  /** The two upper-case digits of one byte. */
  function UpperPair(b: Byte): (r: string)
    ensures |r| == 2 && AllUpperHexDigits(r) && AllHexDigits(r) && ParseHex(r) == b
  {
    var r := [UpperDigit(b / 16), UpperDigit(b % 16)];
    ParseHexTwo(r);
    r
  }

  /** `hex(val)[2:]`, padded to two digits, for one byte. */
  function LowerPair(b: Byte): string {
    var t := HexLower(b);
    if |t| < 2 then "0" + t else t
  }

  lemma UpperLowerPair(b: Byte)
    ensures Upper(LowerPair(b)) == UpperPair(b)
  {
    UpperOfLowerDigit(b % 16);
    UpperOfLowerDigit(b / 16);
    if b >= 16 {
      assert HexLower(b) == HexLower(b / 16) + [LowerDigit(b % 16)];
    }
  }

  /** Hex of one byte is its two upper-case digits. */
  lemma HexOfByte(b: Byte)
    ensures Hex(b) == UpperPair(b)
  {
    var t := HexLower(b);
    if b >= 16 {
      assert t == HexLower(b / 16) + [LowerDigit(b % 16)];
    }
    assert EvenHexTail(b) == LowerPair(b);
    assert SplitByNum(LowerPair(b), 2) == [LowerPair(b)];
    UpperLowerPair(b);
  }

  /** HexArr2Str of a concatenation is the concatenation of the texts. */
  lemma {:induction false} SpacedHexAppend(a: seq<Byte>, b: seq<Byte>)
    ensures SpacedHex(a + b) == SpacedHex(a) + SpacedHex(b)
  {
    if b != [] {
      var b' := b[..|b| - 1];
      assert (a + b)[..|a + b| - 1] == a + b';
      SpacedHexAppend(a, b');
    } else {
      assert a + b == a;
    }
  }

  /** The text HexArr2Str produces: each byte as two upper-case digits
      followed by one space. */
  function SpacedHex(bs: seq<Byte>): string
  {
    if bs == [] then "" else SpacedHex(bs[..|bs| - 1]) + UpperPair(bs[|bs| - 1]) + " "
  }

  function LowerSpacedHex(bs: seq<Byte>): string
  {
    if bs == [] then "" else LowerSpacedHex(bs[..|bs| - 1]) + LowerPair(bs[|bs| - 1]) + " "
  }

  lemma {:induction false} UpperLowerSpacedHex(bs: seq<Byte>)
    ensures Upper(LowerSpacedHex(bs)) == SpacedHex(bs)
  {
    if bs != [] {
      var init := bs[..|bs| - 1];
      UpperLowerSpacedHex(init);
      UpperLowerPair(bs[|bs| - 1]);
      UpperAppend(LowerSpacedHex(init) + LowerPair(bs[|bs| - 1]), " ");
      UpperAppend(LowerSpacedHex(init), LowerPair(bs[|bs| - 1]));
    }
  }

  /** HexArr2Str: three characters per byte, two digits then a space. */
  lemma {:induction false} SpacedHexShape(bs: seq<Byte>, i: nat)
    requires i < |bs|
    ensures |SpacedHex(bs)| == 3 * |bs|
    ensures SpacedHex(bs)[3 * i..3 * i + 2] == UpperPair(bs[i])
    ensures SpacedHex(bs)[3 * i + 2] == ' '
  {
    var init := bs[..|bs| - 1];
    if i < |bs| - 1 {
      SpacedHexShape(init, i);
    } else if init != [] {
      SpacedHexShape(init, 0);
    }
  }

  method HexArrToStr(msg: seq<Byte>) returns (r: string)
    ensures r == SpacedHex(msg)
  {
    var ret := "";
    for i := 0 to |msg|
      invariant ret == LowerSpacedHex(msg[..i])
    {
      var temp := HexLower(msg[i]);
      if |temp| < 2 {
        temp := "0" + temp;
      }
      assert msg[..i + 1][..i] == msg[..i];
      ret := ret + temp + " ";
    }
    assert msg[..|msg|] == msg;
    r := Upper(ret);
    UpperLowerSpacedHex(msg);
  }

  /** HexArr2StrArr: one two-digit upper-case token per byte, reading back
      as that byte. */
  method HexArrToStrArr(msg: seq<Byte>) returns (r: seq<string>)
    ensures |r| == |msg|
    ensures forall i :: 0 <= i < |msg| ==>
      |r[i]| == 2 && AllUpperHexDigits(r[i]) && AllHexDigits(r[i]) && ParseHex(r[i]) == msg[i]
  {
    r := [];
    for i := 0 to |msg|
      invariant |r| == i
      invariant forall k :: 0 <= k < i ==> r[k] == UpperPair(msg[k])
    {
      var temp := HexLower(msg[i]);
      if |temp| < 2 {
        temp := "0" + temp;
      }
      assert temp == LowerPair(msg[i]);
      UpperLowerPair(msg[i]);
      r := r + [Upper(temp)];
    }
  }

  // ---------------------------------------------------------------------
  // Text to byte lists
  // ---------------------------------------------------------------------

  /** The text Str2HexArr parses: spaces removed, upper-cased, and padded
      on the right with '0' to an even length. */
  function NormalizedHex(s: string): (t: string)
    ensures |t| % 2 == 0
  {
    var u := Upper(RemoveSpaces(s));
    if |u| % 2 != 0 then u + "0" else u
  }

  /** Pair `k` of `t` is made of two hexadecimal digits. */
  predicate PairOk(t: string, k: nat) {
    2 * k + 1 < |t| && IsHexDigit(t[2 * k]) && IsHexDigit(t[2 * k + 1])
  }

  /** Byte `k` of a string of digit pairs. */
  function PairValue(t: string, k: nat): Byte
    requires PairOk(t, k)
  {
    16 * DigitValue(t[2 * k]) + DigitValue(t[2 * k + 1])
  }

  lemma AllHexDigitsPairs(t: string, k: nat)
    requires AllHexDigits(t) && 2 * k + 1 < |t|
    ensures PairOk(t, k)
  {
  }

  function PairValues(t: string): (r: seq<Byte>)
    requires |t| % 2 == 0 && AllHexDigits(t)
    ensures |r| == |t| / 2
  {
    seq(|t| / 2, k requires 0 <= k < |t| / 2 => AllHexDigitsPairs(t, k); PairValue(t, k))
  }

  /** The two characters at pair `k` ("" past the end). */
  function PairText(t: string, k: nat): (p: string)
    ensures 2 * k + 2 <= |t| ==> p == t[2 * k..2 * k + 2]
  {
    if 2 * k + 2 <= |t| then t[2 * k..2 * k + 2] else ""
  }

  /** Every pair of `t` is text `int(..., 16)` accepts. */
  predicate PairsParse(t: string) {
    forall k :: 0 <= k < |t| / 2 ==> PyInt(PairText(t, k), 16).Some?
  }

  /** `int(pair, 16)` of each pair of `t`; None where one of them raises
      ValueError. */
  function DecodePairs(t: string): Option<seq<int>>
  {
    if PairsParse(t) then Some(seq(|t| / 2, k requires 0 <= k < |t| / 2 => PyInt(PairText(t, k), 16).value))
    else None
  }

  /** Str2HexArr: the pairs of the normalized text, each read by
      `int(..., 16)`. */
  function DecodeHex(s: string): Option<seq<int>>
  {
    DecodePairs(NormalizedHex(s))
  }

  predicate AllBytes(vs: seq<int>) {
    forall i :: 0 <= i < |vs| ==> 0 <= vs[i] < 256
  }

  /** Str2HexArr's values when every one is a byte: what the frame
      functions take. */
  function DecodeBytes(s: string): Option<seq<Byte>>
  {
    var d := DecodeHex(s);
    if d.Some? && AllBytes(d.value) then Some(d.value) else None
  }

  /** Text that decodes but not to bytes holds a pair such as "-5" that
      gives a negative value; no pair gives more than 255. */
  lemma DecodeBytesNegative(s: string)
    requires DecodeHex(s).Some? && DecodeBytes(s).None?
    ensures exists i :: 0 <= i < |DecodeHex(s).value| && DecodeHex(s).value[i] < 0
  {
    var vs := DecodeHex(s).value;
    DecodeHexRange(s);
    assert !AllBytes(vs);
    var i :| 0 <= i < |vs| && !(0 <= vs[i] < 256);
    assert vs[i] in vs;
  }

  method StrToHexArr(s: string) returns (r: Option<seq<int>>)
    ensures r == DecodeHex(s)
  {
    var u := Upper(RemoveSpaces(s));
    var t := u;
    while |t| % 2 != 0
      invariant t == u || (t == u + "0" && |u| % 2 != 0)
      decreases |t| % 2
    {
      t := t + "0";
    }
    assert t == NormalizedHex(s);
    r := DecodePairs(t);
  }

  /** Text whose normalized form is all hexadecimal digits decodes pair by
      pair to bytes. */
  lemma DecodeHexOfDigits(s: string)
    requires AllHexDigits(NormalizedHex(s))
    ensures DecodeHex(s) == Some(PairValues(NormalizedHex(s)))
  {
    var t := NormalizedHex(s);
    forall k | 0 <= k < |t| / 2
      ensures PyInt(PairText(t, k), 16) == Some(PairValue(t, k) as int)
    {
      var p := PairText(t, k);
      assert p[0] == t[2 * k] && p[1] == t[2 * k + 1];
      PyIntHex(p);
      ParseHexTwo(p);
    }
    assert PairsParse(t);
    var v := seq(|t| / 2, k requires 0 <= k < |t| / 2 => PyInt(PairText(t, k), 16).value);
    assert v == PairValues(t);
  }

  /** One hexadecimal digit is at most 15, two at most 255. */
  lemma DigitsValueSmall(d: string)
    requires UnderscoredDigits(d, 16) && |d| <= 2
    ensures DigitsValue(d, 16) <= if |d| == 1 then 15 else 255
  {
    if |d| == 2 {
      assert d[..1][..0] == [];
      assert d[1] != '_';
      assert DigitsValue(d[..1], 16) == DigitValue(d[0]);
    } else {
      assert d[..0] == [];
    }
  }

  /** Two characters read by `int(..., 16)` give at least -15 (a sign and
      one digit) and at most 255 (two digits). */
  lemma PyIntPairRange(p: string)
    requires |p| == 2 && PyInt(p, 16).Some?
    ensures -15 <= PyInt(p, 16).value <= 255
  {
    IntStripShorter(p);
    StrippedPairRange(IntStrip(p));
  }

  /** The same bound on text already stripped. */
  lemma StrippedPairRange(t: string)
    requires |t| <= 2 && UnderscoredDigits(DigitsPart(t, 16), 16)
    ensures var v := DigitsValue(DigitsPart(t, 16), 16);
      -15 <= (if t[0] == '-' then -(v as int) else v) <= 255
  {
    var d := DigitsPart(t, 16);
    DigitsPartSuffix(t, 16);
    if t[0] == '-' || t[0] == '+' {
      assert d[0] != t[0];
      assert |d| < |t|;
    }
    DigitsValueSmall(d);
  }

  /** Every value Str2HexArr gives lies between -15 and 255; only a pair
      with a minus sign gives a negative one. */
  lemma DecodeHexRange(s: string)
    requires DecodeHex(s).Some?
    ensures forall v :: v in DecodeHex(s).value ==> -15 <= v <= 255
  {
    var t := NormalizedHex(s);
    forall k | 0 <= k < |t| / 2
      ensures -15 <= PyInt(PairText(t, k), 16).value <= 255
    {
      PyIntPairRange(PairText(t, k));
    }
  }

  /** The ASCII separators FS to US are not whitespace to `int()`: the
      text "\x1c5" is one piece, and Str2HexArr raises on it. */
  lemma DecodeHexRefusesSeparator()
    ensures DecodeHex("\U{1C}5").None?
  {
    var s := "\U{1C}5";
    RemoveSpacesNoSpace(s);
    assert Upper(s) == s;
    assert NormalizedHex(s) == s;
    assert PairText(s, 0) == s;
    PyIntRefusesSeparators(16);
  }

  /** Python reads more than hexadecimal digit pairs: a pair "-1" gives -1,
      "+5" gives 5, and a pair made of a line feed and the padding '0'
      gives 0, so "22F190\n" decodes to four values. */
  lemma DecodeHexLenient()
    ensures PyInt("-1", 16) == Some(-1) && PyInt("+5", 16) == Some(5)
    ensures PyInt("\n0", 16) == Some(0)
  {
    SignedPieces();
    SpacedPiece();
  }

  /** "-1" and "+5" as `int(..., 16)` reads them. */
  lemma SignedPieces()
    ensures PyInt("-1", 16) == Some(-1) && PyInt("+5", 16) == Some(5)
  {
    assert DigitsValue("1", 16) == 1 && DigitsValue("5", 16) == 5 by {
      assert "1"[..0] == [] && "5"[..0] == [];
    }
    assert "-1" == "-" + "1" && "+5" == "+" + "5";
    PyIntNegative("1", 16);
    PyIntPositive("5", 16);
  }

  /** "\n0" as `int(..., 16)` reads it. */
  lemma SpacedPiece()
    ensures PyInt("\n0", 16) == Some(0)
  {
    var lf, zero := "\n0", "0";
    assert DigitsValue(zero, 16) == 0 by {
      assert zero[..0] == [];
    }
    assert lf == ['\n'] + zero;
    assert IsIntSpace('\n');
    PyIntLeadingSpace('\n', zero, 16);
    assert PyInt(lf, 16) == PyInt(zero, 16);
    PyIntOfDigits(zero, 16);
  }

  /** Text of digit pairs without separators. */
  function PairsText(bs: seq<Byte>): string {
    if bs == [] then "" else PairsText(bs[..|bs| - 1]) + UpperPair(bs[|bs| - 1])
  }

  lemma {:induction false} PairsTextShape(bs: seq<Byte>)
    ensures |PairsText(bs)| == 2 * |bs|
    ensures AllUpperHexDigits(PairsText(bs)) && AllHexDigits(PairsText(bs))
    ensures forall i :: 0 <= i < |bs| ==> PairsText(bs)[2 * i..2 * i + 2] == UpperPair(bs[i])
  {
    if bs != [] {
      var init := bs[..|bs| - 1];
      PairsTextShape(init);
      var t := PairsText(bs);
      assert t == PairsText(init) + UpperPair(bs[|bs| - 1]);
      forall i | 0 <= i < |bs|
        ensures t[2 * i..2 * i + 2] == UpperPair(bs[i])
      {
        if i < |bs| - 1 {
          assert t[2 * i..2 * i + 2] == PairsText(init)[2 * i..2 * i + 2];
        }
      }
    }
  }

  lemma {:induction false} RemoveSpacesSpacedHex(bs: seq<Byte>)
    ensures RemoveSpaces(SpacedHex(bs)) == PairsText(bs)
  {
    if bs != [] {
      var init := bs[..|bs| - 1];
      var p := UpperPair(bs[|bs| - 1]);
      RemoveSpacesSpacedHex(init);
      RemoveSpacesAppend(SpacedHex(init) + p, " ");
      RemoveSpacesAppend(SpacedHex(init), p);
      RemoveSpacesNoSpace(p);
    }
  }

  lemma UpperOfUpperHex(t: string)
    requires AllUpperHexDigits(t)
    ensures Upper(t) == t
  {
  }

  lemma PairValuesOfPairsText(bs: seq<Byte>)
    ensures |PairsText(bs)| == 2 * |bs| && AllHexDigits(PairsText(bs))
    ensures PairValues(PairsText(bs)) == bs
  {
    PairsTextShape(bs);
    var t := PairsText(bs);
    var v := PairValues(t);
    forall i | 0 <= i < |bs|
      ensures v[i] == bs[i]
    {
      var p := t[2 * i..2 * i + 2];
      assert p == UpperPair(bs[i]);
      assert t[2 * i] == p[0] && t[2 * i + 1] == p[1];
      assert DigitValue(p[0]) == bs[i] / 16 && DigitValue(p[1]) == bs[i] % 16;
    }
  }

  /** Round trip: Str2HexArr(HexArr2Str(bs)) == bs for every byte list. */
  lemma DecodeSpacedHex(bs: seq<Byte>)
    ensures DecodeHex(SpacedHex(bs)) == Some(bs)
  {
    RemoveSpacesSpacedHex(bs);
    PairValuesOfPairsText(bs);
    PairsTextShape(bs);
    var t := PairsText(bs);
    UpperOfUpperHex(t);
    assert NormalizedHex(SpacedHex(bs)) == t;
    DecodeHexOfDigits(SpacedHex(bs));
  }

  /** StrArr2Int: `int(''.join(tokens), 16)`. */
  function StrArrToInt(tokens: seq<string>): Option<int>
  {
    PyInt(Concat(tokens), 16)
  }

  /** The big-endian value of a byte list. */
  function BigEndian(bs: seq<Byte>): nat {
    if bs == [] then 0 else 256 * BigEndian(bs[..|bs| - 1]) + bs[|bs| - 1]
  }

  lemma {:induction false} ParseHexAppend(a: string, b: string)
    requires AllHexDigits(a) && AllHexDigits(b) && |b| == 2
    ensures AllHexDigits(a + b) && ParseHex(a + b) == 256 * ParseHex(a) + ParseHex(b)
  {
    var s := a + b;
    var a' := a + [b[0]];
    assert s[..|s| - 1] == a' && s[|s| - 1] == b[1];
    assert a'[..|a'| - 1] == a && a'[|a'| - 1] == b[0];
    assert AllHexDigits(a');
    assert ParseHex(a') == 16 * ParseHex(a) + DigitValue(b[0]);
    ParseHexTwo(b);
  }

  lemma {:induction false} ParseHexPairsText(bs: seq<Byte>)
    ensures AllHexDigits(PairsText(bs)) && ParseHex(PairsText(bs)) == BigEndian(bs)
  {
    PairsTextShape(bs);
    if bs != [] {
      var init := bs[..|bs| - 1];
      ParseHexPairsText(init);
      ParseHexAppend(PairsText(init), UpperPair(bs[|bs| - 1]));
    }
  }

  function UpperPairs(bs: seq<Byte>): (r: seq<string>)
    ensures |r| == |bs| && forall i :: 0 <= i < |bs| ==> r[i] == UpperPair(bs[i])
  {
    if bs == [] then [] else UpperPairs(bs[..|bs| - 1]) + [UpperPair(bs[|bs| - 1])]
  }

  lemma {:induction false} ConcatAppend<T>(a: seq<seq<T>>, b: seq<T>)
    ensures Concat(a + [b]) == Concat(a) + b
  {
    if a != [] {
      assert (a + [b])[1..] == a[1..] + [b];
      ConcatAppend(a[1..], b);
    }
  }

  /** StrArr2Int of the tokens of HexArr2StrArr is the big-endian value of
      the bytes. */
  lemma StrArrToIntOfTokens(bs: seq<Byte>)
    requires bs != []
    ensures StrArrToInt(UpperPairs(bs)) == Some(BigEndian(bs))
  {
    ConcatUpperPairs(bs);
    ParseHexPairsText(bs);
    PairsTextShape(bs);
    PyIntHex(PairsText(bs));
  }

  lemma {:induction false} ConcatUpperPairs(bs: seq<Byte>)
    ensures Concat(UpperPairs(bs)) == PairsText(bs)
  {
    if bs != [] {
      ConcatUpperPairs(bs[..|bs| - 1]);
      ConcatAppend(UpperPairs(bs[..|bs| - 1]), UpperPair(bs[|bs| - 1]));
    }
  }

  /** Correct_Str_Hex: spaces removed, regrouped in pairs, upper-cased. */
  function CorrectStrHex(s: string): string {
    Upper(Join(SplitByNum(RemoveSpaces(s), 2), " "))
  }

  /** Regrouping keeps the characters: only the spaces move. */
  lemma CorrectStrHexKeepsText(s: string)
    ensures RemoveSpaces(CorrectStrHex(s)) == Upper(RemoveSpaces(s))
  {
    var t := RemoveSpaces(s);
    RemoveSpacesUpper(Join(SplitByNum(t, 2), " "));
    RemoveSpacesJoin(SplitByNum(t, 2));
    RemoveSpacesNoSpace(t);
  }

  // ---------------------------------------------------------------------
  // CAN FD data length
  // ---------------------------------------------------------------------

  /** The table of CAN FD payload sizes above eight bytes, as the code has
      it. Section 10.4.2.4 of ISO 11898-1:2015 lists 32 where this table
      has 36. */
  const DataSizes: seq<nat> := [12, 16, 20, 24, 36, 48, 64]

  /** The sizes section 10.4.2.4 of ISO 11898-1:2015 allows. */
  const IsoDataSizes: seq<nat> := [12, 16, 20, 24, 32, 48, 64]

  predicate Increasing(table: seq<nat>) {
    forall i, j :: 0 <= i < j < |table| ==> table[i] < table[j]
  }

  /** The first, hence smallest, entry of an increasing table that is at
      least `n`. */
  function SmallestFit(table: seq<nat>, n: nat): (r: nat)
    requires Increasing(table) && |table| > 0 && n <= table[|table| - 1]
    ensures r in table && r >= n
    ensures forall k :: 0 <= k < |table| && table[k] >= n ==> r <= table[k]
  {
    if n <= table[0] then table[0] else SmallestFit(table[1..], n)
  }

  /** Each entry is below the next one. */
  predicate StepsUp(table: seq<nat>) {
    forall i :: 0 <= i < |table| - 1 ==> table[i] < table[i + 1]
  }

  lemma {:induction false} StepsUpIncreasing(table: seq<nat>)
    requires StepsUp(table)
    ensures Increasing(table)
  {
    if |table| > 1 {
      var rest := table[1..];
      assert StepsUp(rest) by {
        forall i | 0 <= i < |rest| - 1
          ensures rest[i] < rest[i + 1]
        {
          assert rest[i] == table[i + 1] && rest[i + 1] == table[i + 2];
        }
      }
      StepsUpIncreasing(rest);
      forall i, j | 0 <= i < j < |table|
        ensures table[i] < table[j]
      {
        if i > 0 {
          assert table[i] == rest[i - 1] && table[j] == rest[j - 1];
        } else if j > 1 {
          assert table[1] == rest[0] && table[j] == rest[j - 1];
        }
      }
    }
  }

  lemma DataSizesIncreasing()
    ensures Increasing(DataSizes)
  {
    assert StepsUp(DataSizes);
    StepsUpIncreasing(DataSizes);
  }

  lemma IsoDataSizesIncreasing()
    ensures Increasing(IsoDataSizes)
  {
    assert StepsUp(IsoDataSizes);
    StepsUpIncreasing(IsoDataSizes);
  }

  /** The smallest fit is the entry at the first index that holds `n`. */
  lemma {:induction false} FitAt(table: seq<nat>, n: nat, i: nat)
    requires Increasing(table) && i < |table| && n <= table[i]
    requires forall k :: 0 <= k < i ==> table[k] < n
    ensures n <= table[|table| - 1]
    ensures SmallestFit(table, n) == table[i]
  {
    assert table[i] <= table[|table| - 1];
    if i > 0 {
      var rest := table[1..];
      assert table[0] < n;
      assert rest[i - 1] == table[i];
      forall k | 0 <= k < i - 1
        ensures rest[k] < n
      {
        assert rest[k] == table[k + 1];
      }
      FitAt(rest, n, i - 1);
    }
  }

  /** calculateLength_dlc on a list of length `n`. */
  function DlcLength(n: nat): (r: nat)
    ensures n <= 8 ==> r == n
    ensures n > 64 ==> r == 0xFF
    ensures 8 < n <= 64 ==> r in DataSizes && r >= n
    ensures 8 < n <= 64 ==> forall k :: 0 <= k < |DataSizes| && DataSizes[k] >= n ==> r <= DataSizes[k]
  {
    if n > 64 then 0xFF
    else if n <= 8 then n
    else DataSizesIncreasing(); SmallestFit(DataSizes, n)
  }

  lemma IsoFitDefined(n: nat)
    requires n <= 64
    ensures Increasing(IsoDataSizes) && n <= IsoDataSizes[|IsoDataSizes| - 1]
  {
    IsoDataSizesIncreasing();
  }

  method CalculateLengthDlc(arr: seq<int>) returns (r: nat)
    ensures r == DlcLength(|arr|)
  {
    var n := |arr|;
    if n > 64 {
      return 0xFF;
    } else if n <= 8 {
      return n;
    }
    DataSizesIncreasing();
    // the last size, 64, always fits, so the scan stops at the latest there
    for i := 0 to |DataSizes| - 1
      invariant forall k :: 0 <= k < i ==> DataSizes[k] < n
    {
      if n <= DataSizes[i] {
        FitAt(DataSizes, n, i);
        return DataSizes[i];
      }
    }
    FitAt(DataSizes, n, |DataSizes| - 1);
    return DataSizes[|DataSizes| - 1];
  }

  /** The entry DlcLength picks, range by range. */
  lemma DlcLengthRanges(n: nat)
    requires 8 < n <= 64
    ensures DlcLength(n) == (if n <= 12 then 12 else if n <= 16 then 16 else if n <= 20 then 20
      else if n <= 24 then 24 else if n <= 36 then 36 else if n <= 48 then 48 else 64)
  {
    DataRanges(n);
  }

  lemma DataRanges(n: nat)
    requires 8 < n <= 64
    ensures Increasing(DataSizes)
    ensures SmallestFit(DataSizes, n) == (if n <= 12 then 12 else if n <= 16 then 16 else if n <= 20 then 20
      else if n <= 24 then 24 else if n <= 36 then 36 else if n <= 48 then 48 else 64)
  {
    DataSizesIncreasing();
    var d := DataSizes;
    if n <= 12 {
      FitAt(d, n, 0);
    } else if n <= 16 {
      FitAt(d, n, 1);
    } else if n <= 20 {
      FitAt(d, n, 2);
    } else if n <= 24 {
      FitAt(d, n, 3);
    } else if n <= 36 {
      FitAt(d, n, 4);
    } else if n <= 48 {
      FitAt(d, n, 5);
    } else {
      FitAt(d, n, 6);
    }
  }

  /** The entry the standard's table gives, range by range. */
  lemma IsoRanges(n: nat)
    requires 8 < n <= 64
    ensures Increasing(IsoDataSizes)
    ensures SmallestFit(IsoDataSizes, n) == (if n <= 12 then 12 else if n <= 16 then 16 else if n <= 20 then 20
      else if n <= 24 then 24 else if n <= 32 then 32 else if n <= 48 then 48 else 64)
  {
    IsoDataSizesIncreasing();
    var o := IsoDataSizes;
    if n <= 12 {
      FitAt(o, n, 0);
    } else if n <= 16 {
      FitAt(o, n, 1);
    } else if n <= 20 {
      FitAt(o, n, 2);
    } else if n <= 24 {
      FitAt(o, n, 3);
    } else if n <= 32 {
      FitAt(o, n, 4);
    } else if n <= 48 {
      FitAt(o, n, 5);
    } else {
      FitAt(o, n, 6);
    }
  }

  /** The table differs from the standard exactly for 25 to 36 bytes. */
  lemma DlcLengthAgainstIso(n: nat)
    requires 8 < n <= 64
    ensures Increasing(IsoDataSizes)
    ensures DlcLength(n) == SmallestFit(IsoDataSizes, n) <==> !(24 < n <= 36)
  {
    DlcLengthRanges(n);
    IsoRanges(n);
  }

  lemma DlcLengthDivergence()
    ensures Increasing(IsoDataSizes)
    ensures DlcLength(30) == 36 && SmallestFit(IsoDataSizes, 30) == 32
  {
    DlcLengthAgainstIso(30);
    IsoFitDefined(30);
  }

  // ---------------------------------------------------------------------
  // add_padding and trim
  // ---------------------------------------------------------------------

  /** The padded frame: the input followed by copies of `pad` up to the
      CAN FD size (no copies when the input is already longer). */
  function Padded(arr: seq<int>, pad: int): seq<int> {
    var size := DlcLength(|arr|);
    arr + seq(if size > |arr| then size - |arr| else 0, _ => pad)
  }

  /** add_padding: None where `int(padding, 16)` raises. The input list is
      copied, never changed. */
  method AddPadding(arr: seq<int>, padding: string) returns (r: Option<seq<int>>)
    ensures r.None? <==> PyInt(padding, 16).None?
    ensures r.Some? ==> r.value == Padded(arr, PyInt(padding, 16).value)
  {
    var size := CalculateLengthDlc(arr);
    var pad := PyInt(padding, 16);
    if pad.None? {
      return None;
    }
    var outdata := arr;
    var count := if size > |arr| then size - |arr| else 0;
    outdata := outdata + seq(count, _ => pad.value);
    r := Some(outdata);
  }

  /** For frames of at most 64 bytes, padding reaches the CAN FD size,
      keeps the input as a prefix and adds only the padding byte. */
  lemma PaddedShape(arr: seq<int>, pad: int)
    requires |arr| <= 64
    ensures |Padded(arr, pad)| == DlcLength(|arr|)
    ensures Padded(arr, pad)[..|arr|] == arr
    ensures forall i :: |arr| <= i < |Padded(arr, pad)| ==> Padded(arr, pad)[i] == pad
  {
  }

  /** Above 64 bytes the size is 0xFF, so a frame of 65 to 255 bytes is
      padded up to 255 bytes. */
  lemma PaddedBeyond64(arr: seq<int>, pad: int)
    requires 64 < |arr| <= 0xFF
    ensures |Padded(arr, pad)| == 0xFF
  {
  }

  /** trim: clamp to whichever bounds exist, the lower one first. */
  function Trim(value: int, minVal: Option<int>, maxVal: Option<int>): int {
    var v := if minVal.Some? && minVal.value > value then minVal.value else value;
    if maxVal.Some? && maxVal.value < v then maxVal.value else v
  }

  lemma TrimProperties(value: int, minVal: Option<int>, maxVal: Option<int>)
    ensures minVal.None? && maxVal.None? ==> Trim(value, minVal, maxVal) == value
    ensures minVal.Some? && maxVal.Some? && minVal.value <= maxVal.value ==>
      minVal.value <= Trim(value, minVal, maxVal) <= maxVal.value
    ensures (minVal.None? || minVal.value <= value) && (maxVal.None? || value <= maxVal.value) ==>
      Trim(value, minVal, maxVal) == value
    ensures Trim(Trim(value, minVal, maxVal), minVal, maxVal) == Trim(value, minVal, maxVal)
  {
  }
}
