/** Value types shared by every module of the model: optional and error
    results, bytes, hexadecimal digits and the few string helpers
    (upper-casing, whitespace stripping, substring search) that the tool's
    Python code takes from its standard library. */
module Base {

  datatype Option<+T> = None | Some(value: T)

  datatype Result<+T, +E> = Ok(value: T) | Err(error: E)

  /** One octet, as the Python code keeps it in a list of ints or in `bytes`. */
  type Byte = b: int | 0 <= b < 256

  // ---------------------------------------------------------------------
  // Hexadecimal digits
  // ---------------------------------------------------------------------

  predicate IsHexDigit(c: char) {
    ('0' <= c <= '9') || ('a' <= c <= 'f') || ('A' <= c <= 'F')
  }

  predicate IsUpperHexDigit(c: char) {
    ('0' <= c <= '9') || ('A' <= c <= 'F')
  }

  predicate AllHexDigits(s: string) {
    forall i :: 0 <= i < |s| ==> IsHexDigit(s[i])
  }

  predicate AllUpperHexDigits(s: string) {
    forall i :: 0 <= i < |s| ==> IsUpperHexDigit(s[i])
  }

  /** The value of one hexadecimal digit, in either case. */
  function DigitValue(c: char): (v: nat)
    requires IsHexDigit(c)
    ensures v < 16
  {
    if '0' <= c <= '9' then (c as int) - ('0' as int)
    else if 'a' <= c <= 'f' then (c as int) - ('a' as int) + 10
    else (c as int) - ('A' as int) + 10
  }

  /** The lower-case digit Python's `hex()` writes for `v`. */
  function LowerDigit(v: nat): (c: char)
    requires v < 16
    ensures IsHexDigit(c) && DigitValue(c) == v
  {
    if v < 10 then ('0' as int + v) as char else ('a' as int + v - 10) as char
  }

  /** The upper-case digit `%X` and `.upper()` produce for `v`. */
  function UpperDigit(v: nat): (c: char)
    requires v < 16
    ensures IsHexDigit(c) && IsUpperHexDigit(c) && DigitValue(c) == v
  {
    if v < 10 then ('0' as int + v) as char else ('A' as int + v - 10) as char
  }

  // ---------------------------------------------------------------------
  // String helpers
  // ---------------------------------------------------------------------

  function UpperChar(c: char): char {
    if 'a' <= c <= 'z' then (c as int - 32) as char else c
  }

  /** `str.upper()` restricted to ASCII letters. */
  function Upper(s: string): (r: string)
    ensures |r| == |s|
    ensures forall i :: 0 <= i < |s| ==> r[i] == UpperChar(s[i])
  {
    seq(|s|, i requires 0 <= i < |s| => UpperChar(s[i]))
  }

  lemma UpperOfLowerDigit(v: nat)
    requires v < 16
    ensures UpperChar(LowerDigit(v)) == UpperDigit(v)
  {
  }

  /** `str.replace(' ', '')`. */
  function RemoveSpaces(s: string): (r: string)
    ensures |r| <= |s|
    ensures forall i :: 0 <= i < |r| ==> r[i] != ' '
  {
    if s == [] then []
    else if s[0] == ' ' then RemoveSpaces(s[1..])
    else [s[0]] + RemoveSpaces(s[1..])
  }

  lemma {:induction false} RemoveSpacesAppend(a: string, b: string)
    ensures RemoveSpaces(a + b) == RemoveSpaces(a) + RemoveSpaces(b)
  {
    if a == [] {
      assert a + b == b;
    } else {
      assert (a + b)[0] == a[0];
      assert (a + b)[1..] == a[1..] + b;
      RemoveSpacesAppend(a[1..], b);
    }
  }

  lemma RemoveSpacesNoSpace(s: string)
    requires forall i :: 0 <= i < |s| ==> s[i] != ' '
    ensures RemoveSpaces(s) == s
  {
    if s != [] {
      RemoveSpacesNoSpace(s[1..]);
    }
  }

  /** The characters for which `str.isspace()` holds: the ASCII controls
      TAB to CR and FS to US, the space, NEL, NO-BREAK SPACE, OGHAM SPACE
      MARK, the spaces U+2000 to U+200A, the line and paragraph
      separators, NARROW NO-BREAK SPACE, MEDIUM MATHEMATICAL SPACE and
      IDEOGRAPHIC SPACE. */
  predicate IsSpace(c: char) {
    var n := c as int;
    (9 <= n <= 13) || (28 <= n <= 32) || n == 0x85 || n == 0xA0 || n == 0x1680 ||
    (0x2000 <= n <= 0x200A) || n == 0x2028 || n == 0x2029 || n == 0x202F || n == 0x205F || n == 0x3000
  }

  /** The ASCII whitespace C's isspace knows (space, TAB, LF, VT, FF,
      CR), which `bytes.fromhex` skips. */
  predicate IsAsciiSpace(c: char) {
    c == ' ' || (9 <= c as int <= 13)
  }

  /** `str.lstrip()`. */
  function StripStart(s: string): string {
    if s != [] && IsSpace(s[0]) then StripStart(s[1..]) else s
  }

  /** `str.rstrip()`. */
  function StripEnd(s: string): string {
    if s != [] && IsSpace(s[|s| - 1]) then StripEnd(s[..|s| - 1]) else s
  }

  /** Stripping the start leaves a suffix that does not begin with
      whitespace. */
  lemma {:induction false} StripStartSuffix(s: string)
    ensures |StripStart(s)| <= |s| && StripStart(s) == s[|s| - |StripStart(s)|..]
    ensures StripStart(s) == [] || !IsSpace(StripStart(s)[0])
  {
    if s != [] && IsSpace(s[0]) {
      StripStartSuffix(s[1..]);
    }
  }

  /** Stripping the end leaves a prefix that does not end with whitespace. */
  lemma {:induction false} StripEndPrefix(s: string)
    ensures |StripEnd(s)| <= |s| && StripEnd(s) == s[..|StripEnd(s)|]
    ensures StripEnd(s) == [] || !IsSpace(StripEnd(s)[|StripEnd(s)| - 1])
  {
    if s != [] && IsSpace(s[|s| - 1]) {
      StripEndPrefix(s[..|s| - 1]);
    }
  }

  /** `str.strip()`: whitespace removed from both ends. */
  function Strip(s: string): (r: string)
  {
    StripEnd(StripStart(s))
  }

  /** Where `Strip(s)` starts inside `s`. */
  function StripOffset(s: string): nat
  {
    StripStartSuffix(s);
    |s| - |StripStart(s)|
  }

  /** A stripped string is a contiguous piece of its input with no
      whitespace at either end. */
  lemma StripIsTrimmedSlice(s: string)
    ensures StripOffset(s) + |Strip(s)| <= |s|
    ensures Strip(s) == s[StripOffset(s)..StripOffset(s) + |Strip(s)|]
    ensures Strip(s) == [] || (!IsSpace(Strip(s)[0]) && !IsSpace(Strip(s)[|Strip(s)| - 1]))
  {
    var t := StripStart(s);
    var r := StripEnd(t);
    var a := |s| - |t|;
    StripStartSuffix(s);
    StripEndPrefix(t);
    assert r == t[..|r|];
    assert r == s[a..a + |r|];
  }

  lemma StripIdempotent(s: string)
    ensures Strip(Strip(s)) == Strip(s)
  {
    var r := Strip(s);
    StripIsTrimmedSlice(s);
    if r != [] {
      assert StripStart(r) == r;
      assert StripEnd(r) == r;
    }
  }

  /** The whitespace `int()` skips around its text: TAB to CR, the space,
      and the non-ASCII characters of `IsSpace`. The separators FS to US
      are whitespace to `str.strip()`, but `int()` keeps ASCII as it is and
      skips only C's isspace set, so it refuses them. */
  predicate IsIntSpace(c: char) {
    IsSpace(c) && !(28 <= c as int <= 31)
  }

  function IntStripStart(s: string): string {
    if s != [] && IsIntSpace(s[0]) then IntStripStart(s[1..]) else s
  }

  function IntStripEnd(s: string): string {
    if s != [] && IsIntSpace(s[|s| - 1]) then IntStripEnd(s[..|s| - 1]) else s
  }

  /** The text `int()` reads once its surrounding whitespace is skipped. */
  function IntStrip(s: string): string {
    IntStripEnd(IntStripStart(s))
  }

  /** Text with no whitespace at either end is its own strip, for
      `str.strip()` and for `int()` alike. */
  lemma StripUnspaced(t: string)
    requires t != [] && !IsSpace(t[0]) && !IsSpace(t[|t| - 1])
    ensures Strip(t) == t && IntStrip(t) == t
  {
    assert StripStart(t) == t;
    assert IntStripStart(t) == t;
  }

  predicate IsPrefix(p: string, s: string) {
    |p| <= |s| && s[..|p|] == p
  }

  /** Python's `sub in s`. */
  predicate Contains(s: string, sub: string)
    decreases |s|
  {
    IsPrefix(sub, s) || (s != [] && Contains(s[1..], sub))
  }

  lemma ContainsEmpty(s: string)
    ensures Contains(s, "")
  {
  }

  // ---------------------------------------------------------------------
  // int(text, base)
  // ---------------------------------------------------------------------

  predicate IsDigit(c: char) {
    '0' <= c <= '9'
  }

  /** A digit of `base` (2, 8, 10 or 16), letters in either case. */
  predicate IsDigitIn(c: char, base: nat) {
    IsHexDigit(c) && DigitValue(c) < base
  }

  predicate AllDigitsIn(s: string, base: nat) {
    forall i :: 0 <= i < |s| ==> IsDigitIn(s[i], base)
  }

  predicate DigitsOrUnderscores(d: string, base: nat) {
    forall i :: 0 <= i < |d| ==> d[i] == '_' || IsDigitIn(d[i], base)
  }

  /** What `int()` accepts after the sign and the prefix: a digit first,
      and every underscore followed by a digit. */
  predicate UnderscoredDigits(d: string, base: nat) {
    d != [] && IsDigitIn(d[0], base) && DigitsOrUnderscores(d, base) &&
    forall i :: 0 <= i < |d| && d[i] == '_' ==> i + 1 < |d| && IsDigitIn(d[i + 1], base)
  }

  /** The value of digits in `base`, most significant first; underscores
      carry no value. */
  function DigitsValue(d: string, base: nat): nat
    requires DigitsOrUnderscores(d, base)
  {
    if d == [] then 0
    else if d[|d| - 1] == '_' then DigitsValue(d[..|d| - 1], base)
    else base * DigitsValue(d[..|d| - 1], base) + DigitValue(d[|d| - 1])
  }

  /** '0' and the letter of `base` in either case: x for 16, o for 8, b
      for 2; base 10 has none. */
  predicate HasBasePrefix(u: string, base: nat) {
    |u| >= 2 && u[0] == '0' &&
    ((base == 16 && (u[1] == 'x' || u[1] == 'X')) ||
     (base == 8 && (u[1] == 'o' || u[1] == 'O')) ||
     (base == 2 && (u[1] == 'b' || u[1] == 'B')))
  }

  /** The digits part of stripped text: after an optional sign, and after
      the base's prefix and at most one underscore following it. */
  function DigitsPart(t: string, base: nat): string {
    var u := if t != [] && (t[0] == '-' || t[0] == '+') then t[1..] else t;
    if HasBasePrefix(u, base) then (if |u| >= 3 && u[2] == '_' then u[3..] else u[2..]) else u
  }

  /** The digits part is what is left at the end of the text. */
  lemma DigitsPartSuffix(t: string, base: nat)
    ensures |DigitsPart(t, base)| <= |t| && DigitsPart(t, base) == t[|t| - |DigitsPart(t, base)|..]
  {
  }

  /** Python's `int(text, base)` on a str, for base 2, 8, 10 or 16:
      surrounding whitespace (`IsIntSpace`) is ignored, a sign may come first, then the
      base's own prefix, then digits with single underscores between
      them; None where it raises ValueError. */
  function PyInt(text: string, base: nat): Option<int>
  {
    var t := IntStrip(text);
    var d := DigitsPart(t, base);
    if !UnderscoredDigits(d, base) then None
    else if t[0] == '-' then Some(-(DigitsValue(d, base) as int))
    else Some(DigitsValue(d, base))
  }

  /** Plain digits are read as their value. */
  lemma PyIntOfDigits(d: string, base: nat)
    requires d != [] && AllDigitsIn(d, base)
    ensures PyInt(d, base) == Some(DigitsValue(d, base))
  {
    StripUnspaced(d);
    assert d[0] != '-' && d[0] != '+' by {
      assert IsDigitIn(d[0], base);
    }
    assert !HasBasePrefix(d, base) by {
      if |d| >= 2 {
        assert IsDigitIn(d[1], base);
      }
    }
    assert DigitsPart(d, base) == d;
    assert UnderscoredDigits(d, base);
  }

  /** A minus sign before plain digits negates their value. */
  lemma PyIntNegative(d: string, base: nat)
    requires d != [] && AllDigitsIn(d, base)
    ensures PyInt("-" + d, base) == Some(-(DigitsValue(d, base) as int))
  {
    var t := "-" + d;
    StripUnspaced(t);
    assert t[1..] == d;
    assert !HasBasePrefix(d, base) by {
      if |d| >= 2 {
        assert IsDigitIn(d[1], base);
      }
    }
    assert DigitsPart(t, base) == d;
    assert UnderscoredDigits(d, base);
  }

  /** A plus sign before plain digits changes nothing. */
  lemma PyIntPositive(d: string, base: nat)
    requires d != [] && AllDigitsIn(d, base)
    ensures PyInt("+" + d, base) == Some(DigitsValue(d, base))
  {
    var t := "+" + d;
    StripUnspaced(t);
    assert t[1..] == d;
    assert !HasBasePrefix(d, base) by {
      if |d| >= 2 {
        assert IsDigitIn(d[1], base);
      }
    }
    assert DigitsPart(t, base) == d;
    assert UnderscoredDigits(d, base);
  }

  /** Leading whitespace is ignored; a leading character that is neither
      `int()`'s whitespace, a sign nor a digit makes the text an error. */
  lemma PyIntLeadingSpace(c: char, s: string, base: nat)
    ensures IsIntSpace(c) ==> PyInt([c] + s, base) == PyInt(s, base)
    ensures !IsIntSpace(c) && !IsHexDigit(c) && c != '-' && c != '+' ==> PyInt([c] + s, base).None?
  {
    var u := [c] + s;
    assert u[1..] == s;
    if !IsIntSpace(c) {
      assert IntStripStart(u) == u;
      IntStripEndPrefix(u);
    }
  }

  /** The base's prefix before plain digits is skipped. */
  lemma PyIntPrefixed(t: string, base: nat)
    requires HasBasePrefix(t, base) && |t| > 2 && AllDigitsIn(t[2..], base)
    ensures PyInt(t, base) == Some(DigitsValue(t[2..], base))
  {
    assert IsDigitIn(t[2..][|t| - 3], base);
    StripUnspaced(t);
  }

  /** Stripping for `int()` leaves a suffix, then a prefix of it. */
  lemma {:induction false} IntStripStartSuffix(s: string)
    ensures |IntStripStart(s)| <= |s| && IntStripStart(s) == s[|s| - |IntStripStart(s)|..]
  {
    if s != [] && IsIntSpace(s[0]) {
      IntStripStartSuffix(s[1..]);
    }
  }

  lemma {:induction false} IntStripEndPrefix(s: string)
    ensures |IntStripEnd(s)| <= |s| && IntStripEnd(s) == s[..|IntStripEnd(s)|]
  {
    if s != [] && IsIntSpace(s[|s| - 1]) {
      IntStripEndPrefix(s[..|s| - 1]);
    }
  }

  lemma IntStripShorter(s: string)
    ensures |IntStrip(s)| <= |s|
  {
    IntStripStartSuffix(s);
    IntStripEndPrefix(IntStripStart(s));
  }

  /** Text that `str.strip()` leaves alone, `int()` leaves alone too. */
  lemma IntStripStripped(t: string)
    requires Strip(t) == t
    ensures IntStrip(t) == t
  {
    if t != [] {
      StripIsTrimmedSlice(t);
      StripUnspaced(t);
    }
  }

  /** Where `int()`'s strip stops at a character that is no whitespace at
      all, `str.lstrip()` stops there too. */
  lemma {:induction false} StripStartAgrees(s: string)
    requires IntStripStart(s) != [] && !IsSpace(IntStripStart(s)[0])
    ensures StripStart(s) == IntStripStart(s)
  {
    if s != [] && IsIntSpace(s[0]) {
      StripStartAgrees(s[1..]);
    }
  }

  lemma {:induction false} StripEndAgrees(s: string)
    requires IntStripEnd(s) != [] && !IsSpace(IntStripEnd(s)[|IntStripEnd(s)| - 1])
    ensures StripEnd(s) == IntStripEnd(s)
  {
    if s != [] && IsIntSpace(s[|s| - 1]) {
      StripEndAgrees(s[..|s| - 1]);
    }
  }

  /** Text `int()` accepts is unchanged by a `str.strip()` first: its ends
      are a sign or digits, and the whitespace around them is whitespace
      to both. (The converse fails: see `PyIntRefusesSeparators`.) */
  lemma PyIntStrip(s: string, base: nat)
    ensures PyInt(s, base).Some? ==> PyInt(Strip(s), base) == PyInt(s, base)
  {
    var u := IntStripStart(s);
    var t := IntStrip(s);
    var d := DigitsPart(t, base);
    if PyInt(s, base).Some? {
      assert UnderscoredDigits(d, base);
      IntStripEndPrefix(u);
      assert t != [] && u[0] == t[0];
      assert !IsSpace(t[0]) by {
        assert t[0] == '-' || t[0] == '+' || IsHexDigit(t[0]);
      }
      DigitsPartSuffix(t, base);
      assert t[|t| - 1] == d[|d| - 1];
      assert IsDigitIn(d[|d| - 1], base);
      StripStartAgrees(s);
      StripEndAgrees(u);
      assert Strip(s) == t;
      StripUnspaced(t);
    }
  }

  /** The ASCII separators FS to US are stripped by `str.strip()` but
      refused by `int()`. */
  lemma PyIntRefusesSeparators(base: nat)
    requires base == 10 || base == 16
    ensures PyInt("\U{1C}5", base).None? && PyInt(Strip("\U{1C}5"), base) == Some(5)
  {
    var fs := "\U{1C}5";
    var five := "5";
    assert fs == ['\U{1C}'] + five;
    PyIntLeadingSpace('\U{1C}', five, base);
    assert fs[1..] == five;
    assert StripStart(five) == five;
    assert StripStart(fs) == five;
    assert Strip(fs) == five;
    assert DigitsValue(five, base) == 5 by {
      assert five[..0] == [];
    }
    PyIntOfDigits(five, base);
  }

  /** Underscores between digits do not change the value. */
  lemma {:induction false} DigitsValueUnderscore(a: string, b: string, base: nat)
    requires DigitsOrUnderscores(a, base) && DigitsOrUnderscores(b, base)
    ensures DigitsValue(a + "_" + b, base) == DigitsValue(a + b, base)
    decreases |b|
  {
    if b == [] {
      assert (a + "_" + b)[..|a|] == a && a + b == a;
    } else {
      var b' := b[..|b| - 1];
      assert (a + "_" + b)[..|a + "_" + b| - 1] == a + "_" + b';
      assert (a + b)[..|a + b| - 1] == a + b';
      DigitsValueUnderscore(a, b', base);
    }
  }
}
