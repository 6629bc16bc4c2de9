/** The line filters of COMMON/Find_lines_with_Substrings.py. A file is
    given as the sequence of its lines, each with whatever line ending it
    has; a kept line is stripped and split on single spaces. */
module LineFilters {
  import opened Base
  import opened Cast

  // ---------------------------------------------------------------------
  // `line.strip().split(" ")`
  // ---------------------------------------------------------------------

  /** The index of the first space. */
  function FirstSpace(s: string): (i: nat)
    requires ' ' in s
    ensures i < |s| && s[i] == ' ' && ' ' !in s[..i]
  {
    if s[0] == ' ' then 0
    else
      var i := FirstSpace(s[1..]);
      assert s[..i + 1] == [s[0]] + s[1..][..i];
      i + 1
  }

  /** Python's `s.split(" ")`: the pieces between single spaces, empty
      pieces included, and `[""]` for the empty string. */
  function SplitSpaces(s: string): (r: seq<string>)
    ensures |r| >= 1
    decreases |s|
  {
    if ' ' !in s then [s]
    else
      var i := FirstSpace(s);
      [s[..i]] + SplitSpaces(s[i + 1..])
  }

  /** The fields of a kept line. */
  function Fields(line: string): seq<string> {
    SplitSpaces(Strip(line))
  }

  /** Splitting and joining with single spaces undo each other: the pieces
      hold no space and join back to the text. */
  lemma {:induction false} SplitSpacesJoin(s: string)
    ensures Join(SplitSpaces(s), " ") == s
    ensures forall k | 0 <= k < |SplitSpaces(s)| :: ' ' !in SplitSpaces(s)[k]
    decreases |s|
  {
    if ' ' in s {
      var i := FirstSpace(s);
      var rest := SplitSpaces(s[i + 1..]);
      SplitSpacesJoin(s[i + 1..]);
      assert ([s[..i]] + rest)[1..] == rest;
      assert s == s[..i] + " " + s[i + 1..];
    }
  }

  /** Joining pieces without spaces and splitting again gives the pieces
      back. */
  lemma {:induction false} JoinSplitSpaces(pieces: seq<string>)
    requires |pieces| >= 1 && forall k | 0 <= k < |pieces| :: ' ' !in pieces[k]
    ensures SplitSpaces(Join(pieces, " ")) == pieces
    decreases |pieces|
  {
    if |pieces| > 1 {
      var head := pieces[0];
      var tail := Join(pieces[1..], " ");
      var s := head + " " + tail;
      JoinSplitSpaces(pieces[1..]);
      assert s[|head|] == ' ';
      assert s[..|head|] == head;
      assert FirstSpace(s) == |head|;
      assert s[|head| + 1..] == tail;
      assert pieces == [head] + pieces[1..];
    }
  }

  /** A kept line's fields join back to the stripped line. */
  lemma FieldsRejoin(line: string)
    ensures Join(Fields(line), " ") == Strip(line)
  {
    SplitSpacesJoin(Strip(line));
  }

  // ---------------------------------------------------------------------
  // Which lines are kept
  // ---------------------------------------------------------------------

  /** Every substring occurs in the line (`all(sub in line for sub in subs)`). */
  predicate HasAll(line: string, subs: seq<string>) {
    forall k | 0 <= k < |subs| :: Contains(line, subs[k])
  }

  /** Python's `line[:n]`: the first n characters, or the whole line when
      it is shorter. */
  function Head(line: string, n: nat): string {
    if n <= |line| then line[..n] else line
  }

  /** The test of find_lines_begin_with_substring. */
  predicate BeginsWith(line: string, sub: string) {
    Head(line, |sub|) == sub
  }

  /** The slice test is exactly a prefix test, and a line that begins with
      the text also contains it. */
  lemma BeginsWithIsPrefix(line: string, sub: string)
    ensures BeginsWith(line, sub) <==> IsPrefix(sub, line)
    ensures BeginsWith(line, sub) ==> HasAll(line, [sub])
  {
    if |sub| > |line| {
      assert Head(line, |sub|) != sub by {
        assert |Head(line, |sub|)| < |sub|;
      }
    }
    if IsPrefix(sub, line) && line != [] {
      assert Contains(line, sub);
    }
  }

  /** The test of find_lines_with_substrings. */
  function WithAll(subs: seq<string>): string -> bool {
    line => HasAll(line, subs)
  }

  /** The test of find_lines_begin_with_substring. */
  function Beginning(sub: string): string -> bool {
    line => BeginsWith(line, sub)
  }

  /** The fields of the lines that pass `keep`, in file order. */
  function Kept(lines: seq<string>, keep: string -> bool): seq<seq<string>> {
    if lines == [] then []
    else
      var line := lines[|lines| - 1];
      Kept(lines[..|lines| - 1], keep) + (if keep(line) then [Fields(line)] else [])
  }

  /** find_lines_with_substrings. */
  method FindLinesWithSubstrings(lines: seq<string>, subs: seq<string>) returns (matching: seq<seq<string>>)
    ensures matching == Kept(lines, WithAll(subs))
  {
    matching := [];
    for i := 0 to |lines|
      invariant matching == Kept(lines[..i], WithAll(subs))
    {
      assert lines[..i + 1][..i] == lines[..i];
      var line := lines[i];
      if HasAll(line, subs) {
        matching := matching + [SplitSpaces(Strip(line))];
      }
    }
    assert lines[..|lines|] == lines;
  }

  /** find_lines_begin_with_substring. */
  method FindLinesBeginWithSubstring(lines: seq<string>, sub: string) returns (matching: seq<seq<string>>)
    ensures matching == Kept(lines, Beginning(sub))
  {
    matching := [];
    for i := 0 to |lines|
      invariant matching == Kept(lines[..i], Beginning(sub))
    {
      assert lines[..i + 1][..i] == lines[..i];
      var line := lines[i];
      if Head(line, |sub|) == sub {
        matching := matching + [SplitSpaces(Strip(line))];
      }
    }
    assert lines[..|lines|] == lines;
  }

  /** Filtering a file is filtering its parts and concatenating: kept
      lines keep their order. */
  lemma {:induction false} KeptAppend(a: seq<string>, b: seq<string>, keep: string -> bool)
    ensures Kept(a + b, keep) == Kept(a, keep) + Kept(b, keep)
  {
    if b == [] {
      assert a + b == a;
    } else {
      var init := b[..|b| - 1];
      KeptAppend(a, init, keep);
      assert (a + b)[..|a + b| - 1] == a + init;
    }
  }

  /** Exactly the fields of lines that pass the test are kept. */
  lemma {:induction false} KeptContents(lines: seq<string>, keep: string -> bool)
    ensures forall f :: f in Kept(lines, keep) <==>
      exists i :: 0 <= i < |lines| && keep(lines[i]) && f == Fields(lines[i])
  {
    if lines != [] {
      var init := lines[..|lines| - 1];
      KeptContents(init, keep);
      assert forall i | 0 <= i < |init| :: init[i] == lines[i];
    }
  }

  /** With no substrings to look for every line is kept. */
  lemma {:induction false} KeptWithoutSubstrings(lines: seq<string>)
    ensures Kept(lines, WithAll([])) == seq(|lines|, i requires 0 <= i < |lines| => Fields(lines[i]))
  {
    if lines != [] {
      KeptWithoutSubstrings(lines[..|lines| - 1]);
    }
  }

  // ---------------------------------------------------------------------
  // find_idx_with_substrings
  // ---------------------------------------------------------------------

  /** One past the index of the last line holding every substring, 0 when
      none does. */
  function LastMatch(lines: seq<string>, subs: seq<string>): nat {
    if lines == [] then 0
    else if HasAll(lines[|lines| - 1], subs) then |lines|
    else LastMatch(lines[..|lines| - 1], subs)
  }

  method FindIdxWithSubstrings(lines: seq<string>, subs: seq<string>) returns (r: nat)
    ensures r == LastMatch(lines, subs)
  {
    r := 0;
    for i := 0 to |lines|
      invariant r == LastMatch(lines[..i], subs)
    {
      assert lines[..i + 1][..i] == lines[..i];
      if HasAll(lines[i], subs) {
        r := i + 1;
      }
    }
    assert lines[..|lines|] == lines;
  }

  /** The result is at most the number of lines; when positive the line
      before it matches and no later line does; it is 0 exactly when no
      line matches. */
  lemma {:induction false} LastMatchMeaning(lines: seq<string>, subs: seq<string>)
    ensures LastMatch(lines, subs) <= |lines|
    ensures LastMatch(lines, subs) > 0 ==> HasAll(lines[LastMatch(lines, subs) - 1], subs)
    ensures forall j | LastMatch(lines, subs) <= j < |lines| :: !HasAll(lines[j], subs)
    ensures LastMatch(lines, subs) == 0 <==> forall j | 0 <= j < |lines| :: !HasAll(lines[j], subs)
  {
    if lines != [] && !HasAll(lines[|lines| - 1], subs) {
      var init := lines[..|lines| - 1];
      LastMatchMeaning(init, subs);
      assert forall j | 0 <= j < |init| :: init[j] == lines[j];
    }
  }
}
