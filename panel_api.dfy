/** The script splitter of the panel API (backend/panel_api.py,
    `_split_commands`): a block body is cut at every `;` that is neither
    inside a quoted string nor inside braces, and the stripped, non-empty
    pieces are the commands. */
module PanelApi {
  import opened Base

  // ---------------------------------------------------------------------
  // The scanner state, as a specification
  // ---------------------------------------------------------------------

  /** Brace depth and the quote that opened the string being read, if
      any; `quote` stands for the pair `in_string`/`string_char`. */
  datatype Scan = Scan(depth: nat, quote: Option<char>)

  predicate IsQuote(c: char) {
    c == '"' || c == '\''
  }

  /** The scanner after one more character `c`; `escaped` says whether
      the character before `c` was a backslash. */
  function Step(s: Scan, escaped: bool, c: char): Scan {
    if s.quote.Some? then
      if c == s.quote.value && !escaped then Scan(s.depth, None) else s
    else if IsQuote(c) then Scan(s.depth, Some(c))
    else if c == '{' then Scan(s.depth + 1, None)
    else if c == '}' then Scan(if s.depth == 0 then 0 else s.depth - 1, None)
    else s
  }

  /** Whether the character before position `i` is a backslash. */
  predicate EscapedAt(body: string, i: nat)
    requires i <= |body|
  {
    i >= 1 && body[i - 1] == '\\'
  }

  /** The scanner state before reading `body[i]`. */
  function StateAt(body: string, i: nat): Scan
    requires i <= |body|
  {
    if i == 0 then Scan(0, None) else Step(StateAt(body, i - 1), EscapedAt(body, i - 1), body[i - 1])
  }

  /** `body[i]` is a top-level `;`: outside strings and at depth 0. */
  predicate IsSplit(body: string, i: nat)
    requires i < |body|
  {
    StateAt(body, i).quote.None? && StateAt(body, i).depth == 0 && body[i] == ';'
  }

  /** For each position of `body`, whether it is a top-level `;`. */
  function SplitMarks(body: string): (marks: seq<bool>)
    ensures |marks| == |body|
  {
    seq(|body|, k requires 0 <= k < |body| => IsSplit(body, k))
  }

  /** The pieces of `body[..i]` closed by a marked position, and the
      piece still open. */
  datatype Cut = Cut(done: seq<string>, open: string)

  function CutAt(body: string, marks: seq<bool>, i: nat): Cut
    requires |marks| == |body| && i <= |body|
  {
    if i == 0 then Cut([], [])
    else
      var c := CutAt(body, marks, i - 1);
      if marks[i - 1] then Cut(c.done + [c.open], []) else Cut(c.done, c.open + [body[i - 1]])
  }

  /** The raw pieces of `body` between top-level semicolons; there is
      always at least one, possibly empty. */
  function Pieces(body: string): (r: seq<string>)
    ensures |r| >= 1
  {
    var c := CutAt(body, SplitMarks(body), |body|);
    c.done + [c.open]
  }

  /** What one piece contributes: its stripped text unless that is empty. */
  function Command(piece: string): (r: seq<string>)
    ensures |r| <= 1
  {
    var s := Strip(piece);
    if s == [] then [] else [s]
  }

  /** The stripped pieces that are not empty, in order. */
  function Keep(pieces: seq<string>): seq<string> {
    if pieces == [] then [] else Keep(pieces[..|pieces| - 1]) + Command(pieces[|pieces| - 1])
  }

  /** What `_split_commands(body)` returns. */
  function Commands(body: string): seq<string> {
    Keep(Pieces(body))
  }

  /** Keeping one more piece keeps its stripped text when that is not empty. */
  lemma KeepSnoc(pieces: seq<string>, piece: string)
    ensures Keep(pieces + [piece]) == Keep(pieces) + Command(piece)
  {
    assert (pieces + [piece])[..|pieces|] == pieces;
  }

  /** The commands found and the open piece after reading `body[..i]`. */
  datatype Progress = Progress(commands: seq<string>, current: string)

  /** The splitter's progress, one character at a time. */
  function ProgressAt(body: string, i: nat): Progress
    requires i <= |body|
  {
    if i == 0 then Progress([], [])
    else
      var p := ProgressAt(body, i - 1);
      if IsSplit(body, i - 1) then Progress(p.commands + Command(p.current), [])
      else Progress(p.commands, p.current + [body[i - 1]])
  }

  /** The progress holds the kept closed pieces and the open piece. */
  lemma {:induction false} ProgressKeeps(body: string, i: nat)
    requires i <= |body|
    ensures var c := CutAt(body, SplitMarks(body), i);
      ProgressAt(body, i) == Progress(Keep(c.done), c.open)
  {
    if i > 0 {
      var marks := SplitMarks(body);
      ProgressKeeps(body, i - 1);
      Advance(body, i - 1);
      assert marks[i - 1] == IsSplit(body, i - 1);
      var c := CutAt(body, marks, i - 1);
      if marks[i - 1] {
        KeepSnoc(c.done, c.open);
      }
    }
  }


  /** Once the whole body is read, the open piece is the last one. */
  lemma ProgressEnd(body: string)
    ensures var p := ProgressAt(body, |body|);
      Commands(body) == p.commands + Command(p.current)
  {
    ProgressKeeps(body, |body|);
    var c := CutAt(body, SplitMarks(body), |body|);
    KeepSnoc(c.done, c.open);
  }

  // ---------------------------------------------------------------------
  // The splitter
  // ---------------------------------------------------------------------

  /** Reading `body[i]` takes one scanner step and either closes the open
      piece or grows it. */
  lemma Advance(body: string, i: nat)
    requires i < |body|
    ensures StateAt(body, i + 1) == Step(StateAt(body, i), EscapedAt(body, i), body[i])
    ensures var p := ProgressAt(body, i);
      ProgressAt(body, i + 1) ==
        if IsSplit(body, i) then Progress(p.commands + Command(p.current), [])
        else Progress(p.commands, p.current + [body[i]])
  {
  }

  /** One character of _split_commands' scanner: the new depth and quote,
      and whether the character ends a command. */
  method ScanChar(depth: nat, quote: Option<char>, prev: Option<char>, c: char)
    returns (depth': nat, quote': Option<char>, ends: bool)
    ensures Scan(depth', quote') == Step(Scan(depth, quote), prev == Some('\\'), c)
    ensures ends <==> quote.None? && depth == 0 && c == ';'
  {
    depth', quote', ends := depth, quote, false;
    // A character inside a string or a quote never ends a command.
    if quote.Some? {
      if c == quote.value && prev != Some('\\') {
        quote' := None;
      }
    } else if IsQuote(c) {
      quote' := Some(c);
    } else {
      if c == '{' {
        depth' := depth + 1;
      } else if c == '}' {
        depth' := if depth == 0 then 0 else depth - 1;
      }
      ends := c == ';' && depth' == 0;
    }
  }

  /** The open piece is stripped and, unless empty, appended as a command. */
  method Flush(commands: seq<string>, current: string) returns (r: seq<string>)
    ensures r == commands + Command(current)
  {
    r := commands;
    var command := Strip(current);
    if command != [] {
      r := r + [command];
    }
  }

  /** _split_commands, character by character. */
  method SplitCommands(body: string) returns (commands: seq<string>)
    ensures commands == Commands(body)
  {
    commands := [];
    var current: string := [];
    var depth: nat := 0;
    var quote: Option<char> := None;
    var prev: Option<char> := None;
    var i := 0;
    while i < |body|
      invariant 0 <= i <= |body|
      invariant Scan(depth, quote) == StateAt(body, i)
      invariant prev == if i == 0 then None else Some(body[i - 1])
      invariant Progress(commands, current) == ProgressAt(body, i)
    {
      var c := body[i];
      var ends;
      assert EscapedAt(body, i) <==> prev == Some('\\');
      Advance(body, i);
      depth, quote, ends := ScanChar(depth, quote, prev, c);
      assert ends == IsSplit(body, i);
      if ends {
        commands := Flush(commands, current);
        current := [];
      } else {
        current := current + [c];
      }
      prev := Some(c);
      i := i + 1;
    }
    ProgressEnd(body);
    commands := Flush(commands, current);
  }

  // ---------------------------------------------------------------------
  // What the commands are
  // ---------------------------------------------------------------------

  /** Every command is non-empty and already stripped, and there are no
      more commands than pieces. */
  lemma {:induction false} KeepStripped(pieces: seq<string>)
    ensures |Keep(pieces)| <= |pieces|
    ensures forall k :: 0 <= k < |Keep(pieces)| ==> Keep(pieces)[k] != [] && Strip(Keep(pieces)[k]) == Keep(pieces)[k]
  {
    if pieces != [] {
      KeepStripped(pieces[..|pieces| - 1]);
      StripIdempotent(pieces[|pieces| - 1]);
    }
  }

  /** Pieces joined back with `;`. */
  function Join(pieces: seq<string>): string
    requires |pieces| >= 1
  {
    if |pieces| == 1 then pieces[0] else Join(pieces[..|pieces| - 1]) + [';'] + pieces[|pieces| - 1]
  }

  lemma JoinSnoc(pieces: seq<string>, piece: string)
    requires |pieces| >= 1
    ensures Join(pieces + [piece]) == Join(pieces) + [';'] + piece
  {
    assert (pieces + [piece])[..|pieces|] == pieces;
  }

  /** Growing the last piece grows the joined text. */
  lemma JoinGrow(done: seq<string>, open: string, c: char)
    ensures Join(done + [open + [c]]) == Join(done + [open]) + [c]
  {
    if done != [] {
      JoinSnoc(done, open + [c]);
      JoinSnoc(done, open);
    }
  }

  /** The number of marked positions among the first `i`. */
  function MarkCount(marks: seq<bool>, i: nat): nat
    requires i <= |marks|
  {
    if i == 0 then 0 else MarkCount(marks, i - 1) + (if marks[i - 1] then 1 else 0)
  }

  /** The number of top-level semicolons in `body`. */
  function SplitCount(body: string): nat {
    MarkCount(SplitMarks(body), |body|)
  }

  /** Only the marked characters are dropped: putting a `;` back between
      the pieces gives the text, and there is one closed piece per mark. */
  lemma {:induction false} CutRejoin(body: string, marks: seq<bool>, i: nat)
    requires |marks| == |body| && i <= |body|
    requires forall k :: 0 <= k < |body| && marks[k] ==> body[k] == ';'
    ensures var c := CutAt(body, marks, i);
      Join(c.done + [c.open]) == body[..i] && |c.done| == MarkCount(marks, i)
  {
    if i > 0 {
      CutRejoin(body, marks, i - 1);
      var c := CutAt(body, marks, i - 1);
      assert body[..i] == body[..i - 1] + [body[i - 1]];
      if marks[i - 1] {
        assert body[i - 1] == ';';
        CloseRejoin(c.done, c.open, body[..i - 1]);
      } else {
        JoinGrow(c.done, c.open, body[i - 1]);
      }
    }
  }

  /** Closing the open piece puts a `;` back at the end of the joined
      text. */
  lemma CloseRejoin(done: seq<string>, open: string, prefix: string)
    requires Join(done + [open]) == prefix
    ensures Join(done + [open] + [[]]) == prefix + [';']
  {
    JoinSnoc(done + [open], []);
    assert prefix + [';'] + [] == prefix + [';'];
  }

  /** The top-level semicolons are all that is dropped: the body is its
      pieces joined with `;`, one more piece than top-level semicolons. */
  lemma PiecesRejoin(body: string)
    ensures Join(Pieces(body)) == body
    ensures |Pieces(body)| == SplitCount(body) + 1
  {
    var marks := SplitMarks(body);
    forall k | 0 <= k < |body| && marks[k]
      ensures body[k] == ';'
    {
      assert marks[k] == IsSplit(body, k);
    }
    CutRejoin(body, marks, |body|);
    assert body[..|body|] == body;
  }

  /** The command count is at most the top-level semicolon count plus one. */
  lemma CommandCount(body: string)
    ensures |Commands(body)| <= SplitCount(body) + 1
  {
    PiecesRejoin(body);
    KeepStripped(Pieces(body));
  }

  lemma {:induction false} NoMarkOnePiece(body: string, marks: seq<bool>, i: nat)
    requires |marks| == |body| && i <= |body| && MarkCount(marks, i) == 0
    ensures CutAt(body, marks, i) == Cut([], body[..i])
  {
    if i > 0 {
      NoMarkOnePiece(body, marks, i - 1);
      assert body[..i] == body[..i - 1] + [body[i - 1]];
    }
  }

  /** Without a top-level semicolon the result is empty or the whole
      body stripped. */
  lemma NoSplitCommands(body: string)
    requires SplitCount(body) == 0
    ensures Commands(body) == (if Strip(body) == [] then [] else [Strip(body)])
  {
    NoMarkOnePiece(body, SplitMarks(body), |body|);
    assert body[..|body|] == body;
    KeepSnoc([], body);
    assert [] + [body] == [body];
  }

  // ---------------------------------------------------------------------
  // Strings and braces protect semicolons
  // ---------------------------------------------------------------------

  /** After an opening quote read outside any string, the scanner stays
      inside the string as long as every occurrence of that quote is
      preceded by a backslash. */
  lemma {:induction false} InsideString(body: string, i: nat, j: nat)
    requires i < j <= |body|
    requires StateAt(body, i).quote.None? && IsQuote(body[i])
    requires forall k :: i < k < j && body[k] == body[i] ==> body[k - 1] == '\\'
    ensures StateAt(body, j) == Scan(StateAt(body, i).depth, Some(body[i]))
  {
    if j > i + 1 {
      InsideString(body, i, j - 1);
    }
  }

  /** A semicolon inside a string does not split, an escaped quote does
      not close the string, and the first unescaped quote closes it at
      the depth it was opened at. */
  lemma QuotedSemicolons(body: string, i: nat, j: nat)
    requires i < j < |body|
    requires StateAt(body, i).quote.None? && IsQuote(body[i])
    requires forall k :: i < k < j && body[k] == body[i] ==> body[k - 1] == '\\'
    ensures forall k :: i < k < j ==> !IsSplit(body, k)
    ensures body[j] == body[i] && body[j - 1] != '\\' ==>
      StateAt(body, j + 1) == Scan(StateAt(body, i).depth, None)
  {
    forall k | i < k < j
      ensures !IsSplit(body, k)
    {
      InsideString(body, i, k);
    }
    InsideString(body, i, j);
  }

  /** Characters other than quotes and braces leave the scanner alone
      outside strings. */
  lemma {:induction false} PlainRun(body: string, i: nat, j: nat)
    requires i <= j <= |body| && StateAt(body, i).quote.None?
    requires forall k :: i <= k < j ==> !IsQuote(body[k]) && body[k] != '{' && body[k] != '}'
    ensures StateAt(body, j) == StateAt(body, i)
  {
    if j > i {
      PlainRun(body, i, j - 1);
    }
  }

  /** Semicolons between a `{` and its `}` do not split, the `}` brings
      the depth back, and a `}` at depth 0 leaves the depth at 0. */
  lemma BracedSemicolons(body: string, i: nat, j: nat)
    requires i < j < |body| && StateAt(body, i).quote.None?
    requires body[i] == '{' && body[j] == '}'
    requires forall k :: i < k < j ==> !IsQuote(body[k]) && body[k] != '{' && body[k] != '}'
    ensures forall k :: i < k < j ==> !IsSplit(body, k)
    ensures StateAt(body, j + 1) == StateAt(body, i)
  {
    var d := StateAt(body, i).depth;
    assert StateAt(body, i + 1) == Scan(d + 1, None);
    forall k | i < k < j
      ensures !IsSplit(body, k)
    {
      PlainRun(body, i + 1, k);
    }
    PlainRun(body, i + 1, j);
  }

  /** An unmatched `}` never takes the depth below zero. */
  lemma UnmatchedClose(body: string, i: nat)
    requires i < |body| && StateAt(body, i) == Scan(0, None) && body[i] == '}'
    ensures StateAt(body, i + 1) == Scan(0, None)
  {
  }
}
