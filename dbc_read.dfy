/** The text-level DBC reading of unused/External_DBCRead.py that sits on
    the line filters: Remove_duplicates, which keeps the first row for
    each first element, and Get_messages_nodes, which lists the
    `BO_` lines of a DBC file as (message, sender) rows, optionally only
    for given nodes. A Python IndexError is the None result. */
module DbcRead {
  import opened Base
  import opened LineFilters

  // ---------------------------------------------------------------------
  // Remove_duplicates
  // ---------------------------------------------------------------------

  /** Every row has a first element (`sub_arr[0]` does not raise). */
  predicate AllNonEmpty<T>(rows: seq<seq<T>>) {
    forall i | 0 <= i < |rows| :: rows[i] != []
  }

  /** The first elements of the rows. */
  function Firsts<T>(rows: seq<seq<T>>): set<T>
    requires AllNonEmpty(rows)
  {
    if rows == [] then {} else Firsts(rows[..|rows| - 1]) + {rows[|rows| - 1][0]}
  }

  /** The rows whose first element no earlier row has, in order. */
  function Deduped<T(==)>(rows: seq<seq<T>>): seq<seq<T>>
    requires AllNonEmpty(rows)
  {
    if rows == [] then []
    else
      var init := rows[..|rows| - 1];
      var row := rows[|rows| - 1];
      Deduped(init) + (if row[0] in Firsts(init) then [] else [row])
  }

  /** Remove_duplicates: None when some row is empty. */
  method RemoveDuplicates<T(==)>(arr: seq<seq<T>>) returns (r: Option<seq<seq<T>>>)
    ensures r.Some? <==> AllNonEmpty(arr)
    ensures r.Some? ==> r.value == Deduped(arr)
  {
    var seen: set<T> := {};
    var result: seq<seq<T>> := [];
    for i := 0 to |arr|
      invariant AllNonEmpty(arr[..i])
      invariant seen == Firsts(arr[..i]) && result == Deduped(arr[..i])
    {
      assert arr[..i + 1][..i] == arr[..i];
      var subArr := arr[i];
      if subArr == [] {
        return None;
      }
      var firstSub := subArr[0];
      if firstSub !in seen {
        seen := seen + {firstSub};
        result := result + [subArr];
      }
    }
    assert arr[..|arr|] == arr;
    r := Some(result);
  }

  /** The first elements of rows that are row contents. */
  lemma {:induction false} FirstsMeaning<T>(rows: seq<seq<T>>)
    requires AllNonEmpty(rows)
    ensures forall x :: x in Firsts(rows) <==> exists i :: 0 <= i < |rows| && rows[i][0] == x
  {
    if rows != [] {
      var init := rows[..|rows| - 1];
      FirstsMeaning(init);
      assert forall i | 0 <= i < |init| :: init[i] == rows[i];
    }
  }

  /** No first element is lost. */
  lemma {:induction false} DedupedFirsts<T>(rows: seq<seq<T>>)
    requires AllNonEmpty(rows)
    ensures AllNonEmpty(Deduped(rows)) && Firsts(Deduped(rows)) == Firsts(rows)
  {
    if rows != [] {
      var init := rows[..|rows| - 1];
      var row := rows[|rows| - 1];
      DedupedFirsts(init);
      var d := Deduped(init);
      assert Firsts(rows) == Firsts(init) + {row[0]};
      if row[0] !in Firsts(init) {
        var e := d + [row];
        assert e[..|e| - 1] == d && e[|e| - 1] == row;
        assert Firsts(e) == Firsts(d) + {row[0]};
      } else {
        assert Deduped(rows) == d;
      }
    }
  }

  /** No two kept rows share a first element. */
  lemma {:induction false} DedupedUnique<T>(rows: seq<seq<T>>)
    requires AllNonEmpty(rows)
    ensures AllNonEmpty(Deduped(rows))
    ensures forall a, b | 0 <= a < b < |Deduped(rows)| :: Deduped(rows)[a][0] != Deduped(rows)[b][0]
  {
    if rows != [] {
      var init := rows[..|rows| - 1];
      var row := rows[|rows| - 1];
      DedupedUnique(init);
      DedupedFirsts(init);
      var d := Deduped(init);
      if row[0] !in Firsts(init) {
        FirstsMeaning(d);
        assert forall a | 0 <= a < |d| :: d[a][0] != row[0];
      }
    }
  }

  /** The positions of the kept rows. */
  function KeptIndices<T(==)>(rows: seq<seq<T>>): seq<nat>
    requires AllNonEmpty(rows)
  {
    if rows == [] then []
    else
      var init := rows[..|rows| - 1];
      KeptIndices(init) + (if rows[|rows| - 1][0] in Firsts(init) then [] else [|rows| - 1])
  }

  /** The kept rows are the rows at strictly increasing positions, each
      the first occurrence of its first element: a subsequence that
      keeps first occurrences. */
  lemma {:induction false} DedupedKeepsFirstOccurrences<T>(rows: seq<seq<T>>)
    requires AllNonEmpty(rows)
    ensures var idx := KeptIndices(rows);
      |idx| == |Deduped(rows)| &&
      (forall k | 0 <= k < |idx| :: idx[k] < |rows| && Deduped(rows)[k] == rows[idx[k]]) &&
      (forall k, l | 0 <= k < l < |idx| :: idx[k] < idx[l]) &&
      (forall k, j | 0 <= k < |idx| && 0 <= j < idx[k] :: rows[j][0] != rows[idx[k]][0])
  {
    if rows != [] {
      var init := rows[..|rows| - 1];
      var row := rows[|rows| - 1];
      DedupedKeepsFirstOccurrences(init);
      assert forall i | 0 <= i < |init| :: init[i] == rows[i];
      if row[0] !in Firsts(init) {
        FirstsMeaning(init);
      }
    }
  }

  /** Rows whose first elements are already distinct are kept as they are. */
  lemma {:induction false} DedupedDistinct<T>(rows: seq<seq<T>>)
    requires AllNonEmpty(rows)
    requires forall a, b | 0 <= a < b < |rows| :: rows[a][0] != rows[b][0]
    ensures Deduped(rows) == rows
  {
    if rows != [] {
      var init := rows[..|rows| - 1];
      DedupedDistinct(init);
      FirstsMeaning(init);
    }
  }

  /** Removing duplicates twice is removing them once. */
  lemma DedupedIdempotent<T>(rows: seq<seq<T>>)
    requires AllNonEmpty(rows)
    ensures AllNonEmpty(Deduped(rows)) && Deduped(Deduped(rows)) == Deduped(rows)
  {
    DedupedUnique(rows);
    DedupedDistinct(Deduped(rows));
  }

  // ---------------------------------------------------------------------
  // Get_messages_nodes
  // ---------------------------------------------------------------------

  /** `[data[idx][2], data[idx][-1]]`: the message name and the sender,
      the last field of a `BO_` line. */
  function Pair(fields: seq<string>): seq<string>
    requires |fields| >= 3
  {
    [fields[2], fields[|fields| - 1]]
  }

  /** How often `x` occurs in `xs`. */
  function Count(xs: seq<string>, x: string): nat {
    if xs == [] then 0 else Count(xs[..|xs| - 1], x) + (if xs[|xs| - 1] == x then 1 else 0)
  }

  function Repeat(row: seq<string>, n: nat): seq<seq<string>> {
    seq(n, _ => row)
  }

  /** Every line has a third field, and there is a first node to test
      whenever there is a line. */
  predicate Readable(data: seq<seq<string>>, nodes: seq<string>) {
    (forall i | 0 <= i < |data| :: |data[i]| >= 3) && (data != [] ==> nodes != [])
  }

  /** The rows one line contributes: one when the first node is empty,
      otherwise one per node naming its sender. */
  function LineRows(fields: seq<string>, nodes: seq<string>): seq<seq<string>>
    requires |fields| >= 3 && nodes != []
  {
    if nodes[0] == "" then [Pair(fields)] else Repeat(Pair(fields), Count(nodes, fields[|fields| - 1]))
  }

  /** The extracted rows before duplicates are removed. */
  function NodeRows(data: seq<seq<string>>, nodes: seq<string>): (r: seq<seq<string>>)
    requires Readable(data, nodes)
    ensures AllNonEmpty(r)
  {
    if data == [] then []
    else NodeRows(data[..|data| - 1], nodes) + LineRows(data[|data| - 1], nodes)
  }

  /** The inner loop over the nodes: one copy of the row per node equal
      to the sender. */
  method SenderRows(temp: seq<string>, sender: string, nodes: seq<string>) returns (rows: seq<seq<string>>)
    ensures rows == Repeat(temp, Count(nodes, sender))
  {
    rows := [];
    for j := 0 to |nodes|
      invariant rows == Repeat(temp, Count(nodes[..j], sender))
    {
      assert nodes[..j + 1][..j] == nodes[..j];
      if nodes[j] == sender {
        rows := rows + [temp];
      }
    }
    assert nodes[..|nodes|] == nodes;
  }

  /** The rows of one `BO_` line. */
  method ExtractLine(fields: seq<string>, nodes: seq<string>) returns (rows: seq<seq<string>>)
    requires |fields| >= 3 && nodes != []
    ensures rows == LineRows(fields, nodes)
  {
    var temp := [fields[2], fields[|fields| - 1]];
    if nodes[0] == "" {
      rows := [temp];
    } else {
      rows := SenderRows(temp, fields[|fields| - 1], nodes);
    }
  }

  /** One more readable line extends the rows by that line's rows. */
  lemma ExtractStep(data: seq<seq<string>>, idx: nat, nodes: seq<string>)
    requires idx < |data| && Readable(data[..idx], nodes)
    requires |data[idx]| >= 3 && nodes != []
    ensures Readable(data[..idx + 1], nodes)
    ensures NodeRows(data[..idx + 1], nodes) == NodeRows(data[..idx], nodes) + LineRows(data[idx], nodes)
  {
    assert data[..idx + 1][..idx] == data[..idx];
  }

  /** A line too short to index, or no node to match, makes the file
      unreadable. */
  lemma ExtractFails(data: seq<seq<string>>, idx: nat, nodes: seq<string>)
    requires idx < |data| && (|data[idx]| < 3 || nodes == [])
    ensures !Readable(data, nodes)
  {
  }

  /** The loop of Get_messages_nodes over the `BO_` lines. */
  method ExtractRows(data: seq<seq<string>>, nodes: seq<string>) returns (r: Option<seq<seq<string>>>)
    ensures r.Some? <==> Readable(data, nodes)
    ensures r.Some? ==> r.value == NodeRows(data, nodes)
  {
    var extracted: seq<seq<string>> := [];
    for idx := 0 to |data|
      invariant Readable(data[..idx], nodes)
      invariant extracted == NodeRows(data[..idx], nodes)
    {
      var fields := data[idx];
      if |fields| < 3 || nodes == [] {
        ExtractFails(data, idx, nodes);
        return None;
      }
      var rows := ExtractLine(fields, nodes);
      ExtractStep(data, idx, nodes);
      extracted := extracted + rows;
    }
    assert data[..|data|] == data;
    r := Some(extracted);
  }


  /** Get_messages_nodes over the lines of a DBC file. */
  method GetMessagesNodes(lines: seq<string>, nodes: seq<string>) returns (r: Option<seq<seq<string>>>)
    ensures var data := Kept(lines, Beginning("BO_"));
      r == if Readable(data, nodes) then Some(Deduped(NodeRows(data, nodes))) else None
  {
    var data := FindLinesBeginWithSubstring(lines, "BO_");
    var extracted := ExtractRows(data, nodes);
    if extracted.None? {
      return None;
    }
    NodeRowsShape(data, nodes);
    r := RemoveDuplicates(extracted.value);
  }

  /** Every extracted row is a (message, sender) pair of some line, and
      the sender is one of the nodes unless the first node is empty. */
  lemma {:induction false} NodeRowsShape(data: seq<seq<string>>, nodes: seq<string>)
    requires Readable(data, nodes)
    ensures AllNonEmpty(NodeRows(data, nodes))
    ensures forall row | row in NodeRows(data, nodes) ::
      (exists i :: 0 <= i < |data| && row == Pair(data[i])) && (nodes[0] != "" ==> row[1] in nodes)
  {
    if data != [] {
      var init := data[..|data| - 1];
      var fields := data[|data| - 1];
      NodeRowsShape(init, nodes);
      assert forall i | 0 <= i < |init| :: init[i] == data[i];
      if nodes[0] != "" && Count(nodes, fields[|fields| - 1]) > 0 {
        CountPositive(nodes, fields[|fields| - 1]);
      }
    }
  }

  lemma {:induction false} CountPositive(xs: seq<string>, x: string)
    ensures Count(xs, x) > 0 <==> x in xs
  {
    if xs != [] {
      CountPositive(xs[..|xs| - 1], x);
      assert xs == xs[..|xs| - 1] + [xs[|xs| - 1]];
    }
  }

  /** Every line whose sender passes the node test contributes its
      (message, sender) pair. */
  lemma {:induction false} NodeRowsHas(data: seq<seq<string>>, nodes: seq<string>, i: nat)
    requires Readable(data, nodes) && i < |data|
    requires nodes[0] == "" || data[i][|data[i]| - 1] in nodes
    ensures Pair(data[i]) in NodeRows(data, nodes)
  {
    var init := data[..|data| - 1];
    var fields := data[|data| - 1];
    if i < |data| - 1 {
      assert init[i] == data[i];
      NodeRowsHas(init, nodes, i);
    } else {
      CountPositive(nodes, fields[|fields| - 1]);
      assert LineRows(fields, nodes)[0] == Pair(fields);
    }
  }

  /** The message names among the extracted rows are exactly those of
      lines whose sender passes the node test. */
  lemma NodeRowsNames(data: seq<seq<string>>, nodes: seq<string>, name: string)
    requires Readable(data, nodes)
    ensures name in Firsts(NodeRows(data, nodes)) <==>
      exists i :: 0 <= i < |data| && data[i][2] == name && (nodes[0] == "" || data[i][|data[i]| - 1] in nodes)
  {
    var rows := NodeRows(data, nodes);
    NodeRowsShape(data, nodes);
    FirstsMeaning(rows);
    if name in Firsts(rows) {
      var k :| 0 <= k < |rows| && rows[k][0] == name;
      assert rows[k] in rows;
      var i :| 0 <= i < |data| && rows[k] == Pair(data[i]);
      assert data[i][2] == name;
    }
    if exists i :: 0 <= i < |data| && data[i][2] == name && (nodes[0] == "" || data[i][|data[i]| - 1] in nodes) {
      var i :| 0 <= i < |data| && data[i][2] == name && (nodes[0] == "" || data[i][|data[i]| - 1] in nodes);
      NodeRowsHas(data, nodes, i);
      var k :| 0 <= k < |rows| && rows[k] == Pair(data[i]);
      assert rows[k][0] == name;
    }
  }

  /** The result of Get_messages_nodes names each message of a `BO_` line
      whose sender passes the node test exactly once. */
  lemma MessagesNodesNames(data: seq<seq<string>>, nodes: seq<string>, name: string)
    requires Readable(data, nodes)
    ensures var result := Deduped(NodeRows(data, nodes));
      AllNonEmpty(result) &&
      (name in Firsts(result) <==>
        exists i :: 0 <= i < |data| && data[i][2] == name && (nodes[0] == "" || data[i][|data[i]| - 1] in nodes)) &&
      forall a, b | 0 <= a < b < |result| :: result[a][0] != result[b][0]
  {
    NodeRowsNames(data, nodes, name);
    DedupedFirsts(NodeRows(data, nodes));
    DedupedUnique(NodeRows(data, nodes));
  }
}
