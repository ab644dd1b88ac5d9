/** Packing all rows of a key into one value, and taking the value apart again. */
module CsvConverter {

  const COLUMN_DELIMITER: char := '\U{1E}'
  const ROW_DELIMITER: char := '\U{1F}'

  datatype Row = Row(key: string, labels: seq<string>)

  // ---- Joining and splitting

  function Join(parts: seq<string>, d: char): string {
    if parts == [] then ""
    else if |parts| == 1 then parts[0]
    else Join(parts[..|parts| - 1], d) + [d] + parts[|parts| - 1]
  }

  /** The parts with more text at the end of the last one. */
  function Longer(parts: seq<string>, t: string): (r: seq<string>)
    requires |parts| > 0
    ensures |r| == |parts|
  {
    parts[..|parts| - 1] + [parts[|parts| - 1] + t]
  }

  lemma LongerTwice(parts: seq<string>, t: string, u: string)
    requires |parts| > 0
    ensures Longer(Longer(parts, t), u) == Longer(parts, t + u) && Longer(parts, "") == parts
  {
    var last := parts[|parts| - 1];
    assert last + t + u == last + (t + u) && last + "" == last;
  }

  /** There is always at least one part, and an empty text has one empty part. */
  function Split(s: string, d: char): (parts: seq<string>)
    ensures |parts| > 0
  {
    if s == "" then [""]
    else
      var parts, last := Split(s[..|s| - 1], d), s[|s| - 1];
      if last == d then parts + [""] else Longer(parts, [last])
  }

  lemma {:induction false} SplitPlain(s: string, t: string, d: char)
    requires d !in t
    ensures Split(s + t, d) == Longer(Split(s, d), t)
  {
    hide Longer;
    if t == "" {
      assert s + t == s;
      LongerTwice(Split(s, d), "", "");
    } else {
      var init, last := t[..|t| - 1], t[|t| - 1];
      SplitPlain(s, init, d);
      assert (s + t)[..|s + t| - 1] == s + init && (s + t)[|s + t| - 1] == last;
      assert init + [last] == t;
      LongerTwice(Split(s, d), init, [last]);
    }
  }

  /** Joined texts stand in order, with the delimiter between them. */
  lemma {:induction false} JoinConcat(parts: seq<string>, more: seq<string>, d: char)
    requires parts != [] && more != []
    ensures Join(parts + more, d) == Join(parts, d) + [d] + Join(more, d)
  {
    var all := parts + more;
    if |more| == 1 {
      assert all[..|all| - 1] == parts;
    } else {
      var init, last := more[..|more| - 1], more[|more| - 1];
      JoinConcat(parts, init, d);
      assert all[..|all| - 1] == parts + init && all[|all| - 1] == last;
      assert Join(more, d) == Join(init, d) + [d] + last;
      assert Join(all, d) == Join(parts + init, d) + [d] + last;
    }
  }

  ghost predicate Plain(parts: seq<string>, d: char) {
    forall i :: 0 <= i < |parts| ==> d !in parts[i]
  }

  /** Splitting undoes joining when no part contains the delimiter. */
  lemma {:induction false} SplitJoin(parts: seq<string>, d: char)
    requires parts != [] && Plain(parts, d)
    ensures Split(Join(parts, d), d) == parts
  {
    var last := parts[|parts| - 1];
    if |parts| == 1 {
      SplitPlain("", last, d);
      assert "" + last == last;
    } else {
      var init := parts[..|parts| - 1];
      SplitJoin(init, d);
      var s := Join(init, d) + [d];
      assert s[..|s| - 1] == Join(init, d);
      assert Split(s, d) == init + [""];
      SplitPlain(s, last, d);
      assert (init + [""])[..|init|] == init && "" + last == last;
      assert parts == init + [last];
    }
  }

  /** Joining undoes splitting, for every text. */
  lemma {:induction false} JoinSplit(s: string, d: char)
    ensures Join(Split(s, d), d) == s
  {
    if s != "" {
      var init, last := s[..|s| - 1], s[|s| - 1];
      JoinSplit(init, d);
      assert s == init + [last];
      var parts := Split(init, d);
      if last == d {
        assert (parts + [""])[..|parts|] == parts;
      } else if |parts| > 1 {
        assert Longer(parts, [last])[..|parts| - 1] == parts[..|parts| - 1];
      }
    }
  }

  // ---- Merging

  /** The rows of a key, in order. */
  ghost function RowsOf(rows: seq<Row>, key: string): seq<seq<string>> {
    if rows == [] then []
    else RowsOf(rows[..|rows| - 1], key) + if rows[|rows| - 1].key == key then [rows[|rows| - 1].labels] else []
  }

  /** All positions at which the key occurs, in ascending order. */
  ghost predicate Positions(rows: seq<Row>, key: string, at: seq<nat>) {
    && (forall i, j :: 0 <= i < j < |at| ==> at[i] < at[j])
    && (forall p: nat :: p in at <==> p < |rows| && rows[p].key == key)
  }

  lemma {:induction false} RowsOfMeaning(rows: seq<Row>, key: string) returns (at: seq<nat>)
    ensures Positions(rows, key, at) && |RowsOf(rows, key)| == |at|
    ensures forall i :: 0 <= i < |at| ==> at[i] < |rows| && RowsOf(rows, key)[i] == rows[at[i]].labels
  {
    at := [];
    if rows != [] {
      var n := |rows| - 1;
      at := RowsOfMeaning(rows[..n], key);
      if rows[n].key == key {
        forall i | 0 <= i < |at| ensures at[i] < n { assert at[i] in at; }
        at := at + [n];
      }
    }
  }

  ghost function Values(rows: seq<seq<string>>): seq<string> {
    seq(|rows|, i requires 0 <= i < |rows| => Join(rows[i], COLUMN_DELIMITER))
  }

  ghost predicate MergedAt(m: map<string, (string, nat)>, rows: seq<Row>, key: string) {
    && (key in m <==> RowsOf(rows, key) != [])
    && (key in m ==> m[key] == (Join(Values(RowsOf(rows, key)), ROW_DELIMITER), |RowsOf(rows, key)|))
  }

  function Added(m: map<string, (string, nat)>, row: Row): map<string, (string, nat)> {
    var value := Join(row.labels, COLUMN_DELIMITER);
    if row.key in m then m[row.key := (m[row.key].0 + [ROW_DELIMITER] + value, m[row.key].1 + 1)]
    else m[row.key := (value, 1)]
  }

  lemma MergeStep(m: map<string, (string, nat)>, rows: seq<Row>, row: Row, key: string)
    requires MergedAt(m, rows, key)
    ensures MergedAt(Added(m, row), rows + [row], key)
  {
    var more := rows + [row];
    assert more[..|rows|] == rows;
    var before := RowsOf(rows, key);
    if row.key == key {
      var values := Values(before + [row.labels]);
      assert values == Values(before) + [Join(row.labels, COLUMN_DELIMITER)];
      assert values[..|before|] == Values(before);
    } else {
      assert before + [] == before;
    }
  }

  /** One value per key: its rows in order, and how many they are. */
  method MergeColumnAndRow(rows: seq<Row>) returns (m: map<string, (string, nat)>)
    ensures forall key :: MergedAt(m, rows, key)
  {
    hide MergedAt, RowsOf;
    m := map[];
    assert forall key :: MergedAt(m, rows[..0], key) by { forall key { NothingMerged(key); } assert rows[..0] == []; }
    for i := 0 to |rows|
      invariant forall key :: MergedAt(m, rows[..i], key)
    {
      var row := rows[i];
      ghost var upto, next := rows[..i + 1], Added(m, row);
      forall key ensures MergedAt(next, upto, key) {
        assert upto == rows[..i] + [row];
        MergeStep(m, rows[..i], row, key);
      }
      var value := Join(row.labels, COLUMN_DELIMITER);
      if row.key in m {
        m := m[row.key := (m[row.key].0 + [ROW_DELIMITER] + value, m[row.key].1 + 1)];
      } else {
        m := m[row.key := (value, 1)];
      }
    }
    assert rows[..|rows|] == rows;
  }

  lemma NothingMerged(key: string)
    ensures MergedAt(map[], [], key)
  {
  }

  // ---- Taking apart

  ghost predicate PlainRow(labels: seq<string>) {
    labels != [] && Plain(labels, COLUMN_DELIMITER) && Plain(labels, ROW_DELIMITER)
  }

  /** A value taken apart into rows of labels. */
  function Unpack(value: string): seq<seq<string>> {
    var parts := Split(value, ROW_DELIMITER);
    seq(|parts|, i requires 0 <= i < |parts| => Split(parts[i], COLUMN_DELIMITER))
  }

  lemma {:induction false} JoinPlain(parts: seq<string>, d: char, e: char)
    requires d != e && Plain(parts, e)
    ensures e !in Join(parts, d)
  {
    if |parts| > 1 {
      JoinPlain(parts[..|parts| - 1], d, e);
    }
  }

  /** For labels without delimiters, the value of a key gives back the rows of the key, in order, and the
      count is their number. */
  lemma MergeRoundTrip(m: map<string, (string, nat)>, rows: seq<Row>, key: string)
    requires MergedAt(m, rows, key) && key in m
    requires forall i :: 0 <= i < |RowsOf(rows, key)| ==> PlainRow(RowsOf(rows, key)[i])
    ensures Unpack(m[key].0) == RowsOf(rows, key) && m[key].1 == |Unpack(m[key].0)|
  {
    var mine := RowsOf(rows, key);
    var values := Values(mine);
    forall i | 0 <= i < |values| ensures ROW_DELIMITER !in values[i] && Split(values[i], COLUMN_DELIMITER) == mine[i] {
      assert PlainRow(mine[i]);
      JoinPlain(mine[i], COLUMN_DELIMITER, ROW_DELIMITER);
      SplitJoin(mine[i], COLUMN_DELIMITER);
    }
    SplitJoin(values, ROW_DELIMITER);
  }

  ghost function Extracted(pairs: seq<(string, string)>): seq<Row> {
    if pairs == [] then []
    else Extracted(pairs[..|pairs| - 1]) + RowsWithKey(pairs[|pairs| - 1].0, Unpack(pairs[|pairs| - 1].1))
  }

  ghost function RowsWithKey(key: string, rows: seq<seq<string>>): seq<Row> {
    seq(|rows|, i requires 0 <= i < |rows| => Row(key, rows[i]))
  }

  ghost predicate RightWidth(pairs: seq<(string, string)>, width: nat) {
    forall p, i :: 0 <= p < |pairs| && 0 <= i < |Unpack(pairs[p].1)| ==> |Unpack(pairs[p].1)[i]| == width
  }

  /** The rows of every value, one after the other, and their number; an error exactly when some row does
      not have one label per name. */
  method ExtractResult(pairs: seq<(string, string)>, width: nat) returns (ok: bool, rows: seq<Row>, total: nat)
    ensures ok <==> RightWidth(pairs, width)
    ensures ok ==> rows == Extracted(pairs) && total == |rows|
  {
    hide Split;
    ok, rows, total := true, [], 0;
    for p := 0 to |pairs|
      invariant RightWidth(pairs[..p], width) && rows == Extracted(pairs[..p]) && total == |rows|
    {
      var (key, value) := pairs[p];
      var parts := Split(value, ROW_DELIMITER);
      ghost var unpacked := Unpack(pairs[p].1);
      total := total + |parts|;
      ghost var before := rows;
      for i := 0 to |parts|
        invariant forall k :: 0 <= k < i ==> |unpacked[k]| == width
        invariant rows == before + RowsWithKey(key, unpacked[..i])
      {
        var labels := Split(parts[i], COLUMN_DELIMITER);
        assert labels == unpacked[i];
        if |labels| != width {
          return false, rows, total;
        }
        rows := rows + [Row(key, labels)];
      }
      assert unpacked[..|parts|] == unpacked && pairs[..p + 1][..p] == pairs[..p];
    }
    assert pairs[..|pairs|] == pairs;
  }
}
