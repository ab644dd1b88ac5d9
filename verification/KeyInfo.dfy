/** Run-length encoding of a sorted key column that arrives in batches. */
module KeyInfo {

  /** A key, the row it starts at, and how many extra rows repeat it. */
  datatype Run = Run(key: nat, start: nat, dup: nat)

  datatype Meta = Meta(duplicateKeys: nat, uniqueKeys: nat, rows: nat)

  /** The key that the scan starts with before it has seen any row. */
  const NO_KEY: nat := 0

  function EndOf(r: Run): nat { r.start + r.dup + 1 }

  ghost predicate Ascending(col: seq<nat>) {
    forall p, q :: 0 <= p < q < |col| ==> col[p] <= col[q]
  }

  ghost predicate Covers(r: Run, col: seq<nat>) {
    EndOf(r) <= |col| && forall p :: r.start <= p < EndOf(r) ==> col[p] == r.key
  }

  /** The runs tile the column from its first row to its last, one strictly larger key after the other. */
  ghost predicate Rle(runs: seq<Run>, col: seq<nat>) {
    && (if runs == [] then col == [] else runs[0].start == 0 && EndOf(runs[|runs| - 1]) == |col|)
    && (forall k :: 0 <= k < |runs| - 1 ==> EndOf(runs[k]) == runs[k + 1].start)
    && (forall k :: 0 <= k < |runs| ==> Covers(runs[k], col))
    && (forall k, l :: 0 <= k < l < |runs| ==> runs[k].key < runs[l].key && EndOf(runs[k]) <= runs[l].start)
  }

  function Repeat<T>(x: T, n: nat): seq<T> { seq(n, _ => x) }

  /** What a list of runs stands for. */
  function Expand(runs: seq<Run>): seq<nat> {
    if runs == [] then [] else Expand(runs[..|runs| - 1]) + Repeat(runs[|runs| - 1].key, runs[|runs| - 1].dup + 1)
  }

  lemma RlePrefix(runs: seq<Run>, col: seq<nat>)
    requires Rle(runs, col) && runs != []
    ensures var last := runs[|runs| - 1];
      last.start < |col| && Rle(runs[..|runs| - 1], col[..last.start])
      && col == col[..last.start] + Repeat(last.key, last.dup + 1)
  {
    var init, last := runs[..|runs| - 1], runs[|runs| - 1];
    assert Covers(last, col);
    forall k | 0 <= k < |init| ensures Covers(init[k], col[..last.start]) {
      assert Covers(runs[k], col);
    }
    if init != [] {
      assert EndOf(runs[|runs| - 2]) == last.start;
    }
  }

  /** Expanding the runs gives back the column. */
  lemma {:induction false} RoundTrip(runs: seq<Run>, col: seq<nat>)
    requires Rle(runs, col)
    ensures Expand(runs) == col
  {
    if runs != [] {
      RlePrefix(runs, col);
      RoundTrip(runs[..|runs| - 1], col[..runs[|runs| - 1].start]);
    }
  }

  /** A column has only one encoding, so how it was split into batches cannot show. */
  lemma {:induction false} EncodingUnique(a: seq<Run>, b: seq<Run>, col: seq<nat>)
    requires Rle(a, col) && Rle(b, col)
    ensures a == b
  {
    hide Rle;
    SameEmptiness(a, b, col);
    if a != [] && b != [] {
      RlePrefix(a, col);
      RlePrefix(b, col);
      SameLast(a, b, col);
      EncodingUnique(a[..|a| - 1], b[..|b| - 1], col[..a[|a| - 1].start]);
      assert a == a[..|a| - 1] + [a[|a| - 1]] && b == b[..|b| - 1] + [b[|b| - 1]];
    }
  }

  lemma SameEmptiness(a: seq<Run>, b: seq<Run>, col: seq<nat>)
    requires Rle(a, col) && Rle(b, col)
    ensures a == [] <==> b == []
  {
  }

  lemma SameLast(a: seq<Run>, b: seq<Run>, col: seq<nat>)
    requires Rle(a, col) && Rle(b, col) && a != [] && b != []
    ensures a[|a| - 1] == b[|b| - 1]
  {
    SameStart(a, b, col);
    SameStart(b, a, col);
  }

  lemma SameStart(a: seq<Run>, b: seq<Run>, col: seq<nat>)
    requires Rle(a, col) && Rle(b, col) && a != [] && b != []
    ensures a[|a| - 1].start <= b[|b| - 1].start && a[|a| - 1].key == b[|b| - 1].key
  {
    var x, y := a[|a| - 1], b[|b| - 1];
    assert Covers(x, col) && Covers(y, col);
    assert col[|col| - 1] == x.key == y.key;
    assert |a| > 1 ==> EndOf(a[|a| - 2]) == x.start && Covers(a[|a| - 2], col) && col[x.start - 1] == a[|a| - 2].key;
  }

  lemma RunExtended(done: seq<Run>, cur: Run, col: seq<nat>)
    requires Rle(done + [cur], col)
    ensures Rle(done + [cur.(dup := cur.dup + 1)], col + [cur.key])
  {
    var old_, new_ := done + [cur], done + [cur.(dup := cur.dup + 1)];
    forall k | 0 <= k < |new_| ensures Covers(new_[k], col + [cur.key]) {
      assert Covers(old_[k], col);
    }
    assert forall k :: 0 <= k < |done| ==> new_[k] == old_[k];
  }

  lemma RunOpened(runs: seq<Run>, col: seq<nat>, key: nat)
    requires Rle(runs, col) && (runs != [] ==> runs[|runs| - 1].key < key)
    ensures Rle(runs + [Run(key, |col|, 0)], col + [key])
  {
    var new_ := runs + [Run(key, |col|, 0)];
    forall k | 0 <= k < |new_| ensures Covers(new_[k], col + [key]) {
      if k < |runs| { assert Covers(runs[k], col); }
    }
  }

  function Flat<T>(batches: seq<seq<T>>): seq<T> {
    if batches == [] then [] else Flat(batches[..|batches| - 1]) + batches[|batches| - 1]
  }

  function Sum(runs: seq<Run>): Meta {
    if runs == [] then Meta(0, 0, 0)
    else
      var m, r := Sum(runs[..|runs| - 1]), runs[|runs| - 1];
      Meta(m.duplicateKeys + (if r.dup != 0 then 1 else 0), m.uniqueKeys + 1, m.rows + 1 + r.dup)
  }

  /** The counters kept while runs are written out. */
  method Write(runs: seq<Run>, more: seq<Run>, meta: Meta) returns (meta': Meta)
    requires meta == Sum(runs)
    ensures meta' == Sum(runs + more)
  {
    meta' := meta;
    assert runs + more[..0] == runs;
    for i := 0 to |more|
      invariant meta' == Sum(runs + more[..i])
    {
      assert (runs + more[..i + 1])[..|runs| + i] == runs + more[..i];
      meta' := Meta(meta'.duplicateKeys + (if more[i].dup != 0 then 1 else 0), meta'.uniqueKeys + 1,
          meta'.rows + 1 + more[i].dup);
    }
    assert more[..|more|] == more;
  }

  /** The scan after i rows: the finished runs, and the one that is still growing. */
  ghost predicate Scanned(done: seq<Run>, cur: Run, col: seq<nat>, i: nat)
    requires i <= |col|
  {
    if i == 0 then done == [] && cur == Run(NO_KEY, 0, 0) else Rle(done + [cur], col[..i])
  }

  lemma ScanStep(done: seq<Run>, cur: Run, col: seq<nat>, i: nat)
    requires Ascending(col) && i < |col| && Scanned(done, cur, col, i)
    ensures if i == 0 then Scanned(done, Run(col[i], 0, 0), col, i + 1)
            else if cur.key != col[i] then Scanned(done + [cur], Run(col[i], i, 0), col, i + 1)
            else Scanned(done, cur.(dup := cur.dup + 1), col, i + 1)
  {
    assert col[..i + 1] == col[..i] + [col[i]];
    if i == 0 {
      RunOpened([], [], col[i]);
      assert done + [Run(col[i], 0, 0)] == [] + [Run(col[i], 0, 0)];
    } else if cur.key != col[i] {
      CurrentKey(done, cur, col, i);
      RunOpened(done + [cur], col[..i], col[i]);
    } else {
      RunExtended(done, cur, col[..i]);
    }
  }

  /** One run per key, wherever the batches end; an empty column still yields one run, for a key that is
      not there. */
  method Make(batches: seq<seq<nat>>) returns (runs: seq<Run>, meta: Meta)
    requires Ascending(Flat(batches)) && [] !in batches
    ensures Flat(batches) != [] ==> Rle(runs, Flat(batches))
    ensures Flat(batches) == [] ==> runs == [Run(NO_KEY, 0, 0)]
    ensures meta == Sum(runs)
  {
    hide Rle, Sum, Ascending;
    runs, meta := [], Meta(0, 0, 0);
    assert meta == Sum(runs) by { SumEmpty(); }
    var cur, tableIndex := Run(NO_KEY, 0, 0), 0;
    ghost var col := Flat(batches);
    for b := 0 to |batches|
      invariant tableIndex == |Flat(batches[..b])| && Flat(batches[..b]) <= col && meta == Sum(runs)
      invariant Scanned(runs, cur, col, tableIndex)
    {
      FlatPrefix(batches, b);
      var keys: seq<Run> := [];
      ghost var before: nat := tableIndex;
      assert runs + keys == runs;
      for i := 0 to |batches[b]|
        invariant tableIndex == before + i && Scanned(runs + keys, cur, col, tableIndex)
      {
        var item := batches[b][i];
        assert item == col[tableIndex];
        ScanStep(runs + keys, cur, col, tableIndex);
        if tableIndex == 0 {
          cur := Run(item, 0, 0);
        } else if cur.key != item {
          assert runs + keys + [cur] == runs + (keys + [cur]);
          keys := keys + [cur];
          cur := Run(item, tableIndex, 0);
        } else {
          cur := cur.(dup := cur.dup + 1);
        }
        tableIndex := tableIndex + 1;
      }
      meta := Write(runs, keys, meta);
      runs := runs + keys;
    }
    assert batches[..|batches|] == batches && col[..|col|] == col;
    meta := Write(runs, [cur], meta);
    runs := runs + [cur];
  }

  lemma SumEmpty()
    ensures Sum([]) == Meta(0, 0, 0)
  {
  }

  lemma CurrentKey(done: seq<Run>, cur: Run, col: seq<nat>, i: nat)
    requires Ascending(col) && 0 < i < |col| && Rle(done + [cur], col[..i])
    ensures cur.key <= col[i]
  {
    assert Covers((done + [cur])[|done|], col[..i]);
    assert col[..i][i - 1] == cur.key;
  }

  lemma {:induction false} FlatPrefix<T>(batches: seq<seq<T>>, b: nat)
    requires b < |batches|
    ensures Flat(batches[..b + 1]) == Flat(batches[..b]) + batches[b] && Flat(batches[..b + 1]) <= Flat(batches)
  {
    assert batches[..b + 1][..b] == batches[..b];
    FlatMonotone(batches, b + 1);
  }

  lemma {:induction false} FlatMonotone<T>(batches: seq<seq<T>>, b: nat)
    requires b <= |batches|
    ensures Flat(batches[..b]) <= Flat(batches)
  {
    if b == |batches| {
      assert batches[..b] == batches;
    } else {
      FlatMonotone(batches[..|batches| - 1], b);
      assert batches[..|batches| - 1][..b] == batches[..b];
    }
  }

  lemma {:induction false} SumCounts(runs: seq<Run>)
    ensures Sum(runs).uniqueKeys == |runs|
    ensures Sum(runs).duplicateKeys == |set k | 0 <= k < |runs| && runs[k].dup != 0|
  {
    if runs != [] {
      var init, last := runs[..|runs| - 1], runs[|runs| - 1];
      SumCounts(init);
      var a, b := set k | 0 <= k < |init| && init[k].dup != 0, set k | 0 <= k < |runs| && runs[k].dup != 0;
      assert b == if last.dup != 0 then a + {|init|} else a;
    }
  }

  /** The counters of an encoding: the rows of the column, its keys, and those that repeat. */
  lemma {:induction false} MetaMeaning(runs: seq<Run>, col: seq<nat>)
    requires Rle(runs, col)
    ensures Sum(runs).rows == |col| && Sum(runs).uniqueKeys == |runs|
    ensures Sum(runs).duplicateKeys == |set k | 0 <= k < |runs| && runs[k].dup != 0|
  {
    SumCounts(runs);
    if runs != [] {
      RlePrefix(runs, col);
      MetaMeaning(runs[..|runs| - 1], col[..runs[|runs| - 1].start]);
    }
  }

  /** The one case in which the runs do not stand for the column. */
  lemma EmptyColumnFails()
    ensures !Rle([Run(NO_KEY, 0, 0)], []) && Expand([Run(NO_KEY, 0, 0)]) == [NO_KEY]
  {
    assert Expand([Run(NO_KEY, 0, 0)][..0]) == [];
    assert EndOf([Run(NO_KEY, 0, 0)][0]) == 1;
  }
}
