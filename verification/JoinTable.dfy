/** Splitting a sorted table into its intersection and its except part, given the peer's multiplicities. */
module JoinTable {
  import opened KeyInfo

  /** A line of a file: the schema, a row of a table, a row of nulls, or the empty line that is read past the
      end of a file, which goes with the key that the encoding gives to an empty table. */
  datatype Line = Header | Row(key: nat, val: nat) | Nulls | Blank(key: nat)

  predicate IsData(line: Line) { line.Row? || line.Blank? }

  ghost predicate IsTable(table: seq<Line>) {
    forall p :: 0 <= p < |table| ==> IsData(table[p])
  }

  /** A table as it is given: no empty lines. */
  ghost predicate OnlyRows(table: seq<Line>) {
    forall p :: 0 <= p < |table| ==> table[p].Row?
  }

  function Keys(table: seq<Line>): (col: seq<nat>)
    requires IsTable(table)
  {
    seq(|table|, p requires 0 <= p < |table| => table[p].key)
  }

  /** Every row, as often as its key occurs in the peer's table. */
  ghost function Inter(table: seq<Line>, peer: multiset<nat>): (r: seq<Line>)
    requires IsTable(table)
    ensures IsTable(r)
  {
    if table == [] then []
    else
      var last := table[|table| - 1];
      Inter(table[..|table| - 1], peer) + Repeat(last, peer[last.key])
  }

  /** Every row whose key is not in the peer's table, once. */
  ghost function Except(table: seq<Line>, peer: multiset<nat>): (r: seq<Line>)
    requires IsTable(table)
    ensures IsTable(r)
  {
    if table == [] then []
    else
      var last := table[|table| - 1];
      Except(table[..|table| - 1], peer) + if last.key in peer then [] else [last]
  }

  /** The rows whose key is in the peer's table. */
  ghost function Matched(table: seq<Line>, peer: multiset<nat>): nat
    requires IsTable(table)
  {
    if table == [] then 0 else Matched(table[..|table| - 1], peer) + if table[|table| - 1].key in peer then 1 else 0
  }

  /** No row is lost and none is in both parts. */
  lemma {:induction false} EveryRowOnce(table: seq<Line>, peer: multiset<nat>)
    requires IsTable(table)
    ensures |Except(table, peer)| + Matched(table, peer) == |table|
  {
    if table != [] {
      EveryRowOnce(table[..|table| - 1], peer);
    }
  }

  lemma UptoNext(table: seq<Line>, peer: multiset<nat>, q: nat)
    requires IsTable(table) && q < |table|
    ensures Inter(table[..q + 1], peer) == Inter(table[..q], peer) + Repeat(table[q], peer[table[q].key])
    ensures Except(table[..q + 1], peer) == Except(table[..q], peer) + if table[q].key in peer then [] else [table[q]]
    ensures Matched(table[..q + 1], peer) == Matched(table[..q], peer) + if table[q].key in peer then 1 else 0
  {
    assert table[..q + 1][..q] == table[..q];
  }

  /** Only the multiplicities of the table's own keys matter. */
  lemma {:induction false} SamePeer(table: seq<Line>, a: multiset<nat>, b: multiset<nat>)
    requires IsTable(table) && forall p :: 0 <= p < |table| ==> a[table[p].key] == b[table[p].key]
    ensures Inter(table, a) == Inter(table, b) && Except(table, a) == Except(table, b)
    ensures Matched(table, a) == Matched(table, b)
  {
    if table != [] {
      SamePeer(table[..|table| - 1], a, b);
    }
  }

  // ---- The matched keys

  /** An index into the runs with the number of extra copies at the peer. */
  datatype Match = Match(idx: nat, dup: nat)

  ghost predicate Increasing(matches: seq<Match>, n: nat) {
    && (forall j :: 0 <= j < |matches| ==> matches[j].idx < n)
    && (forall i, j :: 0 <= i < j < |matches| ==> matches[i].idx < matches[j].idx)
  }

  /** The peer's multiplicities that a list of matches describes. */
  ghost function PeerOf(runs: seq<Run>, matches: seq<Match>): multiset<nat>
    requires Increasing(matches, |runs|)
  {
    if matches == [] then multiset{}
    else
      var last := matches[|matches| - 1];
      PeerOf(runs, matches[..|matches| - 1])[runs[last.idx].key := last.dup + 1]
  }

  ghost predicate Listed(matches: seq<Match>, k: nat) {
    exists j :: 0 <= j < |matches| && matches[j].idx == k
  }

  /** A run's key has the multiplicity its match gives it, and none if it has no match. */
  lemma {:induction false} PeerOfMeaning(runs: seq<Run>, matches: seq<Match>, col: seq<nat>, k: nat)
    requires Rle(runs, col) && Increasing(matches, |runs|) && k < |runs|
    ensures Listed(matches, k) <==> runs[k].key in PeerOf(runs, matches)
    ensures forall j :: 0 <= j < |matches| && matches[j].idx == k ==>
      PeerOf(runs, matches)[runs[k].key] == matches[j].dup + 1
  {
    if matches != [] {
      var init, last := matches[..|matches| - 1], matches[|matches| - 1];
      PeerOfMeaning(runs, init, col, k);
      if last.idx == k {
        assert Listed(matches, k);
      } else {
        assert runs[last.idx].key != runs[k].key;
        if Listed(matches, k) {
          var j :| 0 <= j < |matches| && matches[j].idx == k;
          assert init[j].idx == k;
        }
        if Listed(init, k) {
          var j :| 0 <= j < |init| && init[j].idx == k;
          assert matches[j].idx == k;
        }
      }
    }
  }
}
