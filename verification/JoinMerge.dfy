/** The streaming merge of the matched key indices with the runs of the sorted table. */
module JoinMerge {
  import opened KeyInfo
  import opened JoinTable

  datatype Info = Info(start: nat, selfDup: nat, peerDup: nat)

  datatype Stat = Stat(selfCount: nat, peerCount: nat, originalCount: nat, joinCount: nat, uniqueCount: nat)

  function InfoOf(runs: seq<Run>, m: Match): Info
    requires m.idx < |runs|
  {
    Info(runs[m.idx].start, runs[m.idx].dup, m.dup)
  }

  /** What the runs say about the matches from position `from` on. */
  ghost predicate AreInfos(runs: seq<Run>, matches: seq<Match>, infos: seq<Info>, from: nat) {
    && from + |infos| <= |matches|
    && forall t :: 0 <= t < |infos| ==> matches[from + t].idx < |runs| && infos[t] == InfoOf(runs, matches[from + t])
  }

  // ---- Matched runs, batch by batch

  class InterIndexProcessor {
    const matches: seq<Match>
    const batches: seq<seq<Run>>
    const runs: seq<Run>
    var pos: nat
    var next: nat
    var selfIndex: nat
    var finish: bool

    ghost predicate Valid()
      reads this
    {
      && runs == Flat(batches) && pos <= |matches| && next <= |batches| && [] !in batches
      && selfIndex <= |runs| && Increasing(matches[..pos], selfIndex)
      && (if finish then pos == |matches| else selfIndex == |Flat(batches[..next])|)
      && (Increasing(matches, |runs|) && pos < |matches| ==> selfIndex <= matches[pos].idx)
    }

    constructor (matches: seq<Match>, batches: seq<seq<Run>>)
      requires [] !in batches
      ensures Valid() && this.matches == matches && this.batches == batches && pos == 0
    {
      this.matches, this.batches, this.runs := matches, batches, Flat(batches);
      pos, next, selfIndex, finish := 0, 0, 0, false;
    }

    /** The matches from position `from` on, with what the runs say about them. */
    ghost predicate Delivered(inter: seq<Info>, from: nat)
      reads this
      requires from <= |matches|
    {
      pos == from + |inter| <= |matches| && AreInfos(runs, matches, inter, from)
    }

    /** The matches that fall into the next batch of runs. */
    method ScanBatch() returns (ok: bool, inter: seq<Info>)
      requires Valid() && !finish && next < |batches|
      modifies this
      ensures !ok ==> !Increasing(matches, |runs|)
      ensures ok ==> Valid() && Delivered(inter, old(pos)) && next == old(next) + 1 && (finish ==> pos == |matches|)
    {
      hide Increasing;
      FlatPrefix(batches, next);
      var batch := batches[next];
      inter := [];
      ghost var from, base: nat := pos, selfIndex;
      for i := 0 to |batch|
        invariant !finish && next == old(next) && selfIndex == base + i && pos <= |matches|
        invariant Increasing(matches[..pos], selfIndex) && Delivered(inter, from)
        invariant Increasing(matches, |runs|) && pos < |matches| ==> selfIndex <= matches[pos].idx
      {
        if pos == |matches| {
          finish := true;
          break;
        }
        IncreasingStep(matches, |runs|, pos, selfIndex);
        if selfIndex == matches[pos].idx {
          assert batch[i] == runs[selfIndex];
          inter := inter + [Info(batch[i].start, batch[i].dup, matches[pos].dup)];
          pos := pos + 1;
        } else if selfIndex > matches[pos].idx {
          return false, [];
        }
        selfIndex := selfIndex + 1;
      }
      next := next + 1;
      ok := true;
    }

    /** The matches that fall into the next batch of runs that has any; an error when the indices are
        out of order or out of range. */
    method GetBatchInfo() returns (ok: bool, inter: seq<Info>)
      requires Valid()
      modifies this
      ensures !ok ==> !Increasing(matches, |runs|)
      ensures ok ==> Valid() && Delivered(inter, old(pos)) && (inter == [] ==> pos == |matches|)
    {
      hide Increasing;
      ok, inter := true, [];
      if finish {
        return;
      }
      if pos == |matches| {
        finish := true;
        return;
      }
      while inter == []
        invariant ok && Valid() && Delivered(inter, old(pos))
        invariant inter == [] ==> !finish && pos < |matches|
        decreases |batches| - next
      {
        if next == |batches| {
          assert batches[..next] == batches;
          OutOfRange(matches, |runs|, pos);
          return false, [];
        }
        ok, inter := ScanBatch();
        if !ok {
          return;
        }
      }
    }
  }

  lemma IncreasingStep(matches: seq<Match>, n: nat, pos: nat, i: nat)
    requires pos < |matches| && i < n && Increasing(matches[..pos], i)
    ensures matches[pos].idx == i ==> Increasing(matches[..pos + 1], i + 1)
    ensures matches[pos].idx == i && Increasing(matches, n) && pos + 1 < |matches| ==> i + 1 <= matches[pos + 1].idx
    ensures Increasing(matches[..pos], i + 1)
  {
  }

  lemma OutOfRange(matches: seq<Match>, n: nat, pos: nat)
    requires pos < |matches| && (Increasing(matches, n) ==> n <= matches[pos].idx)
    ensures !Increasing(matches, n)
  {
  }

  // ---- Reading the table

  /** The line read at row q of a file; past its end the read leaves an empty line. */
  function LineAt(file: seq<Line>, q: nat): Line { if q < |file| then file[q] else Blank(NO_KEY) }

  /** The file reads as the table: it holds the table, or it is empty and one row is read past its end. */
  ghost predicate ReadsAs(file: seq<Line>, table: seq<Line>) {
    file == table || (file == [] && table == [Blank(NO_KEY)])
  }

  // ---- The output files

  /** Lines go to a file only if it is wanted; they are counted in any case. */
  class ResultDumper {
    const hasInter: bool
    const hasExcept: bool
    var inter: seq<Line>
    var except: seq<Line>
    var interCnt: nat
    var exceptCnt: nat

    constructor (hasInter: bool, hasExcept: bool)
      ensures this.hasInter == hasInter && this.hasExcept == hasExcept
      ensures inter == [] && except == [] && interCnt == 0 && exceptCnt == 0
    {
      this.hasInter, this.hasExcept := hasInter, hasExcept;
      inter, except, interCnt, exceptCnt := [], [], 0, 0;
    }

    static method Dump(line: Line, dup: nat, file: seq<Line>, open: bool) returns (file': seq<Line>)
      ensures file' == if open then file + Repeat(line, dup + 1) else file
    {
      file' := file;
      if open {
        var left: int := dup;
        while left >= 0
          invariant -1 <= left <= dup && file' == file + Repeat(line, dup - left)
        {
          file' := file' + [line];
          left := left - 1;
        }
      }
    }

    method ToIntersect(line: Line, dup: nat)
      modifies this`inter, this`interCnt
      ensures inter == if hasInter then old(inter) + Repeat(line, dup + 1) else old(inter)
      ensures interCnt == old(interCnt) + dup + 1
    {
      interCnt := interCnt + 1 + dup;
      inter := Dump(line, dup, inter, hasInter);
    }

    method ToExcept(line: Line)
      modifies this`except, this`exceptCnt
      ensures except == if hasExcept then old(except) + [line] else old(except)
      ensures exceptCnt == old(exceptCnt) + 1
    {
      exceptCnt := exceptCnt + 1;
      except := Dump(line, 0, except, hasExcept);
      assert Repeat(line, 1) == [line];
    }
  }

  // ---- Which rows are matched

  lemma {:induction false} RunAt(runs: seq<Run>, col: seq<nat>, q: nat) returns (k: nat)
    requires Rle(runs, col) && q < |col|
    ensures k < |runs| && runs[k].start <= q < EndOf(runs[k]) && col[q] == runs[k].key
  {
    hide Rle;
    assert runs != [] && Covers(runs[|runs| - 1], col) && EndOf(runs[|runs| - 1]) == |col| by { LastRun(runs, col); }
    RlePrefix(runs, col);
    if runs[|runs| - 1].start <= q {
      k := |runs| - 1;
    } else {
      k := RunAt(runs[..|runs| - 1], col[..runs[|runs| - 1].start], q);
    }
  }

  lemma LastRun(runs: seq<Run>, col: seq<nat>)
    requires Rle(runs, col) && col != []
    ensures runs != [] && Covers(runs[|runs| - 1], col) && EndOf(runs[|runs| - 1]) == |col|
  {
  }

  /** The first row after the last match. */
  ghost function After(runs: seq<Run>, matches: seq<Match>): nat
    requires Increasing(matches, |runs|)
  {
    if matches == [] then 0 else EndOf(runs[matches[|matches| - 1].idx])
  }

  lemma RowUnmatched(runs: seq<Run>, matches: seq<Match>, col: seq<nat>, q: nat)
    requires Increasing(matches, |runs|) && After(runs, matches) <= q < |col| && (matches != [] ==> Rle(runs, col))
    ensures col[q] !in PeerOf(runs, matches)
  {
    if matches == [] {
      return;
    }
    hide PeerOf;
    var k := RunAt(runs, col, q);
    PeerOfMeaning(runs, matches, col, k);
    forall i | 0 <= i < |matches| ensures matches[i].idx != k {
      assert matches[i].idx <= matches[|matches| - 1].idx;
    }
  }

  lemma RowMatched(runs: seq<Run>, matches: seq<Match>, col: seq<nat>, j: nat, q: nat)
    requires Rle(runs, col) && Increasing(matches, |runs|) && j < |matches|
    requires runs[matches[j].idx].start <= q < EndOf(runs[matches[j].idx])
    ensures q < |col| && PeerOf(runs, matches)[col[q]] == matches[j].dup + 1
  {
    var k := matches[j].idx;
    assert Covers(runs[k], col);
    PeerOfMeaning(runs, matches, col, k);
  }

  /** The match m may follow those before it. */
  ghost predicate Follows(before: seq<Match>, m: Match, n: nat) {
    && Increasing(before, n) && Increasing(before + [m], n) && m.idx < n
    && forall i :: 0 <= i < |before| ==> before[i].idx < m.idx
  }

  lemma {:induction false} PeerSize(runs: seq<Run>, matches: seq<Match>, col: seq<nat>, m: Match)
    requires Rle(runs, col) && Follows(matches, m, |runs|)
    ensures |PeerOf(runs, matches + [m])| == |PeerOf(runs, matches)| + m.dup + 1
  {
    assert (matches + [m])[..|matches|] == matches;
    PeerOfMeaning(runs, matches, col, m.idx);
  }

  /** A further match says nothing about the rows before it. */
  lemma {:induction false} PeerGrows(runs: seq<Run>, matches: seq<Match>, table: seq<Line>, m: Match)
    requires IsTable(table) && Rle(runs, Keys(table)) && Follows(matches, m, |runs|)
    ensures runs[m.idx].start <= |table|
    ensures var rows := table[..runs[m.idx].start];
      && Inter(rows, PeerOf(runs, matches)) == Inter(rows, PeerOf(runs, matches + [m]))
      && Except(rows, PeerOf(runs, matches)) == Except(rows, PeerOf(runs, matches + [m]))
      && Matched(rows, PeerOf(runs, matches)) == Matched(rows, PeerOf(runs, matches + [m]))
  {
    assert (matches + [m])[..|matches|] == matches;
    assert Covers(runs[m.idx], Keys(table));
    var rows := table[..runs[m.idx].start];
    var key := runs[m.idx].key;
    forall p | 0 <= p < |rows| ensures rows[p].key != key {
      var k := RunAt(runs, Keys(table), p);
      assert k != m.idx;
    }
    SamePeer(rows, PeerOf(runs, matches), PeerOf(runs, matches + [m]));
  }

  // ---- The merge

  /** Files and counters when the first q rows have been dealt with. */
  ghost predicate DealtWith(hasInter: bool, hasExcept: bool, inter: seq<Line>, except: seq<Line>, interCnt: nat,
      table: seq<Line>, peer: multiset<nat>, q: nat, selfCount: nat)
    requires IsTable(table) && q <= |table|
  {
    && inter == (if hasInter then [Header] + Inter(table[..q], peer) else [])
    && except == (if hasExcept then [Header] + Except(table[..q], peer) else [])
    && interCnt == 1 + |Inter(table[..q], peer)|
    && selfCount == Matched(table[..q], peer)
  }

  ghost predicate Dealt(d: ResultDumper, table: seq<Line>, peer: multiset<nat>, q: nat, selfCount: nat)
    requires IsTable(table) && q <= |table|
    reads d
  {
    DealtWith(d.hasInter, d.hasExcept, d.inter, d.except, d.interCnt, table, peer, q, selfCount)
  }

  lemma OneMatchedRow(hasInter: bool, hasExcept: bool, inter: seq<Line>, except: seq<Line>, interCnt: nat,
      table: seq<Line>, peer: multiset<nat>, q: nat, selfCount: nat, dup: nat)
    requires IsTable(table) && q < |table| && peer[table[q].key] == dup + 1
    requires DealtWith(hasInter, hasExcept, inter, except, interCnt, table, peer, q, selfCount)
    ensures var inter' := if hasInter then inter + Repeat(table[q], dup + 1) else inter;
      DealtWith(hasInter, hasExcept, inter', except, interCnt + dup + 1, table, peer, q + 1, selfCount + 1)
  {
    hide Inter, Except, Matched;
    UptoNext(table, peer, q);
  }

  /** Rows after the last match are written to the except file. */
  method DumpExcept(file: seq<Line>, ghost table: seq<Line>, ghost runs: seq<Run>, ghost matches: seq<Match>,
      ghost selfCount: nat, d: ResultDumper, from: nat, upto: nat)
    requires IsTable(table) && ReadsAs(file, table) && (matches != [] ==> Rle(runs, Keys(table)))
    requires Increasing(matches, |runs|) && After(runs, matches) <= from <= upto <= |table|
    requires Dealt(d, table, PeerOf(runs, matches), from, selfCount)
    modifies d
    ensures Dealt(d, table, PeerOf(runs, matches), upto, selfCount)
  {
    hide PeerOf, Rle, After, Inter, Except, Matched;
    ghost var peer := PeerOf(runs, matches);
    for q := from to upto
      invariant Dealt(d, table, peer, q, selfCount)
    {
      RowUnmatched(runs, matches, Keys(table), q);
      assert Repeat(table[q], 0) == [];
      UptoNext(table, peer, q);
      d.ToExcept(LineAt(file, q));
    }
  }

  /** The rows of the last match are written to the intersection, as often as the peer has the key. */
  method DumpMatch(file: seq<Line>, ghost table: seq<Line>, ghost runs: seq<Run>, ghost matches: seq<Match>,
      ghost selfCount: nat, d: ResultDumper, info: Info)
    requires IsTable(table) && ReadsAs(file, table) && Rle(runs, Keys(table)) && matches != []
    requires Increasing(matches, |runs|)
    requires info == InfoOf(runs, matches[|matches| - 1]) && info.start + info.selfDup < |table|
    requires Dealt(d, table, PeerOf(runs, matches), info.start, selfCount)
    modifies d
    ensures Dealt(d, table, PeerOf(runs, matches), info.start + info.selfDup + 1, selfCount + info.selfDup + 1)
  {
    hide PeerOf, Rle, Dealt, Increasing;
    ghost var peer := PeerOf(runs, matches);
    ghost var q: nat, count: nat := info.start, selfCount;
    for i := 0 to info.selfDup + 1
      invariant q == info.start + i && count == selfCount + i && Dealt(d, table, peer, q, count)
    {
      RowMatched(runs, matches, Keys(table), |matches| - 1, q);
      DumpRow(LineAt(file, info.start + i), info.peerDup, d, table, peer, q, count);
      q, count := q + 1, count + 1;
    }
    assert q == info.start + info.selfDup + 1 && count == selfCount + info.selfDup + 1;
  }

  method DumpRow(line: Line, peerDup: nat, d: ResultDumper, ghost table: seq<Line>, ghost peer: multiset<nat>,
      ghost q: nat, ghost count: nat)
    requires IsTable(table) && q < |table| && line == table[q] && peer[line.key] == peerDup + 1
    requires Dealt(d, table, peer, q, count)
    modifies d
    ensures Dealt(d, table, peer, q + 1, count + 1)
  {
    hide DealtWith;
    OneMatchedRow(d.hasInter, d.hasExcept, d.inter, d.except, d.interCnt, table, peer, q, count, peerDup);
    d.ToIntersect(line, peerDup);
  }

  /** One match: the rows before it, then its own. */
  method DumpOne(file: seq<Line>, ghost table: seq<Line>, ghost runs: seq<Run>, ghost before: seq<Match>,
      ghost m: Match, selfCount: nat, d: ResultDumper, from: nat, info: Info)
    requires IsTable(table) && ReadsAs(file, table) && Rle(runs, Keys(table)) && Follows(before, m, |runs|)
    requires info == InfoOf(runs, m) && from == After(runs, before) <= |table|
    requires Dealt(d, table, PeerOf(runs, before), from, selfCount)
    modifies d
    ensures info.start + info.selfDup + 1 == After(runs, before + [m]) <= |table|
    ensures Dealt(d, table, PeerOf(runs, before + [m]), info.start + info.selfDup + 1, selfCount + info.selfDup + 1)
  {
    RunsInOrder(runs, Keys(table), before, m);
    hide PeerOf, Rle, Inter, Except, Matched, Increasing;
    DumpExcept(file, table, runs, before, selfCount, d, from, info.start);
    PeerGrows(runs, before, table, m);
    DumpMatch(file, table, runs, before + [m], selfCount, d, info);
  }

  lemma RunsInOrder(runs: seq<Run>, col: seq<nat>, before: seq<Match>, m: Match)
    requires Rle(runs, col) && Follows(before, m, |runs|)
    ensures After(runs, before) <= runs[m.idx].start && EndOf(runs[m.idx]) <= |col|
    ensures After(runs, before + [m]) == EndOf(runs[m.idx])
  {
    assert Covers(runs[m.idx], col);
  }

  lemma PrefixFollows(matches: seq<Match>, pos: nat, bound: nat, n: nat, i: nat)
    requires i < pos <= |matches| && bound <= n && Increasing(matches[..pos], bound)
    ensures Follows(matches[..i], matches[i], n) && matches[..i] + [matches[i]] == matches[..i + 1]
  {
    assert forall j :: 0 <= j < pos ==> matches[..pos][j] == matches[j];
    assert matches[..i] + [matches[i]] == matches[..i + 1];
  }

  /** The merge as far as the first i matches. */
  ghost predicate Merged(d: ResultDumper, table: seq<Line>, runs: seq<Run>, done: seq<Match>, q: nat, selfCount: nat,
      peerCount: nat)
    requires IsTable(table)
    reads d
  {
    && Increasing(done, |runs|) && q == After(runs, done) <= |table|
    && Dealt(d, table, PeerOf(runs, done), q, selfCount) && peerCount == |PeerOf(runs, done)|
  }

  method ApplyBatch(file: seq<Line>, ghost table: seq<Line>, ghost runs: seq<Run>, ghost matches: seq<Match>,
      ghost pos: nat, ghost bound: nat, ghost from: nat,
                    infos: seq<Info>, d: ResultDumper, q: nat, selfCount: nat, peerCount: nat)
    returns (q': nat, selfCount': nat, peerCount': nat)
    requires IsTable(table) && ReadsAs(file, table) && Rle(runs, Keys(table)) && from + |infos| == pos <= |matches|
    requires bound <= |runs| && Increasing(matches[..pos], bound)
    requires AreInfos(runs, matches, infos, from)
    requires Merged(d, table, runs, matches[..from], q, selfCount, peerCount)
    modifies d
    ensures Merged(d, table, runs, matches[..pos], q', selfCount', peerCount')
  {
    hide Rle, PeerOf, Dealt, Increasing, Follows;
    q', selfCount', peerCount' := q, selfCount, peerCount;
    for t := 0 to |infos|
      invariant Merged(d, table, runs, matches[..from + t], q', selfCount', peerCount')
    {
      var info := infos[t];
      ghost var m := matches[from + t];
      PrefixFollows(matches, pos, bound, |runs|, from + t);
      PeerSize(runs, matches[..from + t], Keys(table), m);
      DumpOne(file, table, runs, matches[..from + t], m, selfCount', d, q', info);
      q' := info.start + info.selfDup + 1;
      selfCount', peerCount' := selfCount' + info.selfDup + 1, peerCount' + info.peerDup + 1;
      assert matches[..from + t] + [m] == matches[..from + (t + 1)];
    }
  }

  /** Every row of a matched key goes to the intersection, as often as the peer has the key, and every
      other row goes once to the except part, in order; an error exactly when the indices are not valid
      and strictly increasing. An empty file whose one encoded key is matched reads as one empty row. */
  method ApplyPeerDupCnt(file: seq<Line>, batches: seq<seq<Run>>, matches: seq<Match>, d: ResultDumper,
      ghost table: seq<Line>)
    returns (ok: bool, stat: Stat)
    requires IsTable(table) && [] !in batches && ReadsAs(file, table)
    requires if matches == [] then file == table else Rle(Flat(batches), Keys(table))
    requires d.inter == [] && d.except == [] && d.interCnt == 0
    modifies d
    ensures ok <==> Increasing(matches, |Flat(batches)|)
    ensures ok ==> Dealt(d, table, PeerOf(Flat(batches), matches), |table|, stat.selfCount)
    ensures ok ==> stat.peerCount == |PeerOf(Flat(batches), matches)| && stat.originalCount == |table|
    ensures ok ==> stat.joinCount == |Inter(table, PeerOf(Flat(batches), matches))| && stat.uniqueCount == |matches|
  {
    hide Rle, PeerOf, Inter, Except, Matched, Increasing, Flat, DealtWith, AreInfos;
    ghost var runs := Flat(batches);
    stat := Stat(0, 0, 0, 0, 0);
    d.ToIntersect(Header, 0);
    d.ToExcept(Header);
    var processor := new InterIndexProcessor(matches, batches);
    var q: nat, selfCount: nat, peerCount: nat, unique: nat := 0, 0, 0, 0;
    assert Merged(d, table, runs, matches[..0], 0, 0, 0) by {
      MergedNothing(d, table, runs);
      assert matches[..0] == [];
    }
    var infos;
    ok, infos := processor.GetBatchInfo();
    if !ok {
      return;
    }
    while infos != []
      invariant processor.Valid() && processor.runs == runs && processor.matches == matches && fresh(processor)
      invariant unique <= |matches| && processor.Delivered(infos, unique) && (infos == [] ==> unique == |matches|)
      invariant Merged(d, table, runs, matches[..unique], q, selfCount, peerCount)
      decreases |matches| - unique
    {
      q, selfCount, peerCount := ApplyBatch(file, table, runs, matches, processor.pos, processor.selfIndex, unique,
          infos, d, q, selfCount, peerCount);
      unique := unique + |infos|;
      ok, infos := processor.GetBatchInfo();
      if !ok {
        return;
      }
    }
    assert matches[..unique] == matches;
    ReadToTheEnd(file, table, runs, matches);
    var end := if q < |file| then |file| else q;
    DumpExcept(file, table, runs, matches, selfCount, d, q, end);
    JoinCount(d, table, PeerOf(runs, matches), selfCount);
    stat := Stat(selfCount, peerCount, end, d.interCnt - 1, unique);
  }

  lemma ReadToTheEnd(file: seq<Line>, table: seq<Line>, runs: seq<Run>, matches: seq<Match>)
    requires ReadsAs(file, table) && Increasing(matches, |runs|) && After(runs, matches) <= |table|
    requires (matches == [] ==> file == table)
    ensures |table| == if After(runs, matches) < |file| then |file| else After(runs, matches)
  {
  }

  lemma JoinCount(d: ResultDumper, table: seq<Line>, peer: multiset<nat>, selfCount: nat)
    requires IsTable(table) && Dealt(d, table, peer, |table|, selfCount)
    ensures d.interCnt == 1 + |Inter(table, peer)|
  {
    assert table[..|table|] == table;
  }

  lemma MergedNothing(d: ResultDumper, table: seq<Line>, runs: seq<Run>)
    requires IsTable(table)
    requires d.inter == (if d.hasInter then [Header] else []) && d.except == (if d.hasExcept then [Header] else [])
    requires d.interCnt == 1
    ensures Merged(d, table, runs, [], 0, 0, 0)
  {
    assert table[..0] == [];
  }
}
