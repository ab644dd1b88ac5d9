/** The two parties of a join: which files each one keeps, what it writes, and the run of both. */
module JoinProcessor {
  import opened KeyInfo
  import opened JoinTable
  import opened JoinMerge
  import opened JoinAlign
  import opened JoinContents

  datatype Role = Unspecified | Receiver | Sender

  // ---- The counts a party gets from the intersection of the keys

  /** The indices and extra counts of the keys that the peer also has. */
  ghost predicate CommonKeys(runs: seq<Run>, peer: multiset<nat>, matches: seq<Match>) {
    && Increasing(matches, |runs|)
    && (forall k :: 0 <= k < |runs| && runs[k].key in peer ==> Listed(matches, k))
    && (forall j :: 0 <= j < |matches| ==> matches[j].dup + 1 == peer[runs[matches[j].idx].key])
  }

  /** The keys of the rows whose key the other table has too. */
  ghost function Shared(theirs: seq<Line>, mine: multiset<nat>): multiset<nat>
    requires IsTable(theirs)
  {
    if theirs == [] then multiset{}
    else
      var last := theirs[|theirs| - 1];
      Shared(theirs[..|theirs| - 1], mine) + if last.key in mine then multiset{last.key} else multiset{}
  }

  lemma {:induction false} SharedMeaning(theirs: seq<Line>, mine: multiset<nat>, k: nat)
    requires IsTable(theirs)
    ensures Shared(theirs, mine)[k] == if k in mine then KeyBag(theirs)[k] else 0
    ensures |Shared(theirs, mine)| == Matched(theirs, mine)
  {
    if theirs != [] {
      var init, last := theirs[..|theirs| - 1], theirs[|theirs| - 1];
      assert theirs == init + [last];
      SharedMeaning(init, mine, k);
      BagSnoc(init, last, k);
    } else {
      assert Keys(theirs) == [];
    }
  }

  lemma KeyHasRun(table: seq<Line>, runs: seq<Run>, p: nat) returns (k: nat)
    requires IsTable(table) && Rle(runs, Keys(table)) && p < |table|
    ensures k < |runs| && runs[k].key == table[p].key
  {
    k := RunAt(runs, Keys(table), p);
    assert Keys(table)[p] == table[p].key;
  }

  lemma RunHasKey(table: seq<Line>, runs: seq<Run>, k: nat)
    requires IsTable(table) && Rle(runs, Keys(table)) && k < |runs|
    ensures runs[k].key in KeyBag(table)
  {
    assert Covers(runs[k], Keys(table));
    assert Keys(table)[runs[k].start] in multiset(Keys(table));
  }

  /** What the matches say about the peer is true, for every key of the party's own table. */
  lemma PeerCountTrue(mine: seq<Line>, theirs: seq<Line>, runs: seq<Run>, matches: seq<Match>, k: nat)
    requires IsTable(mine) && IsTable(theirs) && Rle(runs, Keys(mine)) && CommonKeys(runs, KeyBag(theirs), matches)
    requires k < |runs|
    ensures PeerOf(runs, matches)[runs[k].key] == KeyBag(theirs)[runs[k].key]
  {
    hide Rle, PeerOf, KeyBag;
    PeerOfMeaning(runs, matches, Keys(mine), k);
    if Listed(matches, k) {
      var j :| 0 <= j < |matches| && matches[j].idx == k;
    }
  }

  /** So the party splits its table as if it knew the peer's. */
  lemma MergeIsJoin(mine: seq<Line>, theirs: seq<Line>, runs: seq<Run>, matches: seq<Match>)
    requires IsTable(mine) && IsTable(theirs) && Rle(runs, Keys(mine)) && CommonKeys(runs, KeyBag(theirs), matches)
    ensures Inter(mine, PeerOf(runs, matches)) == Inter(mine, KeyBag(theirs))
    ensures Except(mine, PeerOf(runs, matches)) == Except(mine, KeyBag(theirs))
    ensures Matched(mine, PeerOf(runs, matches)) == Matched(mine, KeyBag(theirs))
  {
    hide Rle, PeerOf, KeyBag, Increasing, Listed;
    var peer := PeerOf(runs, matches);
    forall p | 0 <= p < |mine| ensures peer[mine[p].key] == KeyBag(theirs)[mine[p].key] {
      var k := KeyHasRun(mine, runs, p);
      PeerCountTrue(mine, theirs, runs, matches, k);
    }
    SamePeer(mine, peer, KeyBag(theirs));
  }

  lemma {:induction false} PeerOnlyRuns(runs: seq<Run>, matches: seq<Match>, key: nat)
    requires Increasing(matches, |runs|) && forall k :: 0 <= k < |runs| ==> runs[k].key != key
    ensures key !in PeerOf(runs, matches)
  {
    if matches != [] {
      PeerOnlyRuns(runs, matches[..|matches| - 1], key);
    }
  }

  /** The peer's matched rows are counted right, so subtracting them cannot underflow and leaves the
      rows that the peer puts aside. */
  lemma PeerExceptCount(mine: seq<Line>, theirs: seq<Line>, runs: seq<Run>, matches: seq<Match>)
    requires IsTable(mine) && IsTable(theirs) && Rle(runs, Keys(mine)) && CommonKeys(runs, KeyBag(theirs), matches)
    ensures |PeerOf(runs, matches)| <= |theirs|
    ensures |theirs| - |PeerOf(runs, matches)| == |Except(theirs, KeyBag(mine))|
  {
    hide Rle, PeerOf, Increasing, Listed;
    var peer, shared := PeerOf(runs, matches), Shared(theirs, KeyBag(mine));
    forall key ensures peer[key] == shared[key] {
      SharedMeaning(theirs, KeyBag(mine), key);
      if k :| 0 <= k < |runs| && runs[k].key == key {
        PeerCountTrue(mine, theirs, runs, matches, k);
        RunHasKey(mine, runs, k);
      } else {
        NotAKey(mine, runs, key);
        PeerOnly(runs, theirs, matches, key);
      }
    }
    assert peer == shared;
    SharedMeaning(theirs, KeyBag(mine), 0);
    EveryRowOnce(theirs, KeyBag(mine));
  }

  lemma PeerOnly(runs: seq<Run>, theirs: seq<Line>, matches: seq<Match>, key: nat)
    requires IsTable(theirs) && CommonKeys(runs, KeyBag(theirs), matches)
    requires forall k :: 0 <= k < |runs| ==> runs[k].key != key
    ensures key !in PeerOf(runs, matches)
  {
    PeerOnlyRuns(runs, matches, key);
  }

  lemma NotAKey(table: seq<Line>, runs: seq<Run>, key: nat)
    requires IsTable(table) && Rle(runs, Keys(table)) && forall k :: 0 <= k < |runs| ==> runs[k].key != key
    ensures key !in KeyBag(table)
  {
    forall p | 0 <= p < |table| ensures Keys(table)[p] != key {
      var k := KeyHasRun(table, runs, p);
    }
  }

  // ---- A party

  predicate KeepsInter(kind: JoinType) { kind != Difference }

  predicate KeepsExcept(kind: JoinType, isLeft: bool) {
    kind == Difference || kind == Full || kind == if isLeft then Left else Right
  }

  /** What the files and the peer's count add up to. */
  ghost function Written(kind: JoinType, isLeft: bool, inter: seq<Line>, rest: seq<Line>, peerExcept: nat): seq<Line> {
    var gap := Repeat(Nulls, peerExcept);
    var out := [Header] + inter;
    var out := if !isLeft && kind in {Left, Difference, Full} then out + gap else out;
    var out := out + rest;
    if isLeft && kind in {Right, Difference, Full} then out + gap else out
  }

  lemma WrittenIsOutput(kind: JoinType, isLeft: bool, mine: seq<Line>, theirs: seq<Line>)
    requires IsTable(mine) && IsTable(theirs)
    ensures Written(kind, isLeft, if KeepsInter(kind) then Inter(mine, KeyBag(theirs)) else [],
                    if KeepsExcept(kind, isLeft) then Except(mine, KeyBag(theirs)) else [],
                    |Except(theirs, KeyBag(mine))|)
         == [Header] + Output(kind, isLeft, mine, theirs)
  {
    hide Inter, Except, KeyBag, Written, Shape;
    WrittenShape(kind, isLeft, Inter(mine, KeyBag(theirs)), Except(mine, KeyBag(theirs)),
        |Except(theirs, KeyBag(mine))|);
  }

  lemma WrittenShape(kind: JoinType, isLeft: bool, inter: seq<Line>, rest: seq<Line>, n: nat)
    ensures Written(kind, isLeft, if KeepsInter(kind) then inter else [],
                    if KeepsExcept(kind, isLeft) then rest else [], n)
         == [Header] + Shape(kind, isLeft, inter, rest, Repeat(Nulls, n))
  {
    var gap := Repeat(Nulls, n);
    match kind
    case Inner => assert [Header] + inter + [] == [Header] + inter;
    case Left =>
      if isLeft { assert [Header] + inter + rest == [Header] + (inter + rest); }
      else { assert [Header] + inter + gap + [] == [Header] + (inter + gap); }
    case Right =>
      if isLeft { assert [Header] + inter + [] + gap == [Header] + (inter + gap); }
      else { assert [Header] + inter + rest == [Header] + (inter + rest); }
    case Full =>
      if isLeft { assert [Header] + inter + rest + gap == [Header] + (inter + (rest + gap)); }
      else { assert [Header] + inter + gap + rest == [Header] + (inter + (gap + rest)); }
    case Difference =>
      if isLeft { assert [Header] + [] + rest + gap == [Header] + (rest + gap); }
      else { assert [Header] + [] + gap + rest == [Header] + (gap + rest); }
  }

  class Processor {
    const kind: JoinType
    const role: Role
    const leftSide: Role
    const hasInter: bool
    const hasExcept: bool
    var inter: seq<Line>
    var except: seq<Line>

    /** Only the files that the kind of join needs are kept. */
    constructor (kind: JoinType, role: Role, leftSide: Role)
      requires role != Unspecified && (kind != Inner ==> leftSide != Unspecified)
      ensures this.kind == kind && this.role == role && this.leftSide == leftSide
      ensures hasInter == KeepsInter(kind) && hasExcept == KeepsExcept(kind, role == leftSide)
      ensures kind == Inner ==> hasInter && !hasExcept
      ensures kind == Left ==> hasInter && (hasExcept <==> role == leftSide)
      ensures kind == Right ==> hasInter && (hasExcept <==> role != leftSide)
      ensures kind == Full ==> hasInter && hasExcept
      ensures kind == Difference ==> !hasInter && hasExcept
    {
      this.kind, this.role, this.leftSide := kind, role, leftSide;
      hasInter := kind != Difference;
      hasExcept := kind == Difference || kind == Full || (kind == Left && leftSide == role) ||
        (kind == Right && leftSide != role);
      inter, except := [], [];
    }

    /** The kept files hold the two parts of the table. */
    ghost predicate Split(table: seq<Line>, peer: multiset<nat>)
      requires IsTable(table)
      reads this
    {
      && inter == (if hasInter then [Header] + Inter(table, peer) else [])
      && except == (if hasExcept then [Header] + Except(table, peer) else [])
    }

    /** Split the table by the matched keys. */
    method DealResultIndex(file: seq<Line>, batches: seq<seq<Run>>, matches: seq<Match>, ghost table: seq<Line>)
      returns (ok: bool, stat: Stat)
      requires IsTable(table) && [] !in batches && ReadsAs(file, table)
      requires if matches == [] then file == table else Rle(Flat(batches), Keys(table))
      modifies this
      ensures ok <==> Increasing(matches, |Flat(batches)|)
      ensures ok ==> Split(table, PeerOf(Flat(batches), matches))
      ensures ok ==> stat.originalCount == |table| && stat.peerCount == |PeerOf(Flat(batches), matches)|
    {
      hide Rle, PeerOf, Inter, Except, Matched, Increasing, Flat;
      var dumper := new ResultDumper(hasInter, hasExcept);
      ok, stat := ApplyPeerDupCnt(file, batches, matches, dumper, table);
      inter, except := dumper.inter, dumper.except;
      assert table[..|table|] == table;
    }

    /** The lines of a file after its schema line; a file that is not kept has none. */
    static method CopyRows(file: seq<Line>, kept: bool, out: seq<Line>) returns (out': seq<Line>)
      requires kept ==> |file| > 0
      ensures out' == out + if kept then file[1..] else []
    {
      out' := out;
      if kept {
        for i := 1 to |file|
          invariant out' == out + file[1..i]
        {
          out' := out' + [file[i]];
        }
        assert file[1..|file|] == file[1..];
      }
    }

    static method WriteNulls(count: nat, out: seq<Line>) returns (out': seq<Line>)
      ensures out' == out + Repeat(Nulls, count)
    {
      out' := out;
      var left := count;
      while left > 0
        invariant 0 <= left <= count && out' == out + Repeat(Nulls, count - left)
      {
        out' := out' + [Nulls];
        left := left - 1;
      }
    }

    method GenerateResult(peerExcept: nat) returns (out: seq<Line>)
      requires (hasInter ==> |inter| > 0) && (hasExcept ==> |except| > 0)
      ensures out == Written(kind, role == leftSide, if hasInter then inter[1..] else [],
                             if hasExcept then except[1..] else [], peerExcept)
    {
      out := CopyRows(inter, hasInter, [Header]);
      if role != leftSide && (kind == Left || kind == Difference || kind == Full) {
        out := WriteNulls(peerExcept, out);
      }
      out := CopyRows(except, hasExcept, out);
      if role == leftSide && (kind == Right || kind == Difference || kind == Full) {
        out := WriteNulls(peerExcept, out);
      }
    }

    ghost predicate Configured()
      reads this
    {
      && role != Unspecified && (kind != Inner ==> leftSide != Unspecified)
      && hasInter == KeepsInter(kind) && hasExcept == KeepsExcept(kind, role == leftSide)
    }

    /** Before the sizes are exchanged: what the party knows is enough to split its table as the join does and
        to count the peer's rows in the intersection. */
    method BeginFinalize(file: seq<Line>, batches: seq<seq<Run>>, matches: seq<Match>, ghost table: seq<Line>,
        ghost theirs: seq<Line>)
      returns (stat: Stat)
      requires Configured() && IsTable(theirs) && [] !in batches && PartyOk(file, table, Flat(batches), matches, theirs)
      modifies this
      ensures Split(table, KeyBag(theirs)) && stat.originalCount == |table|
      ensures stat.peerCount <= |theirs| && |theirs| - stat.peerCount == |Except(theirs, KeyBag(table))|
    {
      hide Rle, PeerOf, Inter, Except, Matched, Increasing, Listed, Flat, KeyBag;
      EmptyParty(table, theirs, Flat(batches), matches);
      var ok;
      ok, stat := DealResultIndex(file, batches, matches, table);
      if table != [] {
        MergeIsJoin(table, theirs, Flat(batches), matches);
        PeerExceptCount(table, theirs, Flat(batches), matches);
      }
    }

    /** With the result broadcast, the party learns the size of the peer's table and fills in for the
        rows that only the peer has; what it writes is its side of the join. */
    method Finalize(stat: Stat, peerSize: nat, ghost table: seq<Line>, ghost theirs: seq<Line>) returns (out: seq<Line>)
      requires Configured() && IsTable(table) && IsTable(theirs) && Split(table, KeyBag(theirs))
      requires stat.peerCount <= peerSize == |theirs| && |theirs| - stat.peerCount == |Except(theirs, KeyBag(table))|
      ensures out == [Header] + Output(kind, role == leftSide, table, theirs)
      ensures Contents(kind, role == leftSide, table, theirs, out[1..])
    {
      hide Inter, Except, KeyBag, Written, Output, Contents;
      OutputContents(kind, role == leftSide, table, theirs);
      WrittenIsOutput(kind, role == leftSide, table, theirs);
      out := GenerateResult(peerSize - stat.peerCount);
    }
  }

  /** What a party works with: its file, read as the table, and the matches of its encoded keys. */
  ghost predicate PartyOk(file: seq<Line>, table: seq<Line>, runs: seq<Run>, matches: seq<Match>, theirs: seq<Line>)
    requires IsTable(theirs)
  {
    && IsTable(table) && ReadsAs(file, table)
    && if table == [] then matches == []
       else Rle(runs, Keys(table)) && CommonKeys(runs, KeyBag(theirs), matches) && (matches == [] ==> file == table)
  }

  /** A party without rows has an empty intersection and leaves all of the peer's rows aside. */
  lemma EmptyParty(table: seq<Line>, theirs: seq<Line>, runs: seq<Run>, matches: seq<Match>)
    requires IsTable(table) && IsTable(theirs) && (table == [] ==> matches == [])
    ensures table == [] ==>
      && Increasing(matches, |runs|) && PeerOf(runs, matches) == multiset{}
      && Inter(table, PeerOf(runs, matches)) == Inter(table, KeyBag(theirs))
      && Except(table, PeerOf(runs, matches)) == Except(table, KeyBag(theirs))
      && |Except(theirs, KeyBag(table))| == |theirs|
  {
    if table == [] {
      assert Keys(table) == [];
      NothingMatched(theirs);
    }
  }

  lemma {:induction false} NothingMatched(table: seq<Line>)
    requires IsTable(table)
    ensures |Except(table, multiset{})| == |table| && Except(table, multiset{}) == table
  {
    if table != [] {
      NothingMatched(table[..|table| - 1]);
    }
  }

  /** Both parties of a join whose result is broadcast: the files have equally many rows, the rows of the
      intersection carry the same key on both sides, and every other row is data on one side and nulls on
      the other. */
  method Run(kind: JoinType, leftSide: Role, file: seq<Line>, peerFile: seq<Line>, runs: seq<seq<Run>>,
             peerRuns: seq<seq<Run>>, matches: seq<Match>, peerMatches: seq<Match>, ghost table: seq<Line>,
             ghost peerTable: seq<Line>)
    returns (a: seq<Line>, b: seq<Line>)
    requires (kind != Inner ==> leftSide != Unspecified) && [] !in runs && [] !in peerRuns
    requires IsTable(table) && IsTable(peerTable) && Ascending(Keys(table)) && Ascending(Keys(peerTable))
    requires PartyOk(file, table, Flat(runs), matches, peerTable)
    requires PartyOk(peerFile, peerTable, Flat(peerRuns), peerMatches, table)
    ensures a == [Header] + Output(kind, leftSide == Receiver, table, peerTable)
    ensures b == [Header] + Output(kind, leftSide == Sender, peerTable, table)
    ensures Aligned(a[1..], b[1..], if kind == Difference then 0 else |Inter(table, KeyBag(peerTable))|)
    ensures Contents(kind, leftSide == Receiver, table, peerTable, a[1..])
    ensures Contents(kind, leftSide == Sender, peerTable, table, b[1..])
  {
    hide Rle, Inter, Except, Flat, KeyBag, Output, Aligned, Ascending, PartyOk, Contents;
    var p := new Processor(kind, Receiver, leftSide);
    var q := new Processor(kind, Sender, leftSide);
    var stat := p.BeginFinalize(file, runs, matches, table, peerTable);
    var peerStat := q.BeginFinalize(peerFile, peerRuns, peerMatches, peerTable, table);
    a := p.Finalize(stat, peerStat.originalCount, table, peerTable);
    b := q.Finalize(peerStat, stat.originalCount, peerTable, table);
    BothSidesAlign(kind, leftSide, table, peerTable);
  }

  /** Whichever party is on the left; an inner join does not ask. */
  lemma BothSidesAlign(kind: JoinType, leftSide: Role, table: seq<Line>, peerTable: seq<Line>)
    requires kind != Inner ==> leftSide != Unspecified
    requires IsTable(table) && IsTable(peerTable) && Ascending(Keys(table)) && Ascending(Keys(peerTable))
    ensures Aligned(Output(kind, leftSide == Receiver, table, peerTable),
        Output(kind, leftSide == Sender, peerTable, table),
                    if kind == Difference then 0 else |Inter(table, KeyBag(peerTable))|)
  {
    hide Inter, Except, KeyBag, Aligned, Ascending;
    IntersectionsAlign(table, peerTable);
    assert |Inter(table, KeyBag(peerTable))| == |Keys(Inter(table, KeyBag(peerTable)))|
        == |Inter(peerTable, KeyBag(table))|;
    if leftSide == Sender {
      OutputsAlign(kind, peerTable, table);
      AlignedSymmetric(Output(kind, true, peerTable, table), Output(kind, false, table, peerTable),
                       if kind == Difference then 0 else |Inter(peerTable, KeyBag(table))|);
    } else {
      OutputsAlign(kind, table, peerTable);
    }
  }

  /** The runs, as the reader hands them out in batches of at most the given size. */
  method ReadInBatches(runs: seq<Run>, size: nat) returns (batches: seq<seq<Run>>)
    requires size > 0
    ensures Flat(batches) == runs && [] !in batches
  {
    batches := [];
    var i := 0;
    while i < |runs|
      invariant 0 <= i <= |runs| && Flat(batches) == runs[..i] && [] !in batches
    {
      var n := if size < |runs| - i then size else |runs| - i;
      assert (batches + [runs[i..i + n]])[..|batches|] == batches;
      assert runs[..i] + runs[i..i + n] == runs[..i + n];
      batches := batches + [runs[i..i + n]];
      i := i + n;
    }
  }
}
