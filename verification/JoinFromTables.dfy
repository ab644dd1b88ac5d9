/** The join from the two sorted tables on, empty ones included. */
module JoinFromTables {
  import opened KeyInfo
  import opened JoinTable
  import opened JoinMerge
  import opened JoinAlign
  import opened JoinContents
  import opened JoinProcessor

  // ---- Empty tables

  /** The key column as it is encoded: an empty one counts as one row with the key that is not there. */
  ghost function EncodedKeys(table: seq<Line>): seq<nat>
    requires IsTable(table)
  {
    if table == [] then [NO_KEY] else Keys(table)
  }

  /** The table as the join treats it: if the key of an empty table is matched, there is one empty row. */
  ghost function Effective(table: seq<Line>, other: seq<Line>): (r: seq<Line>)
    requires IsTable(table) && IsTable(other)
    ensures IsTable(r)
  {
    if table == [] && NO_KEY in EncodedKeys(other) then [Blank(NO_KEY)] else table
  }

  /** The key of an empty table meets the same key on the other side. */
  ghost predicate PhantomMatched(table: seq<Line>, other: seq<Line>)
    requires IsTable(table) && IsTable(other)
  {
    (table == [] || other == []) && NO_KEY in EncodedKeys(table) && NO_KEY in EncodedKeys(other)
  }

  lemma PhantomRle()
    ensures Rle([KeyInfo.Run(NO_KEY, 0, 0)], [NO_KEY])
  {
    assert Covers(KeyInfo.Run(NO_KEY, 0, 0), [NO_KEY]);
  }

  /** Matches against the encoded keys are matches against the effective table. */
  lemma EffectiveParty(file: seq<Line>, peerFile: seq<Line>, runs: seq<KeyInfo.Run>, matches: seq<Match>)
    requires OnlyRows(file) && OnlyRows(peerFile) && IsTable(file) && IsTable(peerFile)
    requires Rle(runs, EncodedKeys(file)) && CommonKeys(runs, multiset(EncodedKeys(peerFile)), matches)
    ensures PartyOk(file, Effective(file, peerFile), runs, matches, Effective(peerFile, file))
  {
    hide Rle;
    var table, theirs := Effective(file, peerFile), Effective(peerFile, file);
    assert Keys([Blank(NO_KEY)]) == [NO_KEY];
    if table == [] {
      assert runs == [KeyInfo.Run(NO_KEY, 0, 0)] by {
        PhantomRle();
        EncodingUnique(runs, [KeyInfo.Run(NO_KEY, 0, 0)], [NO_KEY]);
      }
      NotMatched(runs, multiset(EncodedKeys(peerFile)), matches);
    } else if theirs == [] {
      assert Keys(theirs) == [];
      forall k | 0 <= k < |runs| ensures runs[k].key !in multiset([NO_KEY]) {
        RunKey(runs, Keys(file), k);
      }
      NotMatched(runs, multiset([NO_KEY]), matches);
    } else if file == [] {
      assert runs == [KeyInfo.Run(NO_KEY, 0, 0)] by {
        PhantomRle();
        EncodingUnique(runs, [KeyInfo.Run(NO_KEY, 0, 0)], [NO_KEY]);
      }
      assert Listed(matches, 0);
    }
  }

  lemma RunKey(runs: seq<KeyInfo.Run>, col: seq<nat>, k: nat)
    requires Rle(runs, col) && k < |runs|
    ensures runs[k].key in col
  {
    assert Covers(runs[k], col) && col[runs[k].start] == runs[k].key;
  }

  lemma MatchIsCommon(runs: seq<KeyInfo.Run>, peer: multiset<nat>, matches: seq<Match>, j: nat)
    requires CommonKeys(runs, peer, matches) && j < |matches|
    ensures matches[j].idx < |runs| && runs[matches[j].idx].key in peer
  {
  }

  lemma NotMatched(runs: seq<KeyInfo.Run>, peer: multiset<nat>, matches: seq<Match>)
    requires CommonKeys(runs, peer, matches) && forall k :: 0 <= k < |runs| ==> runs[k].key !in peer
    ensures matches == []
  {
    if matches != [] {
      MatchIsCommon(runs, peer, matches, 0);
    }
  }

  lemma EffectiveAscending(table: seq<Line>, other: seq<Line>)
    requires IsTable(table) && IsTable(other) && Ascending(Keys(table))
    ensures Ascending(Keys(Effective(table, other)))
  {
  }

  /** From any two sorted tables to the result files: the keys are encoded from whatever batches they arrive
      in, the encoded keys are intersected, and both parties write their side of the join of the tables as
      the join treats them. */
  method RunFromTables(kind: JoinType, leftSide: Role, file: seq<Line>, peerFile: seq<Line>,
                       keys: seq<seq<nat>>, peerKeys: seq<seq<nat>>, size: nat,
                       matches: seq<Match>, peerMatches: seq<Match>) returns (a: seq<Line>, b: seq<Line>)
    requires (kind != Inner ==> leftSide != Unspecified) && size > 0
    requires OnlyRows(file) && IsTable(file) && Ascending(Keys(file)) && Flat(keys) == Keys(file) && [] !in keys
    requires OnlyRows(peerFile) && IsTable(peerFile) && Ascending(Keys(peerFile)) && Flat(peerKeys) == Keys(peerFile)
    requires [] !in peerKeys
    requires forall runs :: Rle(runs, EncodedKeys(file)) ==> CommonKeys(runs, multiset(EncodedKeys(peerFile)), matches)
    requires forall runs :: Rle(runs, EncodedKeys(peerFile)) ==>
      CommonKeys(runs, multiset(EncodedKeys(file)), peerMatches)
    ensures var table, peerTable := Effective(file, peerFile), Effective(peerFile, file);
      && a == [Header] + Output(kind, leftSide == Receiver, table, peerTable)
      && b == [Header] + Output(kind, leftSide == Sender, peerTable, table)
      && Aligned(a[1..], b[1..], if kind == Difference then 0 else |Inter(table, KeyBag(peerTable))|)
      && Contents(kind, leftSide == Receiver, table, peerTable, a[1..])
      && Contents(kind, leftSide == Sender, peerTable, table, b[1..])
  {
    hide Rle, Inter, Flat, KeyBag, Output, Aligned, Ascending, CommonKeys, PartyOk, Contents;
    assert |Keys(file)| == |file| && |Keys(peerFile)| == |peerFile|;
    PhantomRle();
    var myRuns, meta := Make(keys);
    var theirRuns, peerMeta := Make(peerKeys);
    var p := ReadInBatches(myRuns, size);
    var q := ReadInBatches(theirRuns, size);
    EffectiveParty(file, peerFile, myRuns, matches);
    EffectiveParty(peerFile, file, theirRuns, peerMatches);
    EffectiveAscending(file, peerFile);
    EffectiveAscending(peerFile, file);
    a, b := JoinProcessor.Run(kind, leftSide, file, peerFile, p, q, matches, peerMatches, Effective(file, peerFile),
        Effective(peerFile, file));
  }

  /** An empty party whose key is matched writes a wrong file, unless the join is a difference of two empty tables. */
  lemma PhantomSide(kind: JoinType, isLeft: bool, peerFile: seq<Line>)
    requires IsTable(peerFile) && NO_KEY in EncodedKeys(peerFile)
    ensures Output(kind, isLeft, [Blank(NO_KEY)], Effective(peerFile, [])) == Output(kind, isLeft, [], peerFile) <==>
      kind == Difference && peerFile == []
  {
    hide Inter, Except, Shape, Matched;
    var theirs := Effective(peerFile, []);
    PhantomParts(theirs);
    NothingMatched(peerFile);
    EmptyParts(peerFile);
    assert Keys([Blank(NO_KEY)]) == [NO_KEY];
    assert Keys(theirs) == EncodedKeys(peerFile);
    var c := KeyBag(theirs)[NO_KEY];
    assert NO_KEY in multiset(Keys(theirs));
    assert c > 0;
    PhantomShape(kind, isLeft, c, |theirs| - c, |peerFile|);
  }

  /** The two parts of one empty row, and what it leaves of the peer's table. */
  lemma PhantomParts(theirs: seq<Line>)
    requires IsTable(theirs)
    ensures KeyBag([Blank(NO_KEY)]) == multiset{NO_KEY}
    ensures Inter([Blank(NO_KEY)], KeyBag(theirs)) == Repeat(Blank(NO_KEY), KeyBag(theirs)[NO_KEY])
    ensures NO_KEY in KeyBag(theirs) ==> Except([Blank(NO_KEY)], KeyBag(theirs)) == []
    ensures |Except(theirs, KeyBag([Blank(NO_KEY)]))| == |theirs| - KeyBag(theirs)[NO_KEY]
  {
    assert [Blank(NO_KEY)][..0] == [];
    assert Keys([Blank(NO_KEY)]) == [NO_KEY];
    PhantomGap(theirs);
  }

  lemma EmptyParts(theirs: seq<Line>)
    requires IsTable(theirs)
    ensures KeyBag([]) == multiset{} && Inter([], KeyBag(theirs)) == [] && Except([], KeyBag(theirs)) == []
  {
    assert Keys([]) == [];
  }

  lemma PhantomShape(kind: JoinType, isLeft: bool, c: nat, g: nat, n: nat)
    requires c > 0
    ensures var wrong := Shape(kind, isLeft, Repeat(Blank(NO_KEY), c), [], Repeat(Nulls, g));
      wrong == Shape(kind, isLeft, [], [], Repeat(Nulls, n)) <==> kind == Difference && g == n
  {
    var wrong := Shape(kind, isLeft, Repeat(Blank(NO_KEY), c), [], Repeat(Nulls, g));
    var right := Shape(kind, isLeft, [], [], Repeat(Nulls, n));
    if kind == Difference {
      assert |wrong| == g && |right| == n;
    } else {
      assert wrong[0] == Blank(NO_KEY) && (right != [] ==> right[0] == Nulls);
    }
  }

  lemma PhantomGap(theirs: seq<Line>)
    requires IsTable(theirs)
    ensures |Except(theirs, multiset{NO_KEY})| == |theirs| - KeyBag(theirs)[NO_KEY]
  {
    SharedMeaning(theirs, multiset{NO_KEY}, NO_KEY);
    EveryRowOnce(theirs, multiset{NO_KEY});
    MatchedOne(theirs);
  }

  lemma {:induction false} MatchedOne(theirs: seq<Line>)
    requires IsTable(theirs)
    ensures Matched(theirs, multiset{NO_KEY}) == KeyBag(theirs)[NO_KEY]
  {
    if theirs == [] {
      assert Keys(theirs) == [];
    } else {
      var init, last := theirs[..|theirs| - 1], theirs[|theirs| - 1];
      assert theirs == init + [last];
      MatchedOne(init);
      BagSnoc(init, last, NO_KEY);
    }
  }

  /** Both files are those of the given tables if and only if no empty table's key is matched, or the join is
      the difference of two empty tables. */
  lemma FilesRightIff(kind: JoinType, isLeft: bool, file: seq<Line>, peerFile: seq<Line>)
    requires IsTable(file) && IsTable(peerFile)
    ensures
      && Output(kind, isLeft, Effective(file, peerFile), Effective(peerFile, file))
          == Output(kind, isLeft, file, peerFile)
      && Output(kind, !isLeft, Effective(peerFile, file), Effective(file, peerFile))
          == Output(kind, !isLeft, peerFile, file)
      <==> !PhantomMatched(file, peerFile) || (kind == Difference && file == [] && peerFile == [])
  {
    if PhantomMatched(file, peerFile) {
      hide Output;
      if file == [] { PhantomSide(kind, isLeft, peerFile); }
      if peerFile == [] { PhantomSide(kind, !isLeft, file); }
    }
  }

  /** An empty table against one row with the empty key: the inner join has a row on both sides. */
  lemma EmptyAgainstBlankKey()
    ensures PhantomMatched([], [Row(NO_KEY, 5)])
    ensures Output(Inner, true, Effective([], [Row(NO_KEY, 5)]), [Row(NO_KEY, 5)]) == [Blank(NO_KEY)]
    ensures Output(Inner, true, [], [Row(NO_KEY, 5)]) == []
  {
    var right := [Row(NO_KEY, 5)];
    assert Keys(right) == [NO_KEY] && KeyBag(right) == multiset{NO_KEY};
    assert [Blank(NO_KEY)][..0] == [];
    assert Inter([Blank(NO_KEY)], KeyBag(right)) == Repeat(Blank(NO_KEY), 1) == [Blank(NO_KEY)];
  }
}
