/** What the output files hold, counted row by row from the two tables. */
module JoinContents {
  import opened KeyInfo
  import opened JoinTable
  import opened JoinAlign

  /** The rows of one table whose key the other table does not have. */
  ghost function Unmatched(theirs: seq<Line>, mine: seq<Line>): set<nat>
    requires IsTable(theirs) && IsTable(mine)
  {
    set q: nat | q < |theirs| && theirs[q].key !in Keys(mine)
  }

  /** How often row d of a party is in its file, when its key has m rows in the other table. */
  ghost predicate RowRight(kind: JoinType, isLeft: bool, mine: seq<Line>, theirs: seq<Line>, rows: seq<Line>, d: Line)
    requires IsTable(theirs) && IsData(d)
  {
    var own, m := multiset(mine)[d], multiset(Keys(theirs))[d.key];
    multiset(rows)[d] ==
      match kind
      case Inner => own * m
      case Left => if isLeft && m == 0 then own else own * m
      case Right => if !isLeft && m == 0 then own else own * m
      case Full => if m == 0 then own else own * m
      case Difference => if m == 0 then own else 0
  }

  /** How many rows of nulls the file has. */
  ghost predicate NullsRight(kind: JoinType, isLeft: bool, mine: seq<Line>, theirs: seq<Line>, rows: seq<Line>)
    requires IsTable(mine) && IsTable(theirs)
  {
    var unmatched := |Unmatched(theirs, mine)|;
    multiset(rows)[Nulls] ==
      match kind
      case Inner => 0
      case Left => if isLeft then 0 else unmatched
      case Right => if isLeft then unmatched else 0
      case Full => unmatched
      case Difference => unmatched
  }

  /** The file holds the right number of copies of every row, the right number of nulls and nothing else. */
  ghost predicate Contents(kind: JoinType, isLeft: bool, mine: seq<Line>, theirs: seq<Line>, rows: seq<Line>)
    requires IsTable(mine) && IsTable(theirs)
  {
    && (forall d :: IsData(d) ==> RowRight(kind, isLeft, mine, theirs, rows, d))
    && NullsRight(kind, isLeft, mine, theirs, rows) && Header !in rows
  }

  // ---- The parts

  lemma {:induction false} RepeatLines(x: Line, n: nat, d: Line)
    ensures multiset(Repeat(x, n))[d] == if d == x then n else 0
  {
    if n == 0 {
      assert Repeat(x, n) == [];
    } else {
      RepeatLines(x, n - 1, d);
      assert Repeat(x, n) == Repeat(x, n - 1) + [x];
    }
  }

  lemma LinesSnoc(init: seq<Line>, last: Line, d: Line)
    ensures multiset(init + [last])[d] == multiset(init)[d] + if d == last then 1 else 0
  {
  }

  lemma InterLinesSnoc(table: seq<Line>, peer: multiset<nat>, d: Line)
    requires IsTable(table) && table != []
    ensures var init, last := table[..|table| - 1], table[|table| - 1];
      multiset(Inter(table, peer))[d] == multiset(Inter(init, peer))[d] + if d == last then peer[last.key] else 0
  {
    var init, last := table[..|table| - 1], table[|table| - 1];
    assert Inter(table, peer) == Inter(init, peer) + Repeat(last, peer[last.key]);
    RepeatLines(last, peer[last.key], d);
  }

  lemma {:induction false} InterLines(table: seq<Line>, peer: multiset<nat>, d: Line)
    requires IsTable(table) && IsData(d)
    ensures multiset(Inter(table, peer))[d] == multiset(table)[d] * peer[d.key]
  {
    if table != [] {
      hide Inter;
      var init, last := table[..|table| - 1], table[|table| - 1];
      assert table == init + [last];
      InterLines(init, peer, d);
      InterLinesSnoc(table, peer, d);
      LinesSnoc(init, last, d);
      var n, m := multiset(init)[d], peer[d.key];
      if d == last {
        assert multiset(table)[d] == n + 1;
        MulStep(n, m);
      } else {
        assert multiset(table)[d] == n;
      }
    }
  }

  lemma {:induction false} ExceptLines(table: seq<Line>, peer: multiset<nat>, d: Line)
    requires IsTable(table) && IsData(d)
    ensures multiset(Except(table, peer))[d] == if peer[d.key] == 0 then multiset(table)[d] else 0
  {
    if table != [] {
      var init, last := table[..|table| - 1], table[|table| - 1];
      assert table == init + [last];
      ExceptLines(init, peer, d);
    }
  }

  lemma TableHasNoOthers(table: seq<Line>)
    requires IsTable(table)
    ensures multiset(table)[Nulls] == 0 && Header !in table
  {
    assert Nulls !in table;
  }

  lemma {:induction false} UnmatchedIsExcept(theirs: seq<Line>, mine: seq<Line>)
    requires IsTable(theirs) && IsTable(mine)
    ensures |Except(theirs, KeyBag(mine))| == |Unmatched(theirs, mine)|
  {
    if theirs != [] {
      var n := |theirs| - 1;
      var init := theirs[..n];
      UnmatchedIsExcept(init, mine);
      assert theirs[n].key in KeyBag(mine) <==> theirs[n].key in Keys(mine);
      if theirs[n].key in Keys(mine) {
        assert Unmatched(theirs, mine) == Unmatched(init, mine);
      } else {
        assert Unmatched(theirs, mine) == Unmatched(init, mine) + {n};
      }
    } else {
      assert Unmatched(theirs, mine) == {};
    }
  }

  /** The lines of `part` are those of the table at positions that never go back. */
  ghost predicate InOrder(part: seq<Line>, table: seq<Line>, at: seq<nat>) {
    && |at| == |part| && (forall r :: 0 <= r < |at| ==> at[r] < |table| && part[r] == table[at[r]])
    && (forall r, s :: 0 <= r < s < |at| ==> at[r] <= at[s])
  }

  lemma AppendInOrder(part: seq<Line>, init: seq<Line>, at: seq<nat>, last: Line, copies: nat)
    requires InOrder(part, init, at)
    ensures InOrder(part + Repeat(last, copies), init + [last], at + Repeat<nat>(|init|, copies))
  {
  }

  /** Both parts list their rows in the order of the table. */
  lemma {:induction false} PartsInOrder(table: seq<Line>, peer: multiset<nat>) returns (at: seq<nat>, at': seq<nat>)
    requires IsTable(table)
    ensures InOrder(Inter(table, peer), table, at) && InOrder(Except(table, peer), table, at')
  {
    at, at' := [], [];
    if table != [] {
      hide InOrder;
      var init, last := table[..|table| - 1], table[|table| - 1];
      assert table == init + [last];
      at, at' := PartsInOrder(init, peer);
      AppendInOrder(Inter(init, peer), init, at, last, peer[last.key]);
      AppendInOrder(Except(init, peer), init, at', last, if last.key in peer then 0 else 1);
      assert Repeat(last, 0) == [] && Repeat(last, 1) == [last];
      at := at + Repeat<nat>(|init|, peer[last.key]);
      at' := at' + Repeat<nat>(|init|, if last.key in peer then 0 else 1);
    }
  }

  // ---- The files

  lemma ShapeCounts(kind: JoinType, isLeft: bool, inter: seq<Line>, rest: seq<Line>, gap: seq<Line>, d: Line)
    ensures var i, r, g := multiset(inter)[d], multiset(rest)[d], multiset(gap)[d];
      multiset(Shape(kind, isLeft, inter, rest, gap))[d] ==
        match kind
        case Inner => i
        case Left => if isLeft then i + r else i + g
        case Right => if isLeft then i + g else i + r
        case Full => i + r + g
        case Difference => r + g
  {
  }

  /** For every kind of join and either side. */
  lemma OutputContents(kind: JoinType, isLeft: bool, mine: seq<Line>, theirs: seq<Line>)
    requires IsTable(mine) && IsTable(theirs)
    ensures Contents(kind, isLeft, mine, theirs, Output(kind, isLeft, mine, theirs))
  {
    hide Shape, Inter, Except, Unmatched;
    var peer, n := KeyBag(theirs), |Except(theirs, KeyBag(mine))|;
    var inter, rest, gap := Inter(mine, peer), Except(mine, peer), Repeat(Nulls, n);
    var rows := Output(kind, isLeft, mine, theirs);
    UnmatchedIsExcept(theirs, mine);
    TableHasNoOthers(inter);
    TableHasNoOthers(rest);
    ShapeCounts(kind, isLeft, inter, rest, gap, Nulls);
    ShapeCounts(kind, isLeft, inter, rest, gap, Header);
    RepeatLines(Nulls, n, Nulls);
    RepeatLines(Nulls, n, Header);
    forall d | IsData(d) ensures RowRight(kind, isLeft, mine, theirs, rows, d) {
      InterLines(mine, peer, d);
      ExceptLines(mine, peer, d);
      RepeatLines(Nulls, n, d);
      ShapeCounts(kind, isLeft, inter, rest, gap, d);
    }
  }

  /** Two rows against one, for all five kinds of join. */
  lemma SmallFiles()
    ensures var left, right := [Row(1, 10), Row(2, 20)], [Row(1, 30)];
      && Output(Inner, true, left, right) == [Row(1, 10)]
      && Output(Inner, false, right, left) == [Row(1, 30)]
      && Output(Left, true, left, right) == [Row(1, 10), Row(2, 20)]
      && Output(Left, false, right, left) == [Row(1, 30), Nulls]
      && Output(Right, true, left, right) == [Row(1, 10)]
      && Output(Right, false, right, left) == [Row(1, 30)]
      && Output(Full, true, left, right) == [Row(1, 10), Row(2, 20)]
      && Output(Full, false, right, left) == [Row(1, 30), Nulls]
      && Output(Difference, true, left, right) == [Row(2, 20)]
      && Output(Difference, false, right, left) == [Nulls]
  {
    hide Inter, Except, KeyBag;
    SmallParts();
    assert Repeat(Nulls, 0) == [] && Repeat(Nulls, 1) == [Nulls];
  }

  lemma SmallParts()
    ensures var left, right := [Row(1, 10), Row(2, 20)], [Row(1, 30)];
      && Inter(left, KeyBag(right)) == [Row(1, 10)] && Except(left, KeyBag(right)) == [Row(2, 20)]
      && Inter(right, KeyBag(left)) == [Row(1, 30)] && Except(right, KeyBag(left)) == []
  {
    hide Inter, Except, KeyBag;
    SmallBags();
    OneRow(Row(1, 10), KeyBag([Row(1, 30)]));
    OneRow(Row(1, 30), KeyBag([Row(1, 10), Row(2, 20)]));
    OneMoreRow([Row(1, 10)], Row(2, 20), KeyBag([Row(1, 30)]));
    assert [Row(1, 10)] + [Row(2, 20)] == [Row(1, 10), Row(2, 20)];
    assert Repeat(Row(1, 10), 1) == [Row(1, 10)] && Repeat(Row(1, 30), 1) == [Row(1, 30)];
    assert Repeat(Row(2, 20), 0) == [];
  }

  lemma OneMoreRow(init: seq<Line>, last: Line, peer: multiset<nat>)
    requires IsTable(init) && IsData(last)
    ensures IsTable(init + [last])
    ensures Inter(init + [last], peer) == Inter(init, peer) + Repeat(last, peer[last.key])
    ensures Except(init + [last], peer) == Except(init, peer) + if last.key in peer then [] else [last]
  {
    assert (init + [last])[..|init|] == init;
  }

  lemma OneRow(d: Line, peer: multiset<nat>)
    requires IsData(d)
    ensures Inter([d], peer) == Repeat(d, peer[d.key]) && Except([d], peer) == if d.key in peer then [] else [d]
  {
    OneMoreRow([], d, peer);
    assert [] + [d] == [d];
  }

  lemma SmallBags()
    ensures KeyBag([Row(1, 10), Row(2, 20)]) == multiset{1, 2} && KeyBag([Row(1, 30)]) == multiset{1}
  {
    assert Keys([Row(1, 10), Row(2, 20)]) == [1, 2] && Keys([Row(1, 30)]) == [1];
  }
}
