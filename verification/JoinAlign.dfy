/** What the two parties' output files hold, and why they line up row by row. */
module JoinAlign {
  import opened KeyInfo
  import opened JoinTable

  datatype JoinType = Inner | Left | Right | Full | Difference

  ghost function KeyBag(table: seq<Line>): multiset<nat>
    requires IsTable(table)
  {
    multiset(Keys(table))
  }

  /** A party's rows: first the intersection, then the left side's other rows, then the right side's. */
  ghost function Output(kind: JoinType, isLeft: bool, mine: seq<Line>, theirs: seq<Line>): seq<Line>
    requires IsTable(mine) && IsTable(theirs)
  {
    Shape(kind, isLeft, Inter(mine, KeyBag(theirs)), Except(mine, KeyBag(theirs)),
        Repeat(Nulls, |Except(theirs, KeyBag(mine))|))
  }

  ghost function Shape(kind: JoinType, isLeft: bool, inter: seq<Line>, rest: seq<Line>, gap: seq<Line>): seq<Line> {
    match kind
    case Inner => inter
    case Left => inter + if isLeft then rest else gap
    case Right => inter + if isLeft then gap else rest
    case Full => inter + if isLeft then rest + gap else gap + rest
    case Difference => if isLeft then rest + gap else gap + rest
  }

  // ---- The keys of the intersection

  lemma KeysConcat(a: seq<Line>, b: seq<Line>)
    requires IsTable(a) && IsTable(b)
    ensures IsTable(a + b) && Keys(a + b) == Keys(a) + Keys(b)
  {
  }

  lemma {:induction false} RepeatBag(x: nat, n: nat, k: nat)
    ensures multiset(Repeat<nat>(x, n))[k] == if k == x then n else 0
  {
    if n > 0 {
      RepeatBag(x, n - 1, k);
      assert Repeat<nat>(x, n) == Repeat<nat>(x, n - 1) + [x];
      assert multiset(Repeat<nat>(x, n)) == multiset(Repeat<nat>(x, n - 1)) + multiset{x};
    } else {
      assert Repeat<nat>(x, n) == [];
    }
  }

  lemma BagSnoc(init: seq<Line>, last: Line, k: nat)
    requires IsTable(init) && IsData(last)
    ensures IsTable(init + [last]) && KeyBag(init + [last])[k] == KeyBag(init)[k] + if k == last.key then 1 else 0
  {
    assert Keys(init + [last]) == Keys(init) + [last.key];
    assert KeyBag(init + [last]) == KeyBag(init) + multiset{last.key};
  }

  lemma InterSnoc(table: seq<Line>, peer: multiset<nat>, k: nat)
    requires IsTable(table) && table != []
    ensures KeyBag(Inter(table, peer))[k]
         == KeyBag(Inter(table[..|table| - 1], peer))[k] + if k == table[|table| - 1].key then peer[k] else 0
  {
    var init, last := table[..|table| - 1], table[|table| - 1];
    var n := peer[last.key];
    KeysConcat(Inter(init, peer), Repeat(last, n));
    assert Keys(Repeat(last, n)) == Repeat<nat>(last.key, n);
    assert KeyBag(Inter(table, peer)) == KeyBag(Inter(init, peer)) + multiset(Repeat<nat>(last.key, n));
    RepeatBag(last.key, n, k);
  }

  lemma MulStep(c: nat, p: nat)
    ensures (c + 1) * p == c * p + p
  {
  }

  /** A key occurs in the intersection once for every pair of rows that carry it. */
  lemma {:induction false} InterCount(table: seq<Line>, peer: multiset<nat>, k: nat)
    requires IsTable(table)
    ensures KeyBag(Inter(table, peer))[k] == KeyBag(table)[k] * peer[k]
  {
    if table != [] {
      hide Inter, KeyBag;
      var init, last := table[..|table| - 1], table[|table| - 1];
      assert table == init + [last];
      InterCount(init, peer, k);
      InterSnoc(table, peer, k);
      BagSnoc(init, last, k);
      MulStep(KeyBag(init)[k], peer[k]);
    } else {
      assert Keys(table) == [] && Keys(Inter(table, peer)) == [];
    }
  }

  lemma {:induction false} InterAscending(table: seq<Line>, peer: multiset<nat>)
    requires IsTable(table) && Ascending(Keys(table))
    ensures Ascending(Keys(Inter(table, peer)))
    ensures forall r :: 0 <= r < |Inter(table, peer)| ==>
      Inter(table, peer)[r] in table && Inter(table, peer)[r].key in peer
  {
    if table != [] {
      var init, last := table[..|table| - 1], table[|table| - 1];
      assert Keys(init) == Keys(table)[..|init|];
      InterAscending(init, peer);
      var a := Inter(init, peer);
      forall r | 0 <= r < |a| ensures a[r].key <= last.key {
        var p :| 0 <= p < |init| && init[p] == a[r];
        assert Keys(table)[p] <= Keys(table)[|init|];
      }
      KeysConcat(a, Repeat(last, peer[last.key]));
      assert forall r :: 0 <= r < |a| ==> Keys(a)[r] <= last.key;
      forall r | 0 <= r < |Inter(table, peer)|
        ensures Inter(table, peer)[r] in table && Inter(table, peer)[r].key in peer {
        if r < |a| { assert Inter(table, peer)[r] == a[r]; }
      }
    }
  }

  lemma {:induction false} AscendingUnique(a: seq<nat>, b: seq<nat>)
    requires Ascending(a) && Ascending(b) && multiset(a) == multiset(b)
    ensures a == b
  {
    hide Ascending;
    assert |multiset(a)| == |a| && |multiset(b)| == |b|;
    if a != [] {
      LastIsLargest(a, b);
      LastIsLargest(b, a);
      DropLast(a);
      DropLast(b);
      AscendingUnique(a[..|a| - 1], b[..|b| - 1]);
      assert a == a[..|a| - 1] + [a[|a| - 1]] && b == b[..|b| - 1] + [b[|b| - 1]];
    }
  }

  lemma LastIsLargest(a: seq<nat>, b: seq<nat>)
    requires Ascending(a) && a != [] && b != [] && multiset(a) == multiset(b)
    ensures b[|b| - 1] <= a[|a| - 1]
  {
    assert b[|b| - 1] in multiset(b);
    assert b[|b| - 1] in a;
  }

  lemma DropLast(a: seq<nat>)
    requires a != []
    ensures multiset(a[..|a| - 1]) == multiset(a) - multiset{a[|a| - 1]}
    ensures Ascending(a) ==> Ascending(a[..|a| - 1])
  {
    assert a == a[..|a| - 1] + [a[|a| - 1]];
  }

  /** Both parties list the same keys, row for row. */
  lemma IntersectionsAlign(left: seq<Line>, right: seq<Line>)
    requires IsTable(left) && IsTable(right) && Ascending(Keys(left)) && Ascending(Keys(right))
    ensures Keys(Inter(left, KeyBag(right))) == Keys(Inter(right, KeyBag(left)))
  {
    var a, b := Inter(left, KeyBag(right)), Inter(right, KeyBag(left));
    InterAscending(left, KeyBag(right));
    InterAscending(right, KeyBag(left));
    forall k ensures multiset(Keys(a))[k] == multiset(Keys(b))[k] {
      InterCount(left, KeyBag(right), k);
      InterCount(right, KeyBag(left), k);
    }
    AscendingUnique(Keys(a), Keys(b));
  }

  // ---- The whole files

  /** Equally many rows; the first n carry the same key on both sides, and of the others one side has the
      row and the other nulls. */
  ghost predicate Aligned(a: seq<Line>, b: seq<Line>, n: nat) {
    && |a| == |b| && n <= |a|
    && (forall r :: 0 <= r < n ==> IsData(a[r]) && IsData(b[r]) && a[r].key == b[r].key)
    && (forall r :: n <= r < |a| ==> (IsData(a[r]) && b[r] == Nulls) || (a[r] == Nulls && IsData(b[r])))
  }

  lemma Blocks(i: seq<Line>, j: seq<Line>, x: seq<Line>, y: seq<Line>)
    requires IsTable(i) && IsTable(j) && IsTable(x) && IsTable(y) && Keys(i) == Keys(j)
    ensures Aligned(i, j, |i|) && Aligned(i + x, j + Repeat(Nulls, |x|), |i|)
    ensures Aligned(i + Repeat(Nulls, |y|), j + y, |i|)
    ensures Aligned(i + (x + Repeat(Nulls, |y|)), j + (Repeat(Nulls, |x|) + y), |i|)
    ensures Aligned(x + Repeat(Nulls, |y|), Repeat(Nulls, |x|) + y, 0)
  {
    assert |Keys(i)| == |i| && |Keys(j)| == |j|;
    forall r | 0 <= r < |i| ensures i[r].key == j[r].key {
      assert Keys(i)[r] == Keys(j)[r];
    }
  }

  /** For every kind of join. */
  lemma OutputsAlign(kind: JoinType, left: seq<Line>, right: seq<Line>)
    requires IsTable(left) && IsTable(right) && Ascending(Keys(left)) && Ascending(Keys(right))
    ensures Aligned(Output(kind, true, left, right), Output(kind, false, right, left),
                    if kind == Difference then 0 else |Inter(left, KeyBag(right))|)
  {
    IntersectionsAlign(left, right);
    Blocks(Inter(left, KeyBag(right)), Inter(right, KeyBag(left)), Except(left, KeyBag(right)),
        Except(right, KeyBag(left)));
  }

  lemma AlignedSymmetric(a: seq<Line>, b: seq<Line>, n: nat)
    requires Aligned(a, b, n)
    ensures Aligned(b, a, n)
  {
  }
}
