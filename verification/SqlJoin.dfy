/** When the aligned rows of the intersection are the join that SQL defines. */
module SqlJoin {
  import opened KeyInfo
  import opened JoinTable
  import opened JoinAlign

  /** Which row of the table each row of the intersection is a copy of. */
  ghost function Source(table: seq<Line>, peer: multiset<nat>): seq<nat>
    requires IsTable(table)
  {
    if table == [] then []
    else Source(table[..|table| - 1], peer) + Repeat<nat>(|table| - 1, peer[table[|table| - 1].key])
  }

  lemma {:induction false} SourceMeaning(table: seq<Line>, peer: multiset<nat>)
    requires IsTable(table)
    ensures |Source(table, peer)| == |Inter(table, peer)|
    ensures forall r :: 0 <= r < |Source(table, peer)| ==>
      Source(table, peer)[r] < |table| && Inter(table, peer)[r] == table[Source(table, peer)[r]]
  {
    if table != [] {
      SourceMeaning(table[..|table| - 1], peer);
    }
  }

  /** Row i of the left table stands beside row j of the right table in some row of the result. */
  ghost predicate Paired(left: seq<Line>, right: seq<Line>, i: nat, j: nat)
    requires IsTable(left) && IsTable(right)
  {
    exists r :: 0 <= r < |Source(left, KeyBag(right))| && r < |Source(right, KeyBag(left))|
      && Source(left, KeyBag(right))[r] == i && Source(right, KeyBag(left))[r] == j
  }

  /** SQL pairs every left row with every right row that has the same key. */
  ghost predicate IsSqlJoin(left: seq<Line>, right: seq<Line>)
    requires IsTable(left) && IsTable(right)
  {
    forall i, j :: 0 <= i < |left| && 0 <= j < |right| && left[i].key == right[j].key ==> Paired(left, right, i, j)
  }

  // ---- Where the copies of a row are

  ghost function Offset(table: seq<Line>, peer: multiset<nat>, p: nat): nat
    requires IsTable(table) && p <= |table|
  {
    |Inter(table[..p], peer)|
  }

  lemma {:induction false} CopiesOf(table: seq<Line>, peer: multiset<nat>, p: nat, r: nat)
    requires IsTable(table) && p < |table|
    ensures Offset(table, peer, p) + peer[table[p].key] <= |Source(table, peer)|
    ensures r < |Source(table, peer)| ==>
      (Source(table, peer)[r] == p <==> Offset(table, peer, p) <= r < Offset(table, peer, p) + peer[table[p].key])
  {
    var init := table[..|table| - 1];
    SourceMeaning(init, peer);
    if p < |init| {
      CopiesOf(init, peer, p, r);
      assert init[..p] == table[..p];
    }
  }

  /** The rows of key k: s of them, from row a on. */
  ghost predicate Block(table: seq<Line>, k: nat, a: nat, s: nat)
    requires IsTable(table)
  {
    && a + s <= |table|
    && (forall p :: 0 <= p < a ==> table[p].key < k)
    && (forall p :: a <= p < a + s ==> table[p].key == k)
    && (forall p :: a + s <= p < |table| ==> table[p].key > k)
  }

  lemma {:induction false} BlockOf(table: seq<Line>, k: nat) returns (a: nat, s: nat)
    requires IsTable(table) && Ascending(Keys(table))
    ensures Block(table, k, a, s) && s == KeyBag(table)[k]
  {
    if table == [] {
      a, s := 0, 0;
      assert Keys(table) == [];
    } else {
      hide Block, KeyBag;
      var init, last := table[..|table| - 1], table[|table| - 1];
      assert table == init + [last];
      BagSnoc(init, last, k);
      assert Ascending(Keys(init)) && forall p :: 0 <= p < |init| ==> init[p].key <= last.key by {
        InitAscending(table);
      }
      a, s := BlockOf(init, k);
      BlockSnoc(init, last, k, a, s);
      if last.key < k {
        a := |table|;
      } else if last.key == k {
        s := s + 1;
      }
    }
  }

  lemma InitAscending(table: seq<Line>)
    requires IsTable(table) && table != [] && Ascending(Keys(table))
    ensures Ascending(Keys(table[..|table| - 1]))
    ensures forall p :: 0 <= p < |table| - 1 ==> table[p].key <= table[|table| - 1].key
  {
    var n := |table| - 1;
    assert Keys(table[..n]) == Keys(table)[..n];
    forall p | 0 <= p < n ensures table[p].key <= table[n].key {
      assert Keys(table)[p] <= Keys(table)[n];
    }
  }

  lemma BlockSnoc(init: seq<Line>, last: Line, k: nat, a: nat, s: nat)
    requires IsTable(init) && IsData(last) && Block(init, k, a, s)
    requires forall p :: 0 <= p < |init| ==> init[p].key <= last.key
    ensures last.key < k ==> s == 0 && Block(init + [last], k, |init| + 1, 0)
    ensures last.key == k ==> Block(init + [last], k, a, s + 1)
    ensures last.key > k ==> Block(init + [last], k, a, s)
  {
    assert s > 0 ==> init[a].key == k <= last.key;
    assert a + s < |init| ==> k < init[a + s].key <= last.key;
  }

  /** The copies of the i-th row of a block. */
  lemma {:induction false} OffsetInBlock(table: seq<Line>, peer: multiset<nat>, k: nat, a: nat, s: nat, i: nat)
    requires IsTable(table) && Block(table, k, a, s) && i <= s
    ensures Offset(table, peer, a + i) == Offset(table, peer, a) + i * peer[k]
  {
    if i > 0 {
      OffsetInBlock(table, peer, k, a, s, i - 1);
      UptoNext(table, peer, a + i - 1);
      assert table[..a + i] == table[..(a + i - 1) + 1];
      MulStep(i - 1, peer[k]);
    }
  }

  lemma {:induction false} BagOfPrefix(table: seq<Line>, k: nat, a: nat, s: nat, other: nat)
    requires IsTable(table) && Block(table, k, a, s)
    ensures KeyBag(table[..a])[other] == if other < k then KeyBag(table)[other] else 0
  {
    assert table == table[..a] + table[a..];
    KeysConcat(table[..a], table[a..]);
    assert KeyBag(table) == KeyBag(table[..a]) + KeyBag(table[a..]);
    if other >= k {
      assert other !in Keys(table[..a]);
    } else {
      assert other !in Keys(table[a..]);
    }
  }

  lemma SameCountBefore(left: seq<Line>, right: seq<Line>, k: nat, a: nat, s: nat, b: nat, q: nat, other: nat)
    requires IsTable(left) && IsTable(right) && Block(left, k, a, s) && Block(right, k, b, q)
    ensures KeyBag(Inter(left[..a], KeyBag(right)))[other] == KeyBag(Inter(right[..b], KeyBag(left)))[other]
  {
    hide Inter, KeyBag;
    InterCount(left[..a], KeyBag(right), other);
    InterCount(right[..b], KeyBag(left), other);
    BagOfPrefix(left, k, a, s, other);
    BagOfPrefix(right, k, b, q, other);
    Commute(KeyBag(left)[other], KeyBag(right)[other]);
  }

  lemma Commute(x: nat, y: nat)
    ensures x * y == y * x && 0 * x == 0
  {
  }

  /** The block of a key begins at the same row of the result on both sides. */
  lemma BlocksBeginTogether(left: seq<Line>, right: seq<Line>, k: nat, a: nat, s: nat, b: nat, q: nat)
    requires IsTable(left) && IsTable(right) && Block(left, k, a, s) && Block(right, k, b, q)
    ensures Offset(left, KeyBag(right), a) == Offset(right, KeyBag(left), b)
  {
    hide Inter, Block;
    assert a <= |left| && b <= |right| by { BlockInTable(left, k, a, s); BlockInTable(right, k, b, q); }
    var x, y := Inter(left[..a], KeyBag(right)), Inter(right[..b], KeyBag(left));
    forall other ensures KeyBag(x)[other] == KeyBag(y)[other] {
      SameCountBefore(left, right, k, a, s, b, q, other);
    }
    assert KeyBag(x) == KeyBag(y);
    assert |KeyBag(x)| == |Keys(x)| == |x| && |KeyBag(y)| == |Keys(y)| == |y|;
  }

  lemma BlockInTable(table: seq<Line>, k: nat, a: nat, s: nat)
    requires IsTable(table) && Block(table, k, a, s)
    ensures a + s <= |table|
  {
  }

  // ---- The two directions

  lemma PairedWhenUnique(left: seq<Line>, right: seq<Line>, k: nat, a: nat, s: nat, b: nat, q: nat, i: nat, j: nat)
    requires IsTable(left) && IsTable(right) && Block(left, k, a, s) && Block(right, k, b, q)
    requires s == KeyBag(left)[k] && q == KeyBag(right)[k] && (s == 1 || q == 1) && i < s && j < q
    ensures Paired(left, right, a + i, b + j)
  {
    hide Source, Inter, KeyBag, Offset, Block;
    assert a + i < |left| && left[a + i].key == k && b + j < |right| && right[b + j].key == k by {
      InBlock(left, k, a, s, i);
      InBlock(right, k, b, q, j);
    }
    BlocksBeginTogether(left, right, k, a, s, b, q);
    OffsetInBlock(left, KeyBag(right), k, a, s, i);
    OffsetInBlock(right, KeyBag(left), k, b, q, j);
    var r: nat := if s == 1 then Offset(right, KeyBag(left), b + j) else Offset(left, KeyBag(right), a + i);
    CopiesOf(left, KeyBag(right), a + i, r);
    CopiesOf(right, KeyBag(left), b + j, r);
  }

  lemma InBlock(table: seq<Line>, k: nat, a: nat, s: nat, i: nat)
    requires IsTable(table) && Block(table, k, a, s) && i < s
    ensures a + i < |table| && table[a + i].key == k
  {
  }

  lemma FarApart(s: nat, q: nat)
    requires s >= 2 && q >= 2
    ensures (q - 1) * s >= q
  {
  }

  /** The first left row never meets the last right row. */
  lemma NotPairedWhenRepeated(left: seq<Line>, right: seq<Line>, k: nat, a: nat, s: nat, b: nat, q: nat)
    requires IsTable(left) && IsTable(right) && Block(left, k, a, s) && Block(right, k, b, q)
    requires s == KeyBag(left)[k] >= 2 && q == KeyBag(right)[k] >= 2
    ensures !Paired(left, right, a, b + q - 1)
  {
    hide Source, Inter, KeyBag, Offset, Block;
    InBlock(left, k, a, s, 0);
    InBlock(right, k, b, q, q - 1);
    BlocksBeginTogether(left, right, k, a, s, b, q);
    OffsetInBlock(right, KeyBag(left), k, b, q, q - 1);
    FarApart(s, q);
    forall r: nat | r < |Source(left, KeyBag(right))| && r < |Source(right, KeyBag(left))|
      ensures !(Source(left, KeyBag(right))[r] == a && Source(right, KeyBag(left))[r] == b + q - 1)
    {
      CopiesOf(left, KeyBag(right), a, r);
      CopiesOf(right, KeyBag(left), b + q - 1, r);
    }
  }

  /** The result is the SQL join exactly when no key is repeated on both sides. */
  lemma SqlJoinIff(left: seq<Line>, right: seq<Line>)
    requires IsTable(left) && IsTable(right) && Ascending(Keys(left)) && Ascending(Keys(right))
    ensures IsSqlJoin(left, right) <==> forall k :: KeyBag(left)[k] <= 1 || KeyBag(right)[k] <= 1
  {
    hide Source, Inter, Paired;
    if k :| KeyBag(left)[k] >= 2 && KeyBag(right)[k] >= 2 {
      var a, s := BlockOf(left, k);
      var b, q := BlockOf(right, k);
      NotPairedWhenRepeated(left, right, k, a, s, b, q);
      assert left[a].key == right[b + q - 1].key;
    } else {
      forall i, j | 0 <= i < |left| && 0 <= j < |right| && left[i].key == right[j].key
        ensures Paired(left, right, i, j) {
        var k := left[i].key;
        var a, s := BlockOf(left, k);
        var b, q := BlockOf(right, k);
        assert KeyBag(left)[k] <= 1 || KeyBag(right)[k] <= 1;
        PairedWhenUnique(left, right, k, a, s, b, q, i - a, j - b);
      }
    }
  }

  /** Two rows each with the same key: the first left row and the second right row are never paired. */
  lemma TwoByTwoIsNotSql()
    ensures !IsSqlJoin([Row(7, 1), Row(7, 2)], [Row(7, 3), Row(7, 4)])
  {
    var left, right := [Row(7, 1), Row(7, 2)], [Row(7, 3), Row(7, 4)];
    assert Keys(left) == [7, 7] && Keys(right) == [7, 7];
    assert KeyBag(left)[7] == 2 && KeyBag(right)[7] == 2;
    SqlJoinIff(left, right);
  }
}
