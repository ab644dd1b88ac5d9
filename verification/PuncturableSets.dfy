/** Puncturable pseudorandom sets over the leaves of a GGM tree. */
module PuncturableSets {
  import opened Common
  import opened Ggm
  import opened ModArith

  const WORD: nat := 0x1_0000_0000_0000_0000

  /** The high word of a 128-bit leaf scaled into [0, m). */
  function Lemire(v: Seed, m: nat): (r: nat)
    requires m > 0
    ensures r < m
  {
    LemireBound((v / WORD) % WORD, m, WORD);
    (((v / WORD) % WORD) * m) / WORD
  }

  lemma LemireBound(hi: nat, m: nat, w: nat)
    requires hi < w && m > 0
    ensures (hi * m) / w < m
  {
    SmallMultiple(w - hi, m);
    assert w * m == hi * m + m * (w - hi);
    var q := (hi * m) / w;
    assert w * q <= hi * m;
    if q >= m { TimesMonotone(w, m, q); }
  }

  lemma TimesMonotone(w: nat, a: nat, b: nat)
    requires a <= b
    ensures w * a <= w * b
  {
    assert w * b == w * a + w * (b - a);
  }

  datatype Params = Params(g: Prg, universe: nat, size: nat) {
    ghost predicate Ok() { universe > 0 && size >= 1 }
  }

  datatype PuncKey = PuncKey(k: seq<Seed>, pos: nat, delta: nat)

  function ModAdd(a: nat, b: nat, m: nat): (r: nat)
    requires a < m && b < m
    ensures r < m && (r == a + b || r + m == a + b)
  {
    if a + b >= m then a + b - m else a + b
  }

  function ModSub(a: nat, b: nat, m: nat): (r: nat)
    requires a < m && b < m
    ensures r < m && (r + b == a || r + b == a + m)
  {
    if a >= b then a - b else a + m - b
  }

  // ---- The set of a key

  function Point(ps: Params, k: Seed, i: nat): (r: nat)
    requires ps.Ok()
    ensures r < ps.universe
  {
    Lemire(Node(ps.g, k, Depth(ps.size), i), ps.universe)
  }

  /** The points of the first n leaves, leaf `but` left out. */
  ghost function PointsBut(ps: Params, k: Seed, n: nat, but: int): (s: set<nat>)
    requires ps.Ok()
    ensures forall x :: x in s ==> x < ps.universe
  {
    if n == 0 then {}
    else PointsBut(ps, k, n - 1, but) + if n - 1 == but then {} else {Point(ps, k, n - 1)}
  }

  ghost function EvalSet(ps: Params, k: Seed): set<nat>
    requires ps.Ok()
  {
    PointsBut(ps, k, ps.size, -1)
  }

  ghost predicate Injective(ps: Params, k: Seed)
    requires ps.Ok()
  {
    forall i, j :: 0 <= i < j < ps.size ==> Point(ps, k, i) != Point(ps, k, j)
  }

  lemma {:induction false} PointsMember(ps: Params, k: Seed, n: nat, but: int, x: nat)
    requires ps.Ok()
    ensures x in PointsBut(ps, k, n, but) <==> exists i :: 0 <= i < n && i != but && Point(ps, k, i) == x
  {
    if n > 0 { PointsMember(ps, k, n - 1, but, x); }
  }

  /** The expansion has full size exactly when no two leaves collide. */
  lemma {:induction false} PointsSize(ps: Params, k: Seed, n: nat)
    requires ps.Ok()
    ensures |PointsBut(ps, k, n, -1)| <= n
    ensures |PointsBut(ps, k, n, -1)| == n <==> forall i, j :: 0 <= i < j < n ==> Point(ps, k, i) != Point(ps, k, j)
  {
    hide Point;
    if n > 0 {
      PointsSize(ps, k, n - 1);
      PointsMember(ps, k, n - 1, -1, Point(ps, k, n - 1));
    }
  }

  /** Leaving out leaf `pos` removes its point, and nothing else when no two leaves collide. */
  lemma PuncturedSet(ps: Params, k: Seed, pos: nat)
    requires ps.Ok() && Injective(ps, k) && pos < ps.size
    ensures PointsBut(ps, k, ps.size, pos) == EvalSet(ps, k) - {Point(ps, k, pos)}
    ensures Point(ps, k, pos) in EvalSet(ps, k)
  {
    PointsMember(ps, k, ps.size, -1, Point(ps, k, pos));
    forall x ensures x in PointsBut(ps, k, ps.size, pos) <==> x in EvalSet(ps, k) && x != Point(ps, k, pos) {
      if x >= 0 {
        PointsMember(ps, k, ps.size, pos, x);
        PointsMember(ps, k, ps.size, -1, x);
      }
    }
  }

  /** Each point of the set with the first leaf that produced it. */
  ghost predicate IsEvalMap(ps: Params, k: Seed, n: nat, m: map<nat, nat>)
    requires ps.Ok()
  {
    m.Keys == PointsBut(ps, k, n, -1) && forall x :: x in m ==> m[x] < n && Point(ps, k, m[x]) == x
  }

  method EvalMap(ps: Params, k: Seed) returns (m: map<nat, nat>)
    requires ps.Ok()
    ensures IsEvalMap(ps, k, ps.size, m)
    ensures |m| == ps.size <==> Injective(ps, k)
  {
    var tree := Gen(ps.g, k, Depth(ps.size));
    var leaf := tree[..];
    m := map[];
    for i := 0 to ps.size
      invariant IsEvalMap(ps, k, i, m)
    {
      var x := Lemire(leaf[i], ps.universe);
      if x !in m {
        m := m[x := i];
      }
    }
    PointsSize(ps, k, ps.size);
    assert |m| == |m.Keys|;
  }

  method Eval(ps: Params, k: Seed) returns (s: set<nat>)
    requires ps.Ok()
    ensures s == EvalSet(ps, k)
    ensures |s| == ps.size <==> Injective(ps, k)
  {
    var tree := Gen(ps.g, k, Depth(ps.size));
    var leaf := tree[..];
    s := {};
    for i := 0 to ps.size
      invariant s == PointsBut(ps, k, i, -1)
    {
      s := s + {Lemire(leaf[i], ps.universe)};
    }
    PointsSize(ps, k, ps.size);
  }

  /** k is the first of the candidates whose set has full size. */
  ghost predicate FirstInjective(ps: Params, candidates: seq<Seed>, k: Seed)
    requires ps.Ok()
  {
    exists i :: 0 <= i < |candidates| && candidates[i] == k && Injective(ps, k)
      && forall j :: 0 <= j < i ==> !Injective(ps, candidates[j])
  }

  /** The first of the candidate keys whose set has full size; none means the source aborts. */
  method GenKey(ps: Params, candidates: seq<Seed>) returns (k: Option<Seed>, m: map<nat, nat>)
    requires ps.Ok()
    ensures k.Some? ==> k.value in candidates && FirstInjective(ps, candidates, k.value) && Injective(ps, k.value)
    ensures k.Some? ==> IsEvalMap(ps, k.value, ps.size, m)
    ensures k.None? <==> forall i :: 0 <= i < |candidates| ==> !Injective(ps, candidates[i])
  {
    hide Point, PointsBut;
    m := map[];
    for i := 0 to |candidates|
      invariant forall j :: 0 <= j < i ==> !Injective(ps, candidates[j])
    {
      m := EvalMap(ps, candidates[i]);
      if |m| == ps.size {
        return Some(candidates[i]), m;
      }
    }
    k := None;
  }

  // ---- Puncturing

  /** `key` is k punctured at leaf key.pos. */
  ghost predicate PuncturedAt(ps: Params, key: PuncKey, k: Seed)
    requires ps.Ok()
  {
    key.pos < ps.size && |key.k| == Depth(ps.size) && IsCoPath(ps.g, k, Depth(ps.size), key.pos, key.k)
  }

  /** Puncture at point x, appending to the siblings that the key object already holds; a point outside the
      set makes the source abort. Only an object that holds none becomes a punctured key. */
  method Punc(ps: Params, x: nat, k: Seed, m: map<nat, nat>, delta: nat, used: seq<Seed>) returns (key: Option<PuncKey>)
    requires ps.Ok() && IsEvalMap(ps, k, ps.size, m)
    ensures key.Some? <==> x in EvalSet(ps, k)
    ensures key.Some? ==> Point(ps, k, key.value.pos) == x && key.value.pos < ps.size && key.value.delta == delta
    ensures key.Some? ==> used <= key.value.k && PuncturedAt(ps, key.value.(k := key.value.k[|used|..]), k)
    ensures key.Some? ==> (PuncturedAt(ps, key.value, k) <==> used == [])
  {
    if x !in m {
      return None;
    }
    var path := CollectCoPath(ps.g, k, Depth(ps.size), m[x]);
    assert (used + path)[|used|..] == path;
    assert used == [] ==> used + path == path;
    key := Some(PuncKey(used + path, m[x], delta));
  }

  /** No zero node hides leaf i from a key punctured at leaf `pos`. */
  ghost predicate Survives(ps: Params, k: Seed, pos: nat, i: nat)
    requires ps.Ok()
  {
    AncestorsNonzero(ps.g, k, Depth(ps.size), pos, Depth(ps.size), i)
  }

  /** Every leaf but `pos` survives puncturing, or has the point zero, which is what a lost leaf leaves. */
  ghost predicate Recoverable(ps: Params, k: Seed, pos: nat)
    requires ps.Ok()
  {
    forall i :: 0 <= i < ps.size && i != pos ==> Survives(ps, k, pos, i) || Point(ps, k, i) == 0
  }

  /** Wherever the key is punctured, every other leaf survives. */
  ghost predicate AllRecoverable(ps: Params, k: Seed)
    requires ps.Ok()
  {
    forall pos :: 0 <= pos < ps.size ==> Recoverable(ps, k, pos)
  }

  /** A generator that never outputs zero loses no leaf. */
  lemma NonzeroGeneratorRecovers(ps: Params, k: Seed, pos: nat)
    requires ps.Ok() && pos < ps.size && forall s: Seed :: ps.g(s).0 != 0 && ps.g(s).1 != 0
    ensures forall i :: 0 <= i < ps.size && i != pos ==> Survives(ps, k, pos, i)
    ensures Recoverable(ps, k, pos)
  {
    forall i | 0 <= i < ps.size && i != pos ensures Survives(ps, k, pos, i) {
      assert Shift(pos, 0) == pos;
      NonzeroAncestors(ps.g, k, Depth(ps.size), pos, Depth(ps.size), i);
    }
  }

  lemma {:induction false} NonzeroAncestors(g: Prg, root: Seed, height: nat, pos: nat, d: nat, i: nat)
    requires d <= height && pos < Pow2(height) && i < Pow2(d) && i != Shift(pos, height - d)
    requires forall s: Seed :: g(s).0 != 0 && g(s).1 != 0
    ensures AncestorsNonzero(g, root, height, pos, d, i)
  {
    ShiftBound(pos, height - d, d);
    if d > 0 && i != Sibling(Shift(pos, height - d)) {
      var child := Shift(pos, height - d);
      assert Shift(pos, height - (d - 1)) == child / 2;
      assert i / 2 != child / 2;
      NonzeroAncestors(g, root, height, pos, d - 1, i / 2);
    }
  }

  /** The points that a key punctured at leaf `pos` yields for the first n leaves: a lost leaf yields zero. */
  ghost function Remaining(ps: Params, k: Seed, n: nat, pos: nat): set<nat>
    requires ps.Ok()
    decreases n
  {
    if n == 0 then {}
    else
      Remaining(ps, k, n - 1, pos) +
      if n - 1 == pos then {} else {if Survives(ps, k, pos, n - 1) then Point(ps, k, n - 1) else 0}
  }

  lemma {:induction false} RemainingMember(ps: Params, k: Seed, n: nat, pos: nat, x: nat)
    requires ps.Ok()
    ensures x in Remaining(ps, k, n, pos) <==>
      exists i :: 0 <= i < n && i != pos && x == if Survives(ps, k, pos, i) then Point(ps, k, i) else 0
  {
    hide Point, Survives;
    if n > 0 { RemainingMember(ps, k, n - 1, pos, x); }
  }

  /** The set keeps every other point exactly when each lost leaf has the point zero. */
  lemma RemainingIff(ps: Params, k: Seed, pos: nat)
    requires ps.Ok() && pos < ps.size && Injective(ps, k)
    ensures Remaining(ps, k, ps.size, pos) == EvalSet(ps, k) - {Point(ps, k, pos)} <==> Recoverable(ps, k, pos)
  {
    hide Point, Survives;
    PuncturedSet(ps, k, pos);
    if Recoverable(ps, k, pos) {
      RemainingIsPointsBut(ps, k, ps.size, pos);
    } else {
      var i :| 0 <= i < ps.size && i != pos && !Survives(ps, k, pos, i) && Point(ps, k, i) != 0;
      var x := Point(ps, k, i);
      PointsMember(ps, k, ps.size, pos, x);
      RemainingMember(ps, k, ps.size, pos, x);
    }
  }

  lemma {:induction false} RemainingIsPointsBut(ps: Params, k: Seed, n: nat, pos: nat)
    requires ps.Ok() && n <= ps.size && Recoverable(ps, k, pos)
    ensures Remaining(ps, k, n, pos) == PointsBut(ps, k, n, pos)
  {
    if n > 0 { RemainingIsPointsBut(ps, k, n - 1, pos); }
  }

  /** What a punctured key expands to, and the exact condition for that to be the set without the punctured
      point. */
  method EvalPunctured(ps: Params, key: PuncKey, ghost k: Seed) returns (s: set<nat>)
    requires ps.Ok() && PuncturedAt(ps, key, k)
    ensures s == Remaining(ps, k, ps.size, key.pos)
    ensures Recoverable(ps, k, key.pos) ==> s == PointsBut(ps, k, ps.size, key.pos)
    ensures Injective(ps, k) ==>
      (s == EvalSet(ps, k) - {Point(ps, k, key.pos)} <==> Recoverable(ps, k, key.pos))
  {
    hide Lemire, Node, Known, Pow2, AncestorsNonzero;
    var h := Depth(ps.size);
    var tree := ExpandCoPath(ps.g, h, key.pos, key.k, k);
    var leaf := tree[..];
    s := {};
    LemireOfZero(ps.universe);
    for i := 0 to ps.size
      invariant s == Remaining(ps, k, i, key.pos)
    {
      if i != key.pos {
        assert leaf[i] == Known(ps.g, k, h, key.pos, h, i);
        KnownExactly(ps.g, k, h, key.pos, h, i);
        s := s + {Lemire(leaf[i], ps.universe)};
      }
    }
    if Recoverable(ps, k, key.pos) { RemainingIsPointsBut(ps, k, ps.size, key.pos); }
    if Injective(ps, k) { RemainingIff(ps, k, key.pos); }
  }

  lemma LemireOfZero(m: nat)
    requires m > 0
    ensures Lemire(0, m) == 0
  {
  }

  // ---- A generator that yields zero

  /** The seed 1 has a zero child; the leaves below it are 2^126 times 1, 2, 3 and 0. */
  function ZeroPrg(s: Seed): (Seed, Seed) {
    if s == 1 then (0, 2)
    else if s == 0 then (QUARTER, 2 * QUARTER)
    else if s == 2 then (3 * QUARTER, 0)
    else (1, 1)
  }

  const QUARTER: nat := 0x4000_0000_0000_0000_0000_0000_0000_0000

  lemma LeavesOfZeroPrg()
    ensures var ps := Params(ZeroPrg, 4, 4);
      && Point(ps, 1, 0) == 1 && Point(ps, 1, 1) == 2 && Point(ps, 1, 2) == 3 && Point(ps, 1, 3) == 0
      && !Survives(ps, 1, 3, 0) && !Survives(ps, 1, 3, 1) && Survives(ps, 1, 3, 2)
  {
    assert Depth(4) == 2;
    assert Shift(3, 0) == 3 && Shift(3, 1) == 1;
  }

  /** The key 1 has the set of all four points; punctured at the last leaf it loses two of them and keeps the
      point it should hide. */
  lemma ZeroNodeLosesPoints()
    ensures var ps := Params(ZeroPrg, 4, 4);
      && Injective(ps, 1) && EvalSet(ps, 1) == {0, 1, 2, 3} && Point(ps, 1, 3) == 0
      && Remaining(ps, 1, 4, 3) == {0, 3}
  {
    hide Point, Survives;
    var ps := Params(ZeroPrg, 4, 4);
    LeavesOfZeroPrg();
    assert PointsBut(ps, 1, 0, -1) == {} && PointsBut(ps, 1, 1, -1) == {1};
    assert PointsBut(ps, 1, 2, -1) == {1, 2} && PointsBut(ps, 1, 3, -1) == {1, 2, 3};
    assert PointsBut(ps, 1, 4, -1) == {0, 1, 2, 3};
    assert Remaining(ps, 1, 0, 3) == {} && Remaining(ps, 1, 1, 3) == {0};
    assert Remaining(ps, 1, 2, 3) == {0} && Remaining(ps, 1, 3, 3) == {0, 3};
  }
}
