/** Single- and multi-query private retrieval of database bits with puncturable sets. */
module PpsPir {
  import opened Common
  import opened Ggm
  import opened PuncturableSets

  datatype KeyUnion = KeyUnion(k: Seed, delta: nat)

  // ---- Parity of a shifted set

  /** The parity of the bits at x + delta for the x < n in s. */
  ghost function Parity(bits: seq<bool>, s: set<nat>, delta: nat, m: nat, n: nat): bool
    requires n <= m <= |bits| && delta < m
  {
    if n == 0 then false
    else Parity(bits, s, delta, m, n - 1) != (n - 1 in s && bits[ModAdd(n - 1, delta, m)])
  }

  ghost function SetBits(ps: Params, bits: seq<bool>, s: set<nat>, delta: nat): bool
    requires ps.universe <= |bits| && delta < ps.universe
  {
    Parity(bits, s, delta, ps.universe, ps.universe)
  }

  lemma {:induction false} ParityRemove(bits: seq<bool>, s: set<nat>, x: nat, delta: nat, m: nat, n: nat)
    requires n <= m <= |bits| && delta < m && x in s && x < m
    ensures Parity(bits, s, delta, m, n) ==
      (Parity(bits, s - {x}, delta, m, n) != (x < n && bits[ModAdd(x, delta, m)]))
  {
    if n > 0 { ParityRemove(bits, s, x, delta, m, n - 1); }
  }

  /** The parity over no index is false, and over one index it is the bit there. */
  lemma {:induction false} ParityOfOne(bits: seq<bool>, x: nat, delta: nat, m: nat, n: nat)
    requires n <= m <= |bits| && delta < m && x < m
    ensures Parity(bits, {}, delta, m, n) == false
    ensures Parity(bits, {x}, delta, m, n) == (x < n && bits[if x + delta < m then x + delta else x + delta - m])
  {
    if n > 0 { ParityOfOne(bits, x, delta, m, n - 1); }
  }

  /** The set of `key`, shifted, contains index i. */
  ghost predicate Holds(ps: Params, key: KeyUnion, i: nat)
    requires ps.Ok() && i < ps.universe
  {
    key.delta < ps.universe && ModSub(i, key.delta, ps.universe) in EvalSet(ps, key.k)
  }

  // ---- The server

  /** Accumulated over the set in ascending order. */
  method SumBits(bits: seq<bool>, s: set<nat>, delta: nat, m: nat) returns (r: bool)
    requires m <= |bits| && delta < m
    ensures r == Parity(bits, s, delta, m, m)
  {
    r := false;
    for x := 0 to m
      invariant r == Parity(bits, s, delta, m, x)
    {
      if x in s {
        r := r != bits[ModAdd(x, delta, m)];
      }
    }
  }

  method Hint(ps: Params, ck: seq<KeyUnion>, bits: seq<bool>) returns (h: seq<bool>)
    requires ps.Ok() && ps.universe <= |bits|
    requires forall j :: 0 <= j < |ck| ==> ck[j].delta < ps.universe
    ensures |h| == |ck|
    ensures forall j :: 0 <= j < |ck| ==> h[j] == SetBits(ps, bits, EvalSet(ps, ck[j].k), ck[j].delta)
  {
    h := [];
    for j := 0 to |ck|
      invariant |h| == j
      invariant forall l :: 0 <= l < j ==> h[l] == SetBits(ps, bits, EvalSet(ps, ck[l].k), ck[l].delta)
    {
      var s := Eval(ps, ck[j].k);
      var b := SumBits(bits, s, ck[j].delta, ps.universe);
      h := h + [b];
    }
  }

  /** What a punctured key that hides index i is answered with. */
  ghost function AnswerOf(ps: Params, bits: seq<bool>, key: PuncKey, k: Seed): bool
    requires ps.Ok() && ps.universe <= |bits| && key.delta < ps.universe
  {
    SetBits(ps, bits, EvalSet(ps, k) - {Point(ps, k, key.pos)}, key.delta)
  }

  method Answer(ps: Params, key: PuncKey, bits: seq<bool>, ghost k: Seed) returns (r: bool)
    requires ps.Ok() && ps.universe <= |bits| && key.delta < ps.universe
    requires PuncturedAt(ps, key, k) && Injective(ps, k) && Recoverable(ps, k, key.pos)
    ensures r == AnswerOf(ps, bits, key, k)
  {
    var s := EvalPunctured(ps, key, k);
    r := SumBits(bits, s, key.delta, ps.universe);
  }

  /** The index a punctured key hides. */
  ghost function HiddenIndex(ps: Params, key: PuncKey, k: Seed): nat
    requires ps.Ok() && key.delta < ps.universe
  {
    ModAdd(Point(ps, k, key.pos), key.delta, ps.universe)
  }

  /** The two keys are equal if they have the same left child or the same right child. */
  ghost predicate ChildDetermines(g: Prg, s: Seed, t: Seed) {
    g(s).0 == g(t).0 || g(s).1 == g(t).1 ==> s == t
  }

  /** What is assumed of the keys that occur in a run, and of no other: different keys have different
      children, and no zero node hides a leaf of a key with a full-size set. */
  ghost predicate PoolOk(ps: Params, pool: set<Seed>)
    requires ps.Ok()
  {
    && (forall s, t :: s in pool && t in pool ==> ChildDetermines(ps.g, s, t))
    && (forall k :: k in pool && Injective(ps, k) ==> AllRecoverable(ps, k))
  }

  /** A generator on 128-bit words. */
  function SplitWord(s: Seed): (Seed, Seed) {
    (1 + s % WORD, WORD / 2 * WORD + s % WORD)
  }

  /** Generators of the width of the source meet the assumption: here is one, with two different keys. */
  lemma PoolOfWords()
    ensures forall s: Seed :: SplitWord(s).0 < WORD * WORD && SplitWord(s).1 < WORD * WORD
    ensures var ps := Params(SplitWord, 2, 2); PoolOk(ps, {1, 2}) && Injective(ps, 1) && Injective(ps, 2)
  {
    WordPoints(1);
    WordPoints(2);
  }

  lemma WordPoints(k: nat)
    requires k == 1 || k == 2
    ensures var ps := Params(SplitWord, 2, 2); Point(ps, k, 0) == 0 && Point(ps, k, 1) == 1 && AllRecoverable(ps, k)
  {
    var ps := Params(SplitWord, 2, 2);
    assert Depth(2) == 1 by { assert Depth(1) == 0; }
    assert Node(SplitWord, k, 0, 0) == k;
    assert Node(SplitWord, k, 1, 0) == 1 + k && Node(SplitWord, k, 1, 1) == WORD / 2 * WORD + k;
    forall pos | 0 <= pos < 2 ensures Recoverable(ps, k, pos) {
      NonzeroGeneratorRecovers(ps, k, pos);
    }
  }

  /** Keys that hide the same index, with equal positions and equal first siblings, are the same key. */
  lemma ShortcutSound(ps: Params, l: PuncKey, r: PuncKey, kl: Seed, kr: Seed)
    requires ps.Ok() && ps.size >= 2 && ChildDetermines(ps.g, kl, kr)
    requires PuncturedAt(ps, l, kl) && PuncturedAt(ps, r, kr) && l.delta < ps.universe && r.delta < ps.universe
    requires HiddenIndex(ps, l, kl) == HiddenIndex(ps, r, kr)
    requires l.pos == r.pos && l.k[0] == r.k[0]
    ensures kl == kr && l.delta == r.delta
  {
    var h := Depth(ps.size);
    var i := Sibling(Shift(l.pos, h - 1));
    assert Node(ps.g, kl, 0, i / 2) == kl && Node(ps.g, kr, 0, i / 2) == kr;
    assert l.k[0] == Child(ps.g, kl, i) && r.k[0] == Child(ps.g, kr, i);
  }

  method AnswerMulti(ps: Params, l: PuncKey, r: PuncKey, bits: seq<bool>, ghost kl: Seed, ghost kr: Seed)
    returns (left: bool, right: bool)
    requires ps.Ok() && ps.size >= 2 && ps.universe <= |bits| && ChildDetermines(ps.g, kl, kr)
    requires PuncturedAt(ps, l, kl) && Injective(ps, kl) && Recoverable(ps, kl, l.pos) && l.delta < ps.universe
    requires PuncturedAt(ps, r, kr) && Injective(ps, kr) && Recoverable(ps, kr, r.pos) && r.delta < ps.universe
    requires HiddenIndex(ps, l, kl) == HiddenIndex(ps, r, kr)
    ensures left == AnswerOf(ps, bits, l, kl) && right == AnswerOf(ps, bits, r, kr)
  {
    left := Answer(ps, l, bits, kl);
    if l.pos == r.pos && l.k[0] == r.k[0] {
      ShortcutSound(ps, l, r, kl, kr);
      right := left;
    } else {
      right := Answer(ps, r, bits, kr);
    }
  }

  /** The answer for a key hiding index i differs from the hint by bit i. */
  lemma HintMinusAnswer(ps: Params, bits: seq<bool>, key: PuncKey, k: Seed)
    requires ps.Ok() && ps.universe <= |bits| && key.delta < ps.universe
    requires PuncturedAt(ps, key, k) && Injective(ps, k)
    ensures SetBits(ps, bits, EvalSet(ps, k), key.delta)
        == (AnswerOf(ps, bits, key, k) != bits[HiddenIndex(ps, key, k)])
  {
    PuncturedSet(ps, k, key.pos);
    ParityRemove(bits, EvalSet(ps, k), Point(ps, k, key.pos), key.delta, ps.universe, ps.universe);
  }

  lemma ShiftBack(i: nat, d: nat, m: nat)
    requires i < m && d < m
    ensures ModSub(i, d, m) < m && ModAdd(ModSub(i, d, m), d, m) == i
    ensures ModAdd(i, d, m) < m && ModSub(ModAdd(i, d, m), d, m) == i
  {
  }

  // ---- One query per key

  datatype SingleQuery = SingleQuery(j: int, b: bool, key: PuncKey)

  /** `deltas` is the ordered set of shifts, `m` the expansion of sk kept by the client. The source takes
      `pick` and `other` at random from the set and b from a biased coin. */
  method QuerySingle(ps: Params, i: nat, sk: Seed, m: map<nat, nat>, deltas: seq<nat>, b: bool, pick: nat, other: nat)
    returns (q: SingleQuery)
    requires ps.Ok() && i < ps.universe && Injective(ps, sk) && IsEvalMap(ps, sk, ps.size, m)
    requires pick in m && other in m && forall j :: 0 <= j < |deltas| ==> deltas[j] < ps.universe
    ensures q.b == b && q.key.delta < ps.universe && PuncturedAt(ps, q.key, sk)
    ensures q.j == -1 <==> forall j :: 0 <= j < |deltas| ==> !Holds(ps, KeyUnion(sk, deltas[j]), i)
    ensures q.j != -1 ==> 0 <= q.j < |deltas| && q.key.delta == deltas[q.j]
    ensures !b ==> HiddenIndex(ps, q.key, sk) == i
  {
    hide PointsBut;
    var j := 0;
    while j < |deltas| && ModSub(i, deltas[j], ps.universe) !in m
      invariant j <= |deltas| && forall l :: 0 <= l < j ==> !Holds(ps, KeyUnion(sk, deltas[l]), i)
    {
      j := j + 1;
    }
    var delta := if j == |deltas| then ModSub(i, pick, ps.universe) else deltas[j];
    ShiftBack(i, delta, ps.universe);
    var x := if b then other else ModSub(i, delta, ps.universe);
    assert x in EvalSet(ps, sk);
    var key := Punc(ps, x, sk, m, delta, []);
    q := SingleQuery(if j == |deltas| then -1 else j, b, key.value);
  }

  method ReconstructSingle(q: SingleQuery, h: seq<bool>, a: bool) returns (r: Option<bool>)
    requires q.j != -1 ==> 0 <= q.j < |h|
    ensures r.None? <==> q.b || q.j == -1
    ensures r.Some? ==> r.value == (a != h[q.j])
  {
    r := if q.b || q.j == -1 then None else Some(a != h[q.j]);
  }

  /** One offline hint and one online query: unless the coin is set or no shift holds i, bit i is recovered. */
  method RunSingle(ps: Params, bits: seq<bool>, i: nat, sk: Seed, deltas: seq<nat>, b: bool, pick: nat, other: nat)
    returns (r: Option<bool>)
    requires ps.Ok() && i < ps.universe <= |bits| && Injective(ps, sk)
    requires pick in EvalSet(ps, sk) && other in EvalSet(ps, sk)
    requires forall j :: 0 <= j < |deltas| ==> deltas[j] < ps.universe
    requires AllRecoverable(ps, sk)
    ensures r.None? <==> b || forall j :: 0 <= j < |deltas| ==> !Holds(ps, KeyUnion(sk, deltas[j]), i)
    ensures r.Some? ==> r.value == bits[i]
  {
    hide PointsBut, Recoverable, Point, IsCoPath;
    var ck := seq(|deltas|, j requires 0 <= j < |deltas| => KeyUnion(sk, deltas[j]));
    var h := Hint(ps, ck, bits);
    var m := EvalMap(ps, sk);
    var q := QuerySingle(ps, i, sk, m, deltas, b, pick, other);
    var a := Answer(ps, q.key, bits, sk);
    HintMinusAnswer(ps, bits, q.key, sk);
    r := ReconstructSingle(q, h, a);
  }

  // ---- Many queries

  datatype MultiQuery = MultiQuery(j: int, b: bool, left: PuncKey, right: PuncKey)

  /** A key of the table with its expansion. */
  ghost predicate KeyOk(ps: Params, key: KeyUnion, s: set<nat>)
    requires ps.Ok()
  {
    key.delta < ps.universe && Injective(ps, key.k) && s == EvalSet(ps, key.k)
  }

  ghost predicate TableOk(ps: Params, ck: seq<KeyUnion>, v: seq<set<nat>>)
    requires ps.Ok()
  {
    |ck| == |v| && forall j :: 0 <= j < |ck| ==> KeyOk(ps, ck[j], v[j])
  }

  /** Every hint bit is the parity of the database over the shifted set of its key. */
  ghost predicate HintsOk(ps: Params, bits: seq<bool>, ck: seq<KeyUnion>, h: seq<bool>)
    requires ps.Ok() && ps.universe <= |bits|
  {
    |ck| == |h| && forall j :: 0 <= j < |ck| ==> HintOk(ps, bits, ck[j], h[j])
  }

  ghost predicate HintOk(ps: Params, bits: seq<bool>, key: KeyUnion, hint: bool)
    requires ps.Ok() && ps.universe <= |bits|
  {
    key.delta < ps.universe && hint == SetBits(ps, bits, EvalSet(ps, key.k), key.delta)
  }

  /** Some key of the table holds index i. */
  ghost predicate Reaches(ps: Params, ck: seq<KeyUnion>, i: nat)
    requires ps.Ok() && i < ps.universe
  {
    exists j :: 0 <= j < |ck| && Holds(ps, ck[j], i)
  }

  ghost function KeysOf(ck: seq<KeyUnion>): seq<Seed> {
    seq(|ck|, j requires 0 <= j < |ck| => ck[j].k)
  }

  /** The candidates whose sets have full size, in order. */
  ghost function Kept(ps: Params, candidates: seq<Seed>): seq<Seed>
    requires ps.Ok()
  {
    if candidates == [] then []
    else
      var last := candidates[|candidates| - 1];
      Kept(ps, candidates[..|candidates| - 1]) + if Injective(ps, last) then [last] else []
  }

  ghost function First(s: seq<Seed>, n: nat): seq<Seed> { if n < |s| then s[..n] else s }

  lemma {:induction false} KeptPrefix(ps: Params, candidates: seq<Seed>, t: nat)
    requires ps.Ok() && t <= |candidates|
    ensures Kept(ps, candidates[..t]) <= Kept(ps, candidates)
    ensures forall k :: k in Kept(ps, candidates) ==> k in candidates
  {
    if t == |candidates| {
      assert candidates[..t] == candidates;
      if t > 0 { KeptPrefix(ps, candidates[..t - 1], t - 1); }
    } else {
      KeptPrefix(ps, candidates[..|candidates| - 1], t);
      assert candidates[..|candidates| - 1][..t] == candidates[..t];
    }
  }

  /** The client's table: keys, their expansions and the hint bits. */
  class Session {
    const ps: Params
    var ck: seq<KeyUnion>
    var v: seq<set<nat>>
    var h: seq<bool>

    ghost predicate Valid(bits: seq<bool>)
      reads this
    {
      ps.Ok() && ps.universe <= |bits| && TableOk(ps, ck, v) && HintsOk(ps, bits, ck, h)
    }

    constructor (ps: Params)
      requires ps.Ok()
      ensures this.ps == ps && ck == [] && v == [] && h == []
    {
      this.ps := ps;
      ck, v, h := [], [], [];
    }

    /** The candidates whose sets have full size are kept until there are `count`; an error if that took all
        the tries, even when the last one succeeded. */
    method Setup(count: nat, candidates: seq<Seed>) returns (ok: bool)
      requires ps.Ok() && ck == [] && v == []
      modifies this
      ensures TableOk(ps, ck, v) && h == old(h)
      ensures KeysOf(ck) == First(Kept(ps, candidates), count) && forall j :: 0 <= j < |ck| ==> ck[j].delta == 0
      ensures ok <==> candidates != [] && |Kept(ps, candidates[..|candidates| - 1])| >= count
      ensures ok ==> |ck| == count
    {
      hide PointsBut, Point, Injective;
      var t := 0;
      assert candidates[..0] == [];
      while |ck| < count && t < |candidates|
        invariant t <= |candidates| && |ck| <= count && h == old(h) && TableOk(ps, ck, v)
        invariant KeysOf(ck) == Kept(ps, candidates[..t])
        invariant t > 0 ==> |Kept(ps, candidates[..t - 1])| < count
        invariant forall j :: 0 <= j < |ck| ==> ck[j].delta == 0
      {
        assert candidates[..t + 1][..t] == candidates[..t];
        var s := Eval(ps, candidates[t]);
        if |s| == ps.size {
          ck, v := ck + [KeyUnion(candidates[t], 0)], v + [s];
        }
        t := t + 1;
      }
      ok := t < |candidates|;
      KeptPrefix(ps, candidates, t);
      if t < |candidates| {
        var init := candidates[..|candidates| - 1];
        KeptPrefix(ps, init, t);
        assert init[..t] == candidates[..t];
      } else {
        assert candidates[..t] == candidates;
      }
      assert |KeysOf(ck)| == |ck|;
    }

    /** Setup followed by the offline server's hint. */
    method Start(bits: seq<bool>, count: nat, candidates: seq<Seed>) returns (ok: bool)
      requires ps.Ok() && ps.universe <= |bits| && ck == [] && v == []
      modifies this
      ensures Valid(bits) && InPool(ck, set k | k in candidates)
      ensures KeysOf(ck) == First(Kept(ps, candidates), count) && forall j :: 0 <= j < |ck| ==> ck[j].delta == 0
      ensures ok <==> candidates != [] && |Kept(ps, candidates[..|candidates| - 1])| >= count
      ensures ok ==> |ck| == count
    {
      hide PointsBut, Point, Injective, SetBits;
      ok := Setup(count, candidates);
      KeptPrefix(ps, candidates, 0);
      forall j | 0 <= j < |ck| ensures ck[j].k in candidates {
        assert ck[j].k == KeysOf(ck)[j] && KeysOf(ck)[j] in Kept(ps, candidates);
      }
      assert forall j :: 0 <= j < |ck| ==> KeyOk(ps, ck[j], v[j]);
      h := Hint(ps, ck, bits);
    }

    /** The first key that holds i; its slot is taken by the new key, shifted to hold i as well. */
    method TakeKey(i: nat, newKey: KeyUnion) returns (j: int, taken: KeyUnion)
      requires ps.Ok() && i < ps.universe && newKey.delta < ps.universe && Injective(ps, newKey.k)
      requires TableOk(ps, ck, v)
      modifies this`ck, this`v
      ensures TableOk(ps, ck, v) && |ck| == |old(ck)|
      ensures j == -1 <==> !Reaches(ps, old(ck), i)
      ensures j == -1 ==> ck == old(ck) && v == old(v)
      ensures j != -1 ==> 0 <= j < |ck| && taken == old(ck)[j] && ck == old(ck)[j := newKey]
      ensures j != -1 ==> Injective(ps, taken.k) && Holds(ps, taken, i) && IsFirst(ps, old(ck), i, j)
    {
      hide PointsBut, Point, Injective;
      taken := KeyUnion(0, 0);
      j := 0;
      while j < |ck|
        invariant 0 <= j <= |ck| && ck == old(ck) && v == old(v)
        invariant forall l :: 0 <= l < j ==> !Holds(ps, ck[l], i)
      {
        assert KeyOk(ps, ck[j], v[j]);
        if ModSub(i, ck[j].delta, ps.universe) in v[j] {
          taken := ck[j];
          assert Holds(ps, old(ck)[j], i);
          var s := Eval(ps, newKey.k);
          ck, v := ck[j := newKey], v[j := s];
          return;
        }
        j := j + 1;
      }
      j := -1;
    }

    /** k is the fresh key with expansion m; `pick` and `other` are random members of its set, b the coin. */
    method Query(i: nat, k: Seed, m: map<nat, nat>, pick: nat, b: bool, other: nat)
      returns (q: MultiQuery, ghost kr: Seed)
      requires ps.Ok() && i < ps.universe && TableOk(ps, ck, v)
      requires Injective(ps, k) && IsEvalMap(ps, k, ps.size, m) && pick in m && other in m
      modifies this`ck, this`v
      ensures TableOk(ps, ck, v) && |ck| == |old(ck)|
      ensures q.b == b && (q.j == -1 <==> b || !Reaches(ps, old(ck), i))
      ensures QueryOk(ps, q, k, kr)
      ensures q.j == -1 ==> ck == old(ck) && kr == k
      ensures q.left.delta == ModSub(i, pick, ps.universe)
      ensures HiddenIndex(ps, q.left, k) == if b then ModAdd(other, q.left.delta, ps.universe) else i
      ensures q.j != -1 ==> IsFirst(ps, old(ck), i, q.j)
      ensures q.j != -1 ==> old(ck)[q.j] == KeyUnion(kr, q.right.delta)
      ensures q.j != -1 ==> ck == old(ck)[q.j := KeyUnion(k, q.left.delta)]
    {
      hide PointsBut, Point, Injective, PuncturedAt, TableOk, Reaches;
      var n := ps.universe;
      var delta := ModSub(i, pick, n);
      ShiftBack(i, pick, n);
      ShiftBack(i, delta, n);
      ShiftBack(other, delta, n);
      var j, taken := -1, KeyUnion(0, 0);
      var hidden := ModAdd(other, delta, n);
      if !b {
        j, taken := TakeKey(i, KeyUnion(k, delta));
        hidden := i;
      }
      ShiftBack(hidden, delta, n);
      assert ModSub(hidden, delta, n) in EvalSet(ps, k);
      var left := PunctureAt(ps, hidden, KeyUnion(k, delta), m);
      if j != -1 {
        var mr := EvalMap(ps, taken.k);
        var right := PunctureAt(ps, hidden, taken, mr);
        q, kr := MultiQuery(j, b, left, right), taken.k;
      } else {
        q, kr := MultiQuery(j, b, left, left), k;
      }
    }

    /** With true answers the recovered bit is the hidden one, and the slot of the key that was used up holds
        the right hint of the key that replaced it. */
    method Reconstruct(q: MultiQuery, left: bool, right: bool, ghost bits: seq<bool>, ghost k: Seed, ghost kr: Seed)
      returns (r: Option<bool>)
      requires ps.Ok() && ps.universe <= |bits| && QueryOk(ps, q, k, kr)
      requires left == AnswerOf(ps, bits, q.left, k) && right == AnswerOf(ps, bits, q.right, kr)
      requires q.j != -1 ==> 0 <= q.j < |h| && HintOk(ps, bits, KeyUnion(kr, q.right.delta), h[q.j])
      modifies this`h
      ensures r.None? <==> q.j == -1
      ensures q.j == -1 ==> h == old(h)
      ensures q.j != -1 ==> |h| == |old(h)| && HintOk(ps, bits, KeyUnion(k, q.left.delta), h[q.j])
      ensures q.j != -1 ==> r.value == bits[HiddenIndex(ps, q.left, k)]
      ensures forall l :: 0 <= l < |old(h)| && l != q.j ==> h[l] == old(h)[l]
    {
      hide PointsBut, Point, Injective, PuncturedAt;
      if q.j == -1 {
        return None;
      }
      HintMinusAnswer(ps, bits, q.left, k);
      HintMinusAnswer(ps, bits, q.right, kr);
      r := Some(right != h[q.j]);
      h := h[q.j := left != r.value];
    }

    /** One round with the server: the table stays correct, and an answer is the bit asked for. */
    method Round(bits: seq<bool>, i: nat, draws: Draws, ghost pool: set<Seed>) returns (r: Option<bool>)
      requires Valid(bits) && ps.size >= 2 && i < ps.universe && PoolOk(ps, pool)
      requires InPool(ck, pool) && DrawsOk(ps, draws, pool)
      modifies this
      ensures Valid(bits) && InPool(ck, pool)
      ensures RoundOk(ps, bits, i, draws.coin, old(ck), r)
      ensures Steps(ps, old(ck), i, draws, ck)
    {
      hide PointsBut, Point, Injective, PuncturedAt, Recoverable, Reaches, ChildDetermines, FirstInjective, Holds;
      assert ps.Ok();
      var key, m := GenKey(ps, draws.candidates);
      var k := key.value;
      ghost var kr;
      var q;
      q, kr := Query(i, k, m, draws.pick(k), draws.coin, draws.other(k));
      assert k in pool && (q.j != -1 ==> old(ck)[q.j].k in pool);
      var left, right := AnswerMulti(ps, q.left, q.right, bits, k, kr);
      r := Reconstruct(q, left, right, bits, k, kr);
    }
  }

  /** Both keys are punctured so as to hide the same index. */
  ghost predicate QueryOk(ps: Params, q: MultiQuery, kl: Seed, kr: Seed)
    requires ps.Ok()
  {
    && PuncturedAt(ps, q.left, kl) && q.left.delta < ps.universe && Injective(ps, kl)
    && PuncturedAt(ps, q.right, kr) && q.right.delta < ps.universe && Injective(ps, kr)
    && q.left.pos < ps.size && q.right.pos < ps.size
    && HiddenIndex(ps, q.left, kl) == HiddenIndex(ps, q.right, kr)
  }

  /** Puncture a key that holds index i so that it hides i. */
  method PunctureAt(ps: Params, i: nat, key: KeyUnion, m: map<nat, nat>) returns (r: PuncKey)
    requires ps.Ok() && i < ps.universe && Holds(ps, key, i) && IsEvalMap(ps, key.k, ps.size, m)
    ensures PuncturedAt(ps, r, key.k) && r.pos < ps.size && r.delta == key.delta
    ensures HiddenIndex(ps, r, key.k) == i
  {
    hide Point, PointsBut;
    ShiftBack(i, key.delta, ps.universe);
    var p := Punc(ps, ModSub(i, key.delta, ps.universe), key.k, m, key.delta, []);
    r := p.value;
  }

  /** The random draws of one round. */
  datatype Draws = Draws(candidates: seq<Seed>, pick: Seed -> nat, coin: bool, other: Seed -> nat)

  /** Some candidate has a full-size set, all are in the pool, and the members are drawn from the set. */
  ghost predicate DrawsOk(ps: Params, d: Draws, pool: set<Seed>)
    requires ps.Ok()
  {
    && (exists t :: 0 <= t < |d.candidates| && Injective(ps, d.candidates[t]))
    && (forall k :: k in d.candidates ==> k in pool && d.pick(k) in EvalSet(ps, k) && d.other(k) in EvalSet(ps, k))
  }

  ghost predicate InPool(ck: seq<KeyUnion>, pool: set<Seed>) {
    forall j :: 0 <= j < |ck| ==> ck[j].k in pool
  }

  /** An answer is the bit asked for, and there is none exactly when the coin was set or no key held the index. */
  ghost predicate RoundOk(ps: Params, bits: seq<bool>, i: nat, coin: bool, table: seq<KeyUnion>, answer: Option<bool>)
    requires ps.Ok() && i < ps.universe <= |bits|
  {
    && (answer.Some? ==> answer.value == bits[i])
    && (answer.None? <==> coin || !Reaches(ps, table, i))
  }

  /** Key j is the first of the table that holds index i. */
  ghost predicate IsFirst(ps: Params, table: seq<KeyUnion>, i: nat, j: int)
    requires ps.Ok() && i < ps.universe
  {
    0 <= j < |table| && Holds(ps, table[j], i) && forall l :: 0 <= l < j ==> !Holds(ps, table[l], i)
  }

  /** The table after a round: unchanged when the round is void; otherwise the first key that holds the index
      has given way to the fresh key, shifted so that the drawn member falls on the index. */
  ghost predicate Steps(ps: Params, table: seq<KeyUnion>, i: nat, d: Draws, next: seq<KeyUnion>)
    requires ps.Ok() && i < ps.universe
  {
    if d.coin || !Reaches(ps, table, i) then next == table
    else exists j: nat, k ::
      && IsFirst(ps, table, i, j) && FirstInjective(ps, d.candidates, k) && d.pick(k) < ps.universe
      && next == table[j := KeyUnion(k, ModSub(i, d.pick(k), ps.universe))]
  }

  /** Every answer is right, and each round takes its table to the next one. */
  ghost predicate Rounds(ps: Params, bits: seq<bool>, queries: seq<nat>, draws: seq<Draws>,
    tables: seq<seq<KeyUnion>>, answers: seq<Option<bool>>)
    requires ps.Ok() && ps.universe <= |bits|
    requires |draws| == |queries| && forall t :: 0 <= t < |queries| ==> queries[t] < ps.universe
  {
    && |answers| <= |queries| && |tables| == |answers| + 1
    && (forall t :: 0 <= t < |answers| ==> RoundOk(ps, bits, queries[t], draws[t].coin, tables[t], answers[t]))
    && (forall t :: 0 <= t < |answers| ==> Steps(ps, tables[t], queries[t], draws[t], tables[t + 1]))
  }

  lemma OneMoreRound(ps: Params, bits: seq<bool>, queries: seq<nat>, draws: seq<Draws>,
    tables: seq<seq<KeyUnion>>, answers: seq<Option<bool>>, next: seq<KeyUnion>, a: Option<bool>)
    requires ps.Ok() && ps.universe <= |bits|
    requires |draws| == |queries| && forall t :: 0 <= t < |queries| ==> queries[t] < ps.universe
    requires |answers| < |queries| && Rounds(ps, bits, queries, draws, tables, answers)
    requires var t := |answers|;
      RoundOk(ps, bits, queries[t], draws[t].coin, tables[t], a) && Steps(ps, tables[t], queries[t], draws[t], next)
    ensures Rounds(ps, bits, queries, draws, tables + [next], answers + [a])
  {
    hide RoundOk, Steps;
  }

  /** Any number of rounds, each with its own draws: every answer is the bit asked for, and a round without
      an answer is exactly one whose coin was set or whose index no key of the table held at that time. The
      tables go from the one before the first round to the one after the last by the step of each round. */
  method RunMulti(s: Session, bits: seq<bool>, queries: seq<nat>, draws: seq<Draws>, ghost pool: set<Seed>)
    returns (answers: seq<Option<bool>>, ghost tables: seq<seq<KeyUnion>>)
    requires s.Valid(bits) && s.ps.size >= 2 && PoolOk(s.ps, pool) && InPool(s.ck, pool)
    requires |draws| == |queries| && forall t :: 0 <= t < |draws| ==> DrawsOk(s.ps, draws[t], pool)
    requires forall t :: 0 <= t < |queries| ==> queries[t] < s.ps.universe
    modifies s
    ensures s.Valid(bits) && |answers| == |queries| && |tables| == |queries| + 1
    ensures tables[0] == old(s.ck) && tables[|queries|] == s.ck
    ensures Rounds(s.ps, bits, queries, draws, tables, answers)
  {
    assert s.ps.universe <= |bits|;
    answers, tables := [], [s.ck];
    assert Rounds(s.ps, bits, queries, draws, tables, answers);
    hide TableOk, HintsOk, PoolOk, DrawsOk, InPool, Rounds, RoundOk, Steps;
    for t := 0 to |queries|
      invariant s.Valid(bits) && InPool(s.ck, pool) && |answers| == t && |tables| == t + 1
      invariant tables[0] == old(s.ck) && tables[t] == s.ck
      invariant Rounds(s.ps, bits, queries, draws, tables, answers)
    {
      var a := s.Round(bits, queries[t], draws[t], pool);
      OneMoreRound(s.ps, bits, queries, draws, tables, answers, s.ck, a);
      answers, tables := answers + [a], tables + [s.ck];
    }
  }
}
