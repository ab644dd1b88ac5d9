/** The GGM tree behind the puncturable pseudorandom sets. */
module Ggm {
  import opened Common

  /** Tree nodes. */
  type Seed = nat

  /** The length-doubling generator. */
  type Prg = Seed -> (Seed, Seed)

  /** ceil(log2(size)). */
  function Depth(size: nat): (h: nat)
    requires size >= 1
    ensures size <= Pow2(h) && (size >= 2 ==> h >= 1 && Pow2(h - 1) < size)
  {
    if size == 1 then 0
    else
      var h := Depth((size + 1) / 2);
      assert size >= 3 ==> h >= 1 && Pow2(h) == 2 * Pow2(h - 1);
      h + 1
  }

  /** Node i of level d: the generator applied along the bits of i, the most significant first. */
  function Node(g: Prg, root: Seed, d: nat, i: nat): Seed {
    if d == 0 then root else Child(g, Node(g, root, d - 1, i / 2), i)
  }

  /** The child of `node` on the side of the lowest bit of i. */
  function Child(g: Prg, node: Seed, i: nat): Seed {
    if i % 2 == 0 then g(node).0 else g(node).1
  }

  /** Right shift. */
  function Shift(i: nat, n: nat): nat {
    if n == 0 then i else Shift(i, n - 1) / 2
  }

  /** Exclusive or with 1. */
  function Sibling(i: nat): nat {
    if i % 2 == 0 then i + 1 else i - 1
  }

  lemma {:induction false} ShiftBound(i: nat, n: nat, m: nat)
    requires i < Pow2(n + m)
    ensures Shift(i, n) < Pow2(m)
  {
    if n > 0 { ShiftBound(i, n - 1, m + 1); }
  }

  /** `nodes` starts with level d of the tree. */
  ghost predicate IsLevel(g: Prg, root: Seed, d: nat, nodes: seq<Seed>) {
    |nodes| >= Pow2(d) && forall i :: 0 <= i < Pow2(d) ==> nodes[i] == Node(g, root, d, i)
  }

  lemma NextLevel(g: Prg, root: Seed, d: nat, temp: seq<Seed>, nodes: seq<Seed>)
    requires IsLevel(g, root, d, temp) && |nodes| >= Pow2(d + 1)
    requires forall i :: 0 <= i < Pow2(d + 1) ==> nodes[i] == Child(g, temp[i / 2], i)
    ensures IsLevel(g, root, d + 1, nodes)
  {
    forall i | 0 <= i < Pow2(d + 1) ensures nodes[i] == Node(g, root, d + 1, i) {
      assert temp[i / 2] == Node(g, root, d, i / 2);
    }
  }

  lemma LevelSize(d: nat, height: nat)
    requires d < height
    ensures Pow2(d) < Pow2(d + 1) == 2 * Pow2(d) <= Pow2(height)
  {
    Pow2Monotone(d + 1, height);
  }

  /** Building every level in place, from the root to the leaves. */
  method Gen(g: Prg, root: Seed, height: nat) returns (leaf: array<Seed>)
    ensures fresh(leaf) && leaf.Length == Pow2(height)
    ensures IsLevel(g, root, height, leaf[..])
  {
    leaf := new Seed[Pow2(height)](_ => 0);
    leaf[0] := root;
    var temp := new Seed[Pow2(height)](_ => 0);
    assert IsLevel(g, root, 0, leaf[..]);
    hide Pow2, Node;
    for depth := 0 to height
      invariant temp.Length == leaf.Length == Pow2(height)
      invariant IsLevel(g, root, depth, leaf[..])
    {
      LevelSize(depth, height);
      CopyPrefix(leaf, temp, Pow2(depth));
      assert IsLevel(g, root, depth, temp[..]);
      DoubleLevel(g, leaf, temp, Pow2(depth));
      NextLevel(g, root, depth, temp[..], leaf[..]);
    }
  }

  method DoubleLevel(g: Prg, leaf: array<Seed>, temp: array<Seed>, n: nat)
    requires leaf != temp && n <= temp.Length && 2 * n <= leaf.Length
    modifies leaf
    ensures forall i :: 0 <= i < 2 * n ==> leaf[i] == Child(g, temp[i / 2], i)
  {
    for i := 0 to n
      invariant forall j :: 0 <= j < 2 * i ==> leaf[j] == Child(g, temp[j / 2], j)
    {
      leaf[2 * i], leaf[2 * i + 1] := g(temp[i]).0, g(temp[i]).1;
    }
  }

  lemma {:induction false} Pow2Monotone(a: nat, b: nat)
    requires a <= b
    ensures Pow2(a) <= Pow2(b)
  {
    if a < b { Pow2Monotone(a, b - 1); }
  }

  method CopyPrefix(src: array<Seed>, dst: array<Seed>, n: nat)
    requires src != dst && n <= src.Length && n <= dst.Length
    modifies dst
    ensures forall i :: 0 <= i < n ==> dst[i] == src[i]
  {
    for i := 0 to n
      invariant forall j :: 0 <= j < i ==> dst[j] == src[j]
    {
      dst[i] := src[i];
    }
  }

  // ---- Puncturing

  /** The co-path of leaf `pos`: the sibling of every node on the way from the root. */
  ghost predicate IsCoPath(g: Prg, root: Seed, height: nat, pos: nat, path: seq<Seed>) {
    |path| <= height && forall d :: 0 <= d < |path| ==>
      path[d] == Node(g, root, d + 1, Sibling(Shift(pos, height - 1 - d)))
  }

  /** The walk that collects the co-path. */
  method CollectCoPath(g: Prg, root: Seed, height: nat, pos: nat) returns (path: seq<Seed>)
    requires pos < Pow2(height)
    ensures |path| == height && IsCoPath(g, root, height, pos, path)
  {
    path := [];
    var node := root;
    for d := 0 to height
      invariant |path| == d && IsCoPath(g, root, height, pos, path)
      invariant node == Node(g, root, d, Shift(pos, height - d))
    {
      var i := Shift(pos, height - 1 - d);
      assert Shift(pos, height - d) == i / 2;
      assert Sibling(i) / 2 == i / 2;
      var children := g(node);
      if i % 2 == 1 {
        path := path + [children.0];
        node := children.1;
      } else {
        path := path + [children.1];
        node := children.0;
      }
    }
  }

  /** Node i of level d as a punctured key rebuilds it; zero marks an unknown node. */
  ghost function Known(g: Prg, root: Seed, height: nat, pos: nat, d: nat, i: nat): Seed
    requires d <= height
  {
    if i == Shift(pos, height - d) || d == 0 then 0
    else if i == Sibling(Shift(pos, height - d)) then Node(g, root, d, i)
    else
      var parent := Known(g, root, height, pos, d - 1, i / 2);
      if parent == 0 then 0 else Child(g, parent, i)
  }

  ghost predicate LevelKnown(g: Prg, root: Seed, height: nat, pos: nat, d: nat, nodes: seq<Seed>)
    requires d <= height
  {
    |nodes| >= Pow2(d) && forall i :: 0 <= i < Pow2(d) ==> nodes[i] == Known(g, root, height, pos, d, i)
  }

  /** Expanding the co-path level by level in place. */
  method ExpandCoPath(g: Prg, height: nat, pos: nat, path: seq<Seed>, ghost root: Seed) returns (leaf: array<Seed>)
    requires pos < Pow2(height) && |path| == height && IsCoPath(g, root, height, pos, path)
    ensures fresh(leaf) && leaf.Length == Pow2(height)
    ensures LevelKnown(g, root, height, pos, height, leaf[..])
  {
    leaf := new Seed[Pow2(height)](_ => 0);
    leaf[0] := 0;
    var temp := new Seed[Pow2(height)](_ => 0);
    for depth := 0 to height
      invariant temp.Length == leaf.Length == Pow2(height)
      invariant LevelKnown(g, root, height, pos, depth, leaf[..])
    {
      RebuildLevel(g, height, pos, path, depth, leaf, temp, root);
    }
  }

  method RebuildLevel(g: Prg, height: nat, pos: nat, path: seq<Seed>, depth: nat, leaf: array<Seed>, temp: array<Seed>,
      ghost root: Seed)
    requires depth < height && pos < Pow2(height) && |path| == height && IsCoPath(g, root, height, pos, path)
    requires leaf != temp && temp.Length == leaf.Length == Pow2(height)
    requires LevelKnown(g, root, height, pos, depth, leaf[..])
    modifies leaf, temp
    ensures LevelKnown(g, root, height, pos, depth + 1, leaf[..])
  {
    hide Pow2, Node, Shift, Sibling, Known, Child;
    LevelSize(depth, height);
    CopyPrefix(leaf, temp, Pow2(depth));
    assert LevelKnown(g, root, height, pos, depth, temp[..]);
    ExpandLevel(g, leaf, temp, Pow2(depth));
    var child := Shift(pos, height - 1 - depth);
    ShiftBound(pos, height - 1 - depth, depth + 1);
    SiblingBound(child, Pow2(depth));
    leaf[Sibling(child)] := path[depth];
    NextLevelKnown(g, root, height, pos, depth, temp[..], leaf[..], path[depth]);
  }

  method ExpandLevel(g: Prg, leaf: array<Seed>, temp: array<Seed>, n: nat)
    requires leaf != temp && n <= temp.Length && 2 * n <= leaf.Length
    modifies leaf
    ensures forall i :: 0 <= i < 2 * n ==>
      leaf[i] == if temp[i / 2] == 0 then 0 else Child(g, temp[i / 2], i)
  {
    for i := 0 to n
      invariant forall j :: 0 <= j < 2 * i ==>
        leaf[j] == if temp[j / 2] == 0 then 0 else Child(g, temp[j / 2], j)
    {
      if temp[i] != 0 {
        leaf[2 * i], leaf[2 * i + 1] := g(temp[i]).0, g(temp[i]).1;
      } else {
        leaf[2 * i], leaf[2 * i + 1] := 0, 0;
      }
    }
  }

  lemma SiblingBound(i: nat, n: nat)
    requires i < 2 * n
    ensures Sibling(i) < 2 * n && Sibling(i) / 2 == i / 2 && Sibling(i) != i
  {
  }

  lemma NextLevelKnown(g: Prg, root: Seed, height: nat, pos: nat, d: nat, temp: seq<Seed>, leaf: seq<Seed>,
      sibling: Seed)
    requires d < height
    requires LevelKnown(g, root, height, pos, d, temp) && |leaf| >= Pow2(d + 1)
    requires sibling == Node(g, root, d + 1, Sibling(Shift(pos, height - 1 - d)))
    requires forall i :: 0 <= i < Pow2(d + 1) ==>
      leaf[i] == if i == Sibling(Shift(pos, height - 1 - d)) then sibling
                 else if temp[i / 2] == 0 then 0 else Child(g, temp[i / 2], i)
    ensures LevelKnown(g, root, height, pos, d + 1, leaf)
  {
    var child := Shift(pos, height - 1 - d);
    assert Shift(pos, height - d) == child / 2;
    forall i | 0 <= i < Pow2(d + 1) ensures leaf[i] == Known(g, root, height, pos, d + 1, i) {
      assert temp[i / 2] == Known(g, root, height, pos, d, i / 2);
      assert Sibling(child) != child;
      if i == child {
        assert Known(g, root, height, pos, d, i / 2) == 0;
      }
    }
  }

  /** No node above node i of level d, off the path to `pos`, is zero. */
  ghost predicate AncestorsNonzero(g: Prg, root: Seed, height: nat, pos: nat, d: nat, i: nat)
    requires d <= height
  {
    d == 0 || i == Sibling(Shift(pos, height - d)) ||
    (Node(g, root, d - 1, i / 2) != 0 && AncestorsNonzero(g, root, height, pos, d - 1, i / 2))
  }

  /** A node off the path is rebuilt correctly exactly when no ancestor off the path is zero, or it is zero itself. */
  lemma {:induction false} KnownExactly(g: Prg, root: Seed, height: nat, pos: nat, d: nat, i: nat)
    requires d <= height && pos < Pow2(height) && i < Pow2(d) && i != Shift(pos, height - d)
    ensures Known(g, root, height, pos, d, i) == Node(g, root, d, i)
      <==> AncestorsNonzero(g, root, height, pos, d, i) || Node(g, root, d, i) == 0
    ensures !AncestorsNonzero(g, root, height, pos, d, i) ==> Known(g, root, height, pos, d, i) == 0
  {
    ShiftBound(pos, height - d, d);
    if d > 0 && i != Sibling(Shift(pos, height - d)) {
      var child := Shift(pos, height - d);
      assert Shift(pos, height - (d - 1)) == child / 2;
      assert i / 2 != child / 2;
      KnownExactly(g, root, height, pos, d - 1, i / 2);
    }
  }
}
