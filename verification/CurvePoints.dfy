/** Point addition and doubling on the Montgomery curve, cofactor clearing, and the hash to curve. */
module CurvePoints {
  import opened Common
  import opened ModArith
  import opened PrimeField
  import opened Elligator2
  import ElligatorTextbook
  import opened Abscissas

  // ---- The operations

  /** Affine doubling; `None` when the slope has no inverse denominator. */
  function PointDbl(c: Params, q: Point): Option<Point>
    requires c.p > 1
  {
    var px2 := MulMod(q.x, q.x, c.p);
    var px3 := MulMod(px2, 3, c.p);
    var ax := MulMod(q.x, c.j, c.p);
    var ax2 := MulMod(ax, 2, c.p);
    var s := AddMod(AddMod(px3, ax2, c.p), 1, c.p);
    match InvertMod(MulMod(q.y, 2, c.p), c.p)
    case None => None
    case Some(d) =>
      var l := MulMod(s, d, c.p);
      var l2 := PowMod(l, 2, c.p);
      var l3 := PowMod(l, 3, c.p);
      var tx := SubMod(SubMod(l2, c.j, c.p), MulMod(q.x, 2, c.p), c.p);
      var t := MulMod(AddMod(MulMod(q.x, 3, c.p), c.j, c.p), l, c.p);
      Some(Point(tx, SubMod(SubMod(t, l3, c.p), q.y, c.p)))
  }

  /** Doubling on the x-coordinate alone. */
  function PointDblProjective(c: Params, px: int): Option<int>
    requires c.p > 1
  {
    var px2 := MulMod(px, px, c.p);
    var px21 := SubMod(px2, 1, c.p);
    var px22 := MulMod(px21, px21, c.p);
    var pxa := MulMod(px, c.j, c.p);
    var pz1 := AddMod(AddMod(px2, pxa, c.p), 1, c.p);
    var pz2 := MulMod(pz1, px, c.p);
    match InvertMod(MulMod(pz2, 4, c.p), c.p)
    case None => None
    case Some(d) => Some(MulMod(px22, d, c.p))
  }

  /** Affine addition; `None` for equal points or when the x-coordinates coincide. */
  function PointAdd(c: Params, a: Point, b: Point): Option<Point>
    requires c.p > 1
  {
    if a == b then None else
    var s1 := SubMod(b.x, a.x, c.p);
    var s2 := SubMod(b.y, a.y, c.p);
    match InvertMod(s1, c.p)
    case None => None
    case Some(d) =>
      var l := MulMod(s2, d, c.p);
      var l2 := MulMod(l, l, c.p);
      var tx := SubMod(SubMod(SubMod(l2, c.j, c.p), a.x, c.p), b.x, c.p);
      var l3 := MulMod(l2, l, c.p);
      var t := AddMod(AddMod(MulMod(a.x, 2, c.p), b.x, c.p), c.j, c.p);
      Some(Point(tx, SubMod(SubMod(MulMod(t, l, c.p), l3, c.p), a.y, c.p)))
  }

  function PointAddX(c: Params, a: Point, b: Point): Option<int>
    requires c.p > 1
  {
    if a == b then None else
    var s1 := SubMod(b.x, a.x, c.p);
    var s2 := SubMod(b.y, a.y, c.p);
    match InvertMod(s1, c.p)
    case None => None
    case Some(d) =>
      var l := MulMod(s2, d, c.p);
      Some(SubMod(SubMod(SubMod(MulMod(l, l, c.p), c.j, c.p), a.x, c.p), b.x, c.p))
  }

  function PointClearCofactor(c: Params, q: Point): Option<Point>
    requires c.p > 1
  {
    match PointDbl(c, q)
    case None => None
    case Some(q2) =>
      match PointDbl(c, q2)
      case None => None
      case Some(q4) => PointDbl(c, q4)
  }

  function PointClearCofactorProjective(c: Params, px: int): Option<int>
    requires c.p > 1
  {
    match PointDblProjective(c, px)
    case None => None
    case Some(x2) =>
      match PointDblProjective(c, x2)
      case None => None
      case Some(x4) => PointDblProjective(c, x4)
  }

  /** The hash to curve, from the two field elements on. */
  function HashToCurve(c: Params, u0: int, u1: int): Option<int>
    requires c.p > 1
  {
    match MapToCurveG2(c, u0)
    case None => None
    case Some(q0) =>
      match MapToCurveG2(c, u1)
      case None => None
      case Some(q1) =>
        match PointAddX(c, q0, q1)
        case None => None
        case Some(x) => PointClearCofactorProjective(c, x)
  }

  function CheckPoint(c: Params, q: Point): bool
    requires c.p > 0
  {
    var x3 := PowMod(q.x, 3, c.p);
    var ax2 := MulMod(PowMod(q.x, 2, c.p), c.j, c.p);
    AddMod(AddMod(x3, ax2, c.p), q.x, c.p) == PowMod(q.y, 2, c.p)
  }

  function AbscissaOf(q: Option<Point>): Option<int> {
    match q case None => None case Some(r) => Some(r.x)
  }

  // ---- The group law, on coordinates

  /** r is 2q: the tangent at q, of slope l, meets the curve again at the reflection of r. */
  ghost predicate IsDouble(c: Params, q: Point, r: Point)
    requires c.p > 0
  {
    && 0 <= r.x < c.p && 0 <= r.y < c.p && (2 * q.y) % c.p != 0
    && exists l :: DoubleBySlope(c, q, r, l)
  }

  ghost predicate DoubleBySlope(c: Params, q: Point, r: Point, l: int)
    requires c.p > 0
  {
    && ((2 * q.y) * l) % c.p == (3 * (q.x * q.x) + 2 * (q.x * c.j) + 1) % c.p
    && r.x % c.p == (l * l - c.j - 2 * q.x) % c.p
    && r.y % c.p == (l * (q.x - r.x) - q.y) % c.p
  }

  /** r is a + b: the chord of slope l meets the curve again at the reflection of r. */
  ghost predicate IsSum(c: Params, a: Point, b: Point, r: Point)
    requires c.p > 0
  {
    && 0 <= r.x < c.p && 0 <= r.y < c.p && (b.x - a.x) % c.p != 0
    && exists l :: SumBySlope(c, a, b, r, l)
  }

  ghost predicate SumBySlope(c: Params, a: Point, b: Point, r: Point, l: int)
    requires c.p > 0
  {
    && (l * (b.x - a.x)) % c.p == (b.y - a.y) % c.p
    && r.x % c.p == (l * l - c.j - a.x - b.x) % c.p
    && r.y % c.p == (l * (a.x - r.x) - a.y) % c.p
  }

  /** r is 8q, by three doublings. */
  ghost predicate IsEightfold(c: Params, q: Point, r: Point)
    requires c.p > 0
  {
    exists q2, q4 :: IsDouble(c, q, q2) && IsDouble(c, q2, q4) && IsDouble(c, q4, r)
  }

  lemma ReflectedOrdinate(j: int, x: int, x': int, y: int, l: int, rx: int, ry: int, p: int)
    requires p > 0 && rx % p == (l * l - j - x - x') % p
    requires ry % p == ((2 * x + x' + j) * l - l * l * l - y) % p
    ensures ry % p == (l * (x - rx) - y) % p
  {
    var s := l * l - j - x - x';
    AddCong(x, x, rx, s, p);
    MulCong(l, l, x - rx, x - s, p);
    AddCong(l * (x - rx), l * (x - s), y, y, p);
    assert l * (x - s) == (2 * x + x' + j) * l - l * l * l;
  }

  lemma PointDblIsDouble(c: Params, q: Point)
    requires Prime(c.p) && PointDbl(c, q).Some?
    ensures IsDouble(c, q, PointDbl(c, q).value)
  {
    hide PointDbl;
    var r := PointDbl(c, q).value;
    var l := PointDblMeaning(c, q);
    ReflectedOrdinate(c.j, q.x, q.x, q.y, l, r.x, r.y, c.p);
    assert DoubleBySlope(c, q, r, l);
  }

  lemma PointAddIsSum(c: Params, a: Point, b: Point)
    requires Prime(c.p) && PointAdd(c, a, b).Some?
    ensures IsSum(c, a, b, PointAdd(c, a, b).value)
  {
    assert a != b;
    hide PointAdd;
    var r := PointAdd(c, a, b).value;
    var l := AdditionMeaning(c, a, b);
    ReflectedOrdinate(c.j, a.x, b.x, a.y, l, r.x, r.y, c.p);
    assert SumBySlope(c, a, b, r, l);
  }

  /** A point has one double. */
  lemma DoubleUnique(c: Params, q: Point, r: Point, r': Point)
    requires Prime(c.p) && IsDouble(c, q, r) && IsDouble(c, q, r')
    ensures r == r'
  {
    var l :| DoubleBySlope(c, q, r, l);
    var l' :| DoubleBySlope(c, q, r', l');
    SwapFactors(l, 2 * q.y);
    SwapFactors(l', 2 * q.y);
    Cancel(l, l', 2 * q.y, c.p);
    SameLine(l, l', c.j, q.x, q.x, q.y, r.x, r'.x, c.p);
    SmallMod(r.x, c.p);
    SmallMod(r'.x, c.p);
    SmallMod(r.y, c.p);
    SmallMod(r'.y, c.p);
  }

  lemma SwapFactors(a: int, b: int)
    ensures a * b == b * a
  {
  }

  /** Affine doubling computes the double, and fails exactly when there is none. */
  lemma PointDblIff(c: Params, q: Point, r: Point)
    requires Prime(c.p)
    ensures PointDbl(c, q) == Some(r) <==> IsDouble(c, q, r)
  {
    hide PointDbl, DoubleBySlope;
    var l := PointDblMeaning(c, q);
    if PointDbl(c, q).Some? {
      PointDblIsDouble(c, q);
      if IsDouble(c, q, r) { DoubleUnique(c, q, r, PointDbl(c, q).value); }
    }
  }

  lemma SameLine(l: int, l': int, j: int, x: int, x': int, y: int, r: int, r': int, p: int)
    requires p > 0 && l % p == l' % p
    requires r % p == (l * l - j - x - x') % p && r' % p == (l' * l' - j - x - x') % p
    ensures r % p == r' % p && (l * (x - r) - y) % p == (l' * (x - r') - y) % p
  {
    MulCong(l, l', l, l', p);
    AddCong(l * l, l' * l', j + x + x', j + x + x', p);
    AddCong(x, x, r, r', p);
    MulCong(l, l', x - r, x - r', p);
    AddCong(l * (x - r), l' * (x - r'), y, y, p);
  }

  // ---- The third point of a line

  /** The slope condition: the line through (x1, y1) of slope l meets the cubic again at x2. */
  function Slope(j: int, x1: int, y1: int, x2: int, l: int): int {
    (x2 * x2 + x2 * x1 + x1 * x1) + j * (x2 + x1) + 1 - 2 * l * y1 - l * l * (x2 - x1)
  }

  lemma SquareAndCube(l: int)
    ensures Pow(l, 2) == l * l && Pow(l, 3) == l * l * l
  {
    assert Pow(l, 1) == l;
    assert Pow(l, 2) == l * l;
    assert Pow(l, 3) == l * (l * l);
  }

  lemma CheckPointMeaning(c: Params, q: Point)
    requires c.p > 0
    ensures CheckPoint(c, q) <==> OnCurve(c, q)
  {
    var p, x := c.p, q.x;
    SquareAndCube(x);
    SquareAndCube(q.y);
    ModIdem(x * x, p);
    ModIdem(x * x * x, p);
    MulModIs(PowMod(x, 2, p), x * x, c.j, c.j, p);
    assert (x * x) * c.j == c.j * (x * x);
    var a := MulMod(PowMod(x, 2, p), c.j, p);
    AddModIs(PowMod(x, 3, p), x * x * x, a, c.j * (x * x), p);
    AddCong(AddMod(PowMod(x, 3, p), a, p), x * x * x + c.j * (x * x), x, x, p);
  }

  /** g(x) - g(x1) is divisible by x - x1. */
  lemma CubicDifference(j: int, x: int, x1: int)
    ensures Cubic(j, x) - Cubic(j, x1) == (x - x1) * ((x * x + x * x1 + x1 * x1) + j * (x + x1) + 1)
  {
    var d, q := x - x1, x * x + x * x1 + x1 * x1;
    CubeDifference(x, x1);
    SquareDifference(x, x1);
    TimesThree(d, q, j * (x + x1));
    Scaled(j, d, x + x1, x * x, x1 * x1);
  }

  lemma SquareDifference(x: int, y: int)
    ensures x * x - y * y == (x - y) * (x + y)
  {
  }

  lemma CubeDifference(x: int, y: int)
    ensures x * x * x - y * y * y == (x - y) * (x * x + x * y + y * y)
  {
    var q := x * x + x * y + y * y;
    assert (x - y) * q == x * q - y * q;
  }

  lemma TimesThree(d: int, a: int, b: int)
    ensures d * (a + b + 1) == d * a + d * b + d
  {
  }

  lemma Scaled(j: int, d: int, s: int, a: int, b: int)
    requires a - b == d * s
    ensures j * a - j * b == d * (j * s)
  {
    assert j * a - j * b == j * (d * s);
  }

  /** On the line the cubic minus the square of the ordinate factors. */
  lemma LineFactor(j: int, x1: int, y1: int, l: int, x: int)
    ensures var y := y1 + l * (x - x1);
      Cubic(j, x) - y * y == Cubic(j, x1) - y1 * y1 + (x - x1) * Slope(j, x1, y1, x, l)
  {
    CubicDifference(j, x, x1);
    var d := x - x1;
    SquareOnLine(y1, l, d);
    var k := (x * x + x * x1 + x1 * x1) + j * (x + x1) + 1;
    TimesDifferences(d, k, 2 * l * y1, l * l * d);
  }

  lemma SquareOnLine(y: int, l: int, d: int)
    ensures (y + l * d) * (y + l * d) == y * y + d * (2 * l * y) + d * (l * l * d)
  {
    var e := l * d;
    assert (y + e) * (y + e) == y * y + 2 * (y * e) + e * e;
    assert 2 * (y * e) == d * (2 * l * y);
    MulSwap(l, d, l, d);
  }

  lemma TimesDifferences(d: int, k: int, a: int, b: int)
    ensures d * (k - a - b) == d * k - d * a - d * b
  {
  }

  /** The abscissa l^2 - J - x1 - x2 has the same slope value as x2. */
  lemma SlopeAtThird(j: int, x1: int, y1: int, x2: int, l: int)
    ensures Slope(j, x1, y1, l * l - j - x1 - x2, l) == Slope(j, x1, y1, x2, l)
  {
    var m := l * l;
    var x3 := m - j - x1 - x2;
    var d := x3 - x2;
    assert x3 * x3 - x2 * x2 == d * (x3 + x2);
    assert x3 * x1 - x2 * x1 == d * x1;
    assert j * (x3 + x1) - j * (x2 + x1) == d * j;
    assert m * (x3 - x1) - m * (x2 - x1) == d * m;
    assert d * (x3 + x2) + d * x1 + d * j - d * m == d * (x3 + x2 + x1 + j - m);
    assert x3 + x2 + x1 + j - m == 0;
  }

  lemma ThirdPoint(c: Params, x1: int, y1: int, x2: int, l: int, x3: int, y3: int)
    requires c.p > 0 && OnCurve(c, Point(x1, y1)) && Slope(c.j, x1, y1, x2, l) % c.p == 0
    requires x3 % c.p == (l * l - c.j - x1 - x2) % c.p
    requires y3 % c.p == ((2 * x1 + x2 + c.j) * l - l * l * l - y1) % c.p
    ensures OnCurve(c, Point(x3, y3))
  {
    var p, j := c.p, c.j;
    var a := l * l - j - x1 - x2;
    var b := (2 * x1 + x2 + j) * l - l * l * l - y1;
    var y := y1 + l * (a - x1);
    LineFactor(j, x1, y1, l, a);
    SlopeAtThird(j, x1, y1, x2, l);
    OrdinateOnLine(j, x1, y1, x2, l);
    var s := Slope(j, x1, y1, a, l);
    MulCong(a - x1, a - x1, s, 0, p);
    CongIffDiff(Cubic(j, x1), y1 * y1, p);
    AddCong(Cubic(j, x1) - y1 * y1, 0, (a - x1) * s, 0, p);
    CongIffDiff(Cubic(j, a), y * y, p);
    assert b * b == y * y;
    MulCong(y3, b, y3, b, p);
    CubicCong(j, x3, a, p);
  }

  lemma OrdinateOnLine(j: int, x1: int, y1: int, x2: int, l: int)
    ensures (2 * x1 + x2 + j) * l - l * l * l - y1 == -(y1 + l * ((l * l - j - x1 - x2) - x1))
  {
    var m := l * l;
    assert l * (m - j - x1 - x2 - x1) == l * m - (2 * x1 + x2 + j) * l;
  }

  lemma CubicCong(j: int, x: int, x': int, p: int)
    requires p > 0 && x % p == x' % p
    ensures Cubic(j, x) % p == Cubic(j, x') % p
  {
    MulCong(x, x', x, x', p);
    MulCong(x * x, x' * x', x, x', p);
    MulCong(j, j, x * x, x' * x', p);
    AddCong(x * x * x, x' * x' * x', j * (x * x), j * (x' * x'), p);
    AddCong(x * x * x + j * (x * x), x' * x' * x' + j * (x' * x'), x, x', p);
  }

  // ---- Doubling

  ghost function Tangent(j: int, x: int): int { 3 * (x * x) + 2 * (x * j) + 1 }

  /** What affine doubling computes, in terms of a slope l with 2*y*l = 3*x^2 + 2*J*x + 1. */
  lemma PointDblMeaning(c: Params, q: Point) returns (l: int)
    requires Prime(c.p)
    ensures PointDbl(c, q).None? <==> (2 * q.y) % c.p == 0
    ensures PointDbl(c, q).Some? ==>
      var r := PointDbl(c, q).value;
      && 0 <= r.x < c.p && 0 <= r.y < c.p
      && ((2 * q.y) * l) % c.p == Tangent(c.j, q.x) % c.p
      && r.x % c.p == (l * l - c.j - q.x - q.x) % c.p
      && r.y % c.p == ((2 * q.x + q.x + c.j) * l - l * l * l - q.y) % c.p
  {
    var p, j, x := c.p, c.j, q.x;
    var y2 := MulMod(q.y, 2, p);
    assert q.y * 2 == 2 * q.y;
    MulModIs(q.y, q.y, 2, 2, p);
    var s := AddMod(AddMod(MulMod(MulMod(x, x, p), 3, p), MulMod(MulMod(x, j, p), 2, p), p), 1, p);
    TangentValue(j, x, p);
    l := 0;
    if y2 % p != 0 {
      var d := InvertMod(y2, p).value;
      InvertModIsInverse(y2, d, p);
      l := MulMod(s, d, p);
      TimesInverse(s, y2, d, p);
      MulCong(l, l, y2, 2 * q.y, p);
      assert l * (2 * q.y) == (2 * q.y) * l;
      DoublingCoordinates(c, q, l);
    }
  }

  lemma TangentValue(j: int, x: int, p: int)
    requires p > 0
    ensures var s := AddMod(AddMod(MulMod(MulMod(x, x, p), 3, p), MulMod(MulMod(x, j, p), 2, p), p), 1, p);
      s % p == Tangent(j, x) % p
  {
    var px2 := MulMod(x, x, p);
    MulModIs(x, x, x, x, p);
    MulModIs(px2, x * x, 3, 3, p);
    var ax := MulMod(x, j, p);
    MulModIs(x, x, j, j, p);
    MulModIs(ax, x * j, 2, 2, p);
    AddModIs(MulMod(px2, 3, p), (x * x) * 3, MulMod(ax, 2, p), (x * j) * 2, p);
    var s0 := AddMod(MulMod(px2, 3, p), MulMod(ax, 2, p), p);
    AddModIs(s0, (x * x) * 3 + (x * j) * 2, 1, 1, p);
    assert (x * x) * 3 == 3 * (x * x) && (x * j) * 2 == 2 * (x * j);
  }

  lemma DoublingCoordinates(c: Params, q: Point, l: int)
    requires c.p > 0
    ensures var tx := SubMod(SubMod(PowMod(l, 2, c.p), c.j, c.p), MulMod(q.x, 2, c.p), c.p);
      0 <= tx < c.p && tx % c.p == (l * l - c.j - q.x - q.x) % c.p
    ensures var t := MulMod(AddMod(MulMod(q.x, 3, c.p), c.j, c.p), l, c.p);
      var ty := SubMod(SubMod(t, PowMod(l, 3, c.p), c.p), q.y, c.p);
      0 <= ty < c.p && ty % c.p == ((2 * q.x + q.x + c.j) * l - l * l * l - q.y) % c.p
  {
    var p, j, x := c.p, c.j, q.x;
    SquareAndCube(l);
    ModIdem(l * l, p);
    ModIdem(l * l * l, p);
    var a := SubMod(PowMod(l, 2, p), j, p);
    AddModIs(PowMod(l, 2, p), l * l, j, j, p);
    MulModIs(x, x, 2, 2, p);
    AddModIs(a, l * l - j, MulMod(x, 2, p), x * 2, p);
    var b := AddMod(MulMod(x, 3, p), j, p);
    MulModIs(x, x, 3, 3, p);
    AddModIs(MulMod(x, 3, p), x * 3, j, j, p);
    var t := MulMod(b, l, p);
    MulModIs(b, x * 3 + j, l, l, p);
    var e := SubMod(t, PowMod(l, 3, p), p);
    AddModIs(t, (x * 3 + j) * l, PowMod(l, 3, p), l * l * l, p);
    AddModIs(e, (x * 3 + j) * l - l * l * l, q.y, q.y, p);
    assert x * 3 + j == 2 * x + x + j;
  }

  /** Doubling stays on the curve. */
  lemma PointDblOnCurve(c: Params, q: Point)
    requires Prime(c.p) && OnCurve(c, q) && PointDbl(c, q).Some?
    ensures OnCurve(c, PointDbl(c, q).value)
  {
    hide PointDbl, Slope, Tangent, Cubic;
    var r := PointDbl(c, q).value;
    var l := PointDblMeaning(c, q);
    var s := Slope(c.j, q.x, q.y, q.x, l);
    assert s == Tangent(c.j, q.x) - (2 * q.y) * l by { TangentSlope(c.j, q.x, q.y, l); }
    CongIffDiff(Tangent(c.j, q.x), (2 * q.y) * l, c.p);
    ThirdPoint(c, q.x, q.y, q.x, l, r.x, r.y);
  }

  lemma TangentSlope(j: int, x: int, y: int, l: int)
    ensures Slope(j, x, y, x, l) == Tangent(j, x) - (2 * y) * l
  {
    assert j * (x + x) == 2 * (x * j);
    assert l * l * (x - x) == 0;
    assert 2 * l * y == (2 * y) * l;
  }

  lemma DoublingIdentity(j: int, x: int)
    ensures Tangent(j, x) * Tangent(j, x) - (j + x + x) * (4 * Cubic(j, x)) == (x * x - 1) * (x * x - 1)
  {
    var m, n := x * x, x * j;
    CubicOfSquare(j, x);
    MulShuffle(j + x + x, x, m + n + 1);
    LinearTimes(j, x);
    QuarticIdentity(m, n);
  }

  lemma CubicOfSquare(j: int, x: int)
    ensures Cubic(j, x) == x * (x * x + x * j + 1)
  {
    assert x * (x * x + x * j + 1) == x * (x * x) + x * (x * j) + x;
    assert x * (x * j) == j * (x * x);
  }

  lemma LinearTimes(j: int, x: int)
    ensures (j + x + x) * x == x * j + x * x + x * x
  {
  }

  lemma MulShuffle(a: int, x: int, b: int)
    ensures a * (4 * (x * b)) == 4 * ((a * x) * b)
  {
  }

  lemma QuarticIdentity(m: int, n: int)
    ensures (3 * m + 2 * n + 1) * (3 * m + 2 * n + 1) - 4 * ((n + m + m) * (m + n + 1)) == (m - 1) * (m - 1)
  {
  }

  lemma PointDblProjectiveMeaning(c: Params, x: int)
    requires Prime(c.p)
    ensures PointDblProjective(c, x).None? <==> (4 * Cubic(c.j, x)) % c.p == 0
    ensures PointDblProjective(c, x).Some? ==>
      var r := PointDblProjective(c, x).value;
      0 <= r < c.p && (r * (4 * Cubic(c.j, x))) % c.p == ((x * x - 1) * (x * x - 1)) % c.p
  {
    var p, j := c.p, c.j;
    var px2 := MulMod(x, x, p);
    MulModIs(x, x, x, x, p);
    var px21 := SubMod(px2, 1, p);
    AddModIs(px2, x * x, 1, 1, p);
    var px22 := MulMod(px21, px21, p);
    MulModIs(px21, x * x - 1, px21, x * x - 1, p);
    var pxa := MulMod(x, j, p);
    MulModIs(x, x, j, j, p);
    AddModIs(px2, x * x, pxa, x * j, p);
    var z0 := AddMod(px2, pxa, p);
    var pz1 := AddMod(z0, 1, p);
    AddModIs(z0, x * x + x * j, 1, 1, p);
    var pz2 := MulMod(pz1, x, p);
    MulModIs(pz1, x * x + x * j + 1, x, x, p);
    var z := MulMod(pz2, 4, p);
    MulModIs(pz2, (x * x + x * j + 1) * x, 4, 4, p);
    CubicFactored(j, x);
    if z % p != 0 {
      var d := InvertMod(z, p).value;
      InvertModIsInverse(z, d, p);
      TimesInverse(px22, z, d, p);
      MulCong(MulMod(px22, d, p), MulMod(px22, d, p), z, 4 * Cubic(j, x), p);
    }
  }

  lemma CubicFactored(j: int, x: int)
    ensures ((x * x + x * j + 1) * x) * 4 == 4 * Cubic(j, x)
  {
    assert (x * x + x * j + 1) * x == x * x * x + (x * j) * x + x;
    assert (x * j) * x == j * (x * x);
  }

  /** On the curve, doubling the x-coordinate alone agrees with affine doubling, errors included. */
  lemma ProjectiveDoublingAgrees(c: Params, q: Point)
    requires Prime(c.p) && c.p % 2 == 1 && OnCurve(c, q)
    ensures PointDblProjective(c, q.x) == AbscissaOf(PointDbl(c, q))
  {
    var p, j, x, y := c.p, c.j, q.x, q.y;
    var l := PointDblMeaning(c, q);
    PointDblProjectiveMeaning(c, x);
    DoublingDenominators(y, Cubic(j, x), p);
    if (2 * y) % p != 0 {
      var r, s := PointDbl(c, q).value.x, PointDblProjective(c, x).value;
      DoubledAbscissa(j, x, y, l, r, p);
      SameQuotient(r, s, 4 * Cubic(j, x), p);
    }
  }

  lemma DoublingDenominators(y: int, g: int, p: int)
    requires Prime(p) && (y * y) % p == g % p
    ensures (4 * g) % p == 0 <==> (2 * y) % p == 0
  {
    assert (2 * y) * (2 * y) == 4 * (y * y);
    MulCong(4, 4, y * y, g, p);
    NonzeroProduct(2 * y, 2 * y, p);
  }

  lemma DoubledAbscissa(j: int, x: int, y: int, l: int, r: int, p: int)
    requires p > 0 && (y * y) % p == Cubic(j, x) % p
    requires ((2 * y) * l) % p == Tangent(j, x) % p && r % p == (l * l - j - x - x) % p
    ensures (r * (4 * Cubic(j, x))) % p == ((x * x - 1) * (x * x - 1)) % p
  {
    var g, t, w := Cubic(j, x), Tangent(j, x), 2 * y;
    var a := w * w;
    assert a == 4 * (y * y);
    MulCong(4, 4, y * y, g, p);
    MulCong(r, l * l - j - x - x, 4 * g, a, p);
    MulSwap(w, l, w, l);
    var b := l * l;
    var e := j + x + x;
    assert (b - e) * a == a * b - e * a;
    MulCong(w * l, t, w * l, t, p);
    MulCong(e, e, a, 4 * g, p);
    AddCong(a * b, t * t, e * a, e * (4 * g), p);
    DoublingIdentity(j, x);
  }

  // ---- Addition

  lemma AdditionMeaning(c: Params, a: Point, b: Point) returns (l: int)
    requires Prime(c.p) && a != b
    ensures PointAdd(c, a, b).None? <==> (b.x - a.x) % c.p == 0
    ensures PointAdd(c, a, b).Some? ==>
      var r := PointAdd(c, a, b).value;
      && 0 <= r.x < c.p && 0 <= r.y < c.p
      && (l * (b.x - a.x)) % c.p == (b.y - a.y) % c.p
      && r.x % c.p == (l * l - c.j - a.x - b.x) % c.p
      && r.y % c.p == ((2 * a.x + b.x + c.j) * l - l * l * l - a.y) % c.p
  {
    var p := c.p;
    var s1, s2 := SubMod(b.x, a.x, p), SubMod(b.y, a.y, p);
    AddModIs(b.x, b.x, a.x, a.x, p);
    AddModIs(b.y, b.y, a.y, a.y, p);
    l := 0;
    if s1 % p != 0 {
      var d := InvertMod(s1, p).value;
      InvertModIsInverse(s1, d, p);
      l := MulMod(s2, d, p);
      TimesInverse(s2, s1, d, p);
      MulCong(l, l, s1, b.x - a.x, p);
      AdditionCoordinates(c, a, b, l);
    }
  }

  lemma AdditionCoordinates(c: Params, a: Point, b: Point, l: int)
    requires c.p > 0
    ensures var tx := SubMod(SubMod(SubMod(MulMod(l, l, c.p), c.j, c.p), a.x, c.p), b.x, c.p);
      0 <= tx < c.p && tx % c.p == (l * l - c.j - a.x - b.x) % c.p
    ensures var t := AddMod(AddMod(MulMod(a.x, 2, c.p), b.x, c.p), c.j, c.p);
      var ty := SubMod(SubMod(MulMod(t, l, c.p), MulMod(MulMod(l, l, c.p), l, c.p), c.p), a.y, c.p);
      0 <= ty < c.p && ty % c.p == ((2 * a.x + b.x + c.j) * l - l * l * l - a.y) % c.p
  {
    var p, j := c.p, c.j;
    var l2 := MulMod(l, l, p);
    MulModIs(l, l, l, l, p);
    var e1 := SubMod(l2, j, p);
    AddModIs(l2, l * l, j, j, p);
    var e2 := SubMod(e1, a.x, p);
    AddModIs(e1, l * l - j, a.x, a.x, p);
    AddModIs(e2, l * l - j - a.x, b.x, b.x, p);
    var l3 := MulMod(l2, l, p);
    MulModIs(l2, l * l, l, l, p);
    var t0 := MulMod(a.x, 2, p);
    MulModIs(a.x, a.x, 2, 2, p);
    var t1 := AddMod(t0, b.x, p);
    AddModIs(t0, 2 * a.x, b.x, b.x, p);
    var t := AddMod(t1, j, p);
    AddModIs(t1, 2 * a.x + b.x, j, j, p);
    var m := MulMod(t, l, p);
    MulModIs(t, 2 * a.x + b.x + j, l, l, p);
    var w := SubMod(m, l3, p);
    AddModIs(m, (2 * a.x + b.x + j) * l, l3, l * l * l, p);
    AddModIs(w, (2 * a.x + b.x + j) * l - l * l * l, a.y, a.y, p);
  }

  /** The sum of two curve points is a curve point, and PointAddX is its x-coordinate. */
  lemma PointAddOnCurve(c: Params, a: Point, b: Point)
    requires Prime(c.p) && OnCurve(c, a) && OnCurve(c, b)
    ensures PointAdd(c, a, b).Some? ==> OnCurve(c, PointAdd(c, a, b).value)
    ensures PointAddX(c, a, b) == AbscissaOf(PointAdd(c, a, b))
  {
    if PointAdd(c, a, b).Some? {
      SumOnCurve(c, a, b);
    }
  }

  lemma SumOnCurve(c: Params, a: Point, b: Point)
    requires Prime(c.p) && OnCurve(c, a) && OnCurve(c, b) && a != b && PointAdd(c, a, b).Some?
    ensures OnCurve(c, PointAdd(c, a, b).value)
  {
    hide PointAdd, Slope, Cubic;
    var r := PointAdd(c, a, b).value;
    var l := AdditionMeaning(c, a, b);
    ChordSlope(c.j, a.x, a.y, b.x, b.y, l, c.p);
    ThirdPoint(c, a.x, a.y, b.x, l, r.x, r.y);
  }

  lemma ChordSlope(j: int, x1: int, y1: int, x2: int, y2: int, l: int, p: int)
    requires Prime(p) && (x2 - x1) % p != 0 && (l * (x2 - x1)) % p == (y2 - y1) % p
    requires (y1 * y1) % p == Cubic(j, x1) % p && (y2 * y2) % p == Cubic(j, x2) % p
    ensures Slope(j, x1, y1, x2, l) % p == 0
  {
    var d, s := x2 - x1, Slope(j, x1, y1, x2, l);
    var y := y1 + l * d;
    LineFactor(j, x1, y1, l, x2);
    AddCong(y1, y1, l * d, y2 - y1, p);
    MulCong(y, y2, y, y2, p);
    CongIffDiff(Cubic(j, x2), y * y, p);
    CongIffDiff(Cubic(j, x1), y1 * y1, p);
    var u, v := Cubic(j, x2) - y * y, Cubic(j, x1) - y1 * y1;
    AddCong(u, 0, v, 0, p);
    assert d * s == u - v;
    Euclid(d, s, p);
  }

  // ---- Cofactor clearing and the hash

  /** [8]P on x-coordinates agrees with affine [8]P, errors included, and stays on the curve. */
  lemma ClearCofactorAgrees(c: Params, q: Point)
    requires Prime(c.p) && c.p % 2 == 1 && OnCurve(c, q)
    ensures PointClearCofactorProjective(c, q.x) == AbscissaOf(PointClearCofactor(c, q))
    ensures PointClearCofactor(c, q).Some? ==> OnCurve(c, PointClearCofactor(c, q).value)
    ensures PointClearCofactor(c, q).Some? ==> IsEightfold(c, q, PointClearCofactor(c, q).value)
  {
    hide PointDbl, PointDblProjective, OnCurve, IsDouble;
    ProjectiveDoublingAgrees(c, q);
    if PointDbl(c, q).Some? {
      var q2 := PointDbl(c, q).value;
      PointDblOnCurve(c, q);
      PointDblIsDouble(c, q);
      ProjectiveDoublingAgrees(c, q2);
      if PointDbl(c, q2).Some? {
        var q4 := PointDbl(c, q2).value;
        PointDblOnCurve(c, q2);
        PointDblIsDouble(c, q2);
        ProjectiveDoublingAgrees(c, q4);
        if PointDbl(c, q4).Some? {
          PointDblOnCurve(c, q4);
          PointDblIsDouble(c, q4);
        }
      }
    }
  }

  /** [8](map(u0) + map(u1)) computed on affine points. */
  ghost function AffineHash(c: Params, u0: int, u1: int): Option<Point>
    requires c.p > 1
  {
    var q0, q1 := MapToCurveG2(c, u0), MapToCurveG2(c, u1);
    if q0.None? || q1.None? then None else
    match PointAdd(c, q0.value, q1.value)
    case None => None
    case Some(q) => PointClearCofactor(c, q)
  }

  /** r is 8 times the sum of the two mapped points, by the group law. */
  ghost predicate IsHash(c: Params, u0: int, u1: int, r: Point)
    requires c.p > 1
  {
    var q0, q1 := MapToCurveG2(c, u0), MapToCurveG2(c, u1);
    q0.Some? && q1.Some? && exists q :: IsSum(c, q0.value, q1.value, q) && IsEightfold(c, q, r)
  }

  /** The hash is the x-coordinate of the affine [8](Q0 + Q1), which lies on the curve. */
  lemma HashToCurveAgrees(c: Params, u0: int, u1: int)
    requires Good(c)
    ensures HashToCurve(c, u0, u1) == AbscissaOf(AffineHash(c, u0, u1))
    ensures AffineHash(c, u0, u1).Some? ==> OnCurve(c, AffineHash(c, u0, u1).value)
    ensures AffineHash(c, u0, u1).Some? ==> IsHash(c, u0, u1, AffineHash(c, u0, u1).value)
  {
    hide PointAdd, PointAddX, MapToCurveG2, OnCurve, PointClearCofactor, PointClearCofactorProjective, IsSum,
      IsEightfold;
    GoodMeans(c);
    MapToCurveG2OnCurve(c, u0);
    MapToCurveG2OnCurve(c, u1);
    var q0, q1 := MapToCurveG2(c, u0).value, MapToCurveG2(c, u1).value;
    PointAddOnCurve(c, q0, q1);
    if PointAdd(c, q0, q1).Some? {
      PointAddIsSum(c, q0, q1);
      ClearCofactorAgrees(c, PointAdd(c, q0, q1).value);
    }
  }

  /** One of q, 2q, ..., 2^(n-1)q has ordinate zero. */
  ghost predicate MeetsZero(c: Params, q: Point, n: nat)
    requires c.p > 1
    decreases n
  {
    n > 0 && (q.y % c.p == 0 || (PointDbl(c, q).Some? && MeetsZero(c, PointDbl(c, q).value, n - 1)))
  }

  lemma DblFailsIff(c: Params, q: Point)
    requires Prime(c.p) && c.p % 2 == 1
    ensures PointDbl(c, q).None? <==> q.y % c.p == 0
  {
    var l := PointDblMeaning(c, q);
    if q.y % c.p == 0 {
      MulCong(2, 2, q.y, 0, c.p);
    } else {
      SmallMod(2, c.p);
      NonzeroProduct(2, q.y, c.p);
    }
  }

  /** The hash fails if and only if the elements are equal or opposite, one is 1/(2*u) or -1/(2*u) for the
      other, J is zero, or one of the three points that are doubled has ordinate zero. */
  lemma HashFailsIff(c: Params, u0: int, u1: int)
    requires Good(c)
    ensures MapToCurveG2(c, u0).Some? && MapToCurveG2(c, u1).Some?
    ensures var q0, q1 := MapToCurveG2(c, u0).value, MapToCurveG2(c, u1).value;
      HashToCurve(c, u0, u1).None? <==>
        || c.j % c.p == 0 || Paired(u0, u1, c.p)
        || (PointAdd(c, q0, q1).Some? && MeetsZero(c, PointAdd(c, q0, q1).value, 3))
  {
    AbscissasCoincide(c, u0, u1);
    hide MapToCurveG2, PointAdd, PointDbl, OnCurve, Good, HashToCurve;
    assert Prime(c.p) && c.p % 2 == 1 by { GoodMeans(c); }
    MapToCurveG2OnCurve(c, u0);
    MapToCurveG2OnCurve(c, u1);
    HashToCurveAgrees(c, u0, u1);
    var q0, q1 := MapToCurveG2(c, u0).value, MapToCurveG2(c, u1).value;
    AddFailsIff(c, q0, q1);
    if PointAdd(c, q0, q1).Some? {
      var q := PointAdd(c, q0, q1).value;
      DblFailsIff(c, q);
      if PointDbl(c, q).Some? {
        var q2 := PointDbl(c, q).value;
        DblFailsIff(c, q2);
        if PointDbl(c, q2).Some? { DblFailsIff(c, PointDbl(c, q2).value); }
      }
    }
  }

  lemma GoodMeans(c: Params)
    requires Good(c)
    ensures Prime(c.p) && c.p % 2 == 1
  {
  }

  lemma AddFailsIff(c: Params, a: Point, b: Point)
    requires Prime(c.p) && 0 <= a.x < c.p && 0 <= b.x < c.p
    ensures PointAdd(c, a, b).None? <==> a.x == b.x
  {
    if a != b {
      var l := AdditionMeaning(c, a, b);
      CongIffDiff(b.x, a.x, c.p);
      SmallMod(a.x, c.p);
      SmallMod(b.x, c.p);
    }
  }

  /** In particular for equal or opposite field elements, which map to the same point. */
  lemma OppositeElementsFail(c: Params, u0: int, u1: int)
    requires Good(c) && ((u1 - u0) % c.p == 0 || (u1 + u0) % c.p == 0)
    ensures MapToCurveG2(c, u0) == MapToCurveG2(c, u1) && HashToCurve(c, u0, u1).None?
  {
    assert c.p > 2 by { GoodMeans(c); }
    ElligatorTextbook.MapsAgree(c, u0);
    ElligatorTextbook.MapsAgree(c, u1);
    assert (u1 * u1 - u0 * u0) % c.p == 0 by {
      assert u1 * u1 - u0 * u0 == (u1 - u0) * (u1 + u0);
      if (u1 - u0) % c.p == 0 {
        MulCong(u1 - u0, 0, u1 + u0, u1 + u0, c.p);
      } else {
        MulCong(u1 - u0, u1 - u0, u1 + u0, 0, c.p);
      }
    }
    CongIffDiff(u1 * u1, u0 * u0, c.p);
    SquareDecides(c, u0, u1);
    HashFailsIff(c, u0, u1);
  }
}
