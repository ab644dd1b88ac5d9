/** The Elligator 2 maps onto the Montgomery curve y^2 = x^3 + J*x^2 + x, in the
    textbook form and in the inversion-free form of appendix G.2.1 of RFC 9380. */
module Elligator2 {
  import opened Common
  import opened ModArith
  import opened PrimeField

  datatype Params = Params(p: int, j: int, c2: int, c3: int, c4: nat)
  datatype Point = Point(x: int, y: int)

  /** p is a prime congruent to 5 modulo 8, c3 a square root of -1 and c2 a fourth root of -4. */
  ghost predicate Good(c: Params) {
    && Prime(c.p) && c.p % 8 == 5
    && c.p == 8 * c.c4 + 5
    && (c.c3 * c.c3) % c.p == (-1) % c.p
    && ((c.c2 * c.c2) * (c.c2 * c.c2)) % c.p == (-4) % c.p
  }

  function Cubic(j: int, x: int): int {
    x * x * x + j * (x * x) + x
  }

  ghost predicate OnCurve(c: Params, q: Point)
    requires c.p > 0
  {
    (q.y * q.y) % c.p == Cubic(c.j, q.x) % c.p
  }

  // ---- The inversion-free map

  datatype Fraction = Fraction(tv1: int, xd: int, gxd: int, gx1: int)

  /** Steps 1 to 10: the first candidate abscissa is -J/xd and its ordinate squared is gx1/gxd. */
  function Numerators(c: Params, u: int): Fraction
    requires c.p > 0
  {
    var tv1 := MulMod(u, u, c.p);
    var tv1 := MulMod(tv1, 2, c.p);
    var xd := AddMod(tv1, 1, c.p);
    var x1n := -c.j;
    var tv2 := MulMod(xd, xd, c.p);
    var gxd := MulMod(tv2, xd, c.p);
    var gx1 := MulMod(c.j, tv1, c.p);
    var gx1 := MulMod(gx1, x1n, c.p);
    var gx1 := AddMod(gx1, tv2, c.p);
    var gx1 := MulMod(gx1, x1n, c.p);
    Fraction(tv1, xd, gxd, gx1)
  }

  /** Steps 11 to 17: one exponentiation yields a root of gx1/gxd up to a fourth root of unity. */
  function CandidateRoot(c: Params, gx1: int, gxd: int): int
    requires c.p > 0
  {
    var tv3 := MulMod(gxd, gxd, c.p);
    var tv2 := MulMod(tv3, tv3, c.p);
    var tv3 := MulMod(tv3, gxd, c.p);
    var tv3 := MulMod(tv3, gx1, c.p);
    var tv2 := MulMod(tv2, tv3, c.p);
    MulMod(PowMod(tv2, c.c4, c.p), tv3, c.p)
  }

  /** Steps 18 to 22 and 28 to 31: keep `y` if it is a root of n/gxd, otherwise turn it by c3. */
  function TurnIfNotRoot(c: Params, y: int, n: int, gxd: int): int
    requires c.p > 0
  {
    if MulMod(MulMod(y, y, c.p), gxd, c.p) == n then y else MulMod(y, c.c3, c.p)
  }

  datatype Choice = Choice(first: bool, xn: int, y: int)

  /** Steps 18 to 36: the choice between the two candidate abscissas. */
  function Select(c: Params, u: int, f: Fraction, y11: int): Choice
    requires c.p > 0
  {
    var x1n := -c.j;
    var y1 := TurnIfNotRoot(c, y11, f.gx1, f.gxd);
    var x2n := MulMod(x1n, f.tv1, c.p);
    var y21 := MulMod(MulMod(y11, u, c.p), c.c2, c.p);
    var gx2 := MulMod(f.gx1, f.tv1, c.p);
    var y2 := TurnIfNotRoot(c, y21, gx2, f.gxd);
    var e3 := MulMod(MulMod(y1, y1, c.p), f.gxd, c.p) == f.gx1;
    if e3 then Choice(true, x1n, y1) else Choice(false, x2n, y2)
  }

  function Sgn0(v: int): bool { v % 2 != 0 }

  /** Steps 37 and 38: the root whose parity records which candidate was taken. */
  function FixSign(p: int, first: bool, y: int): int
    requires p > 0
  {
    var y := if first != Sgn0(y) then -y else y;
    if y < 0 then AddMod(y, p, p) else y
  }

  function MapToCurveG2(c: Params, u: int): Option<Point>
    requires c.p > 1
  {
    var f := Numerators(c, u);
    var ch := Select(c, u, f, CandidateRoot(c, f.gx1, f.gxd));
    var y := FixSign(c.p, ch.first, ch.y);
    match InvertMod(f.xd, c.p)
    case None => None
    case Some(xd1) => Some(Point(MulMod(ch.xn, xd1, c.p), y))
  }

  // ---- The textbook map

  function IsSquare(v: int, p: int): bool
    requires p > 2
  {
    var t1 := SubMod(p, 1, p);
    match InvertMod(2, p)
    case None => false
    case Some(t2) =>
      var t4 := PowMod(v, MulMod(t1, t2, p), p);
      t4 == 1 || t4 == 0
  }

  function Sqrt(c: Params, v: int): int
    requires c.p > 0
  {
    var tv1 := PowMod(v, (c.p + 3) / 8, c.p);
    if MulMod(tv1, tv1, c.p) == v then tv1 else MulMod(tv1, c.c3, c.p)
  }

  function MapToCurveElligator2(c: Params, u: int): Option<Point>
    requires c.p > 2
  {
    var tv1 := MulMod(MulMod(u, u, c.p), 2, c.p);
    // The guard compares with the integer -1, not with p - 1.
    var tv1 := if tv1 == -1 then 0 else tv1;
    match InvertMod(AddMod(tv1, 1, c.p), c.p)
    case None => None
    case Some(inv) =>
      var x1 := MulMod(inv, -c.j, c.p);
      var gx1 := MulMod(AddMod(MulMod(AddMod(x1, c.j, c.p), x1, c.p), 1, c.p), x1, c.p);
      var x2 := AddMod(-x1, -c.j, c.p);
      var gx2 := MulMod(gx1, tv1, c.p);
      var e2 := IsSquare(gx1, c.p);
      var y := Sqrt(c, if e2 then gx1 else gx2);
      Some(Point(if e2 then x1 else x2, FixSign(c.p, e2, y)))
  }


  // ---- Steps 1 to 10

  lemma NumeratorsMeaning(c: Params, u: int)
    requires c.p > 0
    ensures var f := Numerators(c, u);
      && 0 <= f.tv1 < c.p && 0 <= f.xd < c.p && 0 <= f.gxd < c.p && 0 <= f.gx1 < c.p
      && f.tv1 % c.p == (2 * (u * u)) % c.p
      && f.xd % c.p == (f.tv1 + 1) % c.p
      && f.gxd % c.p == (f.xd * f.xd * f.xd) % c.p
      && f.gx1 % c.p == ((c.j * f.tv1 * -c.j + f.xd * f.xd) * -c.j) % c.p
  {
    var p, j := c.p, c.j;
    var f := Numerators(c, u);
    var uu := MulMod(u, u, p);
    MulModIs(u, u, u, u, p);
    MulModIs(uu, u * u, 2, 2, p);
    assert (u * u) * 2 == 2 * (u * u);
    AddModIs(f.tv1, f.tv1, 1, 1, p);
    var tv2 := MulMod(f.xd, f.xd, p);
    MulModIs(f.xd, f.xd, f.xd, f.xd, p);
    MulModIs(tv2, f.xd * f.xd, f.xd, f.xd, p);
    var g0 := MulMod(j, f.tv1, p);
    MulModIs(j, j, f.tv1, f.tv1, p);
    var g1 := MulMod(g0, -j, p);
    MulModIs(g0, j * f.tv1, -j, -j, p);
    var g2 := AddMod(g1, tv2, p);
    AddModIs(g1, j * f.tv1 * -j, tv2, f.xd * f.xd, p);
    MulModIs(g2, j * f.tv1 * -j + f.xd * f.xd, -j, -j, p);
  }

  /** 2*u^2 = -1 has no solution, so the denominator of either map never vanishes. */
  lemma DenominatorNonzero(c: Params, u: int)
    requires Good(c)
    ensures (2 * (u * u) + 1) % c.p != 0
  {
    var p := c.p;
    if (2 * (u * u) + 1) % p == 0 {
      var s := 2 * (u * u);
      CongIffDiff(s, -1, p);
      MulCong(s, -1, s, -1, p);
      var t := c.c2 * u;
      var t4 := (t * t) * (t * t);
      FourthPower(c.c2, u);
      MulCong((c.c2 * c.c2) * (c.c2 * c.c2), -4, (u * u) * (u * u), (u * u) * (u * u), p);
      assert -4 * ((u * u) * (u * u)) == -(s * s);
      NegCong(s * s, 1, p);
      assert t4 % p == (-1) % p;
      NoEighthRootOfUnity(t, c.c4, p);
    }
  }

  lemma FourthPower(a: int, b: int)
    ensures ((a * b) * (a * b)) * ((a * b) * (a * b)) == ((a * a) * (a * a)) * ((b * b) * (b * b))
  {
    MulSwap(a, b, a, b);
    MulSwap(a * a, b * b, a * a, b * b);
  }

  lemma {:induction false} PowMinusOneOdd(k: nat)
    ensures Pow(-1, 2 * k + 1) == -1
  {
    if k > 0 {
      PowMinusOneOdd(k - 1);
      assert Pow(-1, 2 * k + 1) == -1 * (-1 * Pow(-1, 2 * k - 1));
    }
  }

  lemma Pow4(t: int)
    ensures Pow(t, 4) == (t * t) * (t * t)
  {
    assert Pow(t, 1) == t;
    assert Pow(t, 2) == t * t;
    PowAdd(t, 2, 2);
  }

  lemma PowOfMinusOneRoot(t: int, k: nat, p: int)
    requires p > 0 && ((t * t) * (t * t)) % p == (-1) % p
    ensures Pow(t, 4 * (2 * k + 1)) % p == (-1) % p
  {
    Pow4(t);
    PowMul(t, 4, 2 * k + 1);
    PowCong(Pow(t, 4), -1, 2 * k + 1, p);
    PowMinusOneOdd(k);
  }

  lemma MinusOneIsNot(p: int)
    requires p > 2
    ensures (-1) % p == p - 1 && (-1) % p != 1 && (-1) % p != 0
  {
    DivUnique(-1, -1, p - 1, p);
  }

  /** No t has t^4 = -1 when p is 5 modulo 8. */
  lemma NoEighthRootOfUnity(t: int, k: nat, p: int)
    requires Prime(p) && p == 8 * k + 5
    ensures ((t * t) * (t * t)) % p != (-1) % p
  {
    MinusOneIsNot(p);
    assert p - 1 == 4 * (2 * k + 1);
    if ((t * t) * (t * t)) % p == (-1) % p {
      NonzeroProduct(t * t, t * t, p);
      NonzeroProduct(t, t, p);
      Fermat(t, p);
      PowOfMinusOneRoot(t, k, p);
    }
  }

  // ---- Steps 11 to 17

  /** With N = a*g^7, the candidate root y satisfies (y^2*g)^2 = N^((p-1)/2) * a^2. */
  lemma CandidateRootMeaning(c: Params, a: int, g: int)
    requires c.p > 0 && c.p == 8 * c.c4 + 5
    ensures var y := CandidateRoot(c, a, g); var n := a * (g * g * g * (g * g * (g * g)));
      && 0 <= y < c.p
      && (((y * y) * g) * ((y * y) * g)) % c.p == (Pow(n, 4 * c.c4 + 2) * (a * a)) % c.p
  {
    var p := c.p;
    var g2 := g * g;
    var n := a * (g * g * g * (g * g * (g * g)));
    var t3 := MulMod(g, g, p);
    MulModIs(g, g, g, g, p);
    var t2 := MulMod(t3, t3, p);
    MulModIs(t3, g2, t3, g2, p);
    var t3' := MulMod(t3, g, p);
    MulModIs(t3, g2, g, g, p);
    var t3'' := MulMod(t3', a, p);
    MulModIs(t3', g2 * g, a, a, p);
    var t2' := MulMod(t2, t3'', p);
    MulModIs(t2, g2 * g2, t3'', g2 * g * a, p);
    assert (g2 * g2) * (g2 * g * a) == n by { SeventhPower(a, g); }
    PowCong(t2', n, c.c4, p);
    var w := Pow(n, c.c4);
    ModIdem(Pow(t2', c.c4), p);
    var y := CandidateRoot(c, a, g);
    MulModIs(PowMod(t2', c.c4, p), w, t3'', g2 * g * a, p);
    var y' := w * (g2 * g * a);
    MulCong(y, y', y, y', p);
    MulCong(y * y, y' * y', g, g, p);
    MulCong((y * y) * g, (y' * y') * g, (y * y) * g, (y' * y') * g, p);
    RootIdentity(w, a, g);
    FourPlusTwo(n, c.c4);
  }

  lemma SeventhPower(a: int, g: int)
    ensures ((g * g) * (g * g)) * ((g * g) * g * a) == a * (g * g * g * (g * g * (g * g)))
  {
    var g2 := g * g;
    assert (g2 * g2) * (g2 * g * a) == a * (g2 * g * (g2 * g2));
  }

  lemma FourPlusTwo(n: int, k: nat)
    ensures Pow(n, 4 * k + 2) == ((Pow(n, k) * Pow(n, k)) * (Pow(n, k) * Pow(n, k))) * (n * n)
  {
    PowAdd(n, 4 * k, 2);
    PowMul(n, k, 4);
    Pow4(Pow(n, k));
    assert Pow(n, 1) == n;
    assert Pow(n, 2) == n * n;
  }

  lemma RootIdentity(w: int, a: int, g: int)
    ensures var y := w * ((g * g) * g * a); var n := a * (g * g * g * (g * g * (g * g)));
      ((y * y) * g) * ((y * y) * g) == (((w * w) * (w * w)) * (n * n)) * (a * a)
  {
    var y := w * ((g * g) * g * a);
    var n := a * (g * g * g * (g * g * (g * g)));
    var b := (g * g) * g * a;
    MulSwap(w, b, w, b);
    assert y * y == (w * w) * (b * b);
    var h := g * g * g;
    assert b == h * a;
    MulSwap(h, a, h, a);
    assert n == a * (h * (g * (h)));
    assert (b * b) * g == n * a;
    assert (y * y) * g == (w * w) * (n * a);
    MulSwap(w * w, n * a, w * w, n * a);
    MulSwap(n, a, n, a);
  }

  // ---- Steps 18 to 36

  /** MulMod(MulMod(y, y), g) computes y^2*g; turning y by c3 negates it. */
  lemma SquareTimes(c: Params, y: int, g: int)
    requires Good(c)
    ensures MulMod(MulMod(y, y, c.p), g, c.p) == ((y * y) * g) % c.p
    ensures var z := MulMod(y, c.c3, c.p);
      0 <= z < c.p && ((z * z) * g) % c.p == (-((y * y) * g)) % c.p
  {
    var p := c.p;
    MulModIs(y, y, y, y, p);
    MulCong(MulMod(y, y, p), y * y, g, g, p);
    var z := MulMod(y, c.c3, p);
    MulModIs(y, y, c.c3, c.c3, p);
    MulCong(z, y * c.c3, z, y * c.c3, p);
    MulSwap(y, c.c3, y, c.c3);
    MulCong(y * y, y * y, c.c3 * c.c3, -1, p);
    MulCong(z * z, -(y * y), g, g, p);
    assert -(y * y) * g == -((y * y) * g);
  }

  lemma TurnedRoot(c: Params, y: int, n: int, g: int)
    requires Good(c) && 0 <= n < c.p && 0 <= y < c.p
    requires ((y * y) * g) % c.p == n % c.p || ((y * y) * g) % c.p == (-n) % c.p
    ensures var r := TurnIfNotRoot(c, y, n, g); 0 <= r < c.p && ((r * r) * g) % c.p == n % c.p
  {
    SquareTimes(c, y, g);
    SmallMod(n, c.p);
    if ((y * y) * g) % c.p != n % c.p {
      NegCong((y * y) * g, -n, c.p);
    }
  }

  /** If (y^2*g)^2 = -a^2 then neither y nor y turned by c3 is a root of a/g. */
  lemma NoRoot(c: Params, y: int, a: int, g: int)
    requires Good(c) && a % c.p != 0
    requires (((y * y) * g) * ((y * y) * g)) % c.p == (-(a * a)) % c.p
    ensures ((y * y) * g) % c.p != a % c.p && (-((y * y) * g)) % c.p != a % c.p
  {
    var p := c.p;
    var s := (y * y) * g;
    if s % p == a % p || (-s) % p == a % p {
      if s % p == a % p {
        MulCong(s, a, s, a, p);
      } else {
        MulCong(-s, a, -s, a, p);
        assert -s * -s == s * s;
      }
      NotOwnNegative(a * a, p);
      NonzeroProduct(a, a, p);
    }
  }

  lemma NotOwnNegative(b: int, p: int)
    requires Prime(p) && p % 2 == 1
    ensures b % p == (-b) % p ==> b % p == 0
  {
    CongIffDiff(b, -b, p);
    if b % p == (-b) % p {
      assert b - -b == 2 * b;
      SmallMod(2, p);
      Euclid(2, b, p);
    }
  }

  /** If (y^2*g)^2 = -a^2 then y*u*c2 is a root of 2*u^2*a/g up to sign. */
  lemma SecondRoot(c: Params, y: int, a: int, g: int, u: int)
    requires Good(c)
    requires (((y * y) * g) * ((y * y) * g)) % c.p == (-(a * a)) % c.p
    ensures var z := (y * u) * c.c2; var n := a * (2 * (u * u));
      ((z * z) * g) % c.p == n % c.p || ((z * z) * g) % c.p == (-n) % c.p
  {
    var p, c3 := c.p, c.c3;
    var s := (y * y) * g;
    var q := c.c2 * c.c2;
    MulSwap(c3, a, c3, a);
    MulCong(c3 * c3, -1, a * a, a * a, p);
    assert -1 * (a * a) == -(a * a);
    RootsOfSameSquare(s, c3 * a, p);
    MulSwap(2, c3, 2, c3);
    MulCong(4, 4, c3 * c3, -1, p);
    RootsOfSameSquare(q, 2 * c3, p);
    var z := (y * u) * c.c2;
    assert (z * z) * g == (s * (u * u)) * q by { SecondRootProduct(y, u, c.c2, g); }
    var sign1 := if s % p == (c3 * a) % p then 1 else -1;
    var sign2 := if q % p == (2 * c3) % p then 1 else -1;
    MulCong(s, sign1 * (c3 * a), u * u, u * u, p);
    MulCong(s * (u * u), (sign1 * (c3 * a)) * (u * u), q, sign2 * (2 * c3), p);
    SignedProduct(sign1, sign2, c3, a, u * u);
    var n := a * (2 * (u * u));
    MulCong(c3 * c3, -1, (sign1 * sign2) * n, (sign1 * sign2) * n, p);
  }

  lemma SecondRootProduct(y: int, u: int, d: int, g: int)
    ensures var z := (y * u) * d; (z * z) * g == (((y * y) * g) * (u * u)) * (d * d)
  {
    var v := y * u;
    MulSwap(v, d, v, d);
    MulSwap(y, u, y, u);
    var a, b, e := y * y, u * u, d * d;
    assert ((a * b) * e) * g == ((a * g) * b) * e;
  }

  lemma SignedProduct(s1: int, s2: int, c3: int, a: int, v: int)
    ensures ((s1 * (c3 * a)) * v) * (s2 * (2 * c3)) == (c3 * c3) * ((s1 * s2) * (a * (2 * v)))
  {
    var b := a * v;
    assert (s1 * (c3 * a)) * v == (s1 * c3) * b;
    assert ((s1 * c3) * b) * (s2 * (2 * c3)) == ((s1 * c3) * (s2 * c3)) * (2 * b);
    MulSwap(s1, c3, s2, c3);
    assert a * (2 * v) == 2 * b;
  }

  /** The first candidate is taken exactly when a/g is a square, and the chosen y is then a root
      of a/g; otherwise it is a root of tv1*a/g. */
  lemma SelectMeaning(c: Params, u: int, f: Fraction, y: int, e: int)
    requires Good(c) && 0 <= y < c.p && 0 <= f.gx1 < c.p && f.tv1 % c.p == (2 * (u * u)) % c.p
    requires var s := (y * y) * f.gxd; (s * s) % c.p == (e * (f.gx1 * f.gx1)) % c.p
    requires f.gx1 % c.p == 0 || e % c.p == 1 || e % c.p == (-1) % c.p
    ensures var ch := Select(c, u, f, y);
      && (ch.first <==> f.gx1 % c.p == 0 || e % c.p == 1)
      && 0 <= ch.y < c.p
      && ((ch.y * ch.y) * f.gxd) % c.p == (if ch.first then f.gx1 else f.gx1 * f.tv1) % c.p
      && ch.xn == if ch.first then -c.j else MulMod(-c.j, f.tv1, c.p)
  {
    var p, a, g := c.p, f.gx1, f.gxd;
    var s := (y * y) * g;
    var y1 := TurnIfNotRoot(c, y, a, g);
    SquareTimes(c, y1, g);
    SmallMod(a, p);
    if a % p == 0 || e % p == 1 {
      FirstRoot(s, a, e, p);
      TurnedRoot(c, y, a, g);
    } else {
      SmallMod(1, p);
      MulCong(e, -1, a * a, a * a, p);
      assert -1 * (a * a) == -(a * a);
      NoRoot(c, y, a, g);
      SquareTimes(c, y, g);
      var y21 := MulMod(MulMod(y, u, p), c.c2, p);
      MulModIs(y, y, u, u, p);
      MulModIs(MulMod(y, u, p), y * u, c.c2, c.c2, p);
      var z := (y * u) * c.c2;
      MulCong(y21, z, y21, z, p);
      MulCong(y21 * y21, z * z, g, g, p);
      SecondRoot(c, y, a, g, u);
      var n := MulMod(a, f.tv1, p);
      MulModIs(a, a, f.tv1, 2 * (u * u), p);
      NegCong(n, a * (2 * (u * u)), p);
      TurnedRoot(c, y21, n, g);
      MulCong(a, a, f.tv1, 2 * (u * u), p);
    }
  }

  lemma FirstRoot(s: int, a: int, e: int, p: int)
    requires Prime(p) && (s * s) % p == (e * (a * a)) % p && (a % p == 0 || e % p == 1)
    ensures s % p == a % p || s % p == (-a) % p
  {
    SmallMod(1, p);
    if a % p == 0 {
      MulCong(a, 0, a, 0, p);
      MulCong(e, e, a * a, 0, p);
      Euclid(s, s, p);
    } else {
      MulCong(e, 1, a * a, a * a, p);
      RootsOfSameSquare(s, a, p);
    }
  }

  // ---- Membership of the curve

  /** The cubic with numerator and denominator kept apart. */
  function Homogeneous(j: int, n: int, d: int): int {
    n * n * n + j * (n * n) * d + n * (d * d)
  }

  lemma HomogeneousCong(j: int, n: int, n': int, d: int, d': int, p: int)
    requires p > 0 && n % p == n' % p && d % p == d' % p
    ensures Homogeneous(j, n, d) % p == Homogeneous(j, n', d') % p
  {
    MulCong(n, n', n, n', p);
    MulCong(n * n, n' * n', n, n', p);
    MulCong(j, j, n * n, n' * n', p);
    MulCong(j * (n * n), j * (n' * n'), d, d', p);
    MulCong(d, d', d, d', p);
    MulCong(n, n', d * d, d' * d', p);
    AddCong(n * n * n, n' * n' * n', j * (n * n) * d, j * (n' * n') * d', p);
    AddCong(n * n * n + j * (n * n) * d, n' * n' * n' + j * (n' * n') * d', n * (d * d), n' * (d' * d'), p);
  }

  lemma CubicOfQuotient(j: int, x: int, d: int)
    ensures Cubic(j, x) * (d * d * d) == Homogeneous(j, x * d, d)
  {
    var n := x * d;
    assert n * n * n == (x * x * x) * (d * d * d) by { MulSwap(x, d, x, d); MulSwap(x * x, d * d, x, d); }
    assert j * (n * n) * d == (j * (x * x)) * (d * d * d) by { MulSwap(x, d, x, d); }
    assert n * (d * d) == x * (d * d * d);
  }

  /** From y^2*d^3 = Homogeneous(x*d, d) with d nonzero, (x, y) is on the curve. */
  lemma QuotientOnCurve(c: Params, x: int, y: int, n: int, d: int, g: int)
    requires Prime(c.p) && d % c.p != 0 && (x * d) % c.p == n % c.p
    requires g % c.p == (d * d * d) % c.p
    requires ((y * y) * g) % c.p == Homogeneous(c.j, n, d) % c.p
    ensures OnCurve(c, Point(x, y))
  {
    var p := c.p;
    HomogeneousCong(c.j, x * d, n, d, d, p);
    CubicOfQuotient(c.j, x, d);
    MulCong(y * y, y * y, g, d * d * d, p);
    NonzeroProduct(d, d, p);
    NonzeroProduct(d * d, d, p);
    Cancel(y * y, Cubic(c.j, x), d * d * d, p);
  }

  lemma FirstNumerator(j: int, t: int)
    ensures Homogeneous(j, -j, t + 1) == (j * t * -j + (t + 1) * (t + 1)) * -j
  {
  }

  lemma SecondNumerator(j: int, t: int)
    ensures Homogeneous(j, -j * t, t + 1) == ((j * t * -j + (t + 1) * (t + 1)) * -j) * t
  {
    var n, d, k := -j * t, t + 1, j * j * j;
    var e := d * d;
    CubeOfProduct(j, t);
    assert Homogeneous(j, n, d) == -(k * (t * t * t)) + k * (t * t) * d + n * e;
    TimesSuccessor(k, t);
    TimesMinus(j, t, e);
    TimesDifference(k, j, t, e);
  }

  lemma TimesSuccessor(k: int, t: int)
    ensures k * (t * t) * (t + 1) == k * (t * t * t) + k * (t * t)
  {
  }

  lemma TimesMinus(j: int, t: int, e: int)
    ensures (j * t * -j + e) * -j == (j * j * j) * t - j * e
  {
  }

  lemma TimesDifference(k: int, j: int, t: int, e: int)
    ensures (k * t - j * e) * t == k * (t * t) + (-j * t) * e
  {
  }

  lemma CubeOfProduct(j: int, t: int)
    ensures (-j * t) * (-j * t) * (-j * t) == -((j * j * j) * (t * t * t))
    ensures j * ((-j * t) * (-j * t)) == (j * j * j) * (t * t)
  {
    MulSwap(-j, t, -j, t);
    MulSwap(-j * -j, t * t, -j, t);
  }

  // ---- The sign

  lemma FixSignMeaning(p: int, first: bool, y: int)
    requires 0 <= y < p && p % 2 == 1
    ensures var r := FixSign(p, first, y);
      && 0 <= r < p && (r == 0 || Sgn0(r) == first)
      && (r % p == y % p || r % p == (-y) % p) && (r * r) % p == (y * y) % p
  {
    if first != Sgn0(y) && y > 0 {
      SmallMod(p - y, p);
      OppositeParity(y, p);
      OtherRoot(y, p);
    }
  }

  lemma OtherRoot(y: int, p: int)
    requires p > 0
    ensures (p - y) % p == (-y) % p && ((p - y) * (p - y)) % p == (y * y) % p
  {
    ModAddMultiple(-y, 1, p);
    MulCong(p - y, -y, p - y, -y, p);
    assert -y * -y == y * y;
  }

  /** The sign rule makes the root unique. */
  lemma SignedRootUnique(p: int, first: bool, y: int, y': int)
    requires Prime(p) && p % 2 == 1 && 0 <= y < p && 0 <= y' < p
    requires (y * y) % p == (y' * y') % p
    ensures FixSign(p, first, y) == FixSign(p, first, y')
  {
    FixSignMeaning(p, first, y);
    FixSignMeaning(p, first, y');
    var r, r' := FixSign(p, first, y), FixSign(p, first, y');
    SameSignSameRoot(p, first, r, r');
  }

  lemma SameSignSameRoot(p: int, first: bool, r: int, r': int)
    requires Prime(p) && p % 2 == 1 && 0 <= r < p && 0 <= r' < p
    requires (r == 0 || Sgn0(r) == first) && (r' == 0 || Sgn0(r') == first)
    requires (r * r) % p == (r' * r') % p
    ensures r == r'
  {
    RootsOfSameSquare(r, r', p);
    SmallMod(r, p);
    SmallMod(r', p);
    NegativeResidue(r', p);
    OppositeParity(r', p);
  }

  lemma OppositeParity(r: int, p: int)
    requires p % 2 == 1
    ensures Sgn0(p - r) != Sgn0(r)
  {
  }

  lemma NegativeResidue(r: int, p: int)
    requires 0 <= r < p
    ensures (-r) % p == if r == 0 then 0 else p - r
  {
    if r > 0 { DivUnique(-r, -1, p - r, p); }
  }

  // ---- What the inversion-free map computes

  /** The Legendre symbol of gx1/gxd, as the exponentiation sees it. */
  function Symbol(c: Params, f: Fraction): int {
    Pow(f.gx1 * (f.gxd * f.gxd * f.gxd * (f.gxd * f.gxd * (f.gxd * f.gxd))), 4 * c.c4 + 2)
  }

  lemma DenominatorsNonzero(c: Params, u: int)
    requires Good(c)
    ensures Numerators(c, u).xd % c.p != 0 && Numerators(c, u).gxd % c.p != 0
  {
    NumeratorsMeaning(c, u);
    DenominatorNonzero(c, u);
    var f := Numerators(c, u);
    AddCong(f.tv1, 2 * (u * u), 1, 1, c.p);
    NonzeroProduct(f.xd, f.xd, c.p);
    NonzeroProduct(f.xd * f.xd, f.xd, c.p);
  }

  lemma SymbolValues(c: Params, f: Fraction)
    requires Good(c) && f.gxd % c.p != 0
    ensures f.gx1 % c.p == 0 || Symbol(c, f) % c.p == 1 || Symbol(c, f) % c.p == (-1) % c.p
  {
    var n := f.gx1 * (f.gxd * f.gxd * f.gxd * (f.gxd * f.gxd * (f.gxd * f.gxd)));
    EulerValues(n, 4 * c.c4 + 2, c.p);
    NonzeroProduct(f.gxd, f.gxd, c.p);
    NonzeroProduct(f.gxd * f.gxd, f.gxd, c.p);
    NonzeroProduct(f.gxd * f.gxd, f.gxd * f.gxd, c.p);
    NonzeroProduct(f.gxd * f.gxd * f.gxd, f.gxd * f.gxd * (f.gxd * f.gxd), c.p);
    NonzeroProduct(f.gx1, f.gxd * f.gxd * f.gxd * (f.gxd * f.gxd * (f.gxd * f.gxd)), c.p);
  }

  ghost function Chosen(c: Params, u: int): Choice
    requires c.p > 0
  {
    var f := Numerators(c, u);
    Select(c, u, f, CandidateRoot(c, f.gx1, f.gxd))
  }

  lemma ChosenMeaning(c: Params, u: int)
    requires Good(c)
    ensures var f, ch := Numerators(c, u), Chosen(c, u);
      && (ch.first <==> f.gx1 % c.p == 0 || Symbol(c, f) % c.p == 1)
      && 0 <= ch.y < c.p
      && ((ch.y * ch.y) * f.gxd) % c.p == Homogeneous(c.j, ch.xn, f.xd) % c.p
      && ch.xn == if ch.first then -c.j else MulMod(-c.j, f.tv1, c.p)
  {
    var p := c.p;
    var f := Numerators(c, u);
    NumeratorsMeaning(c, u);
    DenominatorsNonzero(c, u);
    SymbolValues(c, f);
    CandidateRootMeaning(c, f.gx1, f.gxd);
    SelectMeaning(c, u, f, CandidateRoot(c, f.gx1, f.gxd), Symbol(c, f));
    BothNumerators(c, f);
    MulModIs(-c.j, -c.j, f.tv1, f.tv1, p);
    HomogeneousCong(c.j, MulMod(-c.j, f.tv1, p), -c.j * f.tv1, f.xd, f.xd, p);
  }

  lemma BothNumerators(c: Params, f: Fraction)
    requires c.p > 0
    requires f.xd % c.p == (f.tv1 + 1) % c.p
    requires f.gx1 % c.p == ((c.j * f.tv1 * -c.j + f.xd * f.xd) * -c.j) % c.p
    ensures f.gx1 % c.p == Homogeneous(c.j, -c.j, f.xd) % c.p
    ensures (f.gx1 * f.tv1) % c.p == Homogeneous(c.j, -c.j * f.tv1, f.xd) % c.p
  {
    var p, j, t := c.p, c.j, f.tv1;
    MulCong(f.xd, t + 1, f.xd, t + 1, p);
    AddCong(j * t * -j, j * t * -j, f.xd * f.xd, (t + 1) * (t + 1), p);
    MulCong(j * t * -j + f.xd * f.xd, j * t * -j + (t + 1) * (t + 1), -j, -j, p);
    FirstNumerator(j, t);
    SecondNumerator(j, t);
    HomogeneousCong(j, -j, -j, f.xd, t + 1, p);
    HomogeneousCong(j, -j * t, -j * t, f.xd, t + 1, p);
    MulCong(f.gx1, Homogeneous(j, -j, t + 1), t, t, p);
  }

  /** Every field element is mapped to a point of the curve; the inversion never fails. */
  lemma MapToCurveG2OnCurve(c: Params, u: int)
    requires Good(c)
    ensures var r := MapToCurveG2(c, u);
      && r.Some? && 0 <= r.value.x < c.p && 0 <= r.value.y < c.p && OnCurve(c, r.value)
      && (r.value.x * Numerators(c, u).xd) % c.p == Chosen(c, u).xn % c.p
      && (r.value.y == 0 || (r.value.y % 2 == 1 <==> Chosen(c, u).first))
  {
    var p := c.p;
    var f, ch := Numerators(c, u), Chosen(c, u);
    NumeratorsMeaning(c, u);
    DenominatorsNonzero(c, u);
    ChosenMeaning(c, u);
    var xd1 := InvertMod(f.xd, p).value;
    InvertModIsInverse(f.xd, xd1, p);
    var x, y := MulMod(ch.xn, xd1, p), FixSign(p, ch.first, ch.y);
    TimesInverse(ch.xn, f.xd, xd1, p);
    FixSignMeaning(p, ch.first, ch.y);
    MulCong(y * y, ch.y * ch.y, f.gxd, f.gxd, p);
    QuotientOnCurve(c, x, y, ch.xn, f.xd, f.gxd);
  }

  lemma TimesInverse(n: int, d: int, i: int, p: int)
    requires p > 1 && (d * i) % p == 1
    ensures (MulMod(n, i, p) * d) % p == n % p && 0 <= MulMod(n, i, p) < p
  {
    MulModIs(n, n, i, i, p);
    MulCong(MulMod(n, i, p), n * i, d, d, p);
    assert (n * i) * d == n * (d * i);
    SmallMod(1, p);
    MulCong(n, n, d * i, 1, p);
  }
}
