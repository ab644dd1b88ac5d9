/** The inversion-free map computes exactly the textbook map. */
module ElligatorTextbook {
  import opened Common
  import opened ModArith
  import opened PrimeField
  import opened Elligator2

  // ---- Quadratic characters

  lemma HalfExponent(p: int, h: nat)
    requires Prime(p) && p == 2 * h + 1
    ensures InvertMod(2, p).Some? && MulMod(SubMod(p, 1, p), InvertMod(2, p).value, p) == h
  {
    SmallMod(2, p);
    SmallMod(p - 1, p);
    var i := InvertMod(2, p).value;
    InvertModIsInverse(2, i, p);
    InverseOfTwo(h, i, p);
    DivUnique((p - 1) * (h + 1), h, h, p);
  }

  lemma InverseOfTwo(h: nat, i: int, p: int)
    requires Prime(p) && p == 2 * h + 1 && 0 <= i < p && (2 * i) % p == 1
    ensures i == h + 1
    ensures (p - 1) * (h + 1) == p * h + h
  {
    assert (p - 1) * (h + 1) == 2 * h * (h + 1) == (2 * h + 1) * h + h;
    ModAddMultiple(1, 1, p);
    SmallMod(1, p);
    assert 2 * (h + 1) == 1 + p * 1;
    SmallMod(2, p);
    assert 2 * i == i * 2 && 2 * (h + 1) == (h + 1) * 2;
    Cancel(i, h + 1, 2, p);
    SmallMod(i, p);
    SmallMod(h + 1, p);
  }

  lemma IsSquareMeaning(v: int, p: int, h: nat)
    requires Prime(p) && p == 2 * h + 1 && h > 0
    ensures IsSquare(v, p) <==> v % p == 0 || Pow(v, h) % p == 1
  {
    HalfExponent(p, h);
    EulerValues(v, h, p);
    MinusOneIsNot(p);
  }

  /** 2 is not a square when p is 5 modulo 8. */
  lemma TwoNotSquare(c: Params)
    requires Good(c)
    ensures Pow(2, 4 * c.c4 + 2) % c.p == (-1) % c.p
  {
    var p, k := c.p, c.c4;
    var d := c.c2;
    var q := (d * d) * (d * d);
    FourPositive(p);
    NonzeroProduct(d * d, d * d, p);
    NonzeroProduct(d, d, p);
    Fermat(d, p);
    Pow4(d);
    assert p - 1 == 4 * (2 * k + 1);
    PowMul(d, 4, 2 * k + 1);
    PowCong(q, -4, 2 * k + 1, p);
    PowOfProduct(-1, 4, 2 * k + 1);
    PowMinusOneOdd(k);
    var w := Pow(4, 2 * k + 1);
    assert Pow(-4, 2 * k + 1) == -w;
    assert Pow(2, 1) == 2;
    assert Pow(2, 2) == 4;
    PowMul(2, 2, 2 * k + 1);
    SmallMod(1, p);
    NegCong(-w, 1, p);
  }

  lemma FourPositive(p: int)
    requires Prime(p) && p % 8 == 5
    ensures (-4) % p != 0
  {
    DivUnique(-4, -1, p - 4, p);
  }

  /** Multiplying by 2*u^2 with u nonzero flips the quadratic character. */
  lemma SymbolOfTwiceSquare(c: Params, u: int)
    requires Good(c) && u % c.p != 0
    ensures Pow(2 * (u * u), 4 * c.c4 + 2) % c.p == (-1) % c.p
  {
    var p, h := c.p, 4 * c.c4 + 2;
    TwoNotSquare(c);
    PowOfProduct(2, u * u, h);
    SymbolOfSquare(u, h, p);
    SmallMod(1, p);
    MulCong(Pow(2, h), -1, Pow(u * u, h), 1, p);
  }

  lemma SymbolOfSquare(u: int, h: nat, p: int)
    requires Prime(p) && p == 2 * h + 1 && u % p != 0
    ensures Pow(u * u, h) % p == 1
  {
    PowOfProduct(u, u, h);
    PowAdd(u, h, h);
    Fermat(u, p);
  }

  lemma RootToTheFourth(v: int, t: int, k: nat, p: int)
    requires p > 1 && t % p == Pow(v, k + 1) % p && (v == 0 || Pow(v, 4 * k + 2) % p == 1)
    ensures ((t * t) * (t * t)) % p == (v * v) % p
  {
    var w := Pow(v, k + 1);
    MulCong(t, w, t, w, p);
    MulCong(t * t, w * w, t * t, w * w, p);
    Pow4(w);
    PowMul(v, k + 1, 4);
    PowAdd(v, 4 * k + 2, 2);
    assert Pow(v, 1) == v;
    assert Pow(v, 2) == v * v;
    if v != 0 {
      SmallMod(1, p);
      MulCong(Pow(v, 4 * k + 2), 1, v * v, v * v, p);
    }
  }

  /** Curve25519Sqrt returns a root of every square. */
  lemma SqrtMeaning(c: Params, v: int)
    requires Good(c) && 0 <= v < c.p && (v == 0 || Pow(v, 4 * c.c4 + 2) % c.p == 1)
    ensures var y := Sqrt(c, v); 0 <= y < c.p && (y * y) % c.p == v % c.p
  {
    var p, k := c.p, c.c4;
    assert (p + 3) / 8 == k + 1;
    var t := PowMod(v, k + 1, p);
    ModIdem(Pow(v, k + 1), p);
    RootToTheFourth(v, t, k, p);
    RootsOfSameSquare(t * t, v, p);
    assert (t * t) * 1 == t * t;
    TurnedRoot(c, t, v, 1);
    MulModIs(t, t, t, t, p);
    SmallMod(MulMod(t, t, p), p);
    assert Sqrt(c, v) == TurnIfNotRoot(c, t, v, 1);
    var y := Sqrt(c, v);
    assert (y * y) * 1 == y * y;
  }

  // ---- The two maps side by side

  /** The values the textbook map computes before it chooses a candidate. */
  datatype Affine = Affine(x1: int, gx1: int, x2: int, gx2: int)

  ghost function AffineOf(c: Params, u: int, inv: int): Affine
    requires c.p > 0
  {
    var tv1 := MulMod(MulMod(u, u, c.p), 2, c.p);
    var x1 := MulMod(inv, -c.j, c.p);
    var gx1 := MulMod(AddMod(MulMod(AddMod(x1, c.j, c.p), x1, c.p), 1, c.p), x1, c.p);
    Affine(x1, gx1, AddMod(-x1, -c.j, c.p), MulMod(gx1, tv1, c.p))
  }

  lemma AffineMeaning(c: Params, u: int, inv: int)
    requires Good(c) && InvertMod(Numerators(c, u).xd, c.p) == Some(inv)
    ensures var f, a := Numerators(c, u), AffineOf(c, u, inv);
      && 0 <= a.x1 < c.p && 0 <= a.x2 < c.p && 0 <= a.gx1 < c.p && 0 <= a.gx2 < c.p
      && (a.x1 * f.xd) % c.p == (-c.j) % c.p
      && (a.x2 * f.xd) % c.p == (-c.j * f.tv1) % c.p
      && a.gx1 % c.p == Cubic(c.j, a.x1) % c.p
      && a.gx2 % c.p == (a.gx1 * f.tv1) % c.p
  {
    var p, j := c.p, c.j;
    var f, a := Numerators(c, u), AffineOf(c, u, inv);
    NumeratorsMeaning(c, u);
    InvertModIsInverse(f.xd, inv, p);
    assert MulMod(inv, -j, p) == MulMod(-j, inv, p) by { assert inv * -j == -j * inv; }
    TimesInverse(-j, f.xd, inv, p);
    HornerCubic(a.x1, j, p);
    AddModIs(-a.x1, -a.x1, -j, -j, p);
    MulModIs(a.gx1, a.gx1, f.tv1, f.tv1, p);
    SecondAbscissa(a.x1, a.x2, f.xd, f.tv1, j, p);
  }

  lemma HornerCubic(x: int, j: int, p: int)
    requires p > 0
    ensures var g := MulMod(AddMod(MulMod(AddMod(x, j, p), x, p), 1, p), x, p);
      0 <= g < p && g % p == Cubic(j, x) % p
  {
    var s1 := AddMod(x, j, p);
    AddModIs(x, x, j, j, p);
    var s2 := MulMod(s1, x, p);
    MulModIs(s1, x + j, x, x, p);
    var s3 := AddMod(s2, 1, p);
    AddModIs(s2, (x + j) * x, 1, 1, p);
    MulModIs(s3, (x + j) * x + 1, x, x, p);
    HornerIdentity(x, j);
  }

  lemma HornerIdentity(x: int, j: int)
    ensures ((x + j) * x + 1) * x == Cubic(j, x)
  {
    assert (x + j) * x == x * x + j * x;
    assert (x * x + j * x + 1) * x == (x * x) * x + (j * x) * x + x;
    assert (j * x) * x == j * (x * x);
  }

  lemma SecondAbscissa(x1: int, x2: int, d: int, t: int, j: int, p: int)
    requires p > 0 && x2 % p == (-x1 - j) % p && (x1 * d) % p == (-j) % p && d % p == (t + 1) % p
    ensures (x2 * d) % p == (-j * t) % p
  {
    MulCong(x2, -x1 - j, d, d, p);
    assert (-x1 - j) * d == -(x1 * d) - j * d;
    NegCong(x1 * d, -j, p);
    MulCong(j, j, d, t + 1, p);
    AddCong(-(x1 * d), j, j * d, j * (t + 1), p);
    assert j - j * (t + 1) == -j * t;
  }

  /** Both maps test the same quadratic character. */
  lemma SameCharacter(c: Params, f: Fraction, g1: int)
    requires Good(c) && f.gxd % c.p != 0 && (g1 * f.gxd) % c.p == f.gx1 % c.p
    ensures g1 % c.p == 0 <==> f.gx1 % c.p == 0
    ensures Symbol(c, f) % c.p == Pow(g1, 4 * c.c4 + 2) % c.p
  {
    var p, g, h := c.p, f.gxd, 4 * c.c4 + 2;
    NonzeroProduct(g1, g, p);
    var g4 := (g * g) * (g * g);
    var g7 := g * g * g * (g * g * (g * g));
    MulCong(f.gx1, g1 * g, g7, g7, p);
    assert (g1 * g) * g7 == g1 * (g4 * g4) by { EighthPower(g1, g); }
    PowCong(f.gx1 * g7, g1 * (g4 * g4), h, p);
    PowOfProduct(g1, g4 * g4, h);
    NonzeroProduct(g, g, p);
    NonzeroProduct(g * g, g * g, p);
    SymbolOfSquare(g4, h, p);
    SmallMod(1, p);
    MulCong(Pow(g1, h), Pow(g1, h), Pow(g4 * g4, h), 1, p);
  }

  lemma EighthPower(a: int, g: int)
    ensures (a * g) * (g * g * g * (g * g * (g * g))) == a * (((g * g) * (g * g)) * ((g * g) * (g * g)))
  {
    var g2 := g * g;
    assert (a * g) * (g2 * g * (g2 * g2)) == a * ((g2 * g2) * (g2 * g2)) by {
      assert (a * g) * (g2 * g) == a * (g2 * g2);
    }
  }

  /** When the first candidate is not a square, the second is. */
  lemma SecondIsSquare(c: Params, u: int, g1: int, g2: int)
    requires Good(c) && 0 <= g2 < c.p
    requires Pow(g1, 4 * c.c4 + 2) % c.p == (-1) % c.p
    requires g2 % c.p == (g1 * (2 * (u * u))) % c.p
    ensures g2 == 0 || Pow(g2, 4 * c.c4 + 2) % c.p == 1
  {
    var p, h, t := c.p, 4 * c.c4 + 2, 2 * (u * u);
    if u % p == 0 {
      MulCong(u, 0, u, 0, p);
      MulCong(2, 2, u * u, 0, p);
      MulCong(g1, g1, t, 0, p);
      SmallMod(g2, p);
    } else {
      SymbolOfTwiceSquare(c, u);
      PowCong(g2, g1 * t, h, p);
      PowOfProduct(g1, t, h);
      MulCong(Pow(g1, h), -1, Pow(t, h), -1, p);
      SmallMod(1, p);
    }
  }

  /** The root of the textbook map, on either candidate. */
  lemma TextbookRoot(c: Params, u: int, f: Fraction, a: Affine, first: bool)
    requires Good(c) && f.tv1 % c.p == (2 * (u * u)) % c.p
    requires 0 <= a.gx1 < c.p && 0 <= a.gx2 < c.p && a.gx2 % c.p == (a.gx1 * f.tv1) % c.p
    requires first == IsSquare(a.gx1, c.p)
    ensures var v := if first then a.gx1 else a.gx2; var y := Sqrt(c, v);
      0 <= y < c.p && (y * y) % c.p == v % c.p
  {
    var p, h := c.p, 4 * c.c4 + 2;
    IsSquareMeaning(a.gx1, p, h);
    EulerValues(a.gx1, h, p);
    SmallMod(a.gx1, p);
    if !first {
      MulCong(a.gx1, a.gx1, f.tv1, 2 * (u * u), p);
      SecondIsSquare(c, u, a.gx1, a.gx2);
    }
    SqrtMeaning(c, if first then a.gx1 else a.gx2);
  }

  /** The affine values times the common denominator are the numerators of the other map. */
  lemma AffineTimesDenominator(c: Params, u: int, inv: int)
    requires Good(c) && InvertMod(Numerators(c, u).xd, c.p) == Some(inv)
    ensures var f, a := Numerators(c, u), AffineOf(c, u, inv);
      && (a.gx1 * f.gxd) % c.p == f.gx1 % c.p
      && (a.gx2 * f.gxd) % c.p == (f.gx1 * f.tv1) % c.p
  {
    var p, j := c.p, c.j;
    var f, a := Numerators(c, u), AffineOf(c, u, inv);
    NumeratorsMeaning(c, u);
    AffineMeaning(c, u, inv);
    BothNumerators(c, f);
    CubicTimesDenominator(j, a.x1, f.xd, p);
    MulCong(a.gx1, Cubic(j, a.x1), f.gxd, f.xd * f.xd * f.xd, p);
    ScaledProduct(a.gx1, a.gx2, f.tv1, f.gxd, f.gx1, p);
  }

  lemma CubicTimesDenominator(j: int, x: int, d: int, p: int)
    requires p > 0 && (x * d) % p == (-j) % p
    ensures (Cubic(j, x) * (d * d * d)) % p == Homogeneous(j, -j, d) % p
  {
    CubicOfQuotient(j, x, d);
    HomogeneousCong(j, x * d, -j, d, d, p);
  }

  lemma ScaledProduct(a: int, b: int, t: int, g: int, n: int, p: int)
    requires p > 0 && b % p == (a * t) % p && (a * g) % p == n % p
    ensures (b * g) % p == (n * t) % p
  {
    MulCong(b, a * t, g, g, p);
    assert (a * t) * g == (a * g) * t;
    MulCong(a * g, n, t, t, p);
  }

  /** The inversion-free map equals the textbook map on every input. */
  lemma MapsAgree(c: Params, u: int)
    requires Good(c)
    ensures MapToCurveG2(c, u) == MapToCurveElligator2(c, u)
  {
    var p, j, h := c.p, c.j, 4 * c.c4 + 2;
    var f, ch := Numerators(c, u), Chosen(c, u);
    NumeratorsMeaning(c, u);
    DenominatorsNonzero(c, u);
    ChosenMeaning(c, u);
    MapToCurveG2OnCurve(c, u);
    BothNumerators(c, f);
    var inv := InvertMod(f.xd, p).value;
    var a := AffineOf(c, u, inv);
    AffineMeaning(c, u, inv);
    AffineTimesDenominator(c, u, inv);
    SameCharacter(c, f, a.gx1);
    IsSquareMeaning(a.gx1, p, h);
    assert ch.first == IsSquare(a.gx1, p);
    TextbookRoot(c, u, f, a, ch.first);
    var v := if ch.first then a.gx1 else a.gx2;
    SameRoot(c, ch.y, Sqrt(c, v), v, f.gxd, Homogeneous(j, ch.xn, f.xd), ch.first) by {
      MulModIs(-j, -j, f.tv1, f.tv1, p);
      HomogeneousCong(j, MulMod(-j, f.tv1, p), -j * f.tv1, f.xd, f.xd, p);
    }
    SameQuotient(MapToCurveG2(c, u).value.x, if ch.first then a.x1 else a.x2, f.xd, p) by {
      MulModIs(-j, -j, f.tv1, f.tv1, p);
    }
  }

  lemma SameRoot(c: Params, y: int, y': int, v: int, g: int, n: int, first: bool)
    requires Good(c) && 0 <= y < c.p && 0 <= y' < c.p && g % c.p != 0
    requires ((y * y) * g) % c.p == n % c.p && (v * g) % c.p == n % c.p && (y' * y') % c.p == v % c.p
    ensures FixSign(c.p, first, y) == FixSign(c.p, first, y')
  {
    Cancel(y * y, v, g, c.p);
    SignedRootUnique(c.p, first, y, y');
  }
}
