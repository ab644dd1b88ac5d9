/** When two field elements map to points with the same abscissa, so that the hash cannot add the points. */
module Abscissas {
  import opened Common
  import opened ModArith
  import opened PrimeField
  import opened Elligator2
  import opened ElligatorTextbook

  /** What the two candidates for an element satisfy, for t = 2*u^2 and d = t + 1. */
  ghost predicate Candidates(j: int, t: int, d: int, a: Affine, p: int)
    requires p > 0
  {
    && 0 <= a.x1 < p && 0 <= a.x2 < p && d % p != 0 && d % p == (t + 1) % p
    && (a.x1 * d) % p == (-j) % p
    && (a.x2 * d) % p == (-j * t) % p
    && a.gx1 % p == Cubic(j, a.x1) % p
    && a.gx2 % p == (a.gx1 * t) % p
  }

  /** The abscissa is the candidate that the quadratic character selects. */
  lemma MappedAbscissa(c: Params, u: int) returns (a: Affine, f: Fraction)
    requires Good(c)
    ensures MapToCurveG2(c, u).Some?
    ensures MapToCurveG2(c, u).value.x == if IsSquare(a.gx1, c.p) then a.x1 else a.x2
    ensures f.tv1 % c.p == (2 * (u * u)) % c.p && Candidates(c.j, f.tv1, f.xd, a, c.p)
  {
    NumeratorsMeaning(c, u);
    MapToCurveG2OnCurve(c, u);
    MapsAgree(c, u);
    f := Numerators(c, u);
    DenominatorsNonzero(c, u);
    var inv := InvertMod(f.xd, c.p).value;
    a := AffineOf(c, u, inv);
    AffineMeaning(c, u, inv);
  }

  // ---- Both first, both second, or one of each

  lemma SameFirst(x: int, j: int, d: int, d': int, p: int)
    requires Prime(p) && j % p != 0 && (x * d) % p == (-j) % p && (x * d') % p == (-j) % p
    ensures d % p == d' % p
  {
    NegativeNonzero(j, p);
    NonzeroProduct(x, d, p);
    assert x * d == d * x && x * d' == d' * x;
    Cancel(d, d', x, p);
  }

  lemma NegativeNonzero(j: int, p: int)
    requires p > 0 && j % p != 0
    ensures (-j) % p != 0
  {
    if (-j) % p == 0 { NegCong(-j, 0, p); }
  }

  /** The candidates of one element add up to -J. */
  lemma OtherCandidate(x: int, j: int, t: int, d: int, p: int)
    requires p > 0 && d % p == (t + 1) % p && (x * d) % p == (-j * t) % p
    ensures ((-x - j) * d) % p == (-j) % p
  {
    MulCong(-j, -j, d, t + 1, p);
    AddCong(-j * d, -j * (t + 1), x * d, -j * t, p);
    assert -j * (t + 1) - -j * t == -j;
    assert (-x - j) * d == -j * d - x * d;
  }

  lemma SameSecond(x: int, j: int, t: int, d: int, t': int, d': int, p: int)
    requires Prime(p) && j % p != 0 && d % p == (t + 1) % p && d' % p == (t' + 1) % p
    requires (x * d) % p == (-j * t) % p && (x * d') % p == (-j * t') % p
    ensures d % p == d' % p
  {
    OtherCandidate(x, j, t, d, p);
    OtherCandidate(x, j, t', d', p);
    SameFirst(-x - j, j, d, d', p);
  }

  lemma FirstAndSecond(x: int, j: int, t: int, d: int, t': int, d': int, p: int)
    requires Prime(p) && j % p != 0 && d % p == (t + 1) % p && d' % p == (t' + 1) % p
    requires (x * d) % p == (-j) % p && (x * d') % p == (-j * t') % p
    ensures (t * t') % p == 1
  {
    OtherCandidate(x, j, t', d', p);
    var y := -x - j;
    TimesTail(x, -j, t, d, p);
    TimesTail(y, -j, t', d', p);
    NegativeNonzero(j, p);
    NonzeroProduct(x, d, p);
    BackToStart(x, y, t, t', p);
  }

  lemma BackToStart(x: int, y: int, t: int, t': int, p: int)
    requires Prime(p) && x % p != 0 && (x * t) % p == y % p && (y * t') % p == x % p
    ensures (t * t') % p == 1
  {
    MulCong(x * t, y, t', t', p);
    Regroup(x, t, t');
    assert x == 1 * x;
    Cancel(t * t', 1, x, p);
    SmallMod(1, p);
  }

  lemma Regroup(x: int, t: int, t': int)
    ensures (x * t) * t' == (t * t') * x
  {
  }

  lemma TimesTail(x: int, n: int, t: int, d: int, p: int)
    requires p > 0 && d % p == (t + 1) % p && (x * d) % p == n % p
    ensures (x * t) % p == (n - x) % p
  {
    MulCong(x, x, d, t + 1, p);
    assert x * (t + 1) == x * t + x;
    AddCong(x * (t + 1), n, x, x, p);
  }

  // ---- Elements whose candidates swap

  lemma SwappedAbscissa(x: int, x': int, j: int, t: int, d: int, t': int, d': int, p: int)
    requires Prime(p) && (t * t') % p == 1 && d % p == (t + 1) % p && d' % p == (t' + 1) % p && d % p != 0
    requires (x * d) % p == (-j * t) % p && (x' * d') % p == (-j) % p && 0 <= x < p && 0 <= x' < p
    ensures x == x'
  {
    DenominatorTimes(t, d, t', d', p);
    MulCong(x', x', d' * t, d, p);
    assert x' * (d' * t) == (x' * d') * t;
    MulCong(x' * d', -j, t, t, p);
    SameQuotient(x, x', d, p);
  }

  lemma DenominatorTimes(t: int, d: int, t': int, d': int, p: int)
    requires p > 1 && (t * t') % p == 1 && d % p == (t + 1) % p && d' % p == (t' + 1) % p
    ensures (d' * t) % p == d % p
  {
    SmallMod(1, p);
    MulCong(d', t' + 1, t, t, p);
    assert (t' + 1) * t == t * t' + t;
    AddCong(t * t', 1, t, t, p);
  }

  /** The second candidate satisfies the curve equation with gx2. */
  lemma SecondOrdinate(j: int, t: int, d: int, a: Affine, p: int)
    requires Prime(p) && Candidates(j, t, d, a, p)
    ensures a.gx2 % p == Cubic(j, a.x2) % p
  {
    hide Cubic, Homogeneous;
    var e, h := d * d * d, Homogeneous(j, -j, t + 1);
    CubicTimes(j, a.x1, -j, t, d, p);
    CubicTimes(j, a.x2, -j * t, t, d, p);
    FirstNumerator(j, t);
    SecondNumerator(j, t);
    MulCong(a.gx1, Cubic(j, a.x1), e, e, p);
    ElligatorTextbook.ScaledProduct(a.gx1, a.gx2, t, e, h, p);
    NonzeroProduct(d, d, p);
    NonzeroProduct(d * d, d, p);
    Cancel(a.gx2, Cubic(j, a.x2), e, p);
  }

  lemma CubicTimes(j: int, x: int, n: int, t: int, d: int, p: int)
    requires p > 0 && (x * d) % p == n % p && d % p == (t + 1) % p
    ensures (Cubic(j, x) * (d * d * d)) % p == Homogeneous(j, n, t + 1) % p
  {
    CubicOfQuotient(j, x, d);
    HomogeneousCong(j, x * d, n, d, t + 1, p);
  }

  lemma ZeroOrdinate(j: int, t: int, d: int, a: Affine, p: int)
    requires Prime(p) && j % p != 0 && Candidates(j, t, d, a, p) && a.gx1 % p == 0
    ensures ((t + 1) * (t + 1)) % p == ((j * j) * t) % p
  {
    hide Cubic, Homogeneous;
    var e, n := d * d * d, j * t * -j + (t + 1) * (t + 1);
    CubicTimes(j, a.x1, -j, t, d, p);
    FirstNumerator(j, t);
    MulCong(a.gx1, Cubic(j, a.x1), e, e, p);
    NonzeroProduct(a.gx1, e, p);
    NegativeNonzero(j, p);
    NonzeroProduct(n, -j, p);
    MinusProduct(j, t);
    CongIffDiff((t + 1) * (t + 1), (j * j) * t, p);
  }

  lemma MinusProduct(j: int, t: int)
    ensures j * t * -j == -((j * j) * t)
  {
  }

  /** The ordinate squared is not zero: 2 would be a square. */
  lemma OrdinateNonzero(c: Params, u: int, t: int, d: int, a: Affine)
    requires Good(c) && c.j % c.p != 0 && t % c.p == (2 * (u * u)) % c.p && Candidates(c.j, t, d, a, c.p)
    ensures a.gx1 % c.p != 0
  {
    var p, j := c.p, c.j;
    if a.gx1 % p == 0 {
      ZeroOrdinate(j, t, d, a, p);
      MulCong(j * j, j * j, t, 2 * (u * u), p);
      TwiceSquare(j, u);
      TwiceSquareIsNoSquare(c, j * u, t + 1);
    }
  }

  lemma TwiceSquare(j: int, u: int)
    ensures (j * j) * (2 * (u * u)) == 2 * ((j * u) * (j * u))
  {
    MulSwap(j, u, j, u);
  }

  lemma TwiceSquareIsNoSquare(c: Params, v: int, w: int)
    requires Good(c) && w % c.p != 0
    ensures (w * w) % c.p != (2 * (v * v)) % c.p
  {
    var p, h := c.p, 4 * c.c4 + 2;
    if (w * w) % p == (2 * (v * v)) % p {
      NonzeroProduct(w, w, p);
      NonzeroProduct(2, v * v, p);
      NonzeroProduct(v, v, p);
      SymbolOfSquare(w, h, p);
      SymbolOfTwiceSquare(c, v);
      PowCong(w * w, 2 * (v * v), h, p);
      MinusOneIsNot(p);
    }
  }

  lemma SymbolFlips(c: Params, u: int, t: int, g: int, g': int)
    requires Good(c) && u % c.p != 0 && t % c.p == (2 * (u * u)) % c.p && g' % c.p == (g * t) % c.p
    ensures Pow(g', 4 * c.c4 + 2) % c.p == (-Pow(g, 4 * c.c4 + 2)) % c.p
  {
    var p, h := c.p, 4 * c.c4 + 2;
    SymbolOfTwiceSquare(c, u);
    MulCong(g, g, t, 2 * (u * u), p);
    PowCong(g', g * (2 * (u * u)), h, p);
    PowOfProduct(g, 2 * (u * u), h);
    MulCong(Pow(g, h), Pow(g, h), Pow(2 * (u * u), h), -1, p);
    assert Pow(g, h) * -1 == -Pow(g, h);
  }

  lemma OppositeCharacters(g: int, g': int, h: nat, p: int)
    requires Prime(p) && p == 2 * h + 1 && h > 0 && g % p != 0 && g' % p != 0
    requires Pow(g', h) % p == (-Pow(g, h)) % p
    ensures IsSquare(g', p) <==> !IsSquare(g, p)
  {
    hide Pow, IsSquare;
    IsSquareMeaning(g, p, h);
    IsSquareMeaning(g', p, h);
    EulerValues(g, h, p);
    FlippedOne(Pow(g, h), Pow(g', h), p);
  }

  /** Of the two, one takes its first candidate and the other its second. */
  lemma OppositeChoices(c: Params, u: int, t: int, g: int, g': int)
    requires Good(c) && u % c.p != 0 && t % c.p == (2 * (u * u)) % c.p
    requires g % c.p != 0 && g' % c.p == (g * t) % c.p
    ensures IsSquare(g', c.p) <==> !IsSquare(g, c.p)
  {
    hide Pow, IsSquare, Good;
    var h := GoodExponent(c);
    SymbolFlips(c, u, t, g, g');
    TwiceSquareNonzero(c, u);
    NonzeroProduct(g, t, c.p);
    OppositeCharacters(g, g', h, c.p);
  }

  lemma FlippedOne(x: int, x': int, p: int)
    requires p > 2 && x' % p == (-x) % p && (x % p == 1 || x % p == (-1) % p)
    ensures x' % p == 1 <==> x % p != 1
  {
    SmallMod(1, p);
    MinusOneIsNot(p);
    if x % p == 1 { NegCong(x, 1, p); } else { NegCong(x, -1, p); }
  }

  lemma GoodExponent(c: Params) returns (h: nat)
    requires Good(c)
    ensures Prime(c.p) && c.p > 2 && h == 4 * c.c4 + 2 && c.p == 2 * h + 1
  {
    h := 4 * c.c4 + 2;
  }

  lemma TwiceSquareNonzero(c: Params, u: int)
    requires Good(c) && u % c.p != 0
    ensures (2 * (u * u)) % c.p != 0
  {
    SmallMod(2, c.p);
    NonzeroProduct(u, u, c.p);
    NonzeroProduct(2, u * u, c.p);
  }

  // ---- The condition on the elements

  lemma Reciprocal(u: int, u': int, t: int, t': int, p: int)
    requires p > 0 && t % p == (2 * (u * u)) % p && t' % p == (2 * (u' * u')) % p
    ensures (t * t') % p == (4 * (u * u) * (u' * u')) % p
  {
    MulCong(t, 2 * (u * u), t', 2 * (u' * u'), p);
    assert (2 * (u * u)) * (2 * (u' * u')) == 4 * (u * u) * (u' * u');
  }

  lemma SameSquares(u: int, u': int, t: int, d: int, t': int, d': int, p: int)
    requires Prime(p) && p > 2 && t % p == (2 * (u * u)) % p && t' % p == (2 * (u' * u')) % p
    requires d % p == (t + 1) % p && d' % p == (t' + 1) % p && d % p == d' % p
    ensures (u * u) % p == (u' * u') % p
  {
    AddCong(d, t + 1, 1, 1, p);
    AddCong(d', t' + 1, 1, 1, p);
    AddCong(d, d', 1, 1, p);
    SmallMod(2, p);
    assert 2 * (u * u) == (u * u) * 2 && 2 * (u' * u') == (u' * u') * 2;
    Cancel(u * u, u' * u', 2, p);
  }

  /** The elements have the same square or, up to sign, u' = 1/(2*u). */
  ghost predicate Paired(u: int, u': int, p: int)
    requires p > 0
  {
    (u * u) % p == (u' * u') % p || (4 * (u * u) * (u' * u')) % p == 1
  }

  lemma CoincideOnlyPaired(j: int, p: int, u: int, u': int, t: int, d: int, t': int, d': int, a: Affine, a': Affine,
    first: bool, first': bool)
    requires Prime(p) && p > 2 && j % p != 0
    requires t % p == (2 * (u * u)) % p && t' % p == (2 * (u' * u')) % p
    requires Candidates(j, t, d, a, p) && Candidates(j, t', d', a', p)
    requires (if first then a.x1 else a.x2) == if first' then a'.x1 else a'.x2
    ensures Paired(u, u', p)
  {
    hide Cubic;
    Reciprocal(u, u', t, t', p);
    if first && first' {
      SameFirst(a.x1, j, d, d', p);
      SameSquares(u, u', t, d, t', d', p);
    } else if !first && !first' {
      SameSecond(a.x2, j, t, d, t', d', p);
      SameSquares(u, u', t, d, t', d', p);
    } else if first {
      FirstAndSecond(a.x1, j, t, d, t', d', p);
    } else {
      FirstAndSecond(a'.x1, j, t', d', t, d, p);
      assert t * t' == t' * t;
    }
  }

  /** The candidates of u' = 1/(2*u) are those of u in the other order, and the other one is selected. */
  lemma ReciprocalsCoincide(c: Params, u: int, u': int, t: int, d: int, t': int, d': int, a: Affine, a': Affine)
    requires Good(c) && c.j % c.p != 0
    requires t % c.p == (2 * (u * u)) % c.p && t' % c.p == (2 * (u' * u')) % c.p && (t * t') % c.p == 1
    requires Candidates(c.j, t, d, a, c.p) && Candidates(c.j, t', d', a', c.p)
    ensures (if IsSquare(a.gx1, c.p) then a.x1 else a.x2) == if IsSquare(a'.gx1, c.p) then a'.x1 else a'.x2
  {
    hide Cubic, IsSquare, Good;
    var p, j := c.p, c.j;
    var h := GoodExponent(c);
    assert t * t' == t' * t;
    SwappedAbscissa(a.x2, a'.x1, j, t, d, t', d', p);
    SwappedAbscissa(a'.x2, a.x1, j, t', d', t, d, p);
    SecondOrdinate(j, t, d, a, p);
    OrdinateNonzero(c, u, t, d, a);
    NonzeroProduct(t, t', p);
    if u % p == 0 {
      MulCong(u, 0, u, u, p);
      MulCong(2, 2, u * u, 0, p);
    }
    OppositeChoices(c, u, t, a.gx1, a'.gx1);
  }

  /** The mapped abscissas coincide if and only if J is zero, the elements are equal or opposite, or one is
      1/(2*u) or -1/(2*u) for the other. */
  lemma AbscissasCoincide(c: Params, u: int, u': int)
    requires Good(c)
    ensures MapToCurveG2(c, u).Some? && MapToCurveG2(c, u').Some?
    ensures MapToCurveG2(c, u).value.x == MapToCurveG2(c, u').value.x <==> c.j % c.p == 0 || Paired(u, u', c.p)
  {
    hide Cubic, IsSquare, Good, MapToCurveG2, MapToCurveElligator2;
    var p, j := c.p, c.j;
    var h := GoodExponent(c);
    var a, f := MappedAbscissa(c, u);
    var a', f' := MappedAbscissa(c, u');
    Reciprocal(u, u', f.tv1, f'.tv1, p);
    if j % p == 0 {
      ZeroAbscissa(j, f.tv1, f.xd, a, p);
      ZeroAbscissa(j, f'.tv1, f'.xd, a', p);
    } else if MapToCurveG2(c, u).value.x == MapToCurveG2(c, u').value.x {
      CoincideOnlyPaired(j, p, u, u', f.tv1, f.xd, f'.tv1, f'.xd, a, a', IsSquare(a.gx1, p), IsSquare(a'.gx1, p));
    } else if (4 * (u * u) * (u' * u')) % p == 1 {
      ReciprocalsCoincide(c, u, u', f.tv1, f.xd, f'.tv1, f'.xd, a, a');
    } else if (u * u) % p == (u' * u') % p {
      MapsAgree(c, u);
      MapsAgree(c, u');
      SquareDecides(c, u, u');
    }
  }

  lemma ZeroAbscissa(j: int, t: int, d: int, a: Affine, p: int)
    requires Prime(p) && j % p == 0 && Candidates(j, t, d, a, p)
    ensures a.x1 == 0 && a.x2 == 0
  {
    NegCong(j, 0, p);
    MulCong(-j, 0, t, t, p);
    NonzeroProduct(a.x1, d, p);
    NonzeroProduct(a.x2, d, p);
    SmallMod(a.x1, p);
    SmallMod(a.x2, p);
  }

  lemma SquareDecides(c: Params, u: int, u': int)
    requires c.p > 2 && (u * u) % c.p == (u' * u') % c.p
    ensures MapToCurveElligator2(c, u) == MapToCurveElligator2(c, u')
  {
    assert MulMod(u, u, c.p) == MulMod(u', u', c.p);
  }
}
