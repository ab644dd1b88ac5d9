/** The prime field: Euclid's lemma, Fermat's little theorem, inverses and square roots of one. */
module PrimeField {
  import opened Common
  import opened ModArith

  ghost predicate Prime(p: int) {
    p > 1 && forall d :: 1 < d < p ==> p % d != 0
  }

  // ---- Euclid's lemma

  lemma LeastAnnihilator(b: int, p: int) returns (m: int)
    requires p > 0
    ensures 0 < m <= p && (m * b) % p == 0
    ensures forall k :: 0 < k < m ==> (k * b) % p != 0
  {
    m := 1;
    ModAddMultiple(0, b, p);
    while (m * b) % p != 0
      invariant 0 < m <= p
      invariant forall k :: 0 < k < m ==> (k * b) % p != 0
      decreases p - m
    {
      m := m + 1;
    }
  }

  lemma AnnihilatorDivides(n: int, m: int, b: int, p: int)
    requires p > 0 && m > 0 && (m * b) % p == 0 && (n * b) % p == 0
    requires forall k :: 0 < k < m ==> (k * b) % p != 0
    ensures n % m == 0
  {
    var q, r := n / m, n % m;
    assert n == m * q + r;
    calc {
      r * b;
      (n - m * q) * b;
      n * b - q * (m * b);
    }
    MulCong(q, q, m * b, 0, p);
    AddCong(n * b, 0, q * (m * b), 0, p);
    assert (r * b) % p == 0;
  }

  lemma Euclid(a: int, b: int, p: int)
    requires Prime(p) && (a * b) % p == 0
    ensures a % p == 0 || b % p == 0
  {
    var m := LeastAnnihilator(b, p);
    ModAddMultiple(0, b, p);
    AnnihilatorDivides(p, m, b, p);
    AnnihilatorDivides(a, m, b, p);
    assert m == 1 || m == p;
  }

  /** Nonzero factors cancel. */
  lemma Cancel(a: int, b: int, c: int, p: int)
    requires Prime(p) && c % p != 0 && (a * c) % p == (b * c) % p
    ensures a % p == b % p
  {
    CongIffDiff(a * c, b * c, p);
    assert a * c - b * c == (a - b) * c;
    Euclid(a - b, c, p);
    CongIffDiff(a, b, p);
  }

  lemma NonzeroProduct(a: int, b: int, p: int)
    requires Prime(p)
    ensures (a * b) % p != 0 <==> a % p != 0 && b % p != 0
  {
    if (a * b) % p == 0 {
      Euclid(a, b, p);
    } else {
      if a % p == 0 { MulCong(a, 0, b, b, p); }
      if b % p == 0 { MulCong(a, a, b, 0, p); }
    }
  }

  // ---- Fermat's little theorem

  function Prod(s: seq<int>): int {
    if s == [] then 1 else Prod(s[..|s| - 1]) * s[|s| - 1]
  }

  function Fact(n: nat): int {
    if n == 0 then 1 else Fact(n - 1) * n
  }

  ghost predicate Distinct(s: seq<int>) {
    forall i, j :: 0 <= i < j < |s| ==> s[i] != s[j]
  }

  ghost predicate Within(s: seq<int>, m: int) {
    forall i :: 0 <= i < |s| ==> 1 <= s[i] <= m
  }

  function Without(s: seq<int>, j: nat): seq<int>
    requires j < |s|
  {
    s[..j] + s[j + 1..]
  }

  lemma {:induction false} ProdWithout(s: seq<int>, j: nat)
    requires j < |s|
    ensures Prod(s) == Prod(Without(s, j)) * s[j]
  {
    var n := |s| - 1;
    var t := s[..n];
    if j == n {
      assert Without(s, j) == t;
    } else {
      var w := Without(s, j);
      assert w[..|w| - 1] == Without(t, j);
      ProdWithout(t, j);
      var x, y, z := Prod(Without(t, j)), t[j], s[n];
      assert (x * y) * z == (x * z) * y;
    }
  }

  lemma {:induction false} Pigeonhole(s: seq<int>, m: nat)
    requires Distinct(s) && Within(s, m)
    ensures |s| <= m
  {
    assert |s| > 0 ==> 1 <= s[0] <= m;
    if m == 0 {
    } else if j :| 0 <= j < |s| && s[j] == m {
      assert Within(Without(s, j), m - 1);
      Pigeonhole(Without(s, j), m - 1);
    } else {
      Pigeonhole(s, m - 1);
    }
  }

  /** A rearrangement of 1..n has product n!. */
  lemma {:induction false} RearrangedProduct(s: seq<int>)
    requires Distinct(s) && Within(s, |s|)
    ensures Prod(s) == Fact(|s|)
  {
    if s != [] {
      if forall j :: 0 <= j < |s| ==> s[j] != |s| {
        Pigeonhole(s, |s| - 1);
      }
      var j :| 0 <= j < |s| && s[j] == |s|;
      RearrangedProduct(Without(s, j));
      ProdWithout(s, j);
    }
  }

  function Scaled(a: int, n: nat, p: int): seq<int>
    requires p > 0
  {
    seq(n, i => (a * (i + 1)) % p)
  }

  lemma {:induction false} ScaledProduct(a: int, n: nat, p: int)
    requires p > 0
    ensures Prod(Scaled(a, n, p)) % p == (Pow(a, n) * Fact(n)) % p
  {
    if n > 0 {
      ScaledProduct(a, n - 1, p);
      var s := Scaled(a, n, p);
      assert s[..n - 1] == Scaled(a, n - 1, p);
      ModIdem(a * n, p);
      var w, f := Pow(a, n - 1), Fact(n - 1);
      MulCong(Prod(s[..n - 1]), w * f, s[n - 1], a * n, p);
      MulSwap(w, f, a, n);
      assert w * a == Pow(a, n) && f * n == Fact(n);
    }
  }

  lemma ScaledDiffer(a: int, i: int, j: int, p: int)
    requires Prime(p) && a % p != 0 && 0 < i < j < p
    ensures (a * i) % p != (a * j) % p
  {
    if (a * i) % p == (a * j) % p {
      assert a * i == i * a && a * j == j * a;
      Cancel(i, j, a, p);
      SmallMod(i, p);
      SmallMod(j, p);
    }
  }

  lemma ScaledRearranges(a: int, p: int)
    requires Prime(p) && a % p != 0
    ensures Distinct(Scaled(a, p - 1, p)) && Within(Scaled(a, p - 1, p), p - 1)
  {
    var s := Scaled(a, p - 1, p);
    forall i | 0 <= i < |s| ensures 1 <= s[i] <= p - 1 {
      SmallMod(i + 1, p);
      NonzeroProduct(a, i + 1, p);
    }
    forall i, j | 0 <= i < j < |s| ensures s[i] != s[j] {
      ScaledDiffer(a, i + 1, j + 1, p);
    }
  }

  lemma {:induction false} FactNonzero(n: nat, p: int)
    requires Prime(p) && n < p
    ensures Fact(n) % p != 0
  {
    if n > 0 {
      FactNonzero(n - 1, p);
      SmallMod(n, p);
      NonzeroProduct(Fact(n - 1), n, p);
    }
  }

  lemma Fermat(a: int, p: int)
    requires Prime(p) && a % p != 0
    ensures Pow(a, p - 1) % p == 1
  {
    ScaledProduct(a, p - 1, p);
    ScaledRearranges(a, p);
    RearrangedProduct(Scaled(a, p - 1, p));
    FactNonzero(p - 1, p);
    var f := Fact(p - 1);
    assert 1 * f == f;
    Cancel(Pow(a, p - 1), 1, f, p);
    SmallMod(1, p);
  }

  // ---- Inverses

  /** The inverse of `a`; the library call fails when there is none. */
  function InvertMod(a: int, p: int): Option<int>
    requires p > 1
  {
    if a % p == 0 then None else Some(PowMod(a, p - 2, p))
  }

  lemma InvertModIsInverse(a: int, b: int, p: int)
    requires Prime(p)
    ensures InvertMod(a, p) == Some(b) <==> 0 <= b < p && (a * b) % p == 1
  {
    SmallMod(1, p);
    if a % p == 0 {
      MulCong(a, 0, b, b, p);
    } else {
      var i := PowMod(a, p - 2, p);
      Fermat(a, p);
      ModIdem(Pow(a, p - 2), p);
      MulCong(a, a, i, Pow(a, p - 2), p);
      assert (a * i) % p == 1;
      if 0 <= b < p && (a * b) % p == 1 {
        assert a * i == i * a && a * b == b * a;
        Cancel(b, i, a, p);
        SmallMod(b, p);
        SmallMod(i, p);
      }
    }
  }

  /** A quotient is determined by its numerator and denominator. */
  lemma SameQuotient(x: int, x': int, d: int, p: int)
    requires Prime(p) && d % p != 0 && 0 <= x < p && 0 <= x' < p && (x * d) % p == (x' * d) % p
    ensures x == x'
  {
    Cancel(x, x', d, p);
    SmallMod(x, p);
    SmallMod(x', p);
  }

  // ---- Square roots

  /** Two roots of the same square differ at most in sign. */
  lemma RootsOfSameSquare(x: int, y: int, p: int)
    requires Prime(p) && (x * x) % p == (y * y) % p
    ensures x % p == y % p || x % p == (-y) % p
  {
    CongIffDiff(x * x, y * y, p);
    assert x * x - y * y == (x - y) * (x + y);
    Euclid(x - y, x + y, p);
    CongIffDiff(x, y, p);
    CongIffDiff(x, -y, p);
    assert x - -y == x + y;
  }

  /** Euler's criterion x^((p-1)/2) takes only the values 0, 1 and -1. */
  lemma EulerValues(x: int, h: nat, p: int)
    requires Prime(p) && p == 2 * h + 1
    ensures x % p == 0 ==> Pow(x, h) % p == 0
    ensures x % p != 0 ==> Pow(x, h) % p == 1 || Pow(x, h) % p == (-1) % p
  {
    if x % p == 0 {
      MulCong(x, 0, Pow(x, h - 1), Pow(x, h - 1), p);
    } else {
      Fermat(x, p);
      PowAdd(x, h, h);
      var e := Pow(x, h);
      assert (e * e) % p == 1;
      SmallMod(1, p);
      assert (1 * 1) % p == 1;
      RootsOfSameSquare(e, 1, p);
    }
  }
}
