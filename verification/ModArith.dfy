/** Residue arithmetic modulo a positive integer, and powers. */
module ModArith {

  /** `a` and `b` in equal residue classes may be swapped inside a product. */
  lemma MulCong(a: int, a': int, b: int, b': int, p: int)
    requires p > 0
    requires a % p == a' % p && b % p == b' % p
    ensures (a * b) % p == (a' * b') % p
  {
    var k, l := a / p - a' / p, b / p - b' / p;
    assert a == a' + p * k;
    assert b == b' + p * l;
    var m := k * b + a' * l;
    calc {
      a * b;
      (a' + p * k) * b;
      a' * b + p * k * b;
      a' * (b' + p * l) + p * k * b;
      a' * b' + p * l * a' + p * k * b;
      { assert p * l * a' + p * k * b == p * m; }
      a' * b' + p * m;
    }
    ModAddMultiple(a' * b', m, p);
  }

  lemma ModAddMultiple(x: int, m: int, p: int)
    requires p > 0
    ensures (x + p * m) % p == x % p
  {
    var q, r := x / p, x % p;
    assert x + p * m == p * (q + m) + r;
    DivUnique(x + p * m, q + m, r, p);
  }

  lemma SmallMultiple(k: int, p: int)
    requires p > 0
    ensures k >= 1 ==> p * k >= p
    ensures k <= -1 ==> p * k <= -p
  {
    if k >= 1 { assert p * k == p + p * (k - 1); }
    if k <= -1 { assert p * k == -p + p * (k + 1); }
  }

  lemma DivUnique(x: int, q: int, r: int, p: int)
    requires p > 0 && 0 <= r < p && x == p * q + r
    ensures x / p == q && x % p == r
  {
    var q', r' := x / p, x % p;
    assert p * (q - q') == r' - r;
    SmallMultiple(q - q', p);
  }

  lemma AddCong(a: int, a': int, b: int, b': int, p: int)
    requires p > 0
    requires a % p == a' % p && b % p == b' % p
    ensures (a + b) % p == (a' + b') % p
    ensures (a - b) % p == (a' - b') % p
  {
    var k, l := a / p - a' / p, b / p - b' / p;
    assert a == a' + p * k;
    assert b == b' + p * l;
    assert p * k + p * l == p * (k + l);
    assert p * k - p * l == p * (k - l);
    ModAddMultiple(a' + b', k + l, p);
    ModAddMultiple(a' - b', k - l, p);
  }

  /** Congruence is the same as a difference divisible by `p`. */
  lemma CongIffDiff(a: int, b: int, p: int)
    requires p > 0
    ensures a % p == b % p <==> (a - b) % p == 0
  {
    if a % p == b % p {
      AddCong(a, b, b, b, p);
    }
    if (a - b) % p == 0 {
      AddCong(a - b, 0, b, b, p);
    }
  }

  function AddMod(a: int, b: int, p: int): int
    requires p > 0
  {
    (a + b) % p
  }

  function SubMod(a: int, b: int, p: int): int
    requires p > 0
  {
    (a - b) % p
  }

  function MulMod(a: int, b: int, p: int): int
    requires p > 0
  {
    (a * b) % p
  }

  function PowMod(a: int, e: nat, p: int): int
    requires p > 0
  {
    Pow(a, e) % p
  }

  function Pow(x: int, n: nat): int
  {
    if n == 0 then 1 else x * Pow(x, n - 1)
  }

  lemma {:induction false} PowAdd(x: int, m: nat, n: nat)
    ensures Pow(x, m + n) == Pow(x, m) * Pow(x, n)
  {
    if m > 0 {
      PowAdd(x, m - 1, n);
      assert x * (Pow(x, m - 1) * Pow(x, n)) == (x * Pow(x, m - 1)) * Pow(x, n);
    }
  }

  lemma {:induction false} PowMul(x: int, m: nat, n: nat)
    requires m * n >= 0
    ensures Pow(x, m * n) == Pow(Pow(x, m), n)
  {
    if n > 0 {
      assert m * n == m + m * (n - 1);
      assert m * (n - 1) >= 0;
      PowMul(x, m, n - 1);
      PowAdd(x, m, m * (n - 1));
    }
  }

  lemma MulSwap(x: int, y: int, a: int, b: int)
    ensures (x * y) * (a * b) == (x * a) * (y * b)
  {
  }

  lemma {:induction false} PowOfProduct(x: int, y: int, n: nat)
    ensures Pow(x * y, n) == Pow(x, n) * Pow(y, n)
  {
    if n > 0 {
      PowOfProduct(x, y, n - 1);
      MulSwap(x, y, Pow(x, n - 1), Pow(y, n - 1));
    }
  }

  lemma {:induction false} PowCong(x: int, y: int, n: nat, p: int)
    requires p > 0 && x % p == y % p
    ensures Pow(x, n) % p == Pow(y, n) % p
  {
    if n > 0 {
      PowCong(x, y, n - 1, p);
      MulCong(x, y, Pow(x, n - 1), Pow(y, n - 1), p);
    }
  }

  lemma ModIdem(x: int, p: int)
    requires p > 0
    ensures (x % p) % p == x % p
  {
  }

  lemma SmallMod(x: int, p: int)
    requires 0 <= x < p
    ensures x % p == x
  {
  }

  /** The operands of a modular product may be replaced by congruent ones. */
  lemma MulModIs(a: int, a': int, b: int, b': int, p: int)
    requires p > 0 && a % p == a' % p && b % p == b' % p
    ensures MulMod(a, b, p) % p == (a' * b') % p
    ensures 0 <= MulMod(a, b, p) < p
  {
    MulCong(a, a', b, b', p);
    ModIdem(a * b, p);
  }

  lemma AddModIs(a: int, a': int, b: int, b': int, p: int)
    requires p > 0 && a % p == a' % p && b % p == b' % p
    ensures AddMod(a, b, p) % p == (a' + b') % p
    ensures SubMod(a, b, p) % p == (a' - b') % p
    ensures 0 <= AddMod(a, b, p) < p && 0 <= SubMod(a, b, p) < p
  {
    AddCong(a, a', b, b', p);
    ModIdem(a + b, p);
    ModIdem(a - b, p);
  }

  lemma NegCong(a: int, b: int, p: int)
    requires p > 0 && a % p == b % p
    ensures (-a) % p == (-b) % p
  {
    AddCong(0, 0, a, b, p);
  }
}
