/** SimplePIR: LWE-style retrieval modulo q = 2^32 on unsigned 64-bit words. */
module SimplePir {
  import opened ModArith

  const Q: int := 0x1_0000_0000
  const WORD: int := 0x1_0000_0000_0000_0000
  const DOUBLE_WORD: int := 0x1_0000_0000_0000_0000_0000_0000_0000_0000

  // ---- Rounding from Z_q to Z_p

  /** The last two statements of Recover: round to a multiple of delta, then reduce modulo p. */
  function RoundToPlain(phase: int, delta: int, p: int): int
    requires delta > 0 && p > 0
  {
    (if phase % delta >= delta / 2 then phase / delta + 1 else phase / delta) % p
  }

  /** x divided by delta, rounded as Recover rounds. */
  function Rounded(x: int, delta: int): int
    requires delta > 0
  {
    x / delta + if x % delta >= delta / 2 then 1 else 0
  }

  /** Rounding ignores multiples of delta, and reduction ignores multiples of p. */
  lemma RoundShifted(x: int, d: int, t: int, delta: int, p: int)
    requires delta > 0 && p > 0
    ensures RoundToPlain(delta * (d + p * t) + x, delta, p) == (d + Rounded(x, delta)) % p
  {
    var m := d + p * t;
    var q, r := x / delta, x % delta;
    assert delta * m + x == delta * (m + q) + r;
    DivUnique(delta * m + x, m + q, r, delta);
    var u := Rounded(x, delta) - q;
    assert m + q + u == (d + q + u) + p * t;
    ModAddMultiple(d + q + u, t, p);
  }

  /** A residue smaller than half of delta rounds away. */
  lemma SmallRoundsToZero(x: int, delta: int)
    requires delta > 0 && -(delta / 2) < x < delta / 2
    ensures Rounded(x, delta) == 0
  {
    if x >= 0 { DivUnique(x, 0, x, delta); } else { DivUnique(x, -1, delta + x, delta); }
  }

  /** The 64-bit subtraction wraps and is not reduced modulo q. */
  function Phase(ans: int, product: int): int {
    (ans - product) % WORD
  }

  /** What is left of the noise after wrapping: each lost q contributes rem, a wrapped word rem^2. */
  function Residue(noise: int, k: int, wrapped: bool, rem: int): int {
    noise + k * rem + if wrapped then rem * rem else 0
  }

  /** q*q = p*delta*(q + rem) + rem^2. */
  lemma WordResidue(delta: int, p: int, rem: int, q: int)
    requires q == p * delta + rem
    ensures q * q == delta * (p * (q + rem)) + rem * rem
  {
    var m := p * delta;
    assert q * q == m * q + rem * q;
    assert rem * q == m * rem + rem * rem;
    assert m * q + m * rem == m * (q + rem);
    ProductShuffle(delta, p, q + rem);
  }

  lemma ProductShuffle(delta: int, p: int, t: int)
    ensures delta * (p * t) == (p * delta) * t
  {
  }

  /** Recover, on every noise: the plaintext plus the rounded residue. */
  lemma RecoverExactly(ans: int, product: int, d: int, noise: int, k: int, delta: int, p: int, rem: int)
    requires 0 <= ans < Q && 0 <= product < Q && p > 0 && delta > 0 && Q == p * delta + rem
    requires ans - product == delta * d + noise + k * Q
    ensures RoundToPlain(Phase(ans, product), delta, p) ==
      (d + Rounded(Residue(noise, k, ans < product, rem), delta)) % p
  {
    var wrapped := ans < product;
    var w := if wrapped then 1 else 0;
    DivUnique(ans - product, -w, ans - product + w * WORD, WORD);
    var x := Residue(noise, k, wrapped, rem);
    var t := k + w * (Q + rem);
    WordResidue(delta, p, rem, Q);
    assert k * Q == delta * (p * k) + k * rem by { TimesSum(k, p, delta, rem); }
    assert Phase(ans, product) == delta * (d + p * t) + x by {
      PhaseSum(delta, d, p, k, Q + rem, w);
      assert w * WORD == w * (delta * (p * (Q + rem)) + rem * rem);
    }
    RoundShifted(x, d, t, delta, p);
  }

  lemma TimesSum(k: int, p: int, delta: int, rem: int)
    ensures k * (p * delta + rem) == delta * (p * k) + k * rem
  {
    assert k * (p * delta) == delta * (p * k);
  }

  lemma PhaseSum(delta: int, d: int, p: int, k: int, s: int, w: int)
    requires w == 0 || w == 1
    ensures delta * (d + p * (k + w * s)) == delta * d + delta * (p * k) + w * (delta * (p * s))
  {
    assert p * (k + w * s) == p * k + w * (p * s);
  }

  /** Recover is right exactly when the rounded residue is a multiple of p. */
  lemma RecoverIff(ans: int, product: int, d: int, noise: int, k: int, delta: int, p: int, rem: int)
    requires 0 <= ans < Q && 0 <= product < Q && 0 <= d < p && delta > 0 && Q == p * delta + rem
    requires ans - product == delta * d + noise + k * Q
    ensures RoundToPlain(Phase(ans, product), delta, p) == d
      <==> Rounded(Residue(noise, k, ans < product, rem), delta) % p == 0
  {
    RecoverExactly(ans, product, d, noise, k, delta, p, rem);
    var r := Rounded(Residue(noise, k, ans < product, rem), delta);
    SmallMod(d, p);
    CongIffDiff(d + r, d, p);
  }

  function Abs(x: int): int { if x < 0 then -x else x }

  /** delta = floor(q/p) and rem = q mod p. */
  ghost predicate Scale(delta: int, p: int, rem: int) {
    delta > 0 && 0 <= rem < p && Q == p * delta + rem
  }

  /** The phase is delta times the plaintext plus the noise, modulo q. */
  ghost predicate Decrypts(ans: int, product: int, d: int, noise: int, delta: int, q: int)
    requires q > 0
  {
    (ans - product - (delta * d + noise)) % q == 0
  }

  ghost predicate ReducesTo(x: int, r: int, q: int)
    requires q > 0
  {
    r == x % q
  }

  ghost predicate SmallNoise(noise: int, delta: int, rem: int) {
    Abs(noise) + rem * rem < delta / 2
  }

  /** Noise with |noise| + rem^2 below floor(delta/2) is always removed. */
  lemma RecoverCorrect(ans: int, product: int, d: int, noise: int, delta: int, p: int, rem: int)
    requires 0 <= ans < Q && 0 <= product < Q && 0 <= d < p && Scale(delta, p, rem)
    requires Decrypts(ans, product, d, noise, delta, Q) && SmallNoise(noise, delta, rem)
    ensures RoundToPlain(Phase(ans, product), delta, p) == d
  {
    var s := delta * d + noise;
    var k := (ans - product - s) / Q;
    assert ans - product == s + k * Q;
    PlainBound(delta, d, p);
    var square := rem * rem;
    RemBelowSquare(rem);
    ResidueBound(ans, product, s, noise, k, delta, rem, square);
    SmallRoundsToZero(Residue(noise, k, ans < product, rem), delta);
    RecoverIff(ans, product, d, noise, k, delta, p, rem);
  }

  lemma RemBelowSquare(rem: int)
    requires rem >= 0
    ensures rem <= rem * rem
  {
  }

  lemma ResidueBound(ans: int, product: int, s: int, noise: int, k: int, delta: int, rem: int, square: int)
    requires 0 <= ans < Q && 0 <= product < Q && delta > 0 && 0 <= rem <= square == rem * rem
    requires noise <= s <= Q - delta + noise && ans - product == s + k * Q && Abs(noise) + square < delta / 2
    ensures -(delta / 2) < Residue(noise, k, ans < product, rem) < delta / 2
  {
    assert -1 <= k <= 1;
    assert k * rem == if k == 0 then 0 else if k == 1 then rem else -rem;
  }

  lemma PlainBound(delta: int, d: int, p: int)
    requires delta > 0 && 0 <= d < p
    ensures 0 <= delta * d <= p * delta - delta
  {
    SmallMultiple(p - d, delta);
    assert p * delta == delta * d + delta * (p - d);
  }

  // ---- The exact bound on the noise

  /** Recover is right for every answer and product that decrypt to the plaintext with this noise. */
  ghost predicate AlwaysRecovers(d: int, noise: int, delta: int, p: int)
    requires delta > 0 && p > 0
  {
    forall ans, product :: 0 <= ans < Q && 0 <= product < Q && Decrypts(ans, product, d, noise, delta, Q) ==>
      RoundToPlain(Phase(ans, product), delta, p) == d
  }

  /** The residue without and with a wrapped word, for each of the two multiples of q that can be lost. */
  ghost predicate BothRound(s: int, noise: int, delta: int, p: int, rem: int)
    requires delta > 0 && p > 0
  {
    var k := -(s / Q);
    && Rounded(Residue(noise, k, false, rem), delta) % p == 0
    && (s % Q != 0 ==> Rounded(Residue(noise, k - 1, true, rem), delta) % p == 0)
  }

  /** An answer and a product whose difference is x. */
  lemma Witness(x: int) returns (ans: int, product: int)
    requires -Q < x < Q
    ensures 0 <= ans < Q && 0 <= product < Q && ans - product == x
  {
    ans, product := if x >= 0 then x else 0, if x >= 0 then 0 else -x;
  }

  lemma DecryptsBy(ans: int, product: int, s: int, k: int)
    requires ans - product == s + k * Q
    ensures (ans - product - s) % Q == 0
  {
  }

  /** For every noise: two residues, known before any answer is, decide whether Recover is always right. */
  lemma AlwaysRecoversIff(d: int, noise: int, delta: int, p: int, rem: int)
    requires 0 <= d < p && delta > 0 && Q == p * delta + rem
    ensures AlwaysRecovers(d, noise, delta, p) <==> BothRound(delta * d + noise, noise, delta, p, rem)
  {
    hide RoundToPlain, Phase, Rounded, Residue;
    var s := delta * d + noise;
    var k, x := -(s / Q), s % Q;
    assert s + k * Q == x;
    if AlwaysRecovers(d, noise, delta, p) {
      var ans, product := Witness(x);
      DecryptsBy(ans, product, s, k);
      RecoverIff(ans, product, d, noise, k, delta, p, rem);
      if x != 0 {
        var ans', product' := Witness(x - Q);
        DecryptsBy(ans', product', s, k - 1);
        RecoverIff(ans', product', d, noise, k - 1, delta, p, rem);
      }
    }
    if BothRound(s, noise, delta, p, rem) {
      forall ans, product | 0 <= ans < Q && 0 <= product < Q && Decrypts(ans, product, d, noise, delta, Q)
        ensures RoundToPlain(Phase(ans, product), delta, p) == d
      {
        var l := (ans - product - s) / Q;
        assert ans - product == s + l * Q;
        assert l == if ans < product then k - 1 else k;
        RecoverIff(ans, product, d, noise, l, delta, p, rem);
      }
    }
  }

  lemma RoundedZeroIff(x: int, delta: int, p: int)
    requires delta > 0 && p >= 3 && -delta < x < 2 * delta
    ensures Rounded(x, delta) % p == 0 <==> -(delta - delta / 2) <= x < delta / 2
  {
    if x < 0 {
      DivUnique(x, -1, delta + x, delta);
      if Rounded(x, delta) == -1 { assert -1 == p * -1 + (p - 1); DivUnique(-1, -1, p - 1, p); }
    } else if x < delta {
      DivUnique(x, 0, x, delta);
      SmallMod(Rounded(x, delta), p);
    } else {
      DivUnique(x, 1, x - delta, delta);
      SmallMod(Rounded(x, delta), p);
    }
  }

  /** What the noise has to satisfy for every plaintext to be recovered from every answer. */
  predicate NoiseFits(noise: int, delta: int, rem: int) {
    if noise >= 0 then noise + rem * rem - rem < delta / 2
    else -(delta - delta / 2) <= noise && noise + rem * rem < delta / 2
  }

  lemma BothRoundIff(d: int, noise: int, delta: int, p: int, rem: int, square: int)
    requires 0 <= d < p && p >= 3 && Scale(delta, p, rem) && rem <= square == rem * rem <= delta
    requires -delta < noise < delta
    ensures var s := delta * d + noise;
      BothRound(s, noise, delta, p, rem) <==>
        if s == 0 then 0 < delta / 2
        else if s > 0 then -(delta - delta / 2) <= noise && noise + square - rem < delta / 2
        else -(delta - delta / 2) <= noise + rem && noise + square < delta / 2
  {
    hide Rounded;
    var s := delta * d + noise;
    PlainBound(delta, d, p);
    assert -delta < s < Q;
    if s >= 0 {
      DivUnique(s, 0, s, Q);
      assert Residue(noise, 0, false, rem) == noise && Residue(noise, -1, true, rem) == noise + square - rem;
      RoundedZeroIff(noise, delta, p);
      RoundedZeroIff(noise + square - rem, delta, p);
      assert s == 0 && d > 0 ==> noise <= -delta by { SmallMultiple(d, delta); }
    } else {
      DivUnique(s, -1, s + Q, Q);
      assert Residue(noise, 1, false, rem) == noise + rem && Residue(noise, 0, true, rem) == noise + square;
      RoundedZeroIff(noise + rem, delta, p);
      RoundedZeroIff(noise + square, delta, p);
    }
  }

  /** The exact bound: every plaintext is recovered from every answer if and only if the noise fits. */
  lemma NoiseBoundIff(noise: int, delta: int, p: int, rem: int)
    requires p >= 3 && Scale(delta, p, rem) && rem * rem <= delta && -delta < noise < delta
    ensures (forall d :: 0 <= d < p ==> AlwaysRecovers(d, noise, delta, p)) <==> NoiseFits(noise, delta, rem)
  {
    hide AlwaysRecovers, BothRound, Scale;
    assert rem >= 0 && Q == p * delta + rem && delta > 0 by { ScaleMeans(delta, p, rem); }
    var square := rem * rem;
    RemBelowSquare(rem);
    forall d | 0 <= d < p
      ensures var s := delta * d + noise;
        AlwaysRecovers(d, noise, delta, p) <==>
          if s == 0 then 0 < delta / 2
          else if s > 0 then -(delta - delta / 2) <= noise && noise + square - rem < delta / 2
          else -(delta - delta / 2) <= noise + rem && noise + square < delta / 2
      ensures d >= 1 ==> delta * d + noise > 0
    {
      AlwaysRecoversIff(d, noise, delta, p, rem);
      BothRoundIff(d, noise, delta, p, rem, square);
      if d >= 1 { SmallMultiple(d, delta); }
    }
    if forall d :: 0 <= d < p ==> AlwaysRecovers(d, noise, delta, p) {
      assert AlwaysRecovers(0, noise, delta, p) && AlwaysRecovers(1, noise, delta, p);
    }
  }

  lemma ScaleMeans(delta: int, p: int, rem: int)
    requires Scale(delta, p, rem)
    ensures delta > 0 && 0 <= rem < p && Q == p * delta + rem
  {
  }

  // ---- Inner products

  /** The sum of a[i]*b[i] for i < n. */
  ghost function Dot(a: seq<int>, b: seq<int>, n: nat): int
    requires n <= |a| && n <= |b|
  {
    if n == 0 then 0 else Dot(a, b, n - 1) + a[n - 1] * b[n - 1]
  }

  /** A 128-bit accumulator; its wrap-around is harmless because q divides 2^128. */
  method InnerProductModq(row: seq<int>, col: seq<int>) returns (r: int)
    requires |row| == |col|
    ensures r == Dot(row, col, |row|) % Q
  {
    var acc := 0;
    for i := 0 to |row|
      invariant acc % Q == Dot(row, col, i) % Q
    {
      Accumulate(acc, row[i] * col[i]);
      AddCong(acc, Dot(row, col, i), row[i] * col[i], row[i] * col[i], Q);
      acc := (acc + row[i] * col[i]) % DOUBLE_WORD;
    }
    r := acc % Q;
  }

  lemma Accumulate(acc: int, x: int)
    ensures ((acc + x) % DOUBLE_WORD) % Q == (acc + x) % Q
  {
    var s := acc + x;
    var c := DOUBLE_WORD / Q;
    assert s == s % DOUBLE_WORD + Q * (c * (s / DOUBLE_WORD));
    ModAddMultiple(s % DOUBLE_WORD, c * (s / DOUBLE_WORD), Q);
  }

  ghost predicate Cong(x: int, y: int, p: int)
    requires p > 0
  {
    x % p == y % p
  }

  ghost predicate Congruent(b: seq<int>, b': seq<int>, n: nat, p: int)
    requires p > 0 && n <= |b| && n <= |b'|
  {
    forall i :: 0 <= i < n ==> Cong(b[i], b'[i], p)
  }

  lemma {:induction false} DotCong(a: seq<int>, b: seq<int>, b': seq<int>, n: nat, p: int)
    requires p > 0 && n <= |a| && n <= |b| && n <= |b'| && Congruent(b, b', n, p)
    ensures Cong(Dot(a, b, n), Dot(a, b', n), p)
  {
    if n > 0 {
      DotCong(a, b, b', n - 1, p);
      MulCong(a[n - 1], a[n - 1], b[n - 1], b'[n - 1], p);
      AddCong(Dot(a, b, n - 1), Dot(a, b', n - 1), a[n - 1] * b[n - 1], a[n - 1] * b'[n - 1], p);
    }
  }

  lemma {:induction false} DotComm(a: seq<int>, b: seq<int>, n: nat)
    requires n <= |a| && n <= |b|
    ensures Dot(a, b, n) == Dot(b, a, n)
  {
    if n > 0 { DotComm(a, b, n - 1); }
  }

  ghost function Plus(b: seq<int>, c: seq<int>): (s: seq<int>)
    requires |b| == |c|
    ensures |s| == |b| && forall i :: 0 <= i < |b| ==> s[i] == b[i] + c[i]
  {
    seq(|b|, i requires 0 <= i < |b| => b[i] + c[i])
  }

  ghost function UnitVector(n: nat, c: nat, delta: int): (u: seq<int>)
    ensures |u| == n && forall i :: 0 <= i < n ==> u[i] == if i == c then delta else 0
  {
    seq(n, i => if i == c then delta else 0)
  }

  lemma DotPlus(a: seq<int>, b: seq<int>, c: seq<int>)
    requires |a| == |b| == |c|
    ensures Dot(a, Plus(b, c), |a|) == Dot(a, b, |a|) + Dot(a, c, |a|)
  {
    DotSum(a, b, c, Plus(b, c), |a|);
  }

  lemma {:induction false} DotSum(a: seq<int>, b: seq<int>, c: seq<int>, s: seq<int>, n: nat)
    requires n <= |a| && n <= |b| && n <= |c| && n <= |s|
    requires forall i :: 0 <= i < n ==> s[i] == b[i] + c[i]
    ensures Dot(a, s, n) == Dot(a, b, n) + Dot(a, c, n)
  {
    if n > 0 {
      DotSum(a, b, c, s, n - 1);
      Distribute(a[n - 1], b[n - 1], c[n - 1]);
    }
  }

  lemma Distribute(x: int, y: int, z: int)
    ensures x * (y + z) == x * y + x * z
  {
  }

  /** A vector that is delta at one place and zero elsewhere picks one entry. */
  lemma {:induction false} DotUnit(a: seq<int>, u: seq<int>, c: nat, delta: int, n: nat)
    requires n <= |a| && n <= |u| && c < |u| && c < |a|
    requires forall i :: 0 <= i < n ==> u[i] == if i == c then delta else 0
    ensures Dot(a, u, n) == if c < n then delta * a[c] else 0
  {
    if n > 0 { DotUnit(a, u, c, delta, n - 1); }
  }

  /** The inner products of the rows of a matrix with a vector. */
  ghost function Apply(m: seq<seq<int>>, v: seq<int>, k: nat): seq<int>
    requires k <= |v| && forall i :: 0 <= i < |m| ==> k <= |m[i]|
  {
    seq(|m|, i requires 0 <= i < |m| => Dot(m[i], v, k))
  }

  /** Summing over columns first or over rows first gives the same total. */
  lemma {:induction false} Interchange(d: seq<int>, m: seq<seq<int>>, t: seq<seq<int>>, s: seq<int>, k: nat)
    requires |d| == |m| && k <= |s| && k <= |t|
    requires forall i :: 0 <= i < |m| ==> k <= |m[i]|
    requires forall j :: 0 <= j < k ==> |t[j]| == |m|
    requires forall i, j :: 0 <= i < |m| && 0 <= j < k ==> t[j][i] == m[i][j]
    ensures Dot(seq(k, j requires 0 <= j < k => Dot(d, t[j], |d|)), s, k) == Dot(d, Apply(m, s, k), |d|)
  {
    if k == 0 {
      DotZero(d, Apply(m, s, 0), |d|);
    } else {
      Interchange(d, m, t, s, k - 1);
      var h := seq(k, j requires 0 <= j < k => Dot(d, t[j], |d|));
      var h' := seq(k - 1, j requires 0 <= j < k - 1 => Dot(d, t[j], |d|));
      DotPrefix(h, h', s, k - 1);
      var c := seq(|m|, i requires 0 <= i < |m| => m[i][k - 1] * s[k - 1]);
      DotSum(d, Apply(m, s, k - 1), c, Apply(m, s, k), |d|);
      DotScale(d, t[k - 1], c, s[k - 1], |d|);
    }
  }

  lemma {:induction false} DotZero(a: seq<int>, b: seq<int>, n: nat)
    requires n <= |a| && n <= |b| && forall i :: 0 <= i < n ==> b[i] == 0
    ensures Dot(a, b, n) == 0
  {
    if n > 0 { DotZero(a, b, n - 1); }
  }

  lemma {:induction false} DotPrefix(a: seq<int>, a': seq<int>, b: seq<int>, n: nat)
    requires n <= |a| && n <= |a'| && n <= |b| && forall i :: 0 <= i < n ==> a[i] == a'[i]
    ensures Dot(a, b, n) == Dot(a', b, n)
  {
    if n > 0 { DotPrefix(a, a', b, n - 1); }
  }

  lemma {:induction false} DotScale(a: seq<int>, b: seq<int>, c: seq<int>, x: int, n: nat)
    requires n <= |a| && n <= |b| && n <= |c| && forall i :: 0 <= i < n ==> c[i] == b[i] * x
    ensures Dot(a, c, n) == Dot(a, b, n) * x
  {
    if n > 0 {
      DotScale(a, b, c, x, n - 1);
      ScaleStep(Dot(a, b, n - 1), a[n - 1], b[n - 1], x);
    }
  }

  lemma ScaleStep(t: int, a: int, b: int, x: int)
    ensures t * x + a * (b * x) == (t + a * b) * x
  {
    assert a * (b * x) == (a * b) * x;
  }
}
