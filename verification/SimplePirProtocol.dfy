/** SimplePIR client and server, and a whole retrieval. */
module SimplePirProtocol {
  import opened ModArith
  import opened ChunkParams
  import opened SimplePir

  ghost predicate Rectangular(m: seq<seq<int>>, rows: nat, cols: nat) {
    |m| == rows && forall i :: 0 <= i < rows ==> |m[i]| == cols
  }

  /** Row i of the table stored row by row in `flat`. */
  method UnpackRow(flat: seq<int>, i: nat, cols: nat) returns (row: seq<int>)
    requires cols > 0 && Position(i, cols, cols) <= |flat|
    ensures |row| == cols
    ensures forall j :: 0 <= j < cols ==> Position(i, j, cols) < |flat| && row[j] == flat[Position(i, j, cols)]
  {
    RowEnd(i, cols);
    row := [];
    for j := 0 to cols
      invariant |row| == j
      invariant forall l :: 0 <= l < j ==> Position(i, l, cols) < |flat| && row[l] == flat[Position(i, l, cols)]
    {
      PositionCoordinates(i, j, cols);
      row := row + [flat[i * cols + j]];
    }
  }

  lemma {:induction false} RowEnd(i: nat, cols: nat)
    ensures Position(i, cols, cols) == i * cols + cols
  {
    if i > 0 {
      RowEnd(i - 1, cols);
      assert i * cols == (i - 1) * cols + cols;
    }
  }

  /** Entry (j, i) of the dim x n matrix is the pseudorandom value j*n + i, reduced modulo q. */
  ghost predicate FromSeed(a: seq<seq<int>>, rand: seq<int>, dim: nat, n: nat) {
    && Rectangular(a, dim, n)
    && forall j, i :: 0 <= j < dim && 0 <= i < n ==>
         Position(j, i, n) < |rand| && a[j][i] == rand[Position(j, i, n)] % Q
  }

  /** The first rows of the transposed matrix, from the same pseudorandom values. */
  ghost predicate FromSeedRows(a: seq<seq<int>>, rand: seq<int>, rows: nat, n: nat, dim: nat) {
    && Rectangular(a, rows, dim)
    && forall i, j :: 0 <= i < rows && 0 <= j < dim ==>
         Position(j, i, n) < |rand| && a[i][j] == rand[Position(j, i, n)] % Q
  }

  ghost predicate FromSeedTransposed(a: seq<seq<int>>, rand: seq<int>, n: nat, dim: nat) {
    FromSeedRows(a, rand, n, n, dim)
  }

  ghost predicate Unpacked(m: seq<seq<int>>, flat: seq<int>, rows: nat, cols: nat) {
    && Rectangular(m, rows, cols)
    && forall i, j :: 0 <= i < rows && 0 <= j < cols ==>
         Position(i, j, cols) < |flat| && m[i][j] == flat[Position(i, j, cols)]
  }

  lemma SharedMatrix(m: seq<seq<int>>, t: seq<seq<int>>, rand: seq<int>, n: nat, dim: nat)
    requires FromSeedTransposed(m, rand, n, dim) && FromSeed(t, rand, dim, n)
    ensures Rectangular(m, n, dim) && Rectangular(t, dim, n) && Transposed(m, t, n, dim)
  {
  }

  lemma HintRowOf(hint: seq<seq<int>>, flat: seq<int>, db: seq<seq<int>>, t: seq<seq<int>>, n: nat, dim: nat, row: nat)
    requires Rectangular(db, n, n) && Rectangular(t, dim, n) && IsHint(flat, db, t, n, dim)
    requires Unpacked(hint, flat, n, dim) && row < n
    ensures IsHintRow(hint[row], db[row], t, dim, Q)
  {
  }

  ghost predicate Transposed(m: seq<seq<int>>, t: seq<seq<int>>, n: nat, dim: nat)
    requires Rectangular(m, n, dim) && Rectangular(t, dim, n)
  {
    forall i, j :: 0 <= i < n && 0 <= j < dim ==> t[j][i] == m[i][j]
  }

  /** Rows of the table times the rows of the matrix, row by row, modulo q. */
  ghost predicate IsHint(hint: seq<int>, db: seq<seq<int>>, a: seq<seq<int>>, n: nat, dim: nat)
    requires Rectangular(db, n, n) && Rectangular(a, dim, n)
  {
    && |hint| == Position(n, 0, dim)
    && forall i, j :: 0 <= i < n && 0 <= j < dim ==>
         Position(i, j, dim) < |hint| && hint[Position(i, j, dim)] == Dot(db[i], a[j], n) % Q
  }

  class Server {
    const n: nat
    const dim: nat
    var database: seq<seq<int>>
    var a: seq<seq<int>>

    ghost predicate Valid()
      reads this
    {
      n > 0 && dim > 0 && Rectangular(database, n, n) && Rectangular(a, dim, n)
    }

    constructor (n: nat, dim: nat, database: seq<seq<int>>, rand: seq<int>)
      requires n > 0 && dim > 0 && Rectangular(database, n, n) && |rand| == Position(dim, 0, n)
      ensures Valid() && this.n == n && this.dim == dim && this.database == database
      ensures FromSeed(a, rand, dim, n)
    {
      this.n, this.dim, this.database := n, dim, database;
      a := [];
      new;
      GenerateLweMatrix(rand);
    }

    method GenerateLweMatrix(rand: seq<int>)
      requires n > 0 && |rand| == Position(dim, 0, n)
      modifies this`a
      ensures FromSeed(a, rand, dim, n)
    {
      a := [];
      for j := 0 to dim
        invariant FromSeed(a, rand, j, n)
      {
        EndOfRow(j, n, dim);
        var row := UnpackRow(rand, j, n);
        a := a + [Reduced(row)];
      }
    }

    method GetHint() returns (hint: seq<int>)
      requires Valid()
      ensures IsHint(hint, database, a, n, dim)
    {
      hint := [];
      for i := 0 to n
        invariant |hint| == Position(i, 0, dim)
        invariant forall x :: 0 <= x < |hint| ==> HintAt(hint[x], database, a, n, dim, x)
      {
        for j := 0 to dim
          invariant |hint| == Position(i, j, dim)
          invariant forall x :: 0 <= x < |hint| ==> HintAt(hint[x], database, a, n, dim, x)
        {
          PositionCoordinates(i, j, dim);
          var prod := InnerProductModq(database[i], a[j]);
          hint := hint + [prod];
          NextPosition(i, j, dim);
        }
        NextRow(i, dim);
      }
      forall i, j | 0 <= i < n && 0 <= j < dim
        ensures Position(i, j, dim) < |hint| && hint[Position(i, j, dim)] == Dot(database[i], a[j], n) % Q
      {
        PositionCoordinates(i, j, dim);
        SpanOfChunks(Position(i, j, dim), dim, n);
      }
    }

    method Answer(qu: seq<int>) returns (ans: seq<int>)
      requires Valid() && |qu| == n
      ensures |ans| == n
      ensures forall i :: 0 <= i < n ==> ans[i] == Dot(database[i], qu, n) % Q
    {
      ans := [];
      for i := 0 to n
        invariant |ans| == i
        invariant forall l :: 0 <= l < i ==> ans[l] == Dot(database[l], qu, n) % Q
      {
        var x := InnerProductModq(database[i], qu);
        ans := ans + [x];
      }
    }
  }

  ghost predicate HintAt(h: int, db: seq<seq<int>>, a: seq<seq<int>>, n: nat, dim: nat, x: nat)
    requires dim > 0 && Rectangular(db, n, n) && Rectangular(a, dim, n)
  {
    && ChunkId(x, dim) < n && ChunkOffset(x, dim) < dim
    && h == Dot(db[ChunkId(x, dim)], a[ChunkOffset(x, dim)], n) % Q
  }

  function Reduced(row: seq<int>): (r: seq<int>)
    ensures |r| == |row| && forall i :: 0 <= i < |row| ==> r[i] == row[i] % Q
  {
    seq(|row|, i requires 0 <= i < |row| => row[i] % Q)
  }

  lemma {:induction false} NextPosition(i: nat, j: nat, cols: nat)
    ensures Position(i, j + 1, cols) == Position(i, j, cols) + 1
  {
    if i > 0 { NextPosition(i - 1, j, cols); }
  }

  lemma {:induction false} NextRow(i: nat, cols: nat)
    ensures Position(i, cols, cols) == Position(i + 1, 0, cols)
  {
    if i > 0 { NextRow(i - 1, cols); }
  }

  lemma {:induction false} EndOfRow(i: nat, cols: nat, rows: nat)
    requires i < rows
    ensures Position(i, cols, cols) <= Position(rows, 0, cols)
  {
    NextRow(i, cols);
    if i + 1 < rows { EndOfRow(i, cols, rows - 1); }
  }

  /** The reduction of a + delta*u_col + err modulo q. */
  ghost predicate IsQuery(qu: seq<int>, a: seq<int>, err: seq<int>, col: nat, delta: int, q: int)
    requires q > 0 && |a| == |err|
  {
    |qu| == |a| && forall i :: 0 <= i < |a| ==> qu[i] == (a[i] + (if i == col then delta else 0) + err[i]) % q
  }

  /** The reduction of the inner products of d with the rows of t modulo q. */
  ghost predicate IsHintRow(row: seq<int>, d: seq<int>, t: seq<seq<int>>, dim: nat, q: int)
    requires q > 0 && Rectangular(t, dim, |d|)
  {
    |row| == dim && forall j :: 0 <= j < dim ==> row[j] == Dot(d, t[j], |d|) % q
  }

  class Client {
    const n: nat
    const dim: nat
    const p: int
    const delta: int
    var a: seq<seq<int>>
    var hint: seq<seq<int>>
    var s: seq<int>
    var row: nat

    ghost predicate Valid()
      reads this
    {
      n > 0 && dim > 0 && p > 0 && delta == Q / p && Rectangular(a, n, dim) && Rectangular(hint, n, dim)
    }

    constructor (n: nat, dim: nat, p: int, rand: seq<int>, hintVec: seq<int>)
      requires n > 0 && dim > 0 && p > 0 && |rand| == Position(dim, 0, n) && |hintVec| == Position(n, 0, dim)
      ensures Valid() && this.n == n && this.dim == dim && this.p == p
      ensures FromSeedTransposed(a, rand, n, dim) && Unpacked(hint, hintVec, n, dim)
    {
      this.n, this.dim, this.p, delta, s, row := n, dim, p, Q / p, [], 0;
      a, hint := [], [];
      new;
      Setup(rand, hintVec);
    }

    /** The matrix is rebuilt from the seed, transposed; the hint is unpacked. */
    method Setup(rand: seq<int>, hintVec: seq<int>)
      requires n > 0 && dim > 0 && |rand| == Position(dim, 0, n) && |hintVec| == Position(n, 0, dim)
      modifies this`a, this`hint
      ensures FromSeedTransposed(a, rand, n, dim) && Unpacked(hint, hintVec, n, dim)
    {
      a, hint := [], [];
      for i := 0 to n
        invariant FromSeedRows(a, rand, i, n, dim) && Unpacked(hint, hintVec, i, dim)
      {
        var col := UnpackColumn(rand, i, n, dim);
        EndOfRow(i, dim, n);
        var row := UnpackRow(hintVec, i, dim);
        a, hint := a + [Reduced(col)], hint + [row];
      }
    }

    /** qu = A*s + e + delta*u modulo q; negative errors wrap to 64 bits first. */
    method Query(idx: nat, err: seq<int>, secret: seq<int>) returns (qu: seq<int>)
      requires Valid() && idx < n * n && |err| == n && |secret| == dim
      modifies this`s, this`row
      ensures s == secret && row == ChunkId(idx, n) < n
      ensures IsQuery(qu, Apply(a, s, dim), err, ChunkOffset(idx, n), delta, Q)
    {
      SpanIsProduct(n, n);
      SpanOfChunks(idx, n, n);
      Coordinates(idx, n);
      row := idx / n;
      var col := idx % n;
      hide ChunkId, ChunkOffset, Position, Dot;
      s := secret;
      qu := [];
      for i := 0 to n
        invariant |qu| == i && s == secret && row == ChunkId(idx, n)
        invariant forall l :: 0 <= l < i ==>
          qu[l] == (Dot(a[l], s, dim) + (if l == col then delta else 0) + err[l]) % Q
      {
        var v := InnerProductModq(a[i], s);
        var u := if i == col then delta else 0;
        WrappedSum(v, u, err[i], Dot(a[i], s, dim));
        var x := (v + u) % WORD;
        x := (x + err[i] % WORD) % WORD;
        qu := qu + [x % Q];
      }
    }

    method Recover(ans: seq<int>) returns (d: int)
      requires Valid() && delta > 0 && |s| == dim && row < n && |ans| == n
      ensures d == RoundToPlain(Phase(ans[row], Dot(hint[row], s, dim) % Q), delta, p)
    {
      var product := InnerProductModq(hint[row], s);
      var phase := (ans[row] - product) % WORD;
      assert phase == Phase(ans[row], product);
      d := if phase % delta >= delta / 2 then phase / delta + 1 else phase / delta;
      d := d % p;
    }
  }

  lemma ColumnIndex(j: nat, i: nat, cols: nat, rows: nat)
    requires i < cols && j < rows
    ensures j * cols + i == Position(j, i, cols) < Position(rows, 0, cols)
  {
    PositionCoordinates(j, i, cols);
    SpanOfChunks(Position(j, i, cols), cols, rows);
  }

  method UnpackColumn(flat: seq<int>, i: nat, cols: nat, rows: nat) returns (col: seq<int>)
    requires i < cols && |flat| == Position(rows, 0, cols)
    ensures |col| == rows
    ensures forall j :: 0 <= j < rows ==> Position(j, i, cols) < |flat| && col[j] == flat[Position(j, i, cols)]
  {
    hide Position;
    col := [];
    for j := 0 to rows
      invariant |col| == j
      invariant forall l :: 0 <= l < j ==> Position(l, i, cols) < |flat| && col[l] == flat[Position(l, i, cols)]
    {
      ColumnIndex(j, i, cols, rows);
      col := col + [flat[j * cols + i]];
    }
  }

  /** Because q divides 2^64, wrapping a negative error does not disturb the value modulo q. */
  lemma WrappedSum(v: int, u: int, e: int, v': int)
    requires v % Q == v' % Q
    ensures ((((v + u) % WORD) + e % WORD) % WORD) % Q == (v' + u + e) % Q
  {
    WordMod(v + u);
    WordMod(e);
    var x, y := (v + u) % WORD, e % WORD;
    WordMod(x + y);
    AddCong(x, v + u, y, e, Q);
    AddCong(v, v', u + e, u + e, Q);
  }

  lemma WordMod(x: int)
    ensures (x % WORD) % Q == x % Q
  {
    assert x == x % WORD + Q * (Q * (x / WORD));
    ModAddMultiple(x % WORD, Q * (x / WORD), Q);
  }

  // ---- A whole retrieval

  /** The answer minus the secret part is delta times the entry plus the accumulated noise. */
  lemma PhaseOfAnswer(d: seq<int>, m: seq<seq<int>>, t: seq<seq<int>>, s: seq<int>, hintRow: seq<int>,
                      qu: seq<int>, err: seq<int>, col: nat, delta: int, n: nat, dim: nat, q: int, ans: int,
                      product: int)
    requires q > 0 && |d| == |err| == |qu| == n && |s| == |hintRow| == dim && col < n
    requires Rectangular(m, n, dim) && Rectangular(t, dim, n) && Transposed(m, t, n, dim)
    requires IsHintRow(hintRow, d, t, dim, q) && IsQuery(qu, Apply(m, s, dim), err, col, delta, q)
    requires ReducesTo(Dot(d, qu, n), ans, q) && ReducesTo(Dot(hintRow, s, dim), product, q)
    ensures Decrypts(ans, product, d[col], Dot(d, err, n), delta, q)
  {
    hide Dot, IsQuery, IsHintRow, Transposed, Cong, Decrypts, ReducesTo, UnitVector;
    var a := Apply(m, s, dim);
    var total := QueryPart(d, a, qu, err, col, delta, n, q);
    SecretPart(d, m, t, s, hintRow, n, dim, q);
    DecryptsFrom(Dot(d, qu, n), Dot(hintRow, s, dim), total, Dot(d, a, n), d, col, Dot(d, err, n), delta, q, ans,
        product);
  }

  lemma DecryptsFrom(x: int, y: int, total: int, a: int, d: seq<int>, col: nat, noise: int, delta: int, q: int,
      ans: int, product: int)
    requires q > 0 && col < |d| && Cong(x, total, q) && Cong(y, a, q)
    requires total == a + Dot(d, UnitVector(|d|, col, delta), |d|) + noise
    requires ReducesTo(x, ans, q) && ReducesTo(y, product, q)
    ensures Decrypts(ans, product, d[col], noise, delta, q)
  {
    hide Dot, UnitVector;
    var unit := Dot(d, UnitVector(|d|, col, delta), |d|);
    DotUnit(d, UnitVector(|d|, col, delta), col, delta, |d|);
    DecryptsInt(x, y, total, a, unit, d[col], noise, delta, q, ans, product);
  }

  lemma DecryptsInt(x: int, y: int, total: int, a: int, unit: int, d: int, noise: int, delta: int, q: int, ans: int,
      product: int)
    requires q > 0 && Cong(x, total, q) && Cong(y, a, q) && total == a + unit + noise && unit == delta * d
    requires ReducesTo(x, ans, q) && ReducesTo(y, product, q)
    ensures Decrypts(ans, product, d, noise, delta, q)
  {
    var z := unit + noise;
    ModIdem(x, q);
    ModIdem(y, q);
    AddCong(ans, total, product, a, q);
    assert total - a == z;
    CongIffDiff(ans - product, z, q);
  }

  /** The answer is the secret part plus delta times the entry plus the accumulated noise. */
  lemma QueryPart(d: seq<int>, a: seq<int>, qu: seq<int>, err: seq<int>, col: nat, delta: int, n: nat, q: int)
    returns (total: int)
    requires q > 0 && |d| == |a| == |err| == n && col < n && IsQuery(qu, a, err, col, delta, q)
    ensures |qu| == n && Cong(Dot(d, qu, n), total, q)
    ensures total == Dot(d, a, n) + Dot(d, UnitVector(n, col, delta), n) + Dot(d, err, n)
  {
    hide *;
    var u := UnitVector(n, col, delta);
    var x := Plus(a, Plus(u, err));
    QueryCong(x, a, qu, err, col, delta, n, q);
    DotCong(d, qu, x, n, q);
    DotPlus(d, a, Plus(u, err));
    DotPlus(d, u, err);
    total := Dot(d, x, n);
  }

  lemma QueryCong(x: seq<int>, a: seq<int>, qu: seq<int>, err: seq<int>, col: nat, delta: int, n: nat, q: int)
    requires q > 0 && |x| == |a| == |err| == n && IsQuery(qu, a, err, col, delta, q)
    requires forall i :: 0 <= i < n ==> x[i] == a[i] + (if i == col then delta else 0) + err[i]
    ensures |qu| == n && Congruent(qu, x, n, q)
  {
    forall i | 0 <= i < n ensures Cong(qu[i], x[i], q) { ModIdem(x[i], q); }
  }

  lemma ReducedCong(x: seq<int>, r: seq<int>, n: nat, q: int)
    requires q > 0 && |x| == |r| == n && forall i :: 0 <= i < n ==> r[i] == x[i] % q
    ensures Congruent(r, x, n, q)
  {
    forall i | 0 <= i < n ensures Cong(r[i], x[i], q) { ModIdem(x[i], q); }
  }

  /** The hint times the secret is the secret part of the answer. */
  lemma SecretPart(d: seq<int>, m: seq<seq<int>>, t: seq<seq<int>>, s: seq<int>, hintRow: seq<int>, n: nat, dim: nat,
      q: int)
    requires q > 0 && |d| == n && |s| == dim
    requires Rectangular(m, n, dim) && Rectangular(t, dim, n) && Transposed(m, t, n, dim)
    requires IsHintRow(hintRow, d, t, dim, q)
    ensures |hintRow| == dim && Cong(Dot(hintRow, s, dim), Dot(d, Apply(m, s, dim), n), q)
  {
    hide Dot;
    var h := seq(dim, j requires 0 <= j < dim => Dot(d, t[j], n));
    ReducedCong(h, hintRow, dim, q);
    hide IsHintRow, Congruent, Cong;
    DotComm(hintRow, s, dim);
    DotComm(h, s, dim);
    DotCong(s, hintRow, h, dim, q);
    Interchange(d, m, t, s, dim);
  }

  /** The product of the hint row with the secret is fixed by table, seed and secret. */
  ghost predicate IsProduct(product: int, d: seq<int>, rand: seq<int>, secret: seq<int>, n: nat, dim: nat) {
    |d| == n && |secret| == dim && forall m :: FromSeedTransposed(m, rand, n, dim) ==>
        product == Dot(d, Apply(m, secret, dim), n) % Q
  }

  /** Setup, query, answer and recovery: `ans` and `product` are the two words that Recover subtracts. The
      entry is returned whenever its noise is one that Recover always removes, and so whenever the noise is
      small. */
  method Retrieve(n: nat, dim: nat, p: int, database: seq<seq<int>>, rand: seq<int>, idx: nat, err: seq<int>,
      secret: seq<int>)
    returns (r: int, ghost ans: int, ghost product: int)
    requires n > 0 && dim > 0 && 0 < p <= Q && Rectangular(database, n, n) && |rand| == Position(dim, 0, n)
    requires forall i, j :: 0 <= i < n && 0 <= j < n ==> 0 <= database[i][j] < p
    requires idx < n * n && |err| == n && |secret| == dim
    ensures ChunkId(idx, n) == idx / n < n && ChunkOffset(idx, n) == idx % n < n && Q / p > 0
    ensures 0 <= ans < Q && 0 <= product < Q
    ensures r == RoundToPlain(Phase(ans, product), Q / p, p)
    ensures var row, col := ChunkId(idx, n), ChunkOffset(idx, n);
      && Decrypts(ans, product, database[row][col], Dot(database[row], err, n), Q / p, Q)
      && IsProduct(product, database[row], rand, secret, n, dim)
    ensures var row, col := ChunkId(idx, n), ChunkOffset(idx, n);
      AlwaysRecovers(database[row][col], Dot(database[row], err, n), Q / p, p) ==> r == database[row][col]
    ensures var row, col := ChunkId(idx, n), ChunkOffset(idx, n);
      SmallNoise(Dot(database[row], err, n), Q / p, Q % p) ==> r == database[row][col]
  {
    hide Dot, IsHintRow, IsQuery, FromSeed, FromSeedRows, Unpacked, IsHint, ChunkId, ChunkOffset, Position, Transposed,
      RoundToPlain, Phase, SmallNoise, Scale, IsProduct, Decrypts;
    Coordinates(idx, n);
    DeltaAndRem(p);
    var server := new Server(n, dim, database, rand);
    var hint := server.GetHint();
    HintLength(hint, database, server.a, n, dim);
    var client := new Client(n, dim, p, rand, hint);
    var qu := client.Query(idx, err, secret);
    QueryLength(qu, client.a, secret, err, ChunkOffset(idx, n), client.delta, n, dim);
    var answer := server.Answer(qu);
    r := client.Recover(answer);
    SharedMatrix(client.a, server.a, rand, n, dim);
    HintRowOf(client.hint, hint, database, server.a, n, dim, client.row);
    ans, product := answer[client.row], Dot(client.hint[client.row], secret, dim) % Q;
    ProductOf(client.a, server.a, rand, database[client.row], secret, client.hint[client.row], n, dim, product);
    RetrievedEntry(database[client.row], client.a, server.a, secret, client.hint[client.row], qu, err,
                   ChunkOffset(idx, n), n, dim, p, Q / p, Q % p, ans, product, r);
  }

  lemma ProductOf(m: seq<seq<int>>, t: seq<seq<int>>, rand: seq<int>, d: seq<int>, secret: seq<int>, hintRow: seq<int>,
      n: nat, dim: nat, product: int)
    requires |d| == n && |secret| == dim && FromSeedTransposed(m, rand, n, dim)
    requires Rectangular(m, n, dim) && Rectangular(t, dim, n) && Transposed(m, t, n, dim)
    requires IsHintRow(hintRow, d, t, dim, Q)
    requires |hintRow| == dim && product == Dot(hintRow, secret, dim) % Q
    ensures IsProduct(product, d, rand, secret, n, dim)
  {
    SecretPart(d, m, t, secret, hintRow, n, dim, Q);
    forall m' | FromSeedTransposed(m', rand, n, dim) ensures product == Dot(d, Apply(m', secret, dim), n) % Q {
      SameMatrix(m, m', rand, n, dim);
    }
  }

  lemma SameMatrix(m: seq<seq<int>>, m': seq<seq<int>>, rand: seq<int>, n: nat, dim: nat)
    requires FromSeedTransposed(m, rand, n, dim) && FromSeedTransposed(m', rand, n, dim)
    ensures m == m'
  {
    forall i | 0 <= i < n ensures m[i] == m'[i] {
      assert forall j :: 0 <= j < dim ==> m[i][j] == m'[i][j];
    }
  }

  /** A whole retrieval that goes wrong on noise below delta/2: the answer is 2 although the entry is 1. */
  method HalfDeltaRun() returns (r: int)
    ensures r == 2 && 0 < 2166985 < (Q / 991) / 2 && !NoiseFits(2166985, Q / 991, Q % 991)
  {
    var database, rand, err, secret := [[1]], [1], [2166985], [Q - 1];
    assert Position(1, 0, 1) == 1 by { assert Position(0, 0, 1) == 0; }
    ghost var ans, product;
    r, ans, product := Retrieve(1, 1, 991, database, rand, 0, err, secret);
    assert ChunkId(0, 1) == 0 && ChunkOffset(0, 1) == 0;
    assert Dot(database[0], err, 1) == 2166985;
    assert FromSeedTransposed([[1]], rand, 1, 1);
    assert Dot([1], secret, 1) == Q - 1;
    assert Apply([[1]], secret, 1) == [Q - 1];
    assert product == Q - 1;
    assert Q / 991 == 4333973;
    assert ans == 4333973 + 2166985 - 1;
    RecoverExactly(ans, product, 1, 2166985, -1, 4333973, 991, 53);
  }

  lemma HintLength(hint: seq<int>, db: seq<seq<int>>, a: seq<seq<int>>, n: nat, dim: nat)
    requires Rectangular(db, n, n) && Rectangular(a, dim, n) && IsHint(hint, db, a, n, dim)
    ensures |hint| == Position(n, 0, dim)
  {
  }

  lemma QueryLength(qu: seq<int>, m: seq<seq<int>>, s: seq<int>, err: seq<int>, col: nat, delta: int, n: nat, dim: nat)
    requires Rectangular(m, n, dim) && |s| == dim && |err| == n
    requires IsQuery(qu, Apply(m, s, dim), err, col, delta, Q)
    ensures |qu| == n
  {
  }

  lemma DeltaAndRem(p: int)
    requires 0 < p <= Q
    ensures Scale(Q / p, p, Q % p) && Q / p > 0
  {
  }

  lemma RetrievedEntry(d: seq<int>, m: seq<seq<int>>, t: seq<seq<int>>, s: seq<int>, hintRow: seq<int>,
                       qu: seq<int>, err: seq<int>, col: nat, n: nat, dim: nat, p: int, delta: int, rem: int, ans: int,
                       product: int, r: int)
    requires |d| == |err| == |qu| == n && |s| == |hintRow| == dim && col < n && 0 <= d[col] < p
    requires Rectangular(m, n, dim) && Rectangular(t, dim, n) && Transposed(m, t, n, dim)
    requires IsHintRow(hintRow, d, t, dim, Q) && IsQuery(qu, Apply(m, s, dim), err, col, delta, Q)
    requires ReducesTo(Dot(d, qu, n), ans, Q) && ReducesTo(Dot(hintRow, s, dim), product, Q)
    requires 0 <= ans < Q && 0 <= product < Q && delta > 0 && Scale(delta, p, rem)
    requires r == RoundToPlain(Phase(ans, product), delta, p)
    ensures Decrypts(ans, product, d[col], Dot(d, err, n), delta, Q)
    ensures AlwaysRecovers(d[col], Dot(d, err, n), delta, p) ==> r == d[col]
    ensures SmallNoise(Dot(d, err, n), delta, rem) ==> r == d[col]
  {
    hide Dot, IsHintRow, IsQuery, Transposed, Apply, RoundToPlain, Phase, SmallNoise, Scale, Decrypts, ReducesTo;
    PhaseOfAnswer(d, m, t, s, hintRow, qu, err, col, delta, n, dim, Q, ans, product);
    if SmallNoise(Dot(d, err, n), delta, rem) {
      RecoverCorrect(ans, product, d[col], Dot(d, err, n), delta, p, rem);
    }
  }
}
