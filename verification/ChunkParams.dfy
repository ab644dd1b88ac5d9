/** Chunk geometry: the power-of-two chunk size and the bit mask that stands for a remainder. */
module ChunkParams {
  import opened ModArith

  ghost predicate PowerOfTwo(n: nat)
    decreases n
  {
    n == 1 || (n > 1 && n % 2 == 0 && PowerOfTwo(n / 2))
  }

  /** Bitwise and of two naturals. */
  function And(a: nat, b: nat): nat {
    if a == 0 || b == 0 then 0 else 2 * And(a / 2, b / 2) + (if a % 2 == 1 && b % 2 == 1 then 1 else 0)
  }

  /** Masking with a power of two minus one is the remainder. */
  lemma {:induction false} MaskIsMod(x: nat, c: nat)
    requires PowerOfTwo(c)
    ensures And(x, c - 1) == x % c
  {
    if c > 1 {
      var d := c / 2;
      MaskIsMod(x / 2, d);
      assert (c - 1) / 2 == d - 1 && (c - 1) % 2 == 1;
      HalfRemainder(x, d);
      if x == 0 { assert x % c == 0; }
    }
  }

  lemma HalfRemainder(x: nat, d: nat)
    requires d > 0
    ensures x % (2 * d) == 2 * ((x / 2) % d) + x % 2
  {
    var q, r := (x / 2) / d, (x / 2) % d;
    assert x == (2 * d) * q + (2 * r + x % 2) by {
      assert x / 2 == d * q + r;
      assert 2 * (d * q) == (2 * d) * q;
    }
    DivUnique(x, q, 2 * r + x % 2, 2 * d);
  }

  // ---- Chunk coordinates, by counting whole chunks off

  function ChunkId(x: nat, chunk: nat): nat
    requires chunk > 0
  {
    if x < chunk then 0 else 1 + ChunkId(x - chunk, chunk)
  }

  function ChunkOffset(x: nat, chunk: nat): nat
    requires chunk > 0
  {
    if x < chunk then x else ChunkOffset(x - chunk, chunk)
  }

  function Position(c: nat, o: nat, chunk: nat): nat {
    if c == 0 then o else chunk + Position(c - 1, o, chunk)
  }

  /** The coordinates are quotient and remainder, and they determine the position. */
  lemma {:induction false} Coordinates(x: nat, chunk: nat)
    requires chunk > 0
    ensures ChunkId(x, chunk) == x / chunk && ChunkOffset(x, chunk) == x % chunk < chunk
    ensures Position(ChunkId(x, chunk), ChunkOffset(x, chunk), chunk) == x
  {
    if x >= chunk {
      Coordinates(x - chunk, chunk);
      var q, r := (x - chunk) / chunk, (x - chunk) % chunk;
      assert x == chunk * (q + 1) + r;
      DivUnique(x, q + 1, r, chunk);
    } else {
      DivUnique(x, 0, x, chunk);
    }
  }

  lemma {:induction false} PositionCoordinates(c: nat, o: nat, chunk: nat)
    requires o < chunk
    ensures Position(c, o, chunk) == c * chunk + o
    ensures ChunkId(Position(c, o, chunk), chunk) == c && ChunkOffset(Position(c, o, chunk), chunk) == o
  {
    if c > 0 {
      PositionCoordinates(c - 1, o, chunk);
      assert c * chunk == (c - 1) * chunk + chunk;
    }
  }

  /** The chunks 0, ..., sets - 1 are exactly the positions below Position(sets, 0). */
  lemma {:induction false} SpanOfChunks(x: nat, chunk: nat, sets: nat)
    requires chunk > 0
    ensures x < Position(sets, 0, chunk) <==> ChunkId(x, chunk) < sets
  {
    if sets > 0 && x >= chunk { SpanOfChunks(x - chunk, chunk, sets - 1); }
  }

  lemma {:induction false} SpanIsProduct(chunk: nat, sets: nat)
    ensures Position(sets, 0, chunk) == chunk * sets
  {
    if sets > 0 {
      SpanIsProduct(chunk, sets - 1);
      assert chunk * sets == chunk * (sets - 1) + chunk;
    }
  }

  /** The smallest power of two whose square is at least 4*n, and the chunks that cover n entries. */
  method GenChunkParams(n: nat) returns (chunk: nat, sets: nat)
    ensures PowerOfTwo(chunk) && chunk * chunk >= 4 * n
    ensures chunk == 1 || (chunk / 2) * (chunk / 2) < 4 * n
    ensures n <= chunk * sets < n + chunk
  {
    chunk := 1;
    while chunk * chunk < 4 * n
      invariant PowerOfTwo(chunk)
      invariant chunk == 1 || (chunk / 2) * (chunk / 2) < 4 * n
      decreases 4 * n - chunk
    {
      Doubling(chunk, 4 * n);
      chunk := chunk * 2;
    }
    sets := CeilDivide(n, chunk);
  }

  method CeilDivide(n: nat, d: nat) returns (q: nat)
    requires d > 0
    ensures n <= d * q < n + d
  {
    q := (n + d - 1) / d;
    CeilDivision(n, d);
  }

  lemma CeilDivision(n: nat, d: nat)
    requires d > 0
    ensures n <= d * ((n + d - 1) / d) < n + d
  {
    var q, r := (n + d - 1) / d, (n + d - 1) % d;
    assert n + d - 1 == d * q + r;
  }

  lemma Doubling(c: nat, m: nat)
    requires PowerOfTwo(c) && c * c < m
    ensures PowerOfTwo(c * 2) && c * 2 / 2 == c && c < m
  {
    assert c >= 1;
    Squares(c);
  }

  lemma Squares(c: nat)
    requires c >= 1
    ensures c * c >= c
  {
  }
}
