/** Fixed-size database entries under bytewise exclusive or. */
module Entry {
  type Entry = seq<bv8>

  function Zero(size: nat): (r: Entry)
    ensures |r| == size && forall i :: 0 <= i < size ==> r[i] == 0
  {
    seq(size, _ => 0)
  }

  function Xor(a: Entry, b: Entry): (r: Entry)
    requires |a| == |b|
    ensures |r| == |a|
  {
    seq(|a|, i requires 0 <= i < |a| => a[i] ^ b[i])
  }

  lemma XorByte(a: bv8, b: bv8, c: bv8)
    ensures a ^ b == b ^ a && (a ^ b) ^ c == a ^ (b ^ c) && (a ^ a) ^ b == b && a ^ 0 == a
  {
  }

  lemma XorComm(a: Entry, b: Entry)
    requires |a| == |b|
    ensures Xor(a, b) == Xor(b, a)
  {
    forall i | 0 <= i < |a| ensures Xor(a, b)[i] == Xor(b, a)[i] { XorByte(a[i], b[i], 0); }
  }

  lemma XorAssoc(a: Entry, b: Entry, c: Entry)
    requires |a| == |b| == |c|
    ensures Xor(Xor(a, b), c) == Xor(a, Xor(b, c))
  {
    forall i | 0 <= i < |a| ensures Xor(Xor(a, b), c)[i] == Xor(a, Xor(b, c))[i] { XorByte(a[i], b[i], c[i]); }
  }

  lemma XorSwap(a: Entry, b: Entry, c: Entry)
    requires |a| == |b| == |c|
    ensures Xor(Xor(a, b), c) == Xor(Xor(a, c), b)
  {
    XorAssoc(a, b, c);
    XorComm(b, c);
    XorAssoc(a, c, b);
  }

  /** Two parities over sets that differ in one element, corrected by the replacement, leave the other element. */
  lemma XorRecover(base: Entry, x: Entry, r: Entry)
    requires |base| == |x| == |r|
    ensures Xor(Xor(Xor(base, x), Xor(base, r)), r) == x
  {
    forall i | 0 <= i < |base| ensures Xor(Xor(Xor(base, x), Xor(base, r)), r)[i] == x[i] {
      XorRecoverByte(base[i], x[i], r[i]);
    }
  }

  lemma XorRecoverByte(b: bv8, x: bv8, r: bv8)
    ensures ((b ^ x) ^ (b ^ r)) ^ r == x
  {
  }

  /** In-place exclusive or; refused when the sizes differ. */
  method XorInto(a: array<bv8>, b: Entry) returns (ok: bool)
    modifies a
    ensures ok == (a.Length == |b|)
    ensures a[..] == if ok then Xor(old(a[..]), b) else old(a[..])
    ensures ok ==> forall i :: 0 <= i < a.Length ==> a[i] == old(a[i]) ^ b[i]
  {
    ok := a.Length == |b|;
    if ok {
      for i := 0 to a.Length
        invariant forall k :: 0 <= k < i ==> a[k] == old(a[k]) ^ b[k]
        invariant forall k :: i <= k < a.Length ==> a[k] == old(a[k])
      {
        a[i] := a[i] ^ b[i];
      }
      assert a[..] == Xor(old(a[..]), b);
    }
  }

  /** A buffer of its own with the given contents. */
  method Fill(e: Entry) returns (a: array<bv8>)
    ensures fresh(a) && a[..] == e
  {
    a := new bv8[|e|](i requires 0 <= i < |e| => e[i]);
  }

  // ---- Parity of a selection of a database

  /** The parity of the entries idx[c] for the c < n that are in `on`. */
  ghost function Parity(db: seq<Entry>, size: nat, idx: seq<nat>, on: set<nat>, n: nat): (r: Entry)
    requires n <= |idx| && Uniform(db, size) && InRange(idx, |db|)
    ensures |r| == size
  {
    if n == 0 then Zero(size)
    else
      var r := Parity(db, size, idx, on, n - 1);
      if n - 1 in on then Xor(r, db[idx[n - 1]]) else r
  }

  ghost predicate Uniform(db: seq<Entry>, size: nat) {
    forall i :: 0 <= i < |db| ==> |db[i]| == size
  }

  ghost predicate InRange(idx: seq<nat>, n: nat) {
    forall c :: 0 <= c < |idx| ==> idx[c] < n
  }

  /** Only the selected positions matter. */
  lemma {:induction false} ParityFrame(db: seq<Entry>, size: nat, idx: seq<nat>, idx': seq<nat>, on: set<nat>,
      on': set<nat>, n: nat)
    requires n <= |idx| && n <= |idx'| && Uniform(db, size) && InRange(idx, |db|) && InRange(idx', |db|)
    requires forall c :: 0 <= c < n ==> (c in on <==> c in on')
    requires forall c :: 0 <= c < n && c in on ==> idx[c] == idx'[c]
    ensures Parity(db, size, idx, on, n) == Parity(db, size, idx', on', n)
  {
    if n > 0 {
      ParityFrame(db, size, idx, idx', on, on', n - 1);
    }
  }

  /** Selecting one more position exclusive-ors its entry in. */
  lemma {:induction false} ParityInsert(db: seq<Entry>, size: nat, idx: seq<nat>, on: set<nat>, c: nat, n: nat)
    requires c < n <= |idx| && Uniform(db, size) && InRange(idx, |db|) && c !in on
    ensures Parity(db, size, idx, on + {c}, n) == Xor(Parity(db, size, idx, on, n), db[idx[c]])
  {
    if c == n - 1 {
      ParityFrame(db, size, idx, idx, on, on + {c}, n - 1);
    } else {
      ParityInsert(db, size, idx, on, c, n - 1);
      if n - 1 in on {
        XorSwap(Parity(db, size, idx, on, n - 1), db[idx[c]], db[idx[n - 1]]);
      }
    }
  }

  /** Nothing selected gives zero, and one position its entry. */
  lemma {:induction false} ParityOfOne(db: seq<Entry>, size: nat, idx: seq<nat>, c: nat, n: nat)
    requires n <= |idx| && Uniform(db, size) && InRange(idx, |db|) && c < |idx|
    ensures Parity(db, size, idx, {}, n) == Zero(size)
    ensures Parity(db, size, idx, {c}, n) == if c < n then db[idx[c]] else Zero(size)
  {
    if n > 0 {
      ParityOfOne(db, size, idx, c, n - 1);
      if c == n - 1 { ZeroNeutral(db[idx[c]]); }
    }
  }

  lemma ZeroNeutral(e: Entry)
    ensures Xor(Zero(|e|), e) == e
  {
    forall i | 0 <= i < |e| ensures Xor(Zero(|e|), e)[i] == e[i] { XorByte(0, e[i], 0); }
  }
}
