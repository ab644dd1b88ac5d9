/** When the inputs of a cuckoo index find room, over their codes. */
module CuckooRoom {
  import opened Common
  import opened ModArith
  import opened CuckooIndex

  // ---- The hash functions

  lemma DivDiv(x: nat, a: nat, b: nat)
    requires a > 0 && b > 0
    ensures a * b > 0 && (x / a) / b == x / (a * b)
  {
    var y := x / a;
    NestedQuotient(x, a, b, y / b, y % b, x % a);
  }

  lemma NestedQuotient(x: nat, a: nat, b: nat, q: nat, r: nat, s: nat)
    requires r < b && s < a && x == a * (b * q + r) + s
    ensures a * b > 0 && x / (a * b) == q
  {
    var m, n := a * b, a * r;
    assert m == n + a * (b - r);
    SmallMultiple(b - r, a);
    assert a * (b * q + r) == m * q + n;
    DivUnique(x, q, n + s, m);
  }

  /** Hash function h reads the 64 bits of the code that start at bit 16*h. */
  lemma {:induction false} GetHashMeaning(code: nat, h: nat)
    ensures Drop16(code, h) == code / Pow2(16 * h)
    ensures GetHash(code, h) == (code / Pow2(16 * h)) % 0x1_0000_0000_0000_0000
  {
    if h > 0 {
      hide Pow2;
      GetHashMeaning(code, h - 1);
      Pow2Sixteen(16 * (h - 1));
      DivDiv(code, Pow2(16 * (h - 1)), 0x1_0000);
    } else {
      assert Pow2(0) == 1;
    }
  }

  lemma Pow2Sixteen(n: nat)
    ensures Pow2(n + 16) == Pow2(n) * 0x1_0000
  {
    Pow2Four(n);
    Pow2Four(n + 4);
    Pow2Four(n + 8);
    Pow2Four(n + 12);
  }

  lemma Pow2Four(n: nat)
    ensures Pow2(n + 4) == 16 * Pow2(n)
  {
    assert Pow2(n + 1) == 2 * Pow2(n);
    assert Pow2(n + 2) == 2 * Pow2(n + 1);
    assert Pow2(n + 3) == 2 * Pow2(n + 2);
  }

  // ---- Every hash function gets its turn

  /** An entry after n evictions. */
  ghost function Evicted(e: nat, numHash: nat, n: nat): nat
    requires numHash > 0
  {
    if n == 0 then e else NextCandidate(Evicted(e, numHash, n - 1), numHash)
  }

  lemma NextTurn(x: nat, m: nat)
    requires m > 0
    ensures (x % m + 1) % m == (x + 1) % m
  {
    ModIdem(x, m);
    AddCong(x % m, x, 1, 1, m);
  }

  /** The functions are tried in cyclic order. */
  lemma {:induction false} CyclicOrder(e: nat, numHash: nat, n: nat)
    requires HashIdx(e) < numHash < 255
    ensures InputIdx(Evicted(e, numHash, n)) == InputIdx(e)
    ensures HashIdx(Evicted(e, numHash, n)) == (HashIdx(e) + n) % numHash
  {
    hide InputIdx, HashIdx, Encode;
    if n == 0 {
      SmallMod(HashIdx(e), numHash);
    } else {
      CyclicOrder(e, numHash, n - 1);
      NextTurn(HashIdx(e) + n - 1, numHash);
      NextIs(Evicted(e, numHash, n - 1), numHash);
    }
  }

  lemma NextIs(e: nat, numHash: nat)
    requires 0 < numHash < 255
    ensures InputIdx(NextCandidate(e, numHash)) == InputIdx(e)
    ensures HashIdx(NextCandidate(e, numHash)) == (HashIdx(e) + 1) % numHash
  {
    PackingRoundTrip(InputIdx(e), (HashIdx(e) + 1) % numHash);
  }

  /** Within numHash evictions an input is tried with each of its hash functions. */
  lemma EveryFunctionTried(e: nat, numHash: nat, h: nat) returns (n: nat)
    requires HashIdx(e) < numHash < 255 && h < numHash
    ensures n < numHash && HashIdx(Evicted(e, numHash, n)) == h
  {
    hide HashIdx, Evicted;
    var h0 := HashIdx(e);
    n := if h >= h0 then h - h0 else h + numHash - h0;
    DivUnique(h0 + n, if h >= h0 then 0 else 1, h, numHash);
    CyclicOrder(e, numHash, n);
  }

  // ---- Two inputs

  /** The bin of visit k, when the two inputs take turns: input k mod 2 with its hash function k / 2. */
  ghost function Visit(codes: seq<nat>, numHash: nat, numBins: nat, k: nat): nat
    requires |codes| == 2 && numHash > 0 && numBins > 0
  {
    BinOf(codes[k % 2], (k / 2) % numHash, numBins)
  }

  /** The entry of visit k. */
  ghost function Visitor(numHash: nat, k: nat): nat
    requires numHash > 0
  {
    Encode(k % 2, (k / 2) % numHash)
  }

  /** Visit k has been made, and whoever was evicted is about to make visit k + 1. */
  ghost function AfterVisit(codes: seq<nat>, numHash: nat, numBins: nat, k: nat): Tables
    requires |codes| == 2 && numHash > 0 && numBins > 0
  {
    Tables(codes, numHash, Lone(numBins, Visit(codes, numHash, numBins, k), Visitor(numHash, k)),
           [Visitor(numHash, k + 1)], 0, 0, [])
  }

  ghost function Lone(numBins: nat, b: nat, e: nat): seq<nat> {
    seq(numBins, i => if i == b then e else EMPTY)
  }

  lemma VisitorIs(numHash: nat, k: nat)
    requires 0 < numHash < 255
    ensures InputIdx(Visitor(numHash, k)) == k % 2 && HashIdx(Visitor(numHash, k)) == (k / 2) % numHash
    ensures Visitor(numHash, k) != EMPTY
    ensures NextCandidate(Visitor(numHash, k), numHash) == Visitor(numHash, k + 2)
  {
    hide Encode, InputIdx, HashIdx;
    PackingRoundTrip(k % 2, (k / 2) % numHash);
    NextTurn(k / 2, numHash);
    assert (k + 2) / 2 == k / 2 + 1 && (k + 2) % 2 == k % 2;
  }

  /** A pass over one candidate. */
  lemma PassOne(t: Tables, at: seq<Place>, e: nat, b: nat)
    requires Consistent(t, at) && t.w == 0 && t.i == 0 && t.cands == [e]
    requires InputIdx(e) < |t.codes| && b == BinOf(t.codes[InputIdx(e)], HashIdx(e), |t.bins|)
    ensures b < |t.bins|
    ensures Passed(t, at).0 ==
      t.(bins := t.bins[b := e],
         cands := if t.bins[b] == EMPTY then [] else [NextCandidate(t.bins[b], t.numHash)])
  {
    hide Consistent, BinOf, InputIdx, HashIdx, NextCandidate, EntryOk;
    CandidateOk(t, at);
    PlacedConsistent(t, at);
    var t' := Placed(t);
    assert t'.i == 1 == |t'.cands|;
    assert t'.cands[..t'.w] == if t.bins[b] == EMPTY then [] else [NextCandidate(t.bins[b], t.numHash)];
  }

  lemma OneVisit(codes: seq<nat>, numHash: nat, numBins: nat, k: nat, at: seq<Place>)
    requires |codes| == 2 && 0 < numHash < 255 && numBins > 0
    requires Consistent(AfterVisit(codes, numHash, numBins, k), at)
    ensures var r := Passed(AfterVisit(codes, numHash, numBins, k), at).0;
      if Visit(codes, numHash, numBins, k + 1) == Visit(codes, numHash, numBins, k)
      then r == AfterVisit(codes, numHash, numBins, k + 1)
      else r.cands == []
  {
    hide Consistent, BinOf, InputIdx, HashIdx, NextCandidate, Encode, Passed, Visitor;
    VisitorIs(numHash, k);
    VisitorIs(numHash, k + 1);
    var t := AfterVisit(codes, numHash, numBins, k);
    PassOne(t, at, Visitor(numHash, k + 1), Visit(codes, numHash, numBins, k + 1));
    if Visit(codes, numHash, numBins, k + 1) == Visit(codes, numHash, numBins, k) {
      assert Lone(numBins, Visit(codes, numHash, numBins, k), Visitor(numHash, k))
               [Visit(codes, numHash, numBins, k) := Visitor(numHash, k + 1)]
          == Lone(numBins, Visit(codes, numHash, numBins, k + 1), Visitor(numHash, k + 1));
    }
  }

  ghost predicate Parts(codes: seq<nat>, numHash: nat, numBins: nat, k: nat, m: nat)
    requires |codes| == 2 && numHash > 0 && numBins > 0
  {
    Visit(codes, numHash, numBins, m) != Visit(codes, numHash, numBins, k)
  }

  lemma PartsMeans(codes: seq<nat>, numHash: nat, numBins: nat, k: nat)
    requires |codes| == 2 && numHash > 0 && numBins > 0
    ensures Parts(codes, numHash, numBins, k, k + 1) <==>
      Visit(codes, numHash, numBins, k + 1) != Visit(codes, numHash, numBins, k)
  {
  }

  lemma PartsNext(codes: seq<nat>, numHash: nat, numBins: nat, k: nat, next: nat, last: nat)
    requires |codes| == 2 && numHash > 0 && numBins > 0 && next == k + 1 && !Parts(codes, numHash, numBins, k, next)
    ensures (exists m :: k < m <= last && Parts(codes, numHash, numBins, k, m)) <==>
      (exists m :: next < m <= last && Parts(codes, numHash, numBins, next, m))
  {
    hide Visit;
    if m :| k < m <= last && Parts(codes, numHash, numBins, k, m) {
      assert Parts(codes, numHash, numBins, next, m);
    }
    if m :| next < m <= last && Parts(codes, numHash, numBins, next, m) {
      assert Parts(codes, numHash, numBins, k, m);
    }
  }

  lemma {:induction false} Visits(codes: seq<nat>, numHash: nat, numBins: nat, k: nat, at: seq<Place>, tries: nat)
    requires |codes| == 2 && 0 < numHash < 255 && numBins > 0
    requires Consistent(AfterVisit(codes, numHash, numBins, k), at)
    ensures Tried(AfterVisit(codes, numHash, numBins, k), at, tries).0.cands == [] <==>
      exists m :: k < m <= k + tries && Parts(codes, numHash, numBins, k, m)
    decreases tries
  {
    hide Consistent, Passed, Visit, Visitor, Parts;
    if tries > 0 {
      var t := AfterVisit(codes, numHash, numBins, k);
      OneVisit(codes, numHash, numBins, k, at);
      PartsMeans(codes, numHash, numBins, k);
      var next := Passed(t, at);
      if Parts(codes, numHash, numBins, k, k + 1) {
        assert Tried(next.0, next.1, tries - 1) == next;
      } else {
        Visits(codes, numHash, numBins, k + 1, next.1, tries - 1);
        PartsNext(codes, numHash, numBins, k, k + 1, k + tries);
      }
    }
  }

  /** The first pass over both inputs. */
  lemma FirstPass(codes: seq<nat>, numHash: nat, numBins: nat, at: seq<Place>)
    requires |codes| == 2 && 0 < numHash < 255 && numBins > 0
    requires Consistent(Extended(Blank(numHash, numBins, 0), codes), at)
    ensures var r := Passed(Extended(Blank(numHash, numBins, 0), codes), at).0;
      if Visit(codes, numHash, numBins, 1) == Visit(codes, numHash, numBins, 0)
      then r == AfterVisit(codes, numHash, numBins, 1)
      else r.cands == []
  {
    hide Consistent, BinOf, InputIdx, HashIdx, NextCandidate, Encode, EntryOk;
    var t0 := Extended(Blank(numHash, numBins, 0), codes);
    StartEntries(numHash);
    VisitorIs(numHash, 0);
    VisitorIs(numHash, 1);
    var b0, b1 := Visit(codes, numHash, numBins, 0), Visit(codes, numHash, numBins, 1);
    CandidateOk(t0, at);
    PlacedConsistent(t0, at);
    var t1, at1 := Placed(t0), PlacedAt(t0, at);
    assert t0.cands == [0, 1];
    assert t1.bins == Lone(numBins, b0, 0) && t1.cands == [0, 1] && t1.w == 0 && t1.i == 1;
    CandidateOk(t1, at1);
    PlacedConsistent(t1, at1);
    var t2, at2 := Placed(t1), PlacedAt(t1, at1);
    assert Passed(t0, at) == Passed(t2, at2);
    assert t2.i == 2 == |t2.cands|;
    if b0 == b1 {
      assert t2.bins == Lone(numBins, b1, 1);
      assert t2.cands[..t2.w] == [Visitor(numHash, 2)];
    } else {
      assert t2.w == 0;
    }
  }

  lemma StartEntries(numHash: nat)
    requires 0 < numHash < 255
    ensures Visitor(numHash, 0) == 0 && Visitor(numHash, 1) == 1 && EMPTY != 0
  {
    SmallMod(0, numHash);
  }

  /** Two inputs find room within the tries exactly when one of so many visits leaves their common first bin. */
  lemma RoomForTwoWithin(codes: seq<nat>, numHash: nat, numBins: nat, tries: nat)
    requires |codes| == 2 && 0 < numHash < 255 && numBins > 0
    ensures HasRoom(codes, numHash, numBins, tries) <==>
      exists k :: 0 < k <= tries && Parts(codes, numHash, numBins, 0, k)
  {
    hide Consistent, Passed, Visit;
    BlankConsistent(numHash, numBins, 0);
    var t, at := Extended(Blank(numHash, numBins, 0), codes), ExtendedAt([], codes);
    FreshConsistent(Blank(numHash, numBins, 0), [], codes, t.cands);
    if tries > 0 {
      FirstPass(codes, numHash, numBins, at);
      var next := Passed(t, at);
      if Parts(codes, numHash, numBins, 0, 1) {
        assert Tried(next.0, next.1, tries - 1) == next;
      } else {
        Visits(codes, numHash, numBins, 1, next.1, tries - 1);
        PartsNext(codes, numHash, numBins, 0, 1, tries);
      }
    }
  }

  /** Some hash function of one of the inputs reaches another bin than the first one of the first input. */
  ghost predicate Separable(codes: seq<nat>, numHash: nat, numBins: nat)
    requires |codes| == 2 && numBins > 0
  {
    exists x, h :: 0 <= x < 2 && 0 <= h < numHash && BinOf(codes[x], h, numBins) != BinOf(codes[0], 0, numBins)
  }

  /** With enough tries two inputs find room exactly when their hash functions do not all reach one bin. */
  lemma RoomForTwo(codes: seq<nat>, numHash: nat, numBins: nat, tries: nat)
    requires |codes| == 2 && 0 < numHash < 255 && numBins > 0 && tries >= 2 * numHash - 1
    ensures HasRoom(codes, numHash, numBins, tries) <==> Separable(codes, numHash, numBins)
  {
    hide BinOf, HasRoom;
    RoomForTwoWithin(codes, numHash, numBins, tries);
    SmallMod(0, numHash);
    if Separable(codes, numHash, numBins) {
      var x, h :| 0 <= x < 2 && 0 <= h < numHash && BinOf(codes[x], h, numBins) != BinOf(codes[0], 0, numBins);
      SmallMod(h, numHash);
      assert (2 * h + x) / 2 == h && (2 * h + x) % 2 == x;
      assert Parts(codes, numHash, numBins, 0, 2 * h + x);
    }
    if k :| 0 < k <= tries && Parts(codes, numHash, numBins, 0, k) {
      assert Separable(codes, numHash, numBins) by {
        var x, h := k % 2, (k / 2) % numHash;
        assert BinOf(codes[x], h, numBins) != BinOf(codes[0], 0, numBins);
      }
    }
  }

  /** Both inputs start in bin 0, and the second function of the second one reaches bin 1. */
  lemma EvictionSeparates()
    ensures HasRoom([0, 0x10000], 3, 8, 128)
  {
    hide HasRoom;
    var codes := [0, 0x10000];
    assert Drop16(0x10000, 0) == 0x10000;
    assert BinOf(codes[1], 1, 8) == 1 && BinOf(codes[0], 0, 8) == 0;
    RoomForTwo(codes, 3, 8, 128);
  }

  // ---- Any number of inputs

  /** One of the hash functions reaches the bin. */
  ghost predicate Reachable(code: nat, numHash: nat, numBins: nat, b: nat)
    requires numBins > 0
  {
    exists h :: 0 <= h < numHash && BinOf(code, h, numBins) == b
  }

  /** Different bins for all inputs, each one a bin of its input. */
  ghost predicate IsAssignment(codes: seq<nat>, numHash: nat, numBins: nat, home: seq<nat>)
    requires numBins > 0
  {
    && |home| == |codes|
    && (forall x :: 0 <= x < |home| ==> Reachable(codes[x], numHash, numBins, home[x]))
    && (forall x, y :: 0 <= x < y < |home| ==> home[x] != home[y])
  }

  /** Inputs that find room can all be given a bin of their own among the bins of their hash functions. */
  lemma RoomIsAssignment(codes: seq<nat>, numHash: nat, numBins: nat, tries: nat) returns (home: seq<nat>)
    requires 0 < numHash < 255 && numBins > 0 && |codes| <= HASH_SHIFT && HasRoom(codes, numHash, numBins, tries)
    ensures IsAssignment(codes, numHash, numBins, home)
  {
    hide Consistent, Tried, BinOf, Placed;
    BlankConsistent(numHash, numBins, 0);
    var t, at := Extended(Blank(numHash, numBins, 0), codes), ExtendedAt([], codes);
    FreshConsistent(Blank(numHash, numBins, 0), [], codes, t.cands);
    var last := Tried(t, at, tries);
    TriedKeeps(t, at, tries);
    assert t.codes == codes && last.0.cands == [];
    home := HomesOf(last.0, last.1);
  }

  lemma {:induction false} TriedKeeps(t: Tables, at: seq<Place>, tries: nat)
    requires Consistent(t, at) && t.w == 0 && t.i == 0
    ensures var r := Tried(t, at, tries).0;
      r.codes == t.codes && r.stash == t.stash && |r.bins| == |t.bins| && r.numHash == t.numHash
    decreases tries
  {
    hide Consistent, Placed, Passed;
    if t.cands != [] && tries > 0 {
      PassedKeeps(t, at);
      TriedKeeps(Passed(t, at).0, Passed(t, at).1, tries - 1);
    }
  }

  lemma {:induction false} PassedKeeps(t: Tables, at: seq<Place>)
    requires Consistent(t, at)
    ensures Passed(t, at).0.numHash == t.numHash
    decreases |t.cands| - t.i
  {
    hide Consistent;
    KnownCodes(t, at);
    if t.i < |t.cands| {
      CandidateOk(t, at);
      PlacedConsistent(t, at);
      PassedKeeps(Placed(t), PlacedAt(t, at));
    }
  }

  lemma HomesOf(t: Tables, at: seq<Place>) returns (home: seq<nat>)
    requires Consistent(t, at) && t.cands == [] && t.stash == []
    ensures |t.bins| > 0 && IsAssignment(t.codes, t.numHash, |t.bins|, home)
  {
    hide BinOf, InputIdx, HashIdx;
    forall x | 0 <= x < |at| ensures at[x].InBin? && Held(t, x, at[x]) { assert Held(t, x, at[x]); }
    home := seq(|at|, x requires 0 <= x < |at| => at[x].b);
    forall x, y | 0 <= x < y < |home| ensures home[x] != home[y] {
      assert InputIdx(t.bins[at[x].b]) == x && InputIdx(t.bins[at[y].b]) == y;
    }
    forall x | 0 <= x < |home| ensures Reachable(t.codes[x], t.numHash, |t.bins|, home[x]) {
      var e := t.bins[home[x]];
      assert EntryOk(t, e) && BinOf(t.codes[InputIdx(e)], HashIdx(e), |t.bins|) == home[x];
    }
  }
}
