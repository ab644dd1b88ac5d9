/** The cuckoo index: every input is assigned to one bin or to the stash. */
module CuckooIndex {
  import opened Common

  // ---- Packed bins

  const HASH_SHIFT: nat := 0x100_0000_0000_0000
  const EMPTY: nat := 0xFFFF_FFFF_FFFF_FFFF

  /** Eight bits of hash index above 56 bits of input index. */
  function Encode(input: nat, hash: nat): nat
    requires input < HASH_SHIFT
  {
    input + hash * HASH_SHIFT
  }

  function InputIdx(e: nat): nat { e % HASH_SHIFT }

  function HashIdx(e: nat): nat { (e / HASH_SHIFT) % 256 }

  /** Packing loses nothing, and with fewer than 255 hash functions never yields the empty marker. */
  lemma PackingRoundTrip(input: nat, hash: nat)
    requires input < HASH_SHIFT && hash < 255
    ensures InputIdx(Encode(input, hash)) == input && HashIdx(Encode(input, hash)) == hash
    ensures Encode(input, hash) < EMPTY
  {
  }

  /** The 64 bits of a 128-bit code that start at byte 2*idx. */
  function GetHash(code: nat, idx: nat): nat {
    Drop16(code, idx) % 0x1_0000_0000_0000_0000
  }

  function Drop16(code: nat, n: nat): nat {
    if n == 0 then code else Drop16(code, n - 1) / 0x1_0000
  }

  function BinOf(code: nat, hash: nat, numBins: nat): (b: nat)
    requires numBins > 0
    ensures b < numBins
  {
    GetHash(code, hash) % numBins
  }

  // ---- Where every input is

  datatype Place = InBin(b: nat) | Candidate(k: nat) | InStash(t: nat)

  /** The tables while candidates [0, w) and [i, end) are still to be placed. */
  datatype Tables = Tables(codes: seq<nat>, numHash: nat, bins: seq<nat>, cands: seq<nat>, w: nat, i: nat,
      stash: seq<nat>)

  ghost predicate Held(t: Tables, x: nat, p: Place) {
    match p
    case InBin(b) => b < |t.bins| && t.bins[b] != EMPTY && InputIdx(t.bins[b]) == x
    case Candidate(k) => k < |t.cands| && (k < t.w || t.i <= k) && InputIdx(t.cands[k]) == x
    case InStash(s) => s < |t.stash| && t.stash[s] != EMPTY && InputIdx(t.stash[s]) == x
  }

  /** An entry names a known input through a known hash function. */
  ghost predicate EntryOk(t: Tables, e: nat) {
    e != EMPTY && InputIdx(e) < |t.codes| && HashIdx(e) < t.numHash
  }

  ghost predicate Shaped(t: Tables) {
    && 1 <= t.numHash < 255 && |t.codes| <= HASH_SHIFT && 0 < |t.bins| && t.w <= t.i <= |t.cands|
  }

  /** Every input is at exactly the place `at` says, and every occupied bin is one its entry hashes to. */
  ghost predicate Consistent(t: Tables, at: seq<Place>) {
    && Shaped(t) && |at| == |t.codes|
    && (forall x :: 0 <= x < |at| ==> Held(t, x, at[x]))
    && (forall b :: 0 <= b < |t.bins| && t.bins[b] != EMPTY ==>
          EntryOk(t, t.bins[b]) && at[InputIdx(t.bins[b])] == InBin(b)
          && BinOf(t.codes[InputIdx(t.bins[b])], HashIdx(t.bins[b]), |t.bins|) == b)
    && (forall k :: 0 <= k < |t.cands| && (k < t.w || t.i <= k) ==>
          EntryOk(t, t.cands[k]) && at[InputIdx(t.cands[k])] == Candidate(k))
    && (forall s :: 0 <= s < |t.stash| && t.stash[s] != EMPTY ==>
          InputIdx(t.stash[s]) < |t.codes| && at[InputIdx(t.stash[s])] == InStash(s))
  }

  // ---- The steps of an insertion

  /** The evicted input tries its next hash function. */
  function NextCandidate(e: nat, numHash: nat): nat
    requires numHash > 0
  {
    Encode(InputIdx(e), (HashIdx(e) + 1) % numHash)
  }

  /** Candidate i goes to its bin; what it evicts becomes candidate w, which is never ahead of i. */
  ghost function Placed(t: Tables): Tables
    requires Shaped(t) && t.i < |t.cands| && EntryOk(t, t.cands[t.i])
  {
    var e := t.cands[t.i];
    var b := BinOf(t.codes[InputIdx(e)], HashIdx(e), |t.bins|);
    var old_ := t.bins[b];
    var t := t.(bins := t.bins[b := e], i := t.i + 1);
    if old_ == EMPTY then t
    else t.(cands := t.cands[t.w := NextCandidate(old_, t.numHash)], w := t.w + 1)
  }

  ghost function PlacedAt(t: Tables, at: seq<Place>): seq<Place>
    requires Consistent(t, at) && t.i < |t.cands|
  {
    var e := t.cands[t.i];
    var b := BinOf(t.codes[InputIdx(e)], HashIdx(e), |t.bins|);
    var old_ := t.bins[b];
    var at := at[InputIdx(e) := InBin(b)];
    if old_ == EMPTY then at else at[InputIdx(old_) := Candidate(t.w)]
  }

  lemma PlacedConsistent(t: Tables, at: seq<Place>)
    requires Consistent(t, at) && t.i < |t.cands|
    ensures Consistent(Placed(t), PlacedAt(t, at))
  {
    hide InputIdx, HashIdx, Encode, BinOf;
    var e := t.cands[t.i];
    var b := BinOf(t.codes[InputIdx(e)], HashIdx(e), |t.bins|);
    var old_ := t.bins[b];
    assert EntryOk(t, e) && at[InputIdx(e)] == Candidate(t.i);
    if old_ != EMPTY {
      assert EntryOk(t, old_) && at[InputIdx(old_)] == InBin(b);
      NextOk(t, old_);
    }
  }

  lemma NextOk(t: Tables, e: nat)
    requires Shaped(t) && EntryOk(t, e)
    ensures EntryOk(t, NextCandidate(e, t.numHash)) && InputIdx(NextCandidate(e, t.numHash)) == InputIdx(e)
  {
    PackingRoundTrip(InputIdx(e), (HashIdx(e) + 1) % t.numHash);
  }

  /** The compacted candidates of one pass are the candidates of the next. */
  lemma PassConsistent(t: Tables, at: seq<Place>)
    requires Consistent(t, at) && t.i == |t.cands|
    ensures Consistent(t.(cands := t.cands[..t.w], w := 0, i := 0), at)
  {
    hide InputIdx, HashIdx, Encode, BinOf, EntryOk;
    var t' := t.(cands := t.cands[..t.w], w := 0, i := 0);
    assert forall e :: EntryOk(t, e) ==> EntryOk(t', e) by { EntrySame(t, t'); }
  }

  lemma EntrySame(t: Tables, t': Tables)
    requires |t.codes| <= |t'.codes| && t.numHash == t'.numHash
    ensures forall e :: EntryOk(t, e) ==> EntryOk(t', e)
  {
  }

  /** Candidate i goes to an empty stash slot. */
  lemma StashedConsistent(t: Tables, at: seq<Place>, s: nat)
    requires Consistent(t, at) && t.w == 0 && t.i < |t.cands| && s < |t.stash| && t.stash[s] == EMPTY
    ensures var x := InputIdx(t.cands[t.i]);
      x < |at| && Consistent(t.(stash := t.stash[s := x], i := t.i + 1), at[x := InStash(s)])
  {
    var x := InputIdx(t.cands[t.i]);
    PackingRoundTrip(x, 0);
    hide InputIdx, HashIdx, Encode, BinOf, EntryOk;
    assert at[x] == Candidate(t.i);
    var t' := t.(stash := t.stash[s := x], i := t.i + 1);
    EntrySame(t, t');
  }

  /** New inputs start as candidates for their first hash function. */
  lemma FreshConsistent(t: Tables, at: seq<Place>, codes: seq<nat>, cands: seq<nat>)
    requires Consistent(t, at) && t.cands == [] && |t.codes| + |codes| <= HASH_SHIFT && |cands| == |codes|
    requires forall k :: 0 <= k < |cands| ==> cands[k] == |t.codes| + k
    ensures Consistent(t.(codes := t.codes + codes, cands := cands, w := 0, i := 0),
                       at + seq(|codes|, k requires 0 <= k => Candidate(k)))
  {
    var t' := t.(codes := t.codes + codes, cands := cands, w := 0, i := 0);
    var at' := at + seq(|codes|, k requires 0 <= k => Candidate(k));
    forall k | 0 <= k < |cands| ensures EntryOk(t', cands[k]) && at'[InputIdx(cands[k])] == Candidate(k) {
      PackingRoundTrip(cands[k], 0);
    }
    forall x | 0 <= x < |at'| ensures Held(t', x, at'[x]) {
      if x >= |at| { PackingRoundTrip(x, 0); assert cands[x - |at|] == x; } else { assert Held(t, x, at[x]); }
    }
  }

  // ---- Whole passes and whole insertions

  /** The rest of a pass, and the compacted candidates it leaves for the next one. */
  ghost function Passed(t: Tables, at: seq<Place>): (r: (Tables, seq<Place>))
    requires Consistent(t, at)
    ensures Consistent(r.0, r.1) && r.0.w == 0 && r.0.i == 0 && |r.0.cands| <= |t.cands|
    ensures r.0.codes == t.codes && r.0.stash == t.stash && |r.0.bins| == |t.bins|
    decreases |t.cands| - t.i
  {
    if t.i == |t.cands| then
      PassConsistent(t, at);
      (t.(cands := t.cands[..t.w], w := 0, i := 0), at)
    else
      PlacedConsistent(t, at);
      Passed(Placed(t), PlacedAt(t, at))
  }

  /** At most so many passes, as long as there are candidates. */
  ghost function Tried(t: Tables, at: seq<Place>, tries: nat): (r: (Tables, seq<Place>))
    requires Consistent(t, at) && t.w == 0 && t.i == 0
    ensures Consistent(r.0, r.1) && r.0.w == 0 && r.0.i == 0
    decreases tries
  {
    if t.cands == [] || tries == 0 then (t, at)
    else
      var next := Passed(t, at);
      Tried(next.0, next.1, tries - 1)
  }

  /** The tables with the new inputs as candidates for their first hash function. */
  ghost function Extended(t: Tables, codes: seq<nat>): Tables {
    t.(codes := t.codes + codes, cands := seq(|codes|, k requires 0 <= k => |t.codes| + k), w := 0, i := 0)
  }

  ghost function ExtendedAt(at: seq<Place>, codes: seq<nat>): seq<Place> {
    at + seq(|codes|, k requires 0 <= k => Candidate(k))
  }

  ghost function Blank(numHash: nat, numBins: nat, numStash: nat): Tables {
    Tables([], numHash, seq(numBins, _ => EMPTY), [], 0, 0, seq(numStash, _ => EMPTY))
  }

  /** How many of the new inputs still have no bin when the tries are used up. */
  ghost function Leftover(t: Tables, at: seq<Place>, codes: seq<nat>, tries: nat): nat
    requires Consistent(t, at) && t.cands == [] && |t.codes| + |codes| <= HASH_SHIFT
  {
    FreshConsistent(t, at, codes, seq(|codes|, k requires 0 <= k => |t.codes| + k));
    |Tried(Extended(t, codes), ExtendedAt(at, codes), tries).0.cands|
  }

  lemma BlankConsistent(numHash: nat, numBins: nat, numStash: nat)
    requires 1 <= numHash < 255 && numBins > 0
    ensures Consistent(Blank(numHash, numBins, numStash), [])
  {
  }

  /** A fresh index without a stash has a bin for every input within the tries. */
  ghost predicate HasRoom(codes: seq<nat>, numHash: nat, numBins: nat, tries: nat)
    requires 1 <= numHash < 255 && numBins > 0 && |codes| <= HASH_SHIFT
  {
    BlankConsistent(numHash, numBins, 0);
    Leftover(Blank(numHash, numBins, 0), [], codes, tries) == 0
  }

  ghost function FreeSlots(stash: seq<nat>): nat {
    if stash == [] then 0 else FreeSlots(stash[..|stash| - 1]) + if stash[|stash| - 1] == EMPTY then 1 else 0
  }

  lemma {:induction false} FillSlot(stash: seq<nat>, s: nat, e: nat)
    requires s < |stash| && stash[s] == EMPTY && e != EMPTY
    ensures FreeSlots(stash) == FreeSlots(stash[s := e]) + 1
  {
    var n := |stash| - 1;
    if s < n {
      FillSlot(stash[..n], s, e);
      assert stash[s := e][..n] == stash[..n][s := e];
    } else {
      assert stash[s := e][..n] == stash[..n];
    }
  }

  lemma {:induction false} NoFreeSlot(stash: seq<nat>)
    requires forall s :: 0 <= s < |stash| ==> stash[s] != EMPTY
    ensures FreeSlots(stash) == 0
  {
    if stash != [] { NoFreeSlot(stash[..|stash| - 1]); }
  }

  // ---- The index

  class Index {
    const numInput: nat
    const numHash: nat
    const maxTry: nat
    const bins: array<nat>
    const stash: array<nat>
    var codes: seq<nat>
    ghost var at: seq<Place>

    ghost function State(cands: seq<nat>, w: nat, i: nat): Tables
      reads this, bins, stash
    {
      Tables(codes, numHash, bins[..], cands, w, i, stash[..])
    }

    ghost predicate Valid()
      reads this, bins, stash
    {
      bins != stash && numInput <= HASH_SHIFT && Consistent(State([], 0, 0), at)
    }

    constructor (numInput: nat, numStash: nat, numHash: nat, numBins: nat, maxTry: nat)
      requires numInput <= HASH_SHIFT && 1 <= numHash <= 5 && numBins > 0
      ensures Valid() && codes == [] && this.numInput == numInput && this.numHash == numHash
      ensures fresh(bins) && fresh(stash) && bins.Length == numBins && stash.Length == numStash
      ensures State([], 0, 0) == Blank(numHash, numBins, numStash) && at == [] && this.maxTry == maxTry
    {
      this.numInput, this.numHash, this.maxTry := numInput, numHash, maxTry;
      bins := new nat[numBins](_ => EMPTY);
      stash := new nat[numStash](_ => EMPTY);
      codes, at := [], [];
      new;
      assert bins[..] == seq(numBins, _ => EMPTY) && stash[..] == seq(numStash, _ => EMPTY);
    }

    method PlaceCandidate(cands: array<nat>, len: nat, w: nat, i: nat) returns (w': nat)
      requires cands != bins && cands != stash && bins != stash && i < len <= cands.Length
      requires Consistent(State(cands[..len], w, i), at)
      modifies bins, cands, this`at
      ensures w' == w || w' == w + 1
      ensures Consistent(State(cands[..len], w', i + 1), at)
      ensures State(cands[..len], w', i + 1) == old(Placed(State(cands[..len], w, i)))
      ensures at == old(PlacedAt(State(cands[..len], w, i), at))
    {
      hide Consistent, InputIdx, HashIdx, BinOf, NextCandidate, EntryOk;
      ghost var t := State(cands[..len], w, i);
      CandidateOk(t, at);
      PlacedConsistent(t, at);
      var e := cands[i];
      var b := BinOf(codes[InputIdx(e)], HashIdx(e), bins.Length);
      var evicted := bins[b];
      at := PlacedAt(t, at);
      bins[b] := e;
      w' := w;
      if evicted != EMPTY {
        cands[w] := NextCandidate(evicted, numHash);
        w' := w + 1;
      }
      assert State(cands[..len], w', i + 1) == Placed(t);
    }

    /** Passes over the candidates until none is left or the tries are used up; the rest goes to the
        stash, and a full stash is an error. */
    method Insert(newCodes: seq<nat>) returns (ok: bool)
      requires Valid()
      modifies this, bins, stash
      ensures |codes| == |old(codes)| + |newCodes| && codes == old(codes) + newCodes
      ensures ok ==> Valid() && |codes| <= numInput
      ensures ok <==>
        |codes| <= numInput && old(Leftover(State([], 0, 0), at, newCodes, maxTry)) <= old(FreeSlots(stash[..]))
    {
      hide Consistent, Passed, Placed, PlacedAt, InputIdx, HashIdx, BinOf, EntryOk, FreeSlots;
      ghost var t0, at0 := State([], 0, 0), at;
      var offset := |codes|;
      codes := codes + newCodes;
      if |codes| > numInput {
        return false;
      }
      KnownCodes(t0, at0);
      var cands := new nat[|newCodes|](k requires 0 <= k => offset + k);
      var len: nat := |newCodes|;
      FreshConsistent(t0, at, newCodes, cands[..len]);
      at := ExtendedAt(at, newCodes);
      assert State(cands[..len], 0, 0) == Extended(t0, newCodes);
      ghost var last := Tried(Extended(t0, newCodes), at, maxTry);
      var tries := 0;
      while len > 0 && tries < maxTry
        invariant len <= cands.Length && codes == old(codes) + newCodes && |codes| <= numInput && 0 <= tries <= maxTry
        invariant Consistent(State(cands[..len], 0, 0), at) && stash[..] == old(stash[..])
        invariant Tried(State(cands[..len], 0, 0), at, maxTry - tries) == last
      {
        tries := tries + 1;
        len := Pass(cands, len);
      }
      assert |cands[..len]| == len;
      ok := StashRest(cands, len);
    }

    /** One pass, compacting the evicted inputs to the front of the array it reads from. */
    method Pass(cands: array<nat>, len: nat) returns (w: nat)
      requires cands != bins && cands != stash && bins != stash && len <= cands.Length
      requires Consistent(State(cands[..len], 0, 0), at)
      modifies bins, cands, this`at
      ensures w <= len && Consistent(State(cands[..w], 0, 0), at)
      ensures (State(cands[..w], 0, 0), at) == old(Passed(State(cands[..len], 0, 0), at))
    {
      hide Consistent, Placed, PlacedAt;
      ghost var last := Passed(State(cands[..len], 0, 0), at);
      w := 0;
      for i := 0 to len
        invariant w <= i && Consistent(State(cands[..len], w, i), at)
        invariant Passed(State(cands[..len], w, i), at) == last
      {
        w := PlaceCandidate(cands, len, w, i);
      }
      PassConsistent(State(cands[..len], w, len), at);
      assert cands[..len][..w] == cands[..w];
    }

    /** What is left goes to the stash, which must have room for it. */
    method StashRest(cands: array<nat>, len: nat) returns (ok: bool)
      requires cands != bins && cands != stash && bins != stash && len <= cands.Length && numInput <= HASH_SHIFT
      requires Consistent(State(cands[..len], 0, 0), at)
      modifies stash, this`at
      ensures ok ==> Valid()
      ensures ok <==> len <= old(FreeSlots(stash[..]))
    {
      hide Consistent, InputIdx, EntryOk, FreeSlots;
      for j := 0 to len
        invariant Consistent(State(cands[..len], 0, j), at)
        invariant FreeSlots(stash[..]) + j == old(FreeSlots(stash[..]))
      {
        CandidateOk(State(cands[..len], 0, j), at);
        var s := FindEmpty();
        if s == stash.Length {
          NoFreeSlot(stash[..]);
          return false;
        }
        StashedConsistent(State(cands[..len], 0, j), at, s);
        assert stash[..][s] == EMPTY && InputIdx(cands[j]) != EMPTY by { InputIsNotEmpty(cands[j]); }
        FillSlot(stash[..], s, InputIdx(cands[j]));
        at := at[InputIdx(cands[j]) := InStash(s)];
        stash[s] := InputIdx(cands[j]);
      }
      NoneLeft(State(cands[..len], 0, len), at);
      ok := true;
    }

    method FindEmpty() returns (s: nat)
      ensures s <= stash.Length && (s < stash.Length ==> stash[s] == EMPTY)
      ensures forall r :: 0 <= r < s ==> stash[r] != EMPTY
    {
      s := 0;
      while s < stash.Length && stash[s] != EMPTY
        invariant s <= stash.Length && forall r :: 0 <= r < s ==> stash[r] != EMPTY
      {
        s := s + 1;
      }
    }

    /** No input is held twice, and the held inputs are exactly 0, ..., numInput - 1. */
    method SanityCheck() returns (ok: bool)
      requires Valid()
      ensures ok <==> |codes| == numInput
    {
      hide InputIdx, HashIdx, BinOf;
      ok := true;
      var seen: set<nat> := {};
      for b := 0 to bins.Length
        invariant ok && forall x :: x in seen <==> 0 <= x < |at| && at[x].InBin? && at[x].b < b
      {
        if bins[b] != EMPTY {
          assert at[InputIdx(bins[..][b])] == InBin(b);
          ok := ok && InputIdx(bins[b]) !in seen;
          seen := seen + {InputIdx(bins[b])};
        }
      }
      for s := 0 to stash.Length
        invariant ok && forall x :: x in seen <==> 0 <= x < |at| && (at[x].InBin? || (at[x].InStash? && at[x].t < s))
      {
        if stash[s] != EMPTY {
          assert at[InputIdx(stash[..][s])] == InStash(s);
          ok := ok && InputIdx(stash[s]) !in seen;
          seen := seen + {InputIdx(stash[s])};
        }
      }
      forall x | 0 <= x < |at| ensures x in seen { assert Held(State([], 0, 0), x, at[x]); }
      assert seen == Below(|codes|);
      ok := ok && |seen| == numInput;
      if ok {
        for i := 0 to numInput
          invariant ok
        {
          ok := ok && i in seen;
        }
      }
    }

    /** The least hash function that maps the occupant of bin b to b. */
    method MinCollidingHashIdx(b: nat) returns (h: nat)
      requires Valid() && b < bins.Length && bins[b] != EMPTY
      ensures InputIdx(bins[b]) < |codes| && h < numHash
      ensures BinOf(codes[InputIdx(bins[b])], h, bins.Length) == b
      ensures forall g :: 0 <= g < h ==> BinOf(codes[InputIdx(bins[b])], g, bins.Length) != b
    {
      hide InputIdx, HashIdx, BinOf;
      var e := bins[b];
      assert EntryOk(State([], 0, 0), bins[..][b]);
      assert BinOf(codes[InputIdx(e)], HashIdx(e), bins.Length) == b;
      h := 0;
      while BinOf(codes[InputIdx(e)], h, bins.Length) != b
        invariant h <= HashIdx(e)
        invariant forall g :: 0 <= g < h ==> BinOf(codes[InputIdx(e)], g, bins.Length) != b
        decreases HashIdx(e) - h
      {
        h := h + 1;
      }
    }
  }

  /** With nothing left to place, each input is held at one place and no other. */
  lemma ExactlyOnePlace(t: Tables, at: seq<Place>, x: nat, p: Place)
    requires Consistent(t, at) && x < |at|
    ensures Held(t, x, p) <==> p == at[x]
  {
    hide InputIdx, HashIdx, BinOf;
    assert Held(t, x, at[x]);
  }

  lemma InputIsNotEmpty(e: nat)
    ensures InputIdx(e) < EMPTY
  {
  }

  lemma KnownCodes(t: Tables, at: seq<Place>)
    requires Consistent(t, at)
    ensures |at| == |t.codes| && Shaped(t)
  {
  }

  lemma CandidateOk(t: Tables, at: seq<Place>)
    requires Consistent(t, at) && t.i < |t.cands|
    ensures Shaped(t) && EntryOk(t, t.cands[t.i]) && InputIdx(t.cands[t.i]) < |t.codes| == |at|
  {
  }

  lemma NoneLeft(t: Tables, at: seq<Place>)
    requires Consistent(t, at) && t.w == 0 && t.i == |t.cands|
    ensures Consistent(t.(cands := [], i := 0), at)
  {
    hide InputIdx, HashIdx, BinOf;
  }
}
