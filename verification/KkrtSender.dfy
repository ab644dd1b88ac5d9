/** The KKRT sender: collision slots, opportunistic encoding while corrections arrive, and batching. */
module KkrtSender {
  import opened Common
  import opened CuckooIndex

  /** A hashed item with the number of times it occurs in the sender's table. */
  datatype Item = Item(data: nat, cnt: nat)

  /** The ideal function (bin, item) -> code, and the random code that fills slot (i, h). */
  datatype Oprf = Oprf(eval: (nat, nat) -> nat, fill: (nat, nat) -> nat)

  /** One message: three codes per item, and the counts of the items that occur more than once. */
  datatype Batch = Batch(num: nat, codes: seq<nat>, dup: map<nat, nat>, last: bool)

  const NONE: nat := 0xFFFF_FFFF_FFFF_FFFF

  /** Hash function h is the first one that sends the item to its bin. */
  predicate FirstUse(code: nat, h: nat, numBins: nat)
    requires numBins > 0
  {
    forall g :: 0 <= g < h ==> BinOf(code, g, numBins) != BinOf(code, h, numBins)
  }

  /** What the sender must send for item i and hash function h. */
  ghost function SlotCode(f: Oprf, items: seq<Item>, numBins: nat, i: nat, h: nat): nat
    requires numBins > 0 && i < |items|
  {
    if FirstUse(items[i].data, h, numBins) then f.eval(BinOf(items[i].data, h, numBins), items[i].data)
    else f.fill(i, h)
  }

  /** Slot (i, h): still waiting for its bin, or already holding its final code. */
  ghost predicate SlotOk(f: Oprf, items: seq<Item>, numBins: nat, i: nat, h: nat, bin: nat, code: nat)
    requires numBins > 0 && i < |items|
  {
    || (bin == NONE && code == SlotCode(f, items, numBins, i, h))
    || (bin < numBins && SlotCode(f, items, numBins, i, h) == f.eval(bin, items[i].data))
  }

  method Invert(perm: seq<nat>) returns (inv: array<nat>)
    requires IsPermutation(perm, |perm|)
    ensures fresh(inv) && inv.Length == |perm|
    ensures forall i :: 0 <= i < |perm| ==> inv[i] < |perm| && perm[inv[i]] == i
  {
    inv := new nat[|perm|](_ => 0);
    for t := 0 to |perm|
      invariant forall u :: 0 <= u < t ==> inv[perm[u]] == u
    {
      inv[perm[t]] := t;
    }
    forall i | 0 <= i < |perm| ensures inv[i] < |perm| && perm[inv[i]] == i {
      assert i in perm;
      var t :| 0 <= t < |perm| && perm[t] == i;
    }
  }

  /** The collision flags single out the first uses. */
  lemma CollisionFlags(code: nat, numBins: nat)
    requires numBins > 0
    ensures FirstUse(code, 0, numBins)
    ensures FirstUse(code, 1, numBins) <==> BinOf(code, 0, numBins) != BinOf(code, 1, numBins)
    ensures FirstUse(code, 2, numBins) <==>
            BinOf(code, 0, numBins) != BinOf(code, 2, numBins) && BinOf(code, 1, numBins) != BinOf(code, 2, numBins)
  {
    hide BinOf;
  }

  // ---- What goes over the wire

  /** Entry j of a batch that starts at the given position holds the three codes of its item. */
  ghost predicate RowAt(f: Oprf, items: seq<Item>, numBins: nat, perm: seq<nat>, codes: seq<nat>, start: nat, j: nat)
    requires numBins > 0 && IsPermutation(perm, |items|) && start + j < |items| && 3 * j + 2 < |codes|
  {
    && codes[3 * j] == SlotCode(f, items, numBins, perm[start + j], 0)
    && codes[3 * j + 1] == SlotCode(f, items, numBins, perm[start + j], 1)
    && codes[3 * j + 2] == SlotCode(f, items, numBins, perm[start + j], 2)
  }

  /** The codes of positions start, ..., start + n - 1. */
  ghost predicate RowsAt(f: Oprf, items: seq<Item>, numBins: nat, perm: seq<nat>, codes: seq<nat>, start: nat, n: nat)
    requires numBins > 0 && IsPermutation(perm, |items|) && start + n <= |items|
  {
    |codes| == 3 * n && forall j :: 0 <= j < n ==> RowAt(f, items, numBins, perm, codes, start, j)
  }

  /** The counts above one of positions start, ..., start + n - 1. */
  ghost predicate CountsAt(items: seq<Item>, perm: seq<nat>, dup: map<nat, nat>, start: nat, n: nat)
    requires IsPermutation(perm, |items|) && start + n <= |items|
  {
    && (forall j :: j in dup <==> 0 <= j < n && items[perm[start + j]].cnt > 1)
    && (forall j :: j in dup ==> dup[j] == items[perm[start + j]].cnt)
  }

  lemma NothingCarried(f: Oprf, items: seq<Item>, numBins: nat, perm: seq<nat>, start: nat)
    requires numBins > 0 && IsPermutation(perm, |items|) && start <= |items|
    ensures RowsAt(f, items, numBins, perm, [], start, 0) && CountsAt(items, perm, map[], start, 0)
  {
  }

  lemma RowsGrow(f: Oprf, items: seq<Item>, numBins: nat, perm: seq<nat>, codes: seq<nat>, start: nat, n: nat,
      row: seq<nat>)
    requires numBins > 0 && IsPermutation(perm, |items|) && start + n < |items|
    requires RowsAt(f, items, numBins, perm, codes, start, n)
    requires |row| == 3 && forall h :: 0 <= h < 3 ==> row[h] == SlotCode(f, items, numBins, perm[start + n], h)
    ensures RowsAt(f, items, numBins, perm, codes + row, start, n + 1)
  {
    hide SlotCode;
    forall k: nat | k < n ensures RowAt(f, items, numBins, perm, codes + row, start, k) {
      assert RowAt(f, items, numBins, perm, codes, start, k);
    }
  }

  lemma CountsGrow(items: seq<Item>, perm: seq<nat>, dup: map<nat, nat>, start: nat, n: nat)
    requires IsPermutation(perm, |items|) && start + n < |items| && CountsAt(items, perm, dup, start, n)
    ensures var cnt := items[perm[start + n]].cnt;
      CountsAt(items, perm, if cnt > 1 then dup[n := cnt] else dup, start, n + 1)
  {
  }

  /** The batch that carries positions start, ..., start + num - 1. */
  ghost predicate BatchOk(f: Oprf, items: seq<Item>, numBins: nat, perm: seq<nat>, b: Batch, start: nat)
    requires numBins > 0 && IsPermutation(perm, |items|)
  {
    && start + b.num <= |items| && RowsAt(f, items, numBins, perm, b.codes, start, b.num)
    && CountsAt(items, perm, b.dup, start, b.num)
  }

  ghost function End(batches: seq<Batch>, start: nat): nat {
    if batches == [] then start else End(batches[1..], start + batches[0].num)
  }

  /** Consecutive batches from position start on. */
  ghost predicate Chain(f: Oprf, items: seq<Item>, numBins: nat, perm: seq<nat>, batches: seq<Batch>, start: nat)
    requires numBins > 0 && IsPermutation(perm, |items|)
  {
    batches != [] ==>
      && BatchOk(f, items, numBins, perm, batches[0], start)
      && Chain(f, items, numBins, perm, batches[1..], start + batches[0].num)
  }

  /** Together the batches carry every position once, and only the final one is marked as the last. */
  ghost predicate Sent(f: Oprf, items: seq<Item>, numBins: nat, perm: seq<nat>, batches: seq<Batch>)
    requires numBins > 0 && IsPermutation(perm, |items|)
  {
    && batches != [] && Chain(f, items, numBins, perm, batches, 0) && End(batches, 0) == |items|
    && forall k :: 0 <= k < |batches| ==> (batches[k].last <==> k == |batches| - 1)
  }

  lemma {:induction false} ChainSnoc(f: Oprf, items: seq<Item>, numBins: nat, perm: seq<nat>, batches: seq<Batch>,
      b: Batch, start: nat)
    requires numBins > 0 && IsPermutation(perm, |items|)
    requires Chain(f, items, numBins, perm, batches, start) && BatchOk(f, items, numBins, perm, b, End(batches, start))
    ensures Chain(f, items, numBins, perm, batches + [b], start)
    ensures End(batches + [b], start) == End(batches, start) + b.num
  {
    hide BatchOk, IsPermutation;
    if batches == [] {
      assert (batches + [b])[1..] == [];
    } else {
      ChainSnoc(f, items, numBins, perm, batches[1..], b, start + batches[0].num);
      assert (batches + [b])[1..] == batches[1..] + [b];
    }
  }

  /** A working state: item i has bins[i, 0..3]; position t of the buffer serves item perm[t]. */
  class Encoder {
    const f: Oprf
    const items: seq<Item>
    const numBins: nat
    const perm: seq<nat>
    const bins: array2<nat>
    const buf: array2<nat>

    ghost predicate Shaped()
    {
      && bins != buf && 0 < numBins <= NONE && IsPermutation(perm, |items|)
      && bins.Length0 == buf.Length0 == |items| && bins.Length1 == buf.Length1 == 3
    }

    ghost predicate Slot(t: int, h: int)
      requires Shaped() && 0 <= t < |items| && 0 <= h < 3
      reads bins, buf
    {
      SlotOk(f, items, numBins, perm[t], h, bins[perm[t], h], buf[t, h])
    }

    ghost predicate Valid()
      reads bins, buf
    {
      Shaped() && forall t, h :: 0 <= t < |items| && 0 <= h < 3 ==> Slot(t, h)
    }

    /** Slots whose bin repeats an earlier one are marked done and filled at once. */
    constructor (f: Oprf, items: seq<Item>, numBins: nat, perm: seq<nat>)
      requires 0 < numBins <= NONE && IsPermutation(perm, |items|)
      ensures Valid() && fresh(bins) && fresh(buf)
      ensures this.f == f && this.items == items && this.numBins == numBins && this.perm == perm
    {
      this.f, this.items, this.numBins, this.perm := f, items, numBins, perm;
      bins := new nat[|items|, 3]((_, _) => 0);
      buf := new nat[|items|, 3]((_, _) => 0);
      new;
      var inv := Invert(perm);
      for i := 0 to |items|
        invariant forall k :: 0 <= k < |items| ==> inv[k] < |perm| && perm[inv[k]] == k
        invariant forall t, h :: 0 <= t < |items| && perm[t] < i && 0 <= h < 3 ==> Slot(t, h)
      {
        Bucket(i, inv[i]);
      }
    }

    method Bucket(i: nat, t: nat)
      requires Shaped() && i < |items| && t < |items| && perm[t] == i
      modifies bins, buf
      ensures forall h :: 0 <= h < 3 ==> Slot(t, h)
      ensures forall u, h :: 0 <= u < |items| && u != t && 0 <= h < 3 ==> Slot(u, h) == old(Slot(u, h))
    {
      hide BinOf, FirstUse;
      var code := items[i].data;
      var b0, b1, b2 := BinOf(code, 0, numBins), BinOf(code, 1, numBins), BinOf(code, 2, numBins);
      var c01, c02 := b0 == b1, b0 == b2 || b1 == b2;
      CollisionFlags(code, numBins);
      bins[i, 0] := b0;
      bins[i, 1] := if c01 then NONE else b1;
      bins[i, 2] := if c02 then NONE else b2;
      if c01 { buf[t, 1] := f.fill(i, 1); }
      if c02 { buf[t, 2] := f.fill(i, 2); }
    }

    /** A bin can be encoded only once its correction has arrived. */
    function Encode(received: nat, bin: nat, item: nat): nat
      requires bin < received
    {
      f.eval(bin, item)
    }

    /** A waiting slot stays as it is or is done, and only slots whose correction has arrived become done. */
    ghost predicate Step(before: nat, after: nat, received: nat) {
      after == before || (after == NONE && before < received)
    }

    /** Encode whichever of the slots of position t have had their correction. */
    method TryRow(t: nat, received: nat)
      requires Valid() && t < |items| && received <= numBins
      modifies bins, buf
      ensures Valid()
      ensures forall h :: 0 <= h < 3 ==> bins[perm[t], h] >= received
      ensures forall i, h :: 0 <= i < |items| && 0 <= h < 3 ==> Step(old(bins[i, h]), bins[i, h], received)
    {
      hide SlotCode;
      var i := perm[t];
      for h := 0 to 3
        invariant Valid()
        invariant forall k, g :: 0 <= k < |items| && 0 <= g < 3 ==> Step(old(bins[k, g]), bins[k, g], received)
        invariant forall g :: 0 <= g < h ==> bins[i, g] >= received
      {
        var b := bins[i, h];
        if b < received {
          assert Slot(t, h);
          label before:
          buf[t, h] := Encode(received, b, items[i].data);
          bins[i, h] := NONE;
          forall u, g | 0 <= u < |items| && 0 <= g < 3 ensures Slot(u, g) {
            assert old@before(Slot(u, g));
          }
        }
      }
    }

    /** The encoding loop, run against the values it loads from the counter of the correction thread. */
    method EncodeWhileReceiving(loads: seq<nat>, batch: nat)
      requires Valid() && |items| > 0
      requires |loads| > 0 && loads[|loads| - 1] == numBins
      requires forall k :: 0 <= k < |loads| ==> loads[k] <= numBins
      modifies bins, buf
      ensures Valid()
      ensures forall i, h :: 0 <= i < |items| && 0 <= h < 3 ==> Step(old(bins[i, h]), bins[i, h], numBins)
    {
      hide SlotOk, SlotCode;
      var t, r, k := 0, 0, 0;
      while r != numBins
        invariant Valid() && 0 <= t < |items| && 0 <= r <= numBins && 0 <= k <= |loads|
        invariant k == |loads| ==> r == numBins
        invariant forall i, h :: 0 <= i < |items| && 0 <= h < 3 ==> Step(old(bins[i, h]), bins[i, h], numBins)
        decreases |loads| - k
      {
        for j := 0 to batch
          invariant Valid() && 0 <= t < |items|
          invariant forall i, h :: 0 <= i < |items| && 0 <= h < 3 ==> Step(old(bins[i, h]), bins[i, h], numBins)
        {
          TryRow(t, r);
          t := (t + 1) % |items|;
        }
        r, k := loads[k], k + 1;
      }
    }

    /** Encode what is left of position t. */
    method FinishRow(t: nat) returns (row: seq<nat>)
      requires Valid() && t < |items|
      modifies buf
      ensures Valid()
      ensures |row| == 3 && forall h :: 0 <= h < 3 ==> row[h] == SlotCode(f, items, numBins, perm[t], h)
    {
      hide SlotCode;
      for h := 0 to 3
        invariant Valid()
        invariant forall g :: 0 <= g < h ==> buf[t, g] == SlotCode(f, items, numBins, perm[t], g)
      {
        var b := bins[perm[t], h];
        assert Slot(t, h);
        if b != NONE {
          label before:
          buf[t, h] := Encode(numBins, b, items[perm[t]].data);
          forall u, g | 0 <= u < |items| && 0 <= g < 3 ensures Slot(u, g) {
            assert old@before(Slot(u, g));
          }
        }
      }
      row := [buf[t, 0], buf[t, 1], buf[t, 2]];
    }

    /** The rows of the next batch, with the counts above one. */
    method NextBatch(start: nat, num: nat) returns (b: Batch)
      requires Valid() && start + num <= |items|
      modifies buf
      ensures Valid() && b.num == num && BatchOk(f, items, numBins, perm, b, start)
      ensures b.last <==> start + num == |items|
    {
      hide SlotCode, RowsAt, CountsAt;
      var codes: seq<nat>, dup: map<nat, nat> := [], map[];
      NothingCarried(f, items, numBins, perm, start);
      for j := 0 to num
        invariant Valid()
        invariant RowsAt(f, items, numBins, perm, codes, start, j) && CountsAt(items, perm, dup, start, j)
      {
        var row := FinishRow(start + j);
        RowsGrow(f, items, numBins, perm, codes, start, j, row);
        CountsGrow(items, perm, dup, start, j);
        codes := codes + row;
        if items[perm[start + j]].cnt > 1 {
          dup := dup[j := items[perm[start + j]].cnt];
        }
      }
      b := Batch(num, codes, dup, start + num == |items|);
    }

    /** Whatever was encoded earlier, the batches carry the code of every slot. */
    method Send(psiBatch: nat) returns (batches: seq<Batch>)
      requires Valid() && |items| > 0 && psiBatch > 0
      modifies buf
      ensures Sent(f, items, numBins, perm, batches)
    {
      hide SlotCode, BatchOk;
      batches := [];
      var i := 0;
      while i < |items|
        invariant Valid() && i <= |items|
        invariant Chain(f, items, numBins, perm, batches, 0) && End(batches, 0) == i
        invariant batches == [] <==> i == 0
        invariant forall k :: 0 <= k < |batches| ==> (batches[k].last <==> k == |batches| - 1 && i == |items|)
      {
        var num := if psiBatch < |items| - i then psiBatch else |items| - i;
        var b := NextBatch(i, num);
        ChainSnoc(f, items, numBins, perm, batches, b, 0);
        batches := batches + [b];
        i := i + num;
      }
    }
  }

  /** The sender's run, for every interleaving with the arrival of corrections. */
  method KkrtPsiSend(f: Oprf, items: seq<Item>, numBins: nat, perm: seq<nat>, loads: seq<nat>, otBatch: nat,
      psiBatch: nat)
    returns (batches: seq<Batch>)
    requires 0 < numBins <= NONE && IsPermutation(perm, |items|) && |items| > 0 && psiBatch > 0
    requires |loads| > 0 && loads[|loads| - 1] == numBins
    requires forall k :: 0 <= k < |loads| ==> loads[k] <= numBins
    ensures Sent(f, items, numBins, perm, batches)
  {
    var e := new Encoder(f, items, numBins, perm);
    e.EncodeWhileReceiving(loads, otBatch);
    batches := e.Send(psiBatch);
  }
}
