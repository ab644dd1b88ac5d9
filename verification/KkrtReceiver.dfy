/** The KKRT receiver, and the correctness of the two-party run. */
module KkrtReceiver {
  import opened Common
  import opened CuckooIndex
  import opened CuckooRoom
  import opened KkrtSender

  /** An index into the receiver's items, with the count the sender attached to the match. */
  datatype Match = Match(data: nat, cnt: nat)

  /** The values that occur in a run: the sender's items and the receiver's inputs. */
  ghost predicate InPlay(items: seq<Item>, codes: seq<nat>, x: nat) {
    x in codes || exists i :: 0 <= i < |items| && items[i].data == x
  }

  /** Among the bins and values of the run, codes of different (bin, item) pairs differ, and no filler that is
      used is a code. */
  ghost predicate Ideal(f: Oprf, items: seq<Item>, codes: seq<nat>, numBins: nat) {
    && (forall b, x, b', y ::
          0 <= b < numBins && 0 <= b' < numBins && InPlay(items, codes, x) && InPlay(items, codes, y) ==>
          f.eval(b, x) == f.eval(b', y) ==> b == b' && x == y)
    && (forall i, h, b, x ::
          0 <= i < |items| && 0 <= h < 3 && 0 <= b < numBins && InPlay(items, codes, x) &&
          !FirstUse(items[i].data, h, numBins) ==>
          f.fill(i, h) != f.eval(b, x))
  }

  /** Codes that fit in 16 bytes. */
  function WordCode(b: nat, x: nat): nat {
    if 2 * x + b < 0x1_0000_0000_0000_0000_0000_0000_0000_0000 then 2 * x + b else 0
  }

  function ZeroFill(i: nat, h: nat): nat { 0 }

  /** Codes of the width of the source meet the assumption: here are some for a small run. */
  lemma IdealOfWords()
    ensures Ideal(Oprf(WordCode, ZeroFill), [Item(5, 1), Item(6, 2)], [6, 7], 2)
  {
    assert forall x :: InPlay([Item(5, 1), Item(6, 2)], [6, 7], x) ==> 5 <= x <= 7;
  }

  ghost predicate Distinct(items: seq<Item>) {
    forall i, j :: 0 <= i < j < |items| ==> items[i].data != items[j].data
  }

  // ---- The receiver's tables

  /** Input x sits in bin b, which hash function h is the first to give it, and its code is filed under h. */
  ghost predicate Filed(f: Oprf, codes: seq<nat>, numBins: nat, maps: seq<map<nat, nat>>, x: nat, b: nat, h: nat)
    requires numBins > 0 && x < |codes| && |maps| == 3
  {
    && h < 3 && b == BinOf(codes[x], h, numBins) && FirstUse(codes[x], h, numBins)
    && f.eval(b, codes[x]) in maps[h] && maps[h][f.eval(b, codes[x])] == x
  }

  ghost predicate Genuine(f: Oprf, codes: seq<nat>, home: seq<nat>, slot: seq<nat>, h: nat, key: nat, x: nat)
    requires |home| == |slot| == |codes|
  {
    x < |codes| && slot[x] == h && f.eval(home[x], codes[x]) == key
  }

  /** Every input is filed, and nothing else is. */
  ghost predicate Tables3(f: Oprf, codes: seq<nat>, numBins: nat, maps: seq<map<nat, nat>>, home: seq<nat>,
      slot: seq<nat>)
    requires numBins > 0
  {
    && |home| == |slot| == |codes| && |maps| == 3
    && (forall x :: 0 <= x < |codes| ==> Filed(f, codes, numBins, maps, x, home[x], slot[x]))
    && (forall h, key :: 0 <= h < 3 && key in maps[h] ==> Genuine(f, codes, home, slot, h, key, maps[h][key]))
  }

  /** A key that is already present keeps its value. */
  function Emplace(maps: seq<map<nat, nat>>, h: nat, key: nat, x: nat): (r: seq<map<nat, nat>>)
    requires h < |maps|
  {
    if key in maps[h] then maps
    else
      var filed: map<nat, nat> := maps[h][key := x];
      maps[h := filed]
  }

  /** The tables once bins 0, ..., b - 1 have been visited. */
  ghost predicate FiledBelow(f: Oprf, codes: seq<nat>, numBins: nat, maps: seq<map<nat, nat>>, home: seq<nat>,
      slot: seq<nat>, b: nat)
    requires numBins > 0
  {
    && |home| == |slot| == |codes| && |maps| == 3
    && (forall x :: 0 <= x < |codes| && home[x] < b ==> Filed(f, codes, numBins, maps, x, home[x], slot[x]))
    && (forall h, key :: 0 <= h < 3 && key in maps[h] ==>
          Genuine(f, codes, home, slot, h, key, maps[h][key]) && home[maps[h][key]] < b)
  }

  /** Filing the occupant of bin b: its key is new, because no other bin yields it. */
  lemma FileStep(f: Oprf, items: seq<Item>, codes: seq<nat>, numBins: nat, maps: seq<map<nat, nat>>, home: seq<nat>,
      slot: seq<nat>, b: nat, x: nat, h: nat)
    requires numBins > 0 && Ideal(f, items, codes, numBins) && FiledBelow(f, codes, numBins, maps, home, slot, b)
    requires x < |codes| && home[x] == b && h < 3 && b == BinOf(codes[x], h, numBins) && FirstUse(codes[x], h, numBins)
    requires forall y :: 0 <= y < |codes| && home[y] == b ==> y == x
    ensures FiledBelow(f, codes, numBins, Emplace(maps, h, f.eval(b, codes[x]), x), home, slot[x := h], b + 1)
  {
    hide BinOf, FirstUse;
    var key := f.eval(b, codes[x]);
    var maps', slot' := Emplace(maps, h, key, x), slot[x := h];
    forall y | 0 <= y < |codes| && home[y] < b + 1 ensures Filed(f, codes, numBins, maps', y, home[y], slot'[y]) {
      if y != x { assert Filed(f, codes, numBins, maps, y, home[y], slot[y]); }
    }
    forall g, k | 0 <= g < 3 && k in maps'[g]
      ensures Genuine(f, codes, home, slot', g, k, maps'[g][k]) && home[maps'[g][k]] < b + 1 {
      if k in maps[g] { assert Genuine(f, codes, home, slot, g, k, maps[g][k]); }
    }
  }

  /** With an empty stash every input has a bin. */
  lemma AllInBins(t: Tables, at: seq<Place>, x: nat)
    requires Consistent(t, at) && t.cands == [] && t.stash == [] && x < |at|
    ensures at[x].InBin? && at[x].b < |t.bins| && t.bins[at[x].b] != EMPTY && InputIdx(t.bins[at[x].b]) == x
  {
    hide InputIdx, HashIdx, BinOf;
    assert Held(t, x, at[x]);
  }

  method FileCodes(f: Oprf, ghost items: seq<Item>, index: Index)
    returns (maps: seq<map<nat, nat>>, ghost home: seq<nat>, ghost slot: seq<nat>)
    requires Ideal(f, items, index.codes, index.bins.Length) && index.Valid() && index.numHash == 3
    requires index.stash.Length == 0
    ensures Tables3(f, index.codes, index.bins.Length, maps, home, slot)
  {
    hide InputIdx, HashIdx, BinOf, Consistent;
    ghost var t := index.State([], 0, 0);
    ghost var at, codes, numBins := index.at, index.codes, index.bins.Length;
    assert |at| == |codes| && numBins > 0 by { Lengths(t, at); }
    forall x | 0 <= x < |at|
      ensures at[x].InBin? && at[x].b < numBins && index.bins[at[x].b] != EMPTY && InputIdx(index.bins[at[x].b]) == x {
      AllInBins(t, at, x);
    }
    home := seq(|codes|, x requires 0 <= x < |codes| => at[x].b);
    slot := seq(|codes|, x => 0);
    maps := [map[], map[], map[]];
    for b := 0 to index.bins.Length
      invariant |maps| == 3 && |slot| == |codes|
      invariant FiledBelow(f, codes, numBins, maps, home, slot, b)
    {
      if index.bins[b] != EMPTY {
        var x := InputIdx(index.bins[b]);
        var h := index.MinCollidingHashIdx(b);
        var key := f.eval(b, index.codes[x]);
        assert home[x] == b by { OccupantAt(t, at, b); }
        FileStep(f, items, codes, numBins, maps, home, slot, b, x, h);
        slot := slot[x := h];
        maps := Emplace(maps, h, key, x);
      }
    }
  }

  lemma Lengths(t: Tables, at: seq<Place>)
    requires Consistent(t, at)
    ensures |at| == |t.codes| && |t.bins| > 0
  {
  }

  lemma OccupantAt(t: Tables, at: seq<Place>, b: nat)
    requires Consistent(t, at) && b < |t.bins| && t.bins[b] != EMPTY
    ensures InputIdx(t.bins[b]) < |at| && at[InputIdx(t.bins[b])] == InBin(b)
  {
  }

  // ---- Matching

  /** Where the sender sends the receiver's input x, or -1. */
  ghost function PositionOf(items: seq<Item>, perm: seq<nat>, code: nat): (t: int)
    requires IsPermutation(perm, |items|)
    ensures t == -1 || (0 <= t < |items| && items[perm[t]].data == code)
    ensures t == -1 ==> forall u :: 0 <= u < |items| ==> items[perm[u]].data != code
  {
    if u :| 0 <= u < |items| && items[perm[u]].data == code then u else -1
  }

  ghost predicate Positions(items: seq<Item>, perm: seq<nat>, codes: seq<nat>, pos: seq<int>)
    requires IsPermutation(perm, |items|)
  {
    |pos| == |codes| && forall x :: 0 <= x < |codes| ==> pos[x] == PositionOf(items, perm, codes[x])
  }

  /** Slot (t, h) of the stream matches exactly the input that is sent at t and filed under h. */
  lemma HitIff(f: Oprf, items: seq<Item>, numBins: nat, perm: seq<nat>, codes: seq<nat>, maps: seq<map<nat, nat>>,
               home: seq<nat>, slot: seq<nat>, pos: seq<int>, t: nat, h: nat)
    requires Ideal(f, items, codes, numBins) && Distinct(items) && numBins > 0 && IsPermutation(perm, |items|)
    requires t < |items| && h < 3
    requires Tables3(f, codes, numBins, maps, home, slot) && Positions(items, perm, codes, pos)
    ensures var c := SlotCode(f, items, numBins, perm[t], h);
      && (c in maps[h] ==> maps[h][c] < |codes| && pos[maps[h][c]] == t && slot[maps[h][c]] == h)
      && (forall y :: 0 <= y < |codes| && pos[y] == t && slot[y] == h ==> c in maps[h] && maps[h][c] == y)
  {
    hide BinOf, FirstUse, PositionOf;
    var i := perm[t];
    var c := SlotCode(f, items, numBins, i, h);
    if c in maps[h] {
      var x := maps[h][c];
      assert Genuine(f, codes, home, slot, h, c, x);
      assert items[i].data == codes[x];
      var u := PositionOf(items, perm, codes[x]);
      assert u != -1 && perm[u] == perm[t];
    }
    forall y | 0 <= y < |codes| && pos[y] == t && slot[y] == h ensures c in maps[h] && maps[h][c] == y {
      assert Filed(f, codes, numBins, maps, y, home[y], slot[y]);
    }
  }

  /** Slot (position, hash) comes before slot (t, h) in the stream. */
  ghost predicate Before(position: int, hash: nat, t: nat, h: nat) {
    0 <= position && (position < t || (position == t && hash < h))
  }

  /** The matches found before slot (t, h): each matched input once, with its sender's count, and no other. */
  ghost predicate Reported(items: seq<Item>, perm: seq<nat>, pos: seq<int>, slot: seq<nat>, out: seq<Match>, t: nat,
      h: nat)
    requires IsPermutation(perm, |items|)
  {
    && |pos| == |slot|
    && (forall x :: 0 <= x < |pos| ==> pos[x] < |items|)
    && (forall a :: 0 <= a < |out| ==>
          out[a].data < |pos| && Before(pos[out[a].data], slot[out[a].data], t, h)
              && out[a].cnt == Count(items[perm[pos[out[a].data]]]))
    && (forall a, b :: 0 <= a < b < |out| ==> out[a].data != out[b].data)
    && (forall x :: 0 <= x < |pos| && Before(pos[x], slot[x], t, h) ==> exists a :: 0 <= a < |out| && out[a].data == x)
  }

  /** The count the receiver sees: 0 stands for an item that is not repeated. */
  function Count(item: Item): nat { if item.cnt > 1 then item.cnt else 0 }

  lemma ReportHit(items: seq<Item>, perm: seq<nat>, pos: seq<int>, slot: seq<nat>, out: seq<Match>, t: nat, h: nat,
      x: nat)
    requires IsPermutation(perm, |items|) && t < |items| && Reported(items, perm, pos, slot, out, t, h)
    requires x < |pos| && pos[x] == t && slot[x] == h
    requires forall y :: 0 <= y < |pos| && pos[y] == t && slot[y] == h ==> y == x
    ensures Reported(items, perm, pos, slot, out + [Match(x, Count(items[perm[t]]))], t, h + 1)
  {
    hide Count;
    var out' := out + [Match(x, Count(items[perm[t]]))];
    forall y | 0 <= y < |pos| && Before(pos[y], slot[y], t, h + 1)
      ensures exists a :: 0 <= a < |out'| && out'[a].data == y {
      if y == x {
        assert out'[|out|].data == y;
      } else {
        var a :| 0 <= a < |out| && out[a].data == y;
        assert out'[a].data == y;
      }
    }
  }

  lemma ReportMiss(items: seq<Item>, perm: seq<nat>, pos: seq<int>, slot: seq<nat>, out: seq<Match>, t: nat, h: nat)
    requires IsPermutation(perm, |items|) && t < |items| && Reported(items, perm, pos, slot, out, t, h)
    requires forall y :: 0 <= y < |pos| && pos[y] == t ==> slot[y] != h
    ensures Reported(items, perm, pos, slot, out, t, h + 1)
  {
  }

  lemma ReportRow(items: seq<Item>, perm: seq<nat>, pos: seq<int>, slot: seq<nat>, out: seq<Match>, t: nat)
    requires IsPermutation(perm, |items|) && t < |items| && Reported(items, perm, pos, slot, out, t, 3)
    requires forall y :: 0 <= y < |slot| ==> slot[y] < 3
    ensures Reported(items, perm, pos, slot, out, t + 1, 0)
  {
  }

  lemma SlotsInRange(f: Oprf, codes: seq<nat>, numBins: nat, maps: seq<map<nat, nat>>, home: seq<nat>, slot: seq<nat>)
    requires numBins > 0 && Tables3(f, codes, numBins, maps, home, slot)
    ensures forall y :: 0 <= y < |slot| ==> slot[y] < 3
  {
    forall y | 0 <= y < |slot| ensures slot[y] < 3 {
      assert Filed(f, codes, numBins, maps, y, home[y], slot[y]);
    }
  }

  /** The receiver looks up the codes of one batch. */
  method MatchBatch(ghost f: Oprf, ghost items: seq<Item>, ghost numBins: nat, ghost perm: seq<nat>,
      ghost codes: seq<nat>, maps: seq<map<nat, nat>>, ghost home: seq<nat>, ghost slot: seq<nat>, ghost pos: seq<int>,
                    batch: Batch, ghost start: nat, found: seq<Match>) returns (out: seq<Match>)
    requires Ideal(f, items, codes, numBins) && Distinct(items) && numBins > 0 && IsPermutation(perm, |items|)
    requires Tables3(f, codes, numBins, maps, home, slot) && Positions(items, perm, codes, pos)
    requires BatchOk(f, items, numBins, perm, batch, start) && Reported(items, perm, pos, slot, found, start, 0)
    ensures Reported(items, perm, pos, slot, out, start + batch.num, 0)
  {
    hide SlotCode, Reported, PositionOf, Filed, Ideal, Genuine;
    SlotsInRange(f, codes, numBins, maps, home, slot);
    out := found;
    for i := 0 to batch.num
      invariant Reported(items, perm, pos, slot, out, start + i, 0)
    {
      ghost var t := start + i;
      assert RowAt(f, items, numBins, perm, batch.codes, start, i);
      for j := 0 to 3
        invariant Reported(items, perm, pos, slot, out, t, j)
      {
        HitIff(f, items, numBins, perm, codes, maps, home, slot, pos, t, j);
        var c := batch.codes[3 * i + j];
        assert c == SlotCode(f, items, numBins, perm[t], j);
        if c in maps[j] {
          ReportHit(items, perm, pos, slot, out, t, j, maps[j][c]);
          out := out + [Match(maps[j][c], if i in batch.dup then batch.dup[i] else 0)];
        } else {
          ReportMiss(items, perm, pos, slot, out, t, j);
        }
      }
      ReportRow(items, perm, pos, slot, out, t);
    }
  }

  /** Batches are read until one is marked as the last. */
  method MatchAll(ghost f: Oprf, ghost items: seq<Item>, ghost numBins: nat, ghost perm: seq<nat>,
      ghost codes: seq<nat>, maps: seq<map<nat, nat>>, ghost home: seq<nat>, ghost slot: seq<nat>, ghost pos: seq<int>,
                  batches: seq<Batch>) returns (out: seq<Match>)
    requires Ideal(f, items, codes, numBins) && Distinct(items) && numBins > 0 && IsPermutation(perm, |items|)
    requires Tables3(f, codes, numBins, maps, home, slot) && Positions(items, perm, codes, pos)
    requires Sent(f, items, numBins, perm, batches)
    ensures Reported(items, perm, pos, slot, out, |items|, 0)
  {
    hide Tables3, Ideal, BatchOk, PositionOf, Distinct;
    out := [];
    assert Reported(items, perm, pos, slot, out, 0, 0) by {
      NothingYet(f, items, numBins, perm, codes, maps, home, slot, pos);
    }
    hide Reported, Positions;
    var k := 0;
    ghost var start := 0;
    while true
      invariant 0 <= k < |batches| && 0 <= start
      invariant Chain(f, items, numBins, perm, batches[k..], start) && End(batches[k..], start) == |items|
      invariant Reported(items, perm, pos, slot, out, start, 0)
      decreases |batches| - k
    {
      assert batches[k..][0] == batches[k] && batches[k..][1..] == batches[k + 1..];
      out := MatchBatch(f, items, numBins, perm, codes, maps, home, slot, pos, batches[k], start, out);
      start := start + batches[k].num;
      if batches[k].last {
        break;
      }
      k := k + 1;
    }
  }

  lemma NothingYet(f: Oprf, items: seq<Item>, numBins: nat, perm: seq<nat>, codes: seq<nat>, maps: seq<map<nat, nat>>,
                   home: seq<nat>, slot: seq<nat>, pos: seq<int>)
    requires numBins > 0 && IsPermutation(perm, |items|)
    requires Tables3(f, codes, numBins, maps, home, slot) && Positions(items, perm, codes, pos)
    ensures Reported(items, perm, pos, slot, [], 0, 0)
  {
  }

  /** Every input that the sender has too is matched exactly once, with the count the sender attached, and
      nothing else is matched. */
  ghost predicate ExactMatches(items: seq<Item>, codes: seq<nat>, out: seq<Match>) {
    && (forall a :: 0 <= a < |out| ==> IsMatch(items, codes, out[a]))
    && (forall a, b :: 0 <= a < b < |out| ==> out[a].data != out[b].data)
    && (forall x, i :: 0 <= x < |codes| && 0 <= i < |items| && items[i].data == codes[x] ==> Mentions(out, x))
  }

  ghost predicate IsMatch(items: seq<Item>, codes: seq<nat>, m: Match) {
    m.data < |codes| && exists i :: 0 <= i < |items| && items[i].data == codes[m.data] && m.cnt == Count(items[i])
  }

  ghost predicate Mentions(out: seq<Match>, x: nat) {
    exists a :: 0 <= a < |out| && out[a].data == x
  }

  /** All slots seen, the reported matches are exactly the common inputs. */
  lemma ReportedIsExact(items: seq<Item>, perm: seq<nat>, codes: seq<nat>, pos: seq<int>, slot: seq<nat>,
      out: seq<Match>)
    requires IsPermutation(perm, |items|) && Positions(items, perm, codes, pos)
    requires Reported(items, perm, pos, slot, out, |items|, 0)
    ensures ExactMatches(items, codes, out)
  {
    hide PositionOf;
    forall a | 0 <= a < |out| ensures IsMatch(items, codes, out[a]) {
      var i := perm[pos[out[a].data]];
      assert items[i].data == codes[out[a].data] && out[a].cnt == Count(items[i]);
    }
    forall x, i | 0 <= x < |codes| && 0 <= i < |items| && items[i].data == codes[x] ensures Mentions(out, x) {
      assert i in perm;
      var t :| 0 <= t < |perm| && perm[t] == i;
      assert items[perm[t]].data == codes[x];
      assert pos[x] != -1 && Before(pos[x], slot[x], |items|, 0);
    }
  }

  /** The receiver's run up to its result: an insertion error, or the matches. */
  method KkrtPsiRecvIndices(f: Oprf, ghost items: seq<Item>, numBins: nat, ghost perm: seq<nat>, codes: seq<nat>,
                            batches: seq<Batch>, maxTry: nat) returns (ok: bool, out: seq<Match>)
    requires Ideal(f, items, codes, numBins) && Distinct(items) && 0 < numBins && IsPermutation(perm, |items|)
    requires |codes| <= HASH_SHIFT && Sent(f, items, numBins, perm, batches)
    ensures ok <==> HasRoom(codes, 3, numBins, maxTry)
    ensures ok ==> ExactMatches(items, codes, out)
  {
    hide Consistent, Leftover, Reported, Sent, Ideal, Distinct, PositionOf, ExactMatches;
    ghost var pos := seq(|codes|, x requires 0 <= x < |codes| => PositionOf(items, perm, codes[x]));
    out := [];
    var index := new Index(|codes|, 0, 3, numBins, maxTry);
    assert FreeSlots(index.stash[..]) == 0;
    ok := index.Insert(codes);
    if ok {
      assert index.codes == codes;
      var maps, home, slot := FileCodes(f, items, index);
      out := MatchAll(f, items, numBins, perm, codes, maps, home, slot, pos, batches);
      ReportedIsExact(items, perm, codes, pos, slot, out);
    }
  }

  /** Counts become numbers of extra copies. */
  method KkrtPsiRecv(matches: seq<Match>) returns (indices: seq<nat>, extras: seq<nat>)
    ensures |indices| == |extras| == |matches|
    ensures forall a :: 0 <= a < |matches| ==> indices[a] == matches[a].data
    ensures forall a :: 0 <= a < |matches| && matches[a].cnt >= 1 ==> extras[a] + 1 == matches[a].cnt
    ensures forall a :: 0 <= a < |matches| && matches[a].cnt == 0 ==> extras[a] == 0
  {
    indices, extras := [], [];
    for a := 0 to |matches|
      invariant |indices| == |extras| == a
      invariant forall b :: 0 <= b < a ==> indices[b] == matches[b].data
      invariant forall b :: 0 <= b < a && matches[b].cnt >= 1 ==> extras[b] + 1 == matches[b].cnt
      invariant forall b :: 0 <= b < a && matches[b].cnt == 0 ==> extras[b] == 0
    {
      indices := indices + [matches[a].data];
      extras := extras + [if matches[a].cnt > 1 then matches[a].cnt - 1 else 0];
    }
  }

  /** The receiver's input at index x is one of the sender's, which holds it with this many extra copies. */
  ghost predicate SharedItem(items: seq<Item>, codes: seq<nat>, x: nat, extra: nat) {
    && x < |codes|
    && exists i :: 0 <= i < |items| && items[i].data == codes[x]
         && (items[i].cnt >= 1 ==> extra + 1 == items[i].cnt) && (items[i].cnt == 0 ==> extra == 0)
  }

  /** The result of a run: every common input is reported exactly once, with the sender's count less one,
      and nothing else is reported. */
  ghost predicate Intersection(items: seq<Item>, codes: seq<nat>, indices: seq<nat>, extras: seq<nat>) {
    && |indices| == |extras|
    && (forall a :: 0 <= a < |indices| ==> SharedItem(items, codes, indices[a], extras[a]))
    && (forall a, b :: 0 <= a < b < |indices| ==> indices[a] != indices[b])
    && (forall x, i :: 0 <= x < |codes| && 0 <= i < |items| && items[i].data == codes[x] ==> x in indices)
  }

  lemma ExtrasOfMatches(items: seq<Item>, codes: seq<nat>, out: seq<Match>, indices: seq<nat>, extras: seq<nat>)
    requires ExactMatches(items, codes, out) && |indices| == |extras| == |out|
    requires forall a :: 0 <= a < |out| ==> indices[a] == out[a].data
    requires forall a :: 0 <= a < |out| && out[a].cnt >= 1 ==> extras[a] + 1 == out[a].cnt
    requires forall a :: 0 <= a < |out| && out[a].cnt == 0 ==> extras[a] == 0
    ensures Intersection(items, codes, indices, extras)
  {
    forall a | 0 <= a < |indices| ensures SharedItem(items, codes, indices[a], extras[a]) {
      assert IsMatch(items, codes, out[a]);
    }
    forall x, i | 0 <= x < |codes| && 0 <= i < |items| && items[i].data == codes[x] ensures x in indices {
      assert Mentions(out, x);
      var a :| 0 <= a < |out| && out[a].data == x;
      assert indices[a] == x;
    }
  }

  /** Both parties together, for every shuffle and every interleaving of the correction thread. */
  method Run(f: Oprf, items: seq<Item>, codes: seq<nat>, numBins: nat, perm: seq<nat>, loads: seq<nat>,
             otBatch: nat, psiBatch: nat, maxTry: nat) returns (ok: bool, indices: seq<nat>, extras: seq<nat>)
    requires Ideal(f, items, codes, numBins) && Distinct(items) && |items| > 0 && |codes| <= HASH_SHIFT
    requires 0 < numBins <= NONE && IsPermutation(perm, |items|) && psiBatch > 0
    requires |loads| > 0 && loads[|loads| - 1] == numBins
    requires forall k :: 0 <= k < |loads| ==> loads[k] <= numBins
    ensures ok <==> HasRoom(codes, 3, numBins, maxTry)
    ensures |codes| == 2 && maxTry >= 5 ==> (ok <==> Separable(codes, 3, numBins))
    ensures ok ==> Intersection(items, codes, indices, extras)
  {
    hide HasRoom, Sent, Ideal, Distinct, ExactMatches, Intersection, Separable;
    if |codes| == 2 && maxTry >= 5 { RoomForTwo(codes, 3, numBins, maxTry); }
    var batches := KkrtPsiSend(f, items, numBins, perm, loads, otBatch, psiBatch);
    var out;
    ok, out := KkrtPsiRecvIndices(f, items, numBins, perm, codes, batches, maxTry);
    indices, extras := KkrtPsiRecv(out);
    if ok {
      ExtrasOfMatches(items, codes, out, indices, extras);
    }
  }
}
