/** The Piano client: preprocessing of database chunks, queries, recovery and hint refresh. */
module PianoClient {
  import opened Entry
  import opened ChunkParams
  import opened PianoSets
  import opened PianoView

  datatype Context = Context(mask: bool, index: nat, hit: nat)

  class Client {
    const sh: Shape
    const threads: nat
    var primary: seq<LocalSet>
    var backup: seq<BackupSet>
    var backupConsumed: seq<nat>
    var replacements: seq<ReplacementGroup>
    var cache: map<nat, Entry>
    var misses: map<nat, Entry>
    var ctx: Context

    /** Group g owns the backup sets g*perChunk, ..., (g+1)*perChunk - 1. */
    ghost predicate Sized()
      reads `backup, `backupConsumed, `replacements
    {
      && sh.Ok() && threads > 0
      && |backup| == Position(sh.sets, 0, sh.perChunk)
      && |backupConsumed| == |replacements| == sh.sets
    }

    ghost predicate HintsOk(db: seq<Entry>, on: set<nat>)
      requires Sized() && DbOk(sh, db)
      reads `primary, `backup, `backupConsumed, `replacements
    {
      && (forall j :: 0 <= j < |primary| ==> PrimaryOk(sh, db, primary[j], on))
      && (sh.perChunk > 0 ==> forall j :: 0 <= j < |backup| ==>
            BackupOk(sh, db, backup[j], ChunkId(j, sh.perChunk), on))
    }

    /** An index of a processed chunk is in some primary set or among the local misses. */
    ghost predicate Covered(done: set<nat>)
      requires sh.chunk > 0
      reads this
    {
      forall x :: 0 <= x < Span(sh) && ChunkId(x, sh.chunk) in done ==>
        x in misses || HitBy(x, |primary|)
    }

    /** One of the first n primary sets passes the membership test for x in an unprogrammed chunk. */
    ghost predicate HitBy(x: nat, n: nat)
      requires sh.chunk > 0 && n <= |primary|
      reads this
    {
      exists j :: 0 <= j < n && Hits(sh, primary[j], x)
    }

    /** Before the first query, with the chunks in `done` processed. */
    ghost predicate Preprocessing(db: seq<Entry>, done: set<nat>)
      reads this
    {
      && Sized() && DbOk(sh, db) && HintsOk(db, done)
      && (forall j :: 0 <= j < |primary| ==> !primary[j].programmed)
      && (forall c :: 0 <= c < sh.sets ==> backupConsumed[c] == 0 && replacements[c].consumed == 0)
      && (forall c :: 0 <= c < sh.sets && c in done ==> ReplacementOk(sh, db, replacements[c], c))
      && Covered(done) && Agrees(misses, db) && cache == map[] && !ctx.mask
    }

    /** The state between two queries, the query context aside. */
    ghost predicate Core(db: seq<Entry>)
      reads this
    {
      && Sized() && DbOk(sh, db) && HintsOk(db, All(sh))
      && (forall c :: 0 <= c < sh.sets ==>
            ReplacementOk(sh, db, replacements[c], c) && backupConsumed[c] <= sh.perChunk)
      && Agrees(misses, db) && Agrees(cache, db)
    }

    /** Between two queries. */
    ghost predicate Online(db: seq<Entry>)
      reads this
    {
      Core(db) && !ctx.mask
    }

    ghost function FixedPart(): Fixed
      reads this
    {
      Fixed(sh, Tags(backup), misses.Keys)
    }

    ghost function CurrentView(): View
      reads this
    {
      View(AllBare(primary), backupConsumed, Consumed(replacements), cache.Keys)
    }

    /** A query for x cannot be answered. */
    ghost predicate Fails(x: nat)
      requires Sized() && ChunkId(x, sh.chunk) < sh.sets
      reads this
    {
      FailsIn(FixedPart(), CurrentView(), x)
    }

    /** q is the set of the context's hit, with the element of x's chunk replaced. */
    ghost predicate Edited(x: nat, q: seq<nat>)
      requires Sized()
      reads this
    {
      var c := ChunkId(x, sh.chunk);
      && c < sh.sets && ctx.hit < |primary| && Hits(sh, primary[ctx.hit], x)
      && (primary[ctx.hit].programmed ==> ChunkId(primary[ctx.hit].point, sh.chunk) < sh.sets)
      && replacements[c].consumed < |replacements[c].indices|
      && q == Indices(sh, primary[ctx.hit])[c := replacements[c].indices[replacements[c].consumed]]
    }

    /** A query for x is masked when x is cached, when no set holds it (a local miss is cached then) and when the
        replacements of its chunk have run out; otherwise it is the edited first set that holds it. */
    ghost predicate Decided(x: nat, q: seq<nat>, cache0: map<nat, Entry>)
      requires Sized() && ChunkId(x, sh.chunk) < sh.sets
      reads this
    {
      var hit := FirstHit(sh, primary, x, 0);
      if x in cache0 then ctx.mask && cache == cache0
      else if hit == |primary| then ctx.mask && cache == (if x in misses then cache0[x := misses[x]] else cache0)
      else if replacements[ChunkId(x, sh.chunk)].consumed == sh.perChunk then ctx.mask && cache == cache0
      else !ctx.mask && cache == cache0 && ctx.hit == hit && Edited(x, q)
    }

    /** One replacement of x's chunk has been taken, and if a backup set of the chunk was left it has taken the
        place of the hit set, with x programmed in. */
    ghost predicate Refreshed(x: nat, hit: nat, primary0: seq<LocalSet>, backupConsumed0: seq<nat>,
        replacements0: seq<ReplacementGroup>)
      requires sh.chunk > 0
      reads this
    {
      var c := ChunkId(x, sh.chunk);
      && c < |replacements0| == |backupConsumed0| && hit < |primary0| == |primary|
      && replacements == replacements0[c := replacements0[c].(consumed := replacements0[c].consumed + 1)]
      && if backupConsumed0[c] == sh.perChunk then primary == primary0 && backupConsumed == backupConsumed0
         else
           var i := Position(c, backupConsumed0[c], sh.perChunk);
           && i < |backup| && backupConsumed == backupConsumed0[c := backupConsumed0[c] + 1]
           && primary == primary0[hit := primary[hit]] && Bare(primary[hit]) == LocalSet(backup[i].tag, [], x, true)
    }

    // ---- Initialisation

    constructor (sh: Shape, primaryNum: nat, threadNum: nat, ghost db: seq<Entry>)
      requires sh.Ok() && DbOk(sh, db)
      ensures this.sh == sh && |primary| == primaryNum && Preprocessing(db, {})
    {
      this.sh := sh;
      threads := if threadNum > 0 then threadNum else 1;
      cache, misses, ctx := map[], map[], Context(false, 0, 0);
      var tag: nat := 0;
      var ps: seq<LocalSet>, bs: seq<BackupSet> := [], [];
      while |ps| < primaryNum
        invariant |ps| <= primaryNum
        invariant forall j :: 0 <= j < |ps| ==> !ps[j].programmed && PrimaryOk(sh, db, ps[j], {})
      {
        FreshPrimary(sh, db, tag);
        ps := ps + [LocalSet(tag, Zero(sh.size), 0, false)];
        tag := (tag + 1) % 0x1_0000_0000;
      }
      var total := Position(sh.sets, 0, sh.perChunk);
      while |bs| < total
        invariant |bs| <= total
        invariant sh.perChunk > 0 ==> forall j :: 0 <= j < |bs| ==>
          BackupOk(sh, db, bs[j], ChunkId(j, sh.perChunk), {})
      {
        if sh.perChunk > 0 { FreshBackup(sh, db, tag, ChunkId(|bs|, sh.perChunk)); }
        bs := bs + [BackupSet(tag, Zero(sh.size))];
        tag := (tag + 1) % 0x1_0000_0000;
      }
      primary, backup := ps, bs;
      backupConsumed := seq(sh.sets, _ => 0);
      replacements := seq(sh.sets, _ => ReplacementGroup(0, seq(sh.perChunk, _ => 0), seq(sh.perChunk, _ => [])));
    }

    // ---- Preprocessing

    /** The share of one thread of the primary sets. */
    method PrimaryThread(lo: nat, hi: nat, c: nat, data: seq<Entry>, hit: array<bool>)
      requires sh.Ok() && |data| == sh.chunk && Uniform(data, sh.size) && hit.Length == sh.chunk
      requires hi <= |primary| && forall j :: 0 <= j < |primary| ==> |primary[j].parity| == sh.size
      modifies this`primary, hit
      ensures |primary| == |old(primary)|
      ensures forall j :: 0 <= j < |primary| ==>
        primary[j] == (if lo <= j < hi then AbsorbPrimary(sh, old(primary)[j], c, data) else old(primary)[j])
      ensures forall o :: 0 <= o < sh.chunk ==>
        (hit[o] <==> old(hit[o]) || exists j :: lo <= j < hi && Offset(sh, primary[j].tag, c) == o)
    {
      var j := lo;
      while j < hi
        invariant lo <= j && (j <= hi || j == lo) && |primary| == |old(primary)|
        invariant forall k :: 0 <= k < |primary| ==>
          primary[k] == (if lo <= k < j then AbsorbPrimary(sh, old(primary)[k], c, data) else old(primary)[k])
        invariant forall o :: 0 <= o < sh.chunk ==>
          (hit[o] <==> old(hit[o]) || exists k :: lo <= k < j && Offset(sh, primary[k].tag, c) == o)
      {
        var offset := Offset(sh, primary[j].tag, c);
        OffsetBound(sh, primary[j].tag, c);
        hit[offset] := true;
        primary := primary[j := primary[j].(parity := Xor(primary[j].parity, data[offset]))];
        j := j + 1;
      }
    }

    /** The share of one thread of the backup sets; a group skips its own chunk. */
    method BackupThread(lo: nat, hi: nat, c: nat, data: seq<Entry>)
      requires sh.Ok() && sh.perChunk > 0 && |data| == sh.chunk && Uniform(data, sh.size)
      requires hi <= |backup| && forall j :: 0 <= j < |backup| ==> |backup[j].parity| == sh.size
      modifies this`backup
      ensures |backup| == |old(backup)|
      ensures forall j :: 0 <= j < |backup| ==>
        backup[j] == (if lo <= j < hi then AbsorbBackup(sh, j, old(backup)[j], c, data) else old(backup)[j])
    {
      var j := lo;
      while j < hi
        invariant lo <= j && (j <= hi || j == lo) && |backup| == |old(backup)|
        invariant forall k :: 0 <= k < |backup| ==>
          backup[k] == (if lo <= k < j then AbsorbBackup(sh, k, old(backup)[k], c, data) else old(backup)[k])
      {
        OwnGroup(j, c, sh.perChunk);
        if j < c * sh.perChunk || j >= (c + 1) * sh.perChunk {
          var offset := Offset(sh, backup[j].tag, c);
          OffsetBound(sh, backup[j].tag, c);
          backup := backup[j := backup[j].(parity := Xor(backup[j].parity, data[offset]))];
        }
        j := j + 1;
      }
    }

    /** Threads 0, 1, ... take consecutive shares; together they touch every set exactly once. */
    method UpdateParities(c: nat, data: seq<Entry>, hit: array<bool>)
      requires Sized() && |data| == sh.chunk && Uniform(data, sh.size) && hit.Length == sh.chunk
      requires forall o :: 0 <= o < sh.chunk ==> !hit[o]
      requires forall j :: 0 <= j < |primary| ==> |primary[j].parity| == sh.size
      requires sh.perChunk > 0 ==> forall j :: 0 <= j < |backup| ==> |backup[j].parity| == sh.size
      modifies this`primary, this`backup, hit
      ensures |primary| == |old(primary)| && |backup| == |old(backup)|
      ensures forall j :: 0 <= j < |primary| ==> primary[j] == AbsorbPrimary(sh, old(primary)[j], c, data)
      ensures sh.perChunk > 0 ==> forall j :: 0 <= j < |backup| ==> 
        backup[j] == AbsorbBackup(sh, j, old(backup)[j], c, data)
      ensures forall o :: 0 <= o < sh.chunk ==>
        (hit[o] <==> exists j :: 0 <= j < |primary| && Offset(sh, primary[j].tag, c) == o)
    {
      var n, m := |primary|, |backup|;
      var per := CeilDivide(n, threads);
      var perBackup := CeilDivide(m, threads);
      ghost var p0, p1 := 0, 0;
      for tid := 0 to threads
        invariant |primary| == n && |backup| == m
        invariant p0 == Min(tid * per, n) && p1 == Min(tid * perBackup, m)
        invariant forall j :: 0 <= j < n ==>
          primary[j] == (if j < p0 then AbsorbPrimary(sh, old(primary)[j], c, data) else old(primary)[j])
        invariant sh.perChunk > 0 ==> forall j :: 0 <= j < m ==>
          backup[j] == (if j < p1 then AbsorbBackup(sh, j, old(backup)[j], c, data) else old(backup)[j])
        invariant forall o :: 0 <= o < sh.chunk ==>
          (hit[o] <==> exists j :: 0 <= j < p0 && Offset(sh, primary[j].tag, c) == o)
      {
        NextShare(tid, per);
        NextShare(tid, perBackup);
        var lo, hi := tid * per, Min(tid * per + per, n);
        PrimaryThread(lo, hi, c, data, hit);
        if sh.perChunk > 0 {
          BackupThread(tid * perBackup, Min(tid * perBackup + perBackup, m), c, data);
        }
        p0, p1 := hi, Min(tid * perBackup + perBackup, m);
      }
    }

    /** Entries of the chunk that no primary set contains are kept as they are. */
    method StoreMisses(c: nat, data: seq<Entry>, hit: array<bool>)
      requires sh.Ok() && |data| == sh.chunk == hit.Length
      modifies this`misses
      ensures forall x :: x in misses ==>
        || (x in old(misses) && misses[x] == old(misses)[x])
        || exists o :: 0 <= o < sh.chunk && !hit[o] && x == Position(c, o, sh.chunk) && misses[x] == data[o]
      ensures forall x :: x in old(misses) ==> x in misses
      ensures forall o :: 0 <= o < sh.chunk && !hit[o] ==> Position(c, o, sh.chunk) in misses
    {
      for j := 0 to sh.chunk
        invariant forall x :: x in misses ==>
          || (x in old(misses) && misses[x] == old(misses)[x])
          || exists o :: 0 <= o < j && !hit[o] && x == Position(c, o, sh.chunk) && misses[x] == data[o]
        invariant forall x :: x in old(misses) ==> x in misses
        invariant forall o :: 0 <= o < j && !hit[o] ==> Position(c, o, sh.chunk) in misses
      {
        if !hit[j] {
          PositionCoordinates(c, j, sh.chunk);
          misses := misses[j + c * sh.chunk := data[j]];
        }
      }
    }

    /** Sample replacement entries of the chunk; `rand` are the generator's outputs. */
    method StoreReplacements(c: nat, data: seq<Entry>, rand: seq<nat>, ghost db: seq<Entry>)
      requires Sized() && DbOk(sh, db) && c < sh.sets && IsChunk(sh, db, c, data) && |rand| == sh.perChunk
      requires replacements[c].consumed == 0
      modifies this`replacements
      ensures |replacements| == |old(replacements)| && replacements[c].consumed == 0
      ensures ReplacementOk(sh, db, replacements[c], c)
      ensures forall d :: 0 <= d < |replacements| && d != c ==> replacements[d] == old(replacements)[d]
    {
      var indices, values := SampleChunk(sh, c, data, rand, db);
      replacements := replacements[c := replacements[c].(indices := indices, values := values)];
    }

    /** Chunks may be processed in any order, each once. */
    method PreprocessDBChunk(c: nat, data: seq<Entry>, rand: seq<nat>, ghost db: seq<Entry>, ghost done: set<nat>)
      requires Preprocessing(db, done) && c < sh.sets && c !in done
      requires IsChunk(sh, db, c, data) && |rand| == sh.perChunk
      modifies this
      ensures Preprocessing(db, done + {c})
    {
      hide PrimaryOk, BackupOk, ChunkId, Position, PowerOfTwo;
      var hit := new bool[sh.chunk](_ => false);
      ChunkUniform(sh, db, c, data);
      HintSizes(db, done);
      UpdateParities(c, data, hit);
      HintsAbsorb(db, done, c, data, old(primary), old(backup));
      StoreMisses(c, data, hit);
      StoreReplacements(c, data, rand, db);
      CoveredAfter(c, done, old(primary), old(misses), hit[..]);
    }

    // ---- Queries

    /** Every query, masked or real, has one index per chunk in chunk order. */
    method GenerateIndexQuery(x: nat, rand: seq<nat>, ghost db: seq<Entry>) returns (q: seq<nat>)
      requires Online(db) && ChunkId(x, sh.chunk) < sh.sets && |rand| == sh.sets
      modifies this`cache, this`ctx
      ensures Core(db) && OnePerChunk(sh, q) && ctx.index == x
      ensures Decided(x, q, old(cache))
    {
      hide HintsOk, ReplacementOk, DbOk, ChunkId, ChunkOffset, Position, MemberTest, Indices, Hits;
      ctx := ctx.(index := x);
      if x in cache {
        ctx := ctx.(mask := true);
        q := GenerateMaskQuery(sh, rand);
        return;
      }
      SpanOfChunks(x, sh.chunk, sh.sets);
      Coordinates(x, sh.chunk);
      var offset, c := x % sh.chunk, x / sh.chunk;
      var hit := FindHitSet(sh, primary, x, c, offset);
      assert hit == FirstHit(sh, primary, x, 0);
      if hit == |primary| {
        if x in misses {
          cache := cache[x := misses[x]];
        }
        ctx := ctx.(mask := true);
        q := GenerateMaskQuery(sh, rand);
        return;
      }
      if replacements[c].consumed == sh.perChunk {
        ctx := ctx.(mask := true);
        q := GenerateMaskQuery(sh, rand);
        return;
      }
      q := EditHitSet(x, c, hit, db);
      ctx := ctx.(hit := hit);
    }

    /** The hit set with the element of x's chunk replaced by the next replacement. */
    method EditHitSet(x: nat, c: nat, hit: nat, ghost db: seq<Entry>) returns (q: seq<nat>)
      requires Core(db) && c == ChunkId(x, sh.chunk) < sh.sets && hit < |primary| && Hits(sh, primary[hit], x)
      requires replacements[c].consumed != sh.perChunk
      ensures OnePerChunk(sh, q) && (primary[hit].programmed ==> ChunkId(primary[hit].point, sh.chunk) < sh.sets)
      ensures replacements[c].consumed < |replacements[c].indices|
      ensures q == Indices(sh, primary[hit])[c := replacements[c].indices[replacements[c].consumed]]
    {
      var next := replacements[c].consumed;
      SpanOfChunks(x, sh.chunk, sh.sets);
      HitIsMember(sh, primary[hit], x);
      EditedParity(sh, db, Indices(sh, primary[hit]), c, replacements[c].indices[next]);
      q := ExpandProgrammed(sh, primary[hit]);
      q := q[c := replacements[c].indices[next]];
    }

    /** Given the server's parity of the query, the answer is db[x]; the hit set is refreshed. */
    method RecoverIndexReply(reply: Entry, ghost db: seq<Entry>, ghost q: seq<nat>) returns (val: Entry)
      requires Core(db) && OnePerChunk(sh, q)
      requires !ctx.mask ==> Edited(ctx.index, q) && reply == SetParity(sh, db, q, All(sh))
      modifies this
      ensures Online(db)
      ensures if old(ctx.mask) && old(ctx.index !in cache) then val == Zero(sh.size)
              else old(ctx.index) < |db| && val == db[old(ctx.index)]
      ensures old(ctx.mask) ==> cache == old(cache)
      ensures !old(ctx.mask) ==> cache == old(cache)[old(ctx.index) := val]
      ensures misses == old(misses) && backup == old(backup)
      ensures old(ctx.mask) ==>
        primary == old(primary) && backupConsumed == old(backupConsumed) && replacements == old(replacements)
      ensures !old(ctx.mask) ==>
        Refreshed(old(ctx.index), old(ctx.hit), old(primary), old(backupConsumed), old(replacements))
    {
      hide HintsOk, ReplacementOk, ChunkId, ChunkOffset, Position, PowerOfTwo, SetParity, Expand, Indices, Hits;
      var x := ctx.index;
      if ctx.mask {
        ctx := ctx.(mask := false);
        return if x in cache then cache[x] else Zero(sh.size);
      }
      var hit := ctx.hit;
      Coordinates(x, sh.chunk);
      SpanOfChunks(x, sh.chunk, sh.sets);
      var c := x / sh.chunk;
      val := CombineReply(x, c, hit, reply, db, q);
      cache := cache[x := val];
      if backupConsumed[c] == sh.perChunk {
        return;
      }
      Refresh(x, c, hit, val, db);
    }

    /** The hint of the hit set, the reply and the next replacement make up the entry. */
    method CombineReply(x: nat, c: nat, hit: nat, reply: Entry, ghost db: seq<Entry>, ghost q: seq<nat>)
      returns (val: Entry)
      requires Core(db) && OnePerChunk(sh, q) && hit == ctx.hit && c == ChunkId(x, sh.chunk) && x < |db|
      requires Edited(x, q) && reply == SetParity(sh, db, q, All(sh))
      modifies this`replacements
      ensures Core(db) && val == db[x]
      ensures var group := old(replacements[c]);
        replacements == old(replacements)[c := group.(consumed := group.consumed + 1)]
    {
      hide ChunkId, ChunkOffset, Position, PowerOfTwo, SetParity, BackupOk, Expand;
      HitIsMember(sh, primary[hit], x);
      RecoveredEntry(sh, db, primary[hit], x, replacements[c].indices[replacements[c].consumed]);
      var v := TakeReplacement(c, db);
      var acc := Fill(primary[hit].parity);
      var ok := XorInto(acc, reply);
      ok := XorInto(acc, v);
      val := acc[..];
    }

    method TakeReplacement(c: nat, ghost db: seq<Entry>) returns (v: Entry)
      requires Core(db) && c < sh.sets && replacements[c].consumed < sh.perChunk
      modifies this`replacements
      ensures Core(db)
      ensures var group := old(replacements[c]);
        replacements == old(replacements)[c := group.(consumed := group.consumed + 1)]
      ensures v == db[old(replacements[c].indices[replacements[c].consumed])]
    {
      var next := replacements[c].consumed;
      v := replacements[c].values[next];
      replacements := replacements[c := replacements[c].(consumed := next + 1)];
    }

    /** The hit set is replaced by the next backup set of the chunk, with x programmed in. */
    method Refresh(x: nat, c: nat, hit: nat, val: Entry, ghost db: seq<Entry>)
      requires Core(db) && hit < |primary| && x < |db| && c == ChunkId(x, sh.chunk) < sh.sets && val == db[x]
      requires backupConsumed[c] < sh.perChunk
      modifies this`primary, this`backupConsumed
      ensures Core(db) && |primary| == |old(primary)|
      ensures primary == old(primary)[hit := primary[hit]] && primary[hit].programmed && primary[hit].point == x
      ensures Position(c, old(backupConsumed)[c], sh.perChunk) < |backup|
      ensures primary[hit].tag == backup[Position(c, old(backupConsumed)[c], sh.perChunk)].tag
      ensures backupConsumed == old(backupConsumed)[c := old(backupConsumed)[c] + 1]
    {
      var consumed := backupConsumed[c];
      PositionCoordinates(c, consumed, sh.perChunk);
      SpanOfChunks(Position(c, consumed, sh.perChunk), sh.perChunk, sh.sets);
      var b := backup[c * sh.perChunk + consumed];
      RefreshedSet(sh, db, b, x);
      primary := primary[hit := LocalSet(b.tag, Xor(val, b.parity), x, true)];
      backupConsumed := backupConsumed[c := consumed + 1];
    }

    lemma HintSizes(db: seq<Entry>, on: set<nat>)
      requires Sized() && DbOk(sh, db) && HintsOk(db, on)
      ensures forall j :: 0 <= j < |primary| ==> |primary[j].parity| == sh.size
      ensures sh.perChunk > 0 ==> forall j :: 0 <= j < |backup| ==> |backup[j].parity| == sh.size
    {
    }

    lemma HintsAbsorb(db: seq<Entry>, done: set<nat>, c: nat, data: seq<Entry>, primary0: seq<LocalSet>,
        backup0: seq<BackupSet>)
      requires Sized() && DbOk(sh, db) && c < sh.sets && c !in done && IsChunk(sh, db, c, data)
      requires Uniform(data, sh.size)
      requires |primary| == |primary0| && |backup| == |backup0|
      requires forall j :: 0 <= j < |primary0| ==> PrimaryOk(sh, db, primary0[j], done) && !primary0[j].programmed
      requires sh.perChunk > 0 ==> forall j :: 0 <= j < |backup0| ==>
        BackupOk(sh, db, backup0[j], ChunkId(j, sh.perChunk), done)
      requires forall j :: 0 <= j < |primary| ==> |primary0[j].parity| == sh.size
      requires sh.perChunk > 0 ==> forall j :: 0 <= j < |backup| ==> |backup0[j].parity| == sh.size
      requires forall j :: 0 <= j < |primary| ==> primary[j] == AbsorbPrimary(sh, primary0[j], c, data)
      requires sh.perChunk > 0 ==> forall j :: 0 <= j < |backup| ==>
        backup[j] == AbsorbBackup(sh, j, backup0[j], c, data)
      ensures HintsOk(db, done + {c})
    {
      forall j | 0 <= j < |primary| ensures PrimaryOk(sh, db, primary[j], done + {c}) {
        PrimaryAbsorbs(sh, db, primary0[j], done, c, data);
      }
      if sh.perChunk > 0 {
        forall j | 0 <= j < |backup| ensures BackupOk(sh, db, backup[j], ChunkId(j, sh.perChunk), done + {c}) {
          BackupAbsorbs(sh, db, backup0[j], ChunkId(j, sh.perChunk), done, c, data);
        }
      }
    }

    /** The new chunk is covered: its hit offsets by a primary set, the others by the misses. */
    lemma CoveredAfter(c: nat, done: set<nat>, primary0: seq<LocalSet>, misses0: map<nat, Entry>, hit: seq<bool>)
      requires sh.Ok() && |primary0| == |primary| && |hit| == sh.chunk
      requires forall j :: 0 <= j < |primary| ==> !primary[j].programmed && primary[j].tag == primary0[j].tag
      requires forall x :: 0 <= x < Span(sh) && ChunkId(x, sh.chunk) in done ==>
        x in misses0 || exists j :: 0 <= j < |primary0| && Hits(sh, primary0[j], x)
      requires forall x :: x in misses0 ==> x in misses
      requires forall o :: 0 <= o < sh.chunk && !hit[o] ==> Position(c, o, sh.chunk) in misses
      requires forall o :: 0 <= o < sh.chunk && hit[o] ==>
        exists j :: 0 <= j < |primary| && Offset(sh, primary[j].tag, c) == o
      ensures Covered(done + {c})
    {
      forall x | 0 <= x < Span(sh) && ChunkId(x, sh.chunk) in done + {c}
        ensures x in misses || HitBy(x, |primary|)
      {
        if ChunkId(x, sh.chunk) in done {
          if x !in misses0 {
            var j :| 0 <= j < |primary0| && Hits(sh, primary0[j], x);
            assert Hits(sh, primary[j], x);
          }
        } else {
          Coordinates(x, sh.chunk);
          var o := ChunkOffset(x, sh.chunk);
          if hit[o] {
            var j :| 0 <= j < |primary| && Offset(sh, primary[j].tag, c) == o;
            assert Hits(sh, primary[j], x);
          }
        }
      }
    }
  }

  method GenerateMaskQuery(sh: Shape, rand: seq<nat>) returns (q: seq<nat>)
    requires sh.Ok() && |rand| == sh.sets
    ensures OnePerChunk(sh, q)
  {
    q := [];
    for i := 0 to sh.sets
      invariant |q| == i
      invariant forall c :: 0 <= c < i ==> ChunkId(q[c], sh.chunk) == c && q[c] < Span(sh)
    {
      MaskedPosition(sh, rand[i], i);
      q := q + [rand[i] % sh.chunk + i * sh.chunk];
    }
  }

  lemma MaskedPosition(sh: Shape, r: nat, c: nat)
    requires sh.Ok() && c < sh.sets
    ensures var x := r % sh.chunk + c * sh.chunk; x >= 0 && ChunkId(x, sh.chunk) == c && x < Span(sh)
  {
    var x := Position(c, r % sh.chunk, sh.chunk);
    PositionCoordinates(c, r % sh.chunk, sh.chunk);
    SpanOfChunks(x, sh.chunk, sh.sets);
  }

  /** The first primary set that contains x and is not programmed in its chunk. */
  method FindHitSet(sh: Shape, primary: seq<LocalSet>, x: nat, c: nat, offset: nat) returns (hit: nat)
    requires sh.Ok() && c == ChunkId(x, sh.chunk) && offset == ChunkOffset(x, sh.chunk)
    ensures hit <= |primary| && (hit < |primary| ==> Hits(sh, primary[hit], x))
    ensures forall j :: 0 <= j < hit ==> !Hits(sh, primary[j], x)
  {
    hit := 0;
    while hit < |primary|
      invariant hit <= |primary| && forall j :: 0 <= j < hit ==> !Hits(sh, primary[j], x)
    {
      var s := primary[hit];
      Coordinates(s.point, sh.chunk);
      if !(s.programmed && c == s.point / sh.chunk) && MemberTest(sh, s.tag, c, offset) {
        return;
      }
      hit := hit + 1;
    }
  }

  method ExpandProgrammed(sh: Shape, s: LocalSet) returns (q: seq<nat>)
    requires sh.Ok() && (s.programmed ==> ChunkId(s.point, sh.chunk) < sh.sets)
    ensures q == Indices(sh, s)
  {
    q := ExpandWithLongKey(sh, s.tag);
    if s.programmed {
      Coordinates(s.point, sh.chunk);
      q := q[s.point / sh.chunk := s.point];
    }
  }

  method SampleChunk(sh: Shape, c: nat, data: seq<Entry>, rand: seq<nat>, ghost db: seq<Entry>)
    returns (indices: seq<nat>, values: seq<Entry>)
    requires sh.Ok() && IsChunk(sh, db, c, data) && |rand| == sh.perChunk
    ensures |indices| == |values| == sh.perChunk
    ensures forall i :: 0 <= i < sh.perChunk ==>
      ChunkId(indices[i], sh.chunk) == c && indices[i] < |db| && values[i] == db[indices[i]]
  {
    indices, values := [], [];
    for k := 0 to sh.perChunk
      invariant |indices| == |values| == k
      invariant forall i :: 0 <= i < k ==>
        ChunkId(indices[i], sh.chunk) == c && indices[i] < |db| && values[i] == db[indices[i]]
    {
      var offset := And(rand[k], sh.chunk - 1);
      SampledPosition(rand[k], c, sh.chunk);
      indices, values := indices + [offset + c * sh.chunk], values + [data[offset]];
    }
  }

  lemma SampledPosition(r: nat, c: nat, chunk: nat)
    requires PowerOfTwo(chunk)
    ensures var o := And(r, chunk - 1);
      o < chunk && o + c * chunk == Position(c, o, chunk) && ChunkId(Position(c, o, chunk), chunk) == c
  {
    MaskIsMod(r, chunk);
    PositionCoordinates(c, And(r, chunk - 1), chunk);
  }

  function AbsorbPrimary(sh: Shape, s: LocalSet, c: nat, data: seq<Entry>): LocalSet
    requires sh.Ok() && |data| == sh.chunk && Uniform(data, sh.size) && |s.parity| == sh.size
  {
    s.(parity := Absorb(sh, s.parity, s.tag, c, data))
  }

  function AbsorbBackup(sh: Shape, j: nat, b: BackupSet, c: nat, data: seq<Entry>): BackupSet
    requires sh.Ok() && |data| == sh.chunk && Uniform(data, sh.size) && |b.parity| == sh.size && sh.perChunk > 0
  {
    if ChunkId(j, sh.perChunk) != c then b.(parity := Absorb(sh, b.parity, b.tag, c, data)) else b
  }

  function Min(a: nat, b: nat): nat { if a < b then a else b }

  lemma NextShare(tid: nat, per: nat)
    ensures (tid + 1) * per == tid * per + per && tid * per >= 0
  {
  }

  /** The bounds test of the source says exactly that j lies in group c. */
  lemma OwnGroup(j: nat, c: nat, per: nat)
    requires per > 0
    ensures (j < c * per || j >= (c + 1) * per) <==> ChunkId(j, per) != c
  {
    SpanOfChunks(j, per, c);
    SpanOfChunks(j, per, c + 1);
    SpanIsProduct(per, c);
    SpanIsProduct(per, c + 1);
  }

  ghost function Tags(backup: seq<BackupSet>): seq<nat> {
    seq(|backup|, j requires 0 <= j < |backup| => backup[j].tag)
  }

  ghost function Consumed(groups: seq<ReplacementGroup>): seq<nat> {
    seq(|groups|, c requires 0 <= c < |groups| => groups[c].consumed)
  }
}
