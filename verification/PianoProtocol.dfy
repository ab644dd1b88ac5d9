/** The Piano server and whole runs of the protocol. */
module PianoProtocol {
  import opened Entry
  import opened ChunkParams
  import opened PianoSets
  import opened PianoView
  import opened PianoClient

  class Server {
    const chunk: nat
    const sets: nat
    const size: nat
    var db: seq<Entry>
    var entryNum: nat

    ghost predicate Valid()
      reads this
    {
      chunk > 0 && entryNum == |db| == Position(sets, 0, chunk) && Uniform(db, size)
    }

    /** The database is padded to whole chunks with generated entries. */
    constructor (entries: seq<Entry>, size: nat, pad: nat -> Entry)
      requires Uniform(entries, size) && forall i :: |pad(i)| == size
      ensures Valid() && entries <= db && this.size == size
      ensures PowerOfTwo(chunk) && chunk * chunk >= 4 * |entries| && |db| < |entries| + chunk
    {
      var c, s := GenChunkParams(|entries|);
      chunk, sets, this.size := c, s, size;
      SpanIsProduct(c, s);
      db, entryNum := entries, |entries|;
      new;
      AlignDBToChunkBoundary(pad);
    }

    method AlignDBToChunkBoundary(pad: nat -> Entry)
      requires entryNum == |db| <= chunk * sets && Uniform(db, size) && forall i :: |pad(i)| == size
      modifies this
      ensures entryNum == |db| == chunk * sets && Uniform(db, size) && old(db) <= db
    {
      if entryNum < chunk * sets {
        var padding := chunk * sets - entryNum;
        for i := 0 to padding
          invariant |db| == entryNum + i && Uniform(db, size) && old(db) <= db && entryNum == old(entryNum)
        {
          db := db + [pad(i)];
        }
        entryNum := entryNum + padding;
      }
    }

    method GetDBChunk(sh: Shape, c: nat) returns (data: seq<Entry>)
      requires Valid() && sh.chunk == chunk && sh.sets == sets && c < sets
      ensures IsChunk(sh, db, c, data)
    {
      ChunkRange(c, chunk, sets);
      data := db[c * chunk..(c + 1) * chunk];
      forall o | 0 <= o < chunk ensures Position(c, o, chunk) < |db| && data[o] == db[Position(c, o, chunk)] {
        PositionCoordinates(c, o, chunk);
        SpanOfChunks(Position(c, o, chunk), chunk, sets);
      }
    }

    method DBAccess(idx: nat) returns (e: Entry)
      requires Valid()
      ensures e == if idx < |db| then db[idx] else Zero(size)
    {
      e := if idx < entryNum then db[idx] else Zero(size);
    }

    /** For a query with one index per chunk the reply is its parity; no access is out of range. */
    method GenerateIndexReply(sh: Shape, q: seq<nat>) returns (parity: Entry)
      requires Valid() && sh.Ok() && sh.chunk == chunk && sh.sets == sets && sh.size == size
      ensures |parity| == size
      ensures OnePerChunk(sh, q) ==> parity == SetParity(sh, db, q, All(sh))
    {
      var acc := Fill(Zero(size));
      for i := 0 to |q|
        invariant acc.Length == size
        invariant OnePerChunk(sh, q) ==> acc[..] == Parity(db, size, q, All(sh), i)
      {
        var e := DBAccess(q[i]);
        var ok := XorInto(acc, e);
      }
      parity := acc[..];
    }
  }

  lemma ChunkRange(c: nat, chunk: nat, sets: nat)
    requires chunk > 0 && c < sets
    ensures 0 <= c * chunk <= (c + 1) * chunk <= Position(sets, 0, chunk)
    ensures (c + 1) * chunk - c * chunk == chunk
  {
    var last := Position(c, chunk - 1, chunk);
    PositionCoordinates(c, chunk - 1, chunk);
    SpanOfChunks(last, chunk, sets);
    assert (c + 1) * chunk == c * chunk + chunk;
  }

  ghost predicate Matched(client: Client, server: Server)
    reads server
  {
    && server.Valid() && client.sh.chunk == server.chunk && client.sh.sets == server.sets
    && client.sh.size == server.size
  }

  /** A client that has seen every chunk can answer every index. */
  lemma FreshClientNeverFails(client: Client, db: seq<Entry>, x: nat)
    requires client.Preprocessing(db, All(client.sh)) && client.sh.perChunk > 0
    requires ChunkId(x, client.sh.chunk) < client.sh.sets
    ensures client.Online(db) && !client.Fails(x)
  {
    SpanOfChunks(x, client.sh.chunk, client.sh.sets);
    assert ChunkId(x, client.sh.chunk) in All(client.sh);
    BareHit(client.sh, client.primary, x, 0);
  }

  /** Preprocessing in any order that visits every chunk once. */
  method Preprocess(client: Client, server: Server, order: seq<nat>, rand: seq<seq<nat>>)
    requires Matched(client, server) && client.Preprocessing(server.db, {})
    requires forall i, j :: 0 <= i < j < |order| ==> order[i] != order[j]
    requires forall c: nat :: c in order <==> c < client.sh.sets
    requires |rand| == |order| && forall i :: 0 <= i < |rand| ==> |rand[i]| == client.sh.perChunk
    modifies client
    ensures client.Preprocessing(server.db, All(client.sh)) && client.Online(server.db)
    ensures client.sh.perChunk > 0 ==>
      forall x: nat :: ChunkId(x, client.sh.chunk) < client.sh.sets ==> !client.Fails(x)
  {
    ghost var done: set<nat> := {};
    for i := 0 to |order|
      invariant client.Preprocessing(server.db, done)
      invariant forall c: nat :: c in done <==> c in order[..i]
    {
      assert order[..i + 1] == order[..i] + [order[i]];
      assert order[i] in order && order[i] !in order[..i];
      var data := server.GetDBChunk(client.sh, order[i]);
      client.PreprocessDBChunk(order[i], data, rand[i], server.db, done);
      done := done + {order[i]};
    }
    assert order[..|order|] == order;
    assert done == All(client.sh);
    if client.sh.perChunk > 0 {
      forall x: nat | ChunkId(x, client.sh.chunk) < client.sh.sets ensures !client.Fails(x) {
        FreshClientNeverFails(client, server.db, x);
      }
    }
  }

  /** One query, the server's reply and the recovery: the entry, or zero exactly when the query cannot be
      answered, and the view moves on as specified. */
  method Retrieve(client: Client, server: Server, x: nat, rand: seq<nat>) returns (val: Entry)
    requires Matched(client, server) && client.Online(server.db)
    requires ChunkId(x, client.sh.chunk) < client.sh.sets && |rand| == client.sh.sets
    modifies client
    ensures client.Online(server.db) && x < |server.db|
    ensures val == if old(client.Fails(x)) then Zero(server.size) else server.db[x]
    ensures client.FixedPart() == old(client.FixedPart())
    ensures client.CurrentView() == old(After(client.FixedPart(), client.CurrentView(), x))
    ensures old(Offered(client.FixedPart(), client.CurrentView(), x)) ==> val == server.db[x]
  {
    hide Client.Core, Client.Edited, After, FailsIn, Real, Position, SetParity, OnePerChunk, Offered;
    OnlineMeans(client, server.db);
    SpanOfChunks(x, client.sh.chunk, client.sh.sets);
    ghost var f, v := client.FixedPart(), client.CurrentView();
    OfferedIsAnswered(f, v, x);
    ghost var primary0, backupConsumed0 := client.primary, client.backupConsumed;
    ghost var replacements0, cache0 := client.replacements, client.cache;
    var q := client.GenerateIndexQuery(x, rand, server.db);
    ghost var masked := client.ctx.mask;
    Decision(f, v, x, primary0, client.misses, replacements0, cache0, masked, client.cache, client.ctx.hit);
    var reply := server.GenerateIndexReply(client.sh, q);
    val := client.RecoverIndexReply(reply, server.db, q);
    if !masked {
      RefreshedView(f, v, x, primary0, client.primary, client.backup, backupConsumed0, client.backupConsumed,
                    replacements0, client.replacements, cache0, client.cache);
    }
  }

  lemma OnlineMeans(client: Client, db: seq<Entry>)
    requires client.Online(db)
    ensures client.Sized() && DbOk(client.sh, db)
  {
  }

  /** What the client decides on its tables is what the view says. */
  lemma Decision(f: Fixed, v: View, x: nat, primary: seq<LocalSet>, misses: map<nat, Entry>,
      replacements: seq<ReplacementGroup>, cache: map<nat, Entry>, masked: bool, cache': map<nat, Entry>, hit: nat)
    requires ViewOk(f, v) && ChunkId(x, f.sh.chunk) < f.sh.sets == |replacements|
    requires f.missed == misses.Keys && v.sets == AllBare(primary) && v.used == Consumed(replacements)
    requires v.cached == cache.Keys
    requires var first := FirstHit(f.sh, primary, x, 0);
      if x in cache then masked && cache' == cache
      else if first == |primary| then masked && cache' == (if x in misses then cache[x := misses[x]] else cache)
      else if replacements[ChunkId(x, f.sh.chunk)].consumed == f.sh.perChunk then masked && cache' == cache
      else !masked && cache' == cache && hit == first
    ensures masked <==> !Real(f, v, x)
    ensures masked ==> (x in cache' <==> !FailsIn(f, v, x)) && After(f, v, x) == v.(cached := cache'.Keys)
    ensures !masked ==> !FailsIn(f, v, x) && hit == FirstHit(f.sh, v.sets, x, 0) < |v.sets| && cache' == cache
  {
    BareHit(f.sh, primary, x, 0);
  }

  /** The refresh of the tables is the step of the view. */
  lemma RefreshedView(f: Fixed, v: View, x: nat, primary0: seq<LocalSet>, primary: seq<LocalSet>,
                      backup: seq<BackupSet>, backupConsumed0: seq<nat>, backupConsumed: seq<nat>,
                      replacements0: seq<ReplacementGroup>, replacements: seq<ReplacementGroup>,
                      cache0: map<nat, Entry>, cache: map<nat, Entry>)
    requires ViewOk(f, v) && ChunkId(x, f.sh.chunk) < f.sh.sets == |replacements0| == |backupConsumed0| && Real(f, v, x)
    requires v == View(AllBare(primary0), backupConsumed0, Consumed(replacements0), cache0.Keys)
    requires f.tags == Tags(backup)
    requires cache.Keys == cache0.Keys + {x} && |primary| == |primary0|
    requires var c := ChunkId(x, f.sh.chunk);
      replacements == replacements0[c := replacements0[c].(consumed := replacements0[c].consumed + 1)]
    requires var c, hit := ChunkId(x, f.sh.chunk), FirstHit(f.sh, v.sets, x, 0);
      if backupConsumed0[c] == f.sh.perChunk then primary == primary0 && backupConsumed == backupConsumed0
      else
        var i := Position(c, backupConsumed0[c], f.sh.perChunk);
        && hit < |primary| && i < |backup| && backupConsumed == backupConsumed0[c := backupConsumed0[c] + 1]
        && primary == primary0[hit := primary[hit]] && Bare(primary[hit]) == LocalSet(backup[i].tag, [], x, true)
    ensures View(AllBare(primary), backupConsumed, Consumed(replacements), cache.Keys) == After(f, v, x)
  {
    hide FirstHit, ChunkId, Position;
    var c, hit := ChunkId(x, f.sh.chunk), FirstHit(f.sh, v.sets, x, 0);
    assert Consumed(replacements) == Consumed(replacements0)[c := replacements0[c].consumed + 1];
    if backupConsumed0[c] != f.sh.perChunk {
      assert AllBare(primary) == AllBare(primary0)[hit := Bare(primary[hit])];
    }
  }

  /** Any number of queries, from any view: every answer is the entry asked for, or zero exactly when the query
      cannot be answered in the view that the earlier queries have led to. */
  method RunOnline(client: Client, server: Server, queries: seq<nat>, rand: seq<seq<nat>>) returns (answers: seq<Entry>)
    requires Matched(client, server) && client.Online(server.db) && ViewOk(client.FixedPart(), client.CurrentView())
    requires InChunks(client.FixedPart(), queries)
    requires |rand| == |queries| && forall i :: 0 <= i < |rand| ==> |rand[i]| == client.sh.sets
    modifies client
    ensures |answers| == |queries| && client.Online(server.db)
    ensures forall i :: 0 <= i < |queries| ==>
      Answered(server.db, server.size, old(client.FixedPart()), old(client.CurrentView()), queries, i, answers[i])
  {
    hide Client.Online, After, FailsIn, Offered;
    answers := [];
    ghost var f, v := client.FixedPart(), client.CurrentView();
    for i := 0 to |queries|
      invariant |answers| == i && client.Online(server.db)
      invariant client.FixedPart() == f && client.CurrentView() == ViewAt(f, v, queries, i)
      invariant forall j :: 0 <= j < i ==> Answered(server.db, server.size, f, v, queries, j, answers[j])
    {
      var val := Retrieve(client, server, queries[i], rand[i]);
      answers := answers + [val];
    }
  }

  lemma FirstAnswer(db: seq<Entry>, size: nat, f: Fixed, v: View, queries: seq<nat>, answer: Entry)
    requires ViewOk(f, v) && InChunks(f, queries) && |queries| > 0 && Answered(db, size, f, v, queries, 0, answer)
    ensures queries[0] < |db| && (!FailsIn(f, v, queries[0]) ==> answer == db[queries[0]])
  {
  }

  lemma FreshView(client: Client, db: seq<Entry>)
    requires client.Preprocessing(db, All(client.sh))
    ensures client.Online(db) && ViewOk(client.FixedPart(), client.CurrentView())
    ensures forall c :: 0 <= c < client.sh.sets ==> client.CurrentView().used[c] == 0
    ensures client.sh.Ok() && PointsCached(client.FixedPart(), client.CurrentView())
  {
  }

  /** Any number of queries after preprocessing; the first one is always answered. */
  method Run(client: Client, server: Server, queries: seq<nat>, rand: seq<seq<nat>>) returns (answers: seq<Entry>)
    requires Matched(client, server) && client.Preprocessing(server.db, All(client.sh))
    requires forall i :: 0 <= i < |queries| ==> ChunkId(queries[i], client.sh.chunk) < client.sh.sets
    requires |rand| == |queries| && forall i :: 0 <= i < |rand| ==> |rand[i]| == client.sh.sets
    modifies client
    ensures |answers| == |queries| && client.Online(server.db)
    ensures old(ViewOk(client.FixedPart(), client.CurrentView()))
    ensures forall i :: 0 <= i < |queries| ==>
      Answered(server.db, server.size, old(client.FixedPart()), old(client.CurrentView()), queries, i, answers[i])
    ensures forall i :: 0 <= i < |queries| ==>
      HeldAnswered(server.db, old(client.FixedPart()), old(client.CurrentView()), queries, i, answers[i])
    ensures |queries| > 0 && client.sh.perChunk > 0 ==> queries[0] < |server.db| && answers[0] == server.db[queries[0]]
    ensures forall c :: 0 <= c < client.sh.sets ==> old(client.CurrentView()).used[c] == 0
  {
    hide Client.Preprocessing, Client.Online, After, FailsIn, Answered, HeldAnswered, PointsCached;
    FreshView(client, server.db);
    ghost var f, v := client.FixedPart(), client.CurrentView();
    if |queries| > 0 && client.sh.perChunk > 0 { FreshClientNeverFails(client, server.db, queries[0]); }
    answers := RunOnline(client, server, queries, rand);
    forall i | 0 <= i < |queries|
      ensures HeldAnswered(server.db, f, v, queries, i, answers[i])
    {
      StoodForRight(server.db, server.size, f, v, queries, i, answers[i]);
    }
    if |queries| > 0 { FirstAnswer(server.db, server.size, f, v, queries, answers[0]); }
  }

  /** Before query i some set stands for its index, and its chunk has a replacement left. */
  ghost predicate StoodFor(f: Fixed, v: View, queries: seq<nat>, i: nat)
    requires ViewOk(f, v) && InChunks(f, queries) && i < |queries|
  {
    var w := ViewAt(f, v, queries, i);
    && (exists j: nat :: StandsFor(f, w, j, queries[i]))
    && w.used[ChunkId(queries[i], f.sh.chunk)] != f.sh.perChunk
  }

  /** Such a query is answered. */
  ghost predicate HeldAnswered(db: seq<Entry>, f: Fixed, v: View, queries: seq<nat>, i: nat, answer: Entry)
    requires ViewOk(f, v) && InChunks(f, queries) && i < |queries|
  {
    StoodFor(f, v, queries, i) ==> queries[i] < |db| && answer == db[queries[i]]
  }

  lemma StoodForRight(db: seq<Entry>, size: nat, f: Fixed, v: View, queries: seq<nat>, i: nat, answer: Entry)
    requires f.sh.Ok() && ViewOk(f, v) && InChunks(f, queries) && i < |queries| && PointsCached(f, v)
    requires Answered(db, size, f, v, queries, i, answer)
    ensures HeldAnswered(db, f, v, queries, i, answer)
  {
    hide ViewAt, FailsIn, StandsFor, PointsCached;
    PointsStayCached(f, v, queries, i);
    if StoodFor(f, v, queries, i) {
      var j: nat :| StandsFor(f, ViewAt(f, v, queries, i), j, queries[i]);
      StoodForIsAnswered(f, ViewAt(f, v, queries, i), j, queries[i]);
    }
  }

  /** The answer to query i of a run that starts in view v. */
  ghost predicate Answered(db: seq<Entry>, size: nat, f: Fixed, v: View, queries: seq<nat>, i: nat, answer: Entry)
    requires ViewOk(f, v) && InChunks(f, queries) && i < |queries|
  {
    && queries[i] < |db|
    && answer == (if FailsIn(f, ViewAt(f, v, queries, i), queries[i]) then Zero(size) else db[queries[i]])
    && (Offered(f, ViewAt(f, v, queries, i), queries[i]) ==> answer == db[queries[i]])
  }
}
