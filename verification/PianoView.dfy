/** What decides whether a Piano client can answer: its sets without their hints, and its counters. */
module PianoView {
  import opened ChunkParams
  import opened PianoSets

  /** The search condition of a query for x. */
  predicate Hits(sh: Shape, s: LocalSet, x: nat)
    requires sh.chunk > 0
  {
    && !(s.programmed && ChunkId(x, sh.chunk) == ChunkId(s.point, sh.chunk))
    && MemberTest(sh, s.tag, ChunkId(x, sh.chunk), ChunkOffset(x, sh.chunk))
  }

  /** The search finds a set exactly when x is among the indices the set stands for and not in the chunk that
      is programmed. */
  lemma HitsIff(sh: Shape, s: LocalSet, x: nat)
    requires sh.Ok() && ChunkId(x, sh.chunk) < sh.sets && (s.programmed ==> ChunkId(s.point, sh.chunk) < sh.sets)
    ensures Hits(sh, s, x) <==>
      Indices(sh, s)[ChunkId(x, sh.chunk)] == x && !(s.programmed && ChunkId(x, sh.chunk) == ChunkId(s.point, sh.chunk))
  {
    var c := ChunkId(x, sh.chunk);
    Coordinates(x, sh.chunk);
    OffsetBound(sh, s.tag, c);
    PositionCoordinates(c, Offset(sh, s.tag, c), sh.chunk);
  }

  /** A set without its hint. */
  ghost function Bare(s: LocalSet): LocalSet { s.(parity := []) }

  ghost function AllBare(sets: seq<LocalSet>): seq<LocalSet> {
    seq(|sets|, j requires 0 <= j < |sets| => Bare(sets[j]))
  }

  /** What stays as it is after preprocessing: the tags of the backup sets and the local misses. */
  datatype Fixed = Fixed(sh: Shape, tags: seq<nat>, missed: set<nat>)

  /** What queries change: the sets, the backup sets and replacements consumed per chunk, and the cache. */
  datatype View = View(sets: seq<LocalSet>, backupUsed: seq<nat>, used: seq<nat>, cached: set<nat>)

  ghost predicate ViewOk(f: Fixed, v: View) {
    f.sh.chunk > 0 && |v.backupUsed| == |v.used| == f.sh.sets
  }

  /** The first set that hits x, or the number of sets. */
  ghost function FirstHit(sh: Shape, sets: seq<LocalSet>, x: nat, from: nat): (j: nat)
    requires sh.chunk > 0 && from <= |sets|
    ensures from <= j <= |sets| && (j < |sets| ==> Hits(sh, sets[j], x))
    ensures forall i :: from <= i < j ==> !Hits(sh, sets[i], x)
    decreases |sets| - from
  {
    if from == |sets| || Hits(sh, sets[from], x) then from else FirstHit(sh, sets, x, from + 1)
  }

  ghost predicate Found(f: Fixed, v: View, x: nat)
    requires ViewOk(f, v)
  {
    FirstHit(f.sh, v.sets, x, 0) < |v.sets|
  }

  /** The query goes out unmasked: not cached, a set found, and a replacement left in its chunk. */
  ghost predicate Real(f: Fixed, v: View, x: nat)
    requires ViewOk(f, v) && ChunkId(x, f.sh.chunk) < f.sh.sets
  {
    x !in v.cached && Found(f, v, x) && v.used[ChunkId(x, f.sh.chunk)] != f.sh.perChunk
  }

  /** The query cannot be answered: not cached, and either its set was found but the replacements of its chunk
      have run out, or no set was found and it is no local miss. */
  ghost predicate FailsIn(f: Fixed, v: View, x: nat)
    requires ViewOk(f, v) && ChunkId(x, f.sh.chunk) < f.sh.sets
  {
    && x !in v.cached
    && if Found(f, v, x) then v.used[ChunkId(x, f.sh.chunk)] == f.sh.perChunk else x !in f.missed
  }

  ghost predicate WellPlaced(f: Fixed, s: LocalSet)
    requires f.sh.chunk > 0
  {
    s.programmed ==> ChunkId(s.point, f.sh.chunk) < f.sh.sets
  }

  /** Set j stands for x. */
  ghost predicate StandsFor(f: Fixed, v: View, j: nat, x: nat)
    requires f.sh.chunk > 0 && ChunkId(x, f.sh.chunk) < f.sh.sets
  {
    j < |v.sets| && WellPlaced(f, v.sets[j]) && Indices(f.sh, v.sets[j])[ChunkId(x, f.sh.chunk)] == x
  }

  /** Set j stands for x, outside its programmed chunk. */
  ghost predicate Offers(f: Fixed, v: View, j: nat, x: nat)
    requires f.sh.chunk > 0 && ChunkId(x, f.sh.chunk) < f.sh.sets
  {
    && StandsFor(f, v, j, x)
    && !(v.sets[j].programmed && ChunkId(x, f.sh.chunk) == ChunkId(v.sets[j].point, f.sh.chunk))
  }

  /** The query cannot be answered if and only if x is not cached and either some set offers it but the
      replacements of its chunk have run out, or no set offers it and it is no local miss. */
  lemma FailsIff(f: Fixed, v: View, x: nat)
    requires f.sh.Ok() && ViewOk(f, v) && ChunkId(x, f.sh.chunk) < f.sh.sets
    requires forall j :: 0 <= j < |v.sets| ==> WellPlaced(f, v.sets[j])
    ensures FailsIn(f, v, x) <==>
      && x !in v.cached
      && if exists j: nat :: Offers(f, v, j, x) then v.used[ChunkId(x, f.sh.chunk)] == f.sh.perChunk else x !in f.missed
  {
    hide Indices, Hits, ChunkId;
    forall j | 0 <= j < |v.sets| ensures Hits(f.sh, v.sets[j], x) <==> Offers(f, v, j, x) {
      HitsIff(f.sh, v.sets[j], x);
    }
    if j: nat :| Offers(f, v, j, x) {
      assert FirstHit(f.sh, v.sets, x, 0) <= j;
    }
    if Found(f, v, x) {
      assert Offers(f, v, FirstHit(f.sh, v.sets, x, 0), x);
    }
  }

  /** Some set offers x, and its chunk has a replacement left. */
  ghost predicate Offered(f: Fixed, v: View, x: nat)
    requires ViewOk(f, v) && ChunkId(x, f.sh.chunk) < f.sh.sets
  {
    (exists j: nat :: Offers(f, v, j, x)) && v.used[ChunkId(x, f.sh.chunk)] != f.sh.perChunk
  }

  lemma OfferedIsAnswered(f: Fixed, v: View, x: nat)
    requires f.sh.Ok() && ViewOk(f, v) && ChunkId(x, f.sh.chunk) < f.sh.sets
    ensures Offered(f, v, x) ==> !FailsIn(f, v, x)
  {
    hide Indices, Hits, ChunkId;
    if Offered(f, v, x) {
      var j: nat :| Offers(f, v, j, x);
      HitsIff(f.sh, v.sets[j], x);
      assert FirstHit(f.sh, v.sets, x, 0) <= j;
    }
  }

  /** Every programmed point lies in a chunk and is cached. */
  ghost predicate PointsCached(f: Fixed, v: View)
    requires f.sh.chunk > 0
  {
    forall j :: 0 <= j < |v.sets| && v.sets[j].programmed ==> WellPlaced(f, v.sets[j]) && v.sets[j].point in v.cached
  }

  lemma AfterCaches(f: Fixed, v: View, x: nat)
    requires ViewOk(f, v) && ChunkId(x, f.sh.chunk) < f.sh.sets && PointsCached(f, v)
    ensures PointsCached(f, After(f, v, x))
  {
    hide ChunkId, FirstHit, BackupTag;
  }

  lemma {:induction false} PointsStayCached(f: Fixed, v: View, queries: seq<nat>, i: nat)
    requires ViewOk(f, v) && InChunks(f, queries) && i <= |queries| && PointsCached(f, v)
    ensures PointsCached(f, ViewAt(f, v, queries, i))
  {
    hide After;
    if i > 0 {
      PointsStayCached(f, v, queries, i - 1);
      AfterCaches(f, ViewAt(f, v, queries, i - 1), queries[i - 1]);
    }
  }

  /** Then any index that some set stands for is answered as long as its chunk has a replacement: in its
      programmed chunk a set stands for a cached index. */
  lemma StoodForIsAnswered(f: Fixed, v: View, j: nat, x: nat)
    requires f.sh.Ok() && ViewOk(f, v) && PointsCached(f, v) && ChunkId(x, f.sh.chunk) < f.sh.sets
    requires StandsFor(f, v, j, x) && v.used[ChunkId(x, f.sh.chunk)] != f.sh.perChunk
    ensures !FailsIn(f, v, x)
  {
    if Offers(f, v, j, x) {
      OfferedIsAnswered(f, v, x);
    }
  }

  ghost function BackupTag(f: Fixed, c: nat, k: nat): nat {
    var i := Position(c, k, f.sh.perChunk);
    if i < |f.tags| then f.tags[i] else 0
  }

  /** The view after a query for x. */
  ghost function After(f: Fixed, v: View, x: nat): (r: View)
    requires ViewOk(f, v) && ChunkId(x, f.sh.chunk) < f.sh.sets
    ensures ViewOk(f, r)
  {
    var c := ChunkId(x, f.sh.chunk);
    if !Real(f, v, x) then
      if x !in v.cached && !Found(f, v, x) && x in f.missed then v.(cached := v.cached + {x}) else v
    else
      var v := v.(cached := v.cached + {x}, used := v.used[c := v.used[c] + 1]);
      if v.backupUsed[c] == f.sh.perChunk then v
      else
        v.(sets := v.sets[FirstHit(f.sh, v.sets, x, 0) := LocalSet(BackupTag(f, c, v.backupUsed[c]), [], x, true)],
           backupUsed := v.backupUsed[c := v.backupUsed[c] + 1])
  }

  /** Set j is the first that offers x. */
  ghost predicate FirstOffer(f: Fixed, v: View, j: nat, x: nat)
    requires f.sh.chunk > 0 && ChunkId(x, f.sh.chunk) < f.sh.sets
  {
    Offers(f, v, j, x) && forall i: nat :: i < j ==> !Offers(f, v, i, x)
  }

  /** A query for an index that is not cached, that set j is the first to offer and that has a replacement left
      uses up the replacement and, if its chunk has a backup set left, puts that set, programmed with the
      index, in the place of set j. */
  lemma OfferedStep(f: Fixed, v: View, j: nat, x: nat)
    requires f.sh.Ok() && ViewOk(f, v) && PointsCached(f, v) && ChunkId(x, f.sh.chunk) < f.sh.sets
    requires x !in v.cached && FirstOffer(f, v, j, x) && v.used[ChunkId(x, f.sh.chunk)] != f.sh.perChunk
    ensures var c, w := ChunkId(x, f.sh.chunk), After(f, v, x);
      && w.cached == v.cached + {x} && w.used == v.used[c := v.used[c] + 1]
      && if v.backupUsed[c] == f.sh.perChunk then w.sets == v.sets && w.backupUsed == v.backupUsed
         else
           && |w.sets| == |v.sets| && (forall i :: 0 <= i < |v.sets| && i != j ==> w.sets[i] == v.sets[i])
           && w.sets[j].programmed && w.sets[j].point == x && StandsFor(f, w, j, x)
           && w.sets[j].tag == BackupTag(f, c, v.backupUsed[c])
           && w.backupUsed == v.backupUsed[c := v.backupUsed[c] + 1]
  {
    hide Hits, ChunkId, BackupTag;
    FirstOfferIsHit(f, v, j, x);
  }

  lemma FirstOfferIsHit(f: Fixed, v: View, j: nat, x: nat)
    requires f.sh.Ok() && ViewOk(f, v) && PointsCached(f, v) && ChunkId(x, f.sh.chunk) < f.sh.sets
    requires FirstOffer(f, v, j, x)
    ensures FirstHit(f.sh, v.sets, x, 0) == j < |v.sets|
  {
    hide Indices, Hits, ChunkId;
    forall i: nat | i < |v.sets| ensures Hits(f.sh, v.sets[i], x) <==> Offers(f, v, i, x) {
      HitsIff(f.sh, v.sets[i], x);
    }
  }

  /** Any other query changes no set and no counter. */
  lemma IdleStep(f: Fixed, v: View, x: nat)
    requires f.sh.Ok() && ViewOk(f, v) && PointsCached(f, v) && ChunkId(x, f.sh.chunk) < f.sh.sets
    requires x in v.cached || !Offered(f, v, x)
    ensures var w := After(f, v, x);
      && w.sets == v.sets && w.used == v.used && w.backupUsed == v.backupUsed
      && w.cached == if FailsIn(f, v, x) then v.cached else v.cached + {x}
  {
    hide Hits, ChunkId, BackupTag, Offered;
    RealIsOffered(f, v, x);
  }

  lemma RealIsOffered(f: Fixed, v: View, x: nat)
    requires f.sh.Ok() && ViewOk(f, v) && PointsCached(f, v) && ChunkId(x, f.sh.chunk) < f.sh.sets
    ensures Real(f, v, x) ==> Offered(f, v, x)
  {
    hide Hits, ChunkId, Indices;
    if Real(f, v, x) {
      var j := FirstHit(f.sh, v.sets, x, 0);
      HitsIff(f.sh, v.sets[j], x);
      assert Offers(f, v, j, x);
    }
  }

  ghost predicate InChunks(f: Fixed, queries: seq<nat>)
    requires f.sh.chunk > 0
  {
    forall i :: 0 <= i < |queries| ==> ChunkId(queries[i], f.sh.chunk) < f.sh.sets
  }

  /** The view after the first i queries. */
  ghost function ViewAt(f: Fixed, v: View, queries: seq<nat>, i: nat): (r: View)
    requires ViewOk(f, v) && InChunks(f, queries) && i <= |queries|
    ensures ViewOk(f, r)
  {
    if i == 0 then v else After(f, ViewAt(f, v, queries, i - 1), queries[i - 1])
  }

  /** The unmasked queries in chunk c among the first i. */
  ghost function RealCount(f: Fixed, v: View, queries: seq<nat>, c: nat, i: nat): nat
    requires ViewOk(f, v) && InChunks(f, queries) && i <= |queries|
  {
    if i == 0 then 0
    else
      RealCount(f, v, queries, c, i - 1)
      + if ChunkId(queries[i - 1], f.sh.chunk) == c && Real(f, ViewAt(f, v, queries, i - 1), queries[i - 1])
        then 1 else 0
  }

  /** Replacements are used up by unmasked queries in their chunk and by nothing else. */
  lemma {:induction false} UsedIsRealCount(f: Fixed, v: View, queries: seq<nat>, c: nat, i: nat)
    requires ViewOk(f, v) && InChunks(f, queries) && i <= |queries| && c < f.sh.sets
    ensures ViewAt(f, v, queries, i).used[c] == v.used[c] + RealCount(f, v, queries, c, i)
  {
    hide FirstHit, BackupTag, ChunkId;
    if i > 0 {
      UsedIsRealCount(f, v, queries, c, i - 1);
    }
  }

  /** What was answered stays cached. */
  lemma {:induction false} CachedStays(f: Fixed, v: View, queries: seq<nat>, i: nat, j: nat)
    requires ViewOk(f, v) && InChunks(f, queries) && i < j <= |queries|
    requires !FailsIn(f, ViewAt(f, v, queries, i), queries[i])
    ensures queries[i] in ViewAt(f, v, queries, j).cached
  {
    if j > i + 1 {
      CachedStays(f, v, queries, i, j - 1);
    }
  }

  /** A query that fails is one that was never answered before, and either no set holds it and it is no local
      miss, or exactly as many unmasked queries as there are replacements went before it in its chunk. */
  lemma WhyItFails(f: Fixed, v: View, queries: seq<nat>, j: nat)
    requires ViewOk(f, v) && InChunks(f, queries) && j < |queries|
    requires forall c :: 0 <= c < f.sh.sets ==> v.used[c] == 0
    requires FailsIn(f, ViewAt(f, v, queries, j), queries[j])
    ensures forall i :: 0 <= i < j && queries[i] == queries[j] ==> FailsIn(f, ViewAt(f, v, queries, i), queries[i])
    ensures if Found(f, ViewAt(f, v, queries, j), queries[j])
            then RealCount(f, v, queries, ChunkId(queries[j], f.sh.chunk), j) == f.sh.perChunk
            else queries[j] !in f.missed
  {
    UsedIsRealCount(f, v, queries, ChunkId(queries[j], f.sh.chunk), j);
    forall i | 0 <= i < j && queries[i] == queries[j] ensures FailsIn(f, ViewAt(f, v, queries, i), queries[i]) {
      if !FailsIn(f, ViewAt(f, v, queries, i), queries[i]) {
        CachedStays(f, v, queries, i, j);
      }
    }
  }

  /** Hints play no part in the search. */
  lemma {:induction false} BareHit(sh: Shape, sets: seq<LocalSet>, x: nat, from: nat)
    requires sh.chunk > 0 && from <= |sets|
    ensures FirstHit(sh, AllBare(sets), x, from) == FirstHit(sh, sets, x, from)
    decreases |sets| - from
  {
    if from < |sets| {
      assert Hits(sh, AllBare(sets)[from], x) == Hits(sh, sets[from], x);
      BareHit(sh, sets, x, from + 1);
    }
  }
}
