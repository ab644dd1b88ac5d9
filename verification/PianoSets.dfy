/** The hint sets of the Piano client and the invariants that tie them to a database. */
module PianoSets {
  import opened Common
  import opened Entry
  import opened ChunkParams

  /** The fixed parameters of a client. `prf(tag, chunk)` is the keyed pseudorandom function. */
  datatype Shape = Shape(prf: (nat, nat) -> nat, chunk: nat, sets: nat, size: nat, perChunk: nat) {
    ghost predicate Ok() { chunk > 0 && PowerOfTwo(chunk) }
  }

  datatype LocalSet = LocalSet(tag: nat, parity: Entry, point: nat, programmed: bool)
  datatype BackupSet = BackupSet(tag: nat, parity: Entry)
  datatype ReplacementGroup = ReplacementGroup(consumed: nat, indices: seq<nat>, values: seq<Entry>)

  function Offset(sh: Shape, tag: nat, c: nat): nat
    requires sh.chunk > 0
  {
    And(sh.prf(tag, c), sh.chunk - 1)
  }

  function MemberTest(sh: Shape, tag: nat, c: nat, offset: nat): bool
    requires sh.chunk > 0
  {
    offset == Offset(sh, tag, c)
  }

  function Expand(sh: Shape, tag: nat): seq<nat>
    requires sh.chunk > 0
  {
    seq(sh.sets, c requires 0 <= c => Position(c, Offset(sh, tag, c), sh.chunk))
  }

  method ExpandWithLongKey(sh: Shape, tag: nat) returns (r: seq<nat>)
    requires sh.Ok()
    ensures r == Expand(sh, tag)
  {
    r := [];
    for i := 0 to sh.sets
      invariant |r| == i && r == Expand(sh, tag)[..i]
    {
      OffsetBound(sh, tag, i);
      PositionCoordinates(i, Offset(sh, tag, i), sh.chunk);
      r := r + [i * sh.chunk + Offset(sh, tag, i)];
    }
  }

  ghost function Span(sh: Shape): nat { Position(sh.sets, 0, sh.chunk) }

  /** The indices a primary set stands for: its expansion, with the programmed point substituted. */
  ghost function Indices(sh: Shape, s: LocalSet): seq<nat>
    requires sh.chunk > 0 && (s.programmed ==> ChunkId(s.point, sh.chunk) < sh.sets)
  {
    if s.programmed then Expand(sh, s.tag)[ChunkId(s.point, sh.chunk) := s.point] else Expand(sh, s.tag)
  }

  /** One index per chunk, in chunk order. */
  ghost predicate OnePerChunk(sh: Shape, q: seq<nat>)
    requires sh.chunk > 0
  {
    |q| == sh.sets && forall c :: 0 <= c < |q| ==> ChunkId(q[c], sh.chunk) == c && q[c] < Span(sh)
  }

  lemma OffsetBound(sh: Shape, tag: nat, c: nat)
    requires sh.Ok()
    ensures Offset(sh, tag, c) == sh.prf(tag, c) % sh.chunk < sh.chunk
  {
    MaskIsMod(sh.prf(tag, c), sh.chunk);
  }

  lemma ExpandOnePerChunk(sh: Shape, tag: nat)
    requires sh.Ok()
    ensures OnePerChunk(sh, Expand(sh, tag))
  {
    forall c | 0 <= c < sh.sets
      ensures var e := Expand(sh, tag)[c]; ChunkId(e, sh.chunk) == c && e < Span(sh)
    {
      OffsetBound(sh, tag, c);
      PositionCoordinates(c, Offset(sh, tag, c), sh.chunk);
      SpanOfChunks(Expand(sh, tag)[c], sh.chunk, sh.sets);
    }
  }

  /** A passed membership test on a set not programmed in that chunk puts x into the set. */
  lemma HitIsMember(sh: Shape, s: LocalSet, x: nat)
    requires sh.Ok() && (s.programmed ==> ChunkId(s.point, sh.chunk) < sh.sets)
    requires ChunkId(x, sh.chunk) < sh.sets
    requires !(s.programmed && ChunkId(x, sh.chunk) == ChunkId(s.point, sh.chunk))
    requires MemberTest(sh, s.tag, ChunkId(x, sh.chunk), ChunkOffset(x, sh.chunk))
    ensures Indices(sh, s)[ChunkId(x, sh.chunk)] == x
  {
    Coordinates(x, sh.chunk);
  }

  // ---- Invariants, relative to a database

  ghost predicate DbOk(sh: Shape, db: seq<Entry>) {
    |db| == Span(sh) && Uniform(db, sh.size)
  }

  ghost function All(sh: Shape): set<nat> { Below(sh.sets) }

  ghost function SetParity(sh: Shape, db: seq<Entry>, idx: seq<nat>, on: set<nat>): (r: Entry)
    requires sh.Ok() && DbOk(sh, db) && OnePerChunk(sh, idx)
    ensures |r| == sh.size
  {
    Parity(db, sh.size, idx, on, sh.sets)
  }

  /** The hint of a primary set is the parity of the set, over the chunks in `on`. */
  ghost predicate PrimaryOk(sh: Shape, db: seq<Entry>, s: LocalSet, on: set<nat>)
    requires sh.Ok() && DbOk(sh, db)
  {
    && (s.programmed ==> ChunkId(s.point, sh.chunk) < sh.sets)
    && OnePerChunk(sh, Indices(sh, s))
    && s.parity == SetParity(sh, db, Indices(sh, s), on)
  }

  /** The hint of a backup set leaves out the chunk of its group. */
  ghost predicate BackupOk(sh: Shape, db: seq<Entry>, b: BackupSet, group: nat, on: set<nat>)
    requires sh.Ok() && DbOk(sh, db)
  {
    && OnePerChunk(sh, Expand(sh, b.tag))
    && b.parity == SetParity(sh, db, Expand(sh, b.tag), on - {group})
  }

  ghost predicate ReplacementOk(sh: Shape, db: seq<Entry>, r: ReplacementGroup, c: nat)
    requires sh.chunk > 0 && DbOk(sh, db)
  {
    && |r.indices| == |r.values| == sh.perChunk && r.consumed <= sh.perChunk
    && forall k :: 0 <= k < sh.perChunk ==>
         ChunkId(r.indices[k], sh.chunk) == c && r.indices[k] < |db| && r.values[k] == db[r.indices[k]]
  }

  ghost predicate Agrees(m: map<nat, Entry>, db: seq<Entry>) {
    forall x :: x in m ==> x < |db| && m[x] == db[x]
  }

  // ---- One query, as algebra

  /** The parity with one chunk left out, plus the entry there, is the whole parity. */
  lemma SplitOff(sh: Shape, db: seq<Entry>, idx: seq<nat>, c: nat)
    requires sh.Ok() && DbOk(sh, db) && OnePerChunk(sh, idx) && c < sh.sets
    ensures SetParity(sh, db, idx, All(sh)) == Xor(SetParity(sh, db, idx, All(sh) - {c}), db[idx[c]])
  {
    ParityInsert(db, sh.size, idx, All(sh) - {c}, c, sh.sets);
    ParityFrame(db, sh.size, idx, idx, All(sh) - {c} + {c}, All(sh), sh.sets);
  }

  /** Replacing the element of chunk c changes only that entry's contribution. */
  lemma EditedParity(sh: Shape, db: seq<Entry>, idx: seq<nat>, c: nat, v: nat)
    requires sh.Ok() && DbOk(sh, db) && OnePerChunk(sh, idx) && c < sh.sets
    requires ChunkId(v, sh.chunk) == c && v < |db|
    ensures OnePerChunk(sh, idx[c := v])
    ensures SetParity(sh, db, idx[c := v], All(sh)) == Xor(SetParity(sh, db, idx, All(sh) - {c}), db[v])
  {
    SplitOff(sh, db, idx[c := v], c);
    ParityFrame(db, sh.size, idx[c := v], idx, All(sh) - {c}, All(sh) - {c}, sh.sets);
  }

  /** Own parity, server parity of the edited set and the replacement entry combine to db[x]. */
  lemma RecoveredEntry(sh: Shape, db: seq<Entry>, s: LocalSet, x: nat, v: nat)
    requires sh.Ok() && DbOk(sh, db) && PrimaryOk(sh, db, s, All(sh))
    requires x < |db| && ChunkId(x, sh.chunk) < sh.sets && Indices(sh, s)[ChunkId(x, sh.chunk)] == x
    requires ChunkId(v, sh.chunk) == ChunkId(x, sh.chunk) && v < |db|
    ensures OnePerChunk(sh, Indices(sh, s)[ChunkId(x, sh.chunk) := v])
    ensures Xor(Xor(s.parity, SetParity(sh, db, Indices(sh, s)[ChunkId(x, sh.chunk) := v], All(sh))), db[v]) == db[x]
  {
    var c, idx := ChunkId(x, sh.chunk), Indices(sh, s);
    SplitOff(sh, db, idx, c);
    EditedParity(sh, db, idx, c, v);
    XorRecover(SetParity(sh, db, idx, All(sh) - {c}), db[x], db[v]);
  }

  /** A backup set with the answer programmed in is again a primary set with a correct hint. */
  lemma RefreshedSet(sh: Shape, db: seq<Entry>, b: BackupSet, x: nat)
    requires sh.Ok() && DbOk(sh, db) && x < |db| && BackupOk(sh, db, b, ChunkId(x, sh.chunk), All(sh))
    ensures PrimaryOk(sh, db, LocalSet(b.tag, Xor(db[x], b.parity), x, true), All(sh))
  {
    SpanOfChunks(x, sh.chunk, sh.sets);
    EditedParity(sh, db, Expand(sh, b.tag), ChunkId(x, sh.chunk), x);
    XorComm(db[x], b.parity);
  }

  /** Preprocessing one more chunk. */
  lemma AbsorbChunk(sh: Shape, db: seq<Entry>, idx: seq<nat>, on: set<nat>, c: nat)
    requires sh.Ok() && DbOk(sh, db) && OnePerChunk(sh, idx) && c < sh.sets && c !in on
    ensures SetParity(sh, db, idx, on + {c}) == Xor(SetParity(sh, db, idx, on), db[idx[c]])
  {
    ParityInsert(db, sh.size, idx, on, c, sh.sets);
  }

  // ---- Preprocessing, as algebra

  /** `data` is chunk c of the database. */
  ghost predicate IsChunk(sh: Shape, db: seq<Entry>, c: nat, data: seq<Entry>)
    requires sh.chunk > 0
  {
    |data| == sh.chunk && forall o :: 0 <= o < sh.chunk ==>
      Position(c, o, sh.chunk) < |db| && data[o] == db[Position(c, o, sh.chunk)]
  }

  function Absorb(sh: Shape, parity: Entry, tag: nat, c: nat, data: seq<Entry>): Entry
    requires sh.Ok() && |data| == sh.chunk && Uniform(data, sh.size) && |parity| == sh.size
  {
    OffsetBound(sh, tag, c);
    Xor(parity, data[Offset(sh, tag, c)])
  }

  lemma {:induction false} EmptyParity(sh: Shape, db: seq<Entry>, idx: seq<nat>, n: nat)
    requires n <= |idx| && Uniform(db, sh.size) && InRange(idx, |db|)
    ensures Parity(db, sh.size, idx, {}, n) == Zero(sh.size)
  {
    if n > 0 { EmptyParity(sh, db, idx, n - 1); }
  }

  lemma FreshPrimary(sh: Shape, db: seq<Entry>, tag: nat)
    requires sh.Ok() && DbOk(sh, db)
    ensures PrimaryOk(sh, db, LocalSet(tag, Zero(sh.size), 0, false), {})
  {
    ExpandOnePerChunk(sh, tag);
    EmptyParity(sh, db, Expand(sh, tag), sh.sets);
  }

  lemma FreshBackup(sh: Shape, db: seq<Entry>, tag: nat, group: nat)
    requires sh.Ok() && DbOk(sh, db)
    ensures BackupOk(sh, db, BackupSet(tag, Zero(sh.size)), group, {})
  {
    ExpandOnePerChunk(sh, tag);
    EmptyParity(sh, db, Expand(sh, tag), sh.sets);
    assert {} - {group} == {};
  }

  lemma ChunkUniform(sh: Shape, db: seq<Entry>, c: nat, data: seq<Entry>)
    requires sh.Ok() && DbOk(sh, db) && IsChunk(sh, db, c, data)
    ensures Uniform(data, sh.size)
  {
  }

  lemma PrimaryAbsorbs(sh: Shape, db: seq<Entry>, s: LocalSet, on: set<nat>, c: nat, data: seq<Entry>)
    requires sh.Ok() && DbOk(sh, db) && PrimaryOk(sh, db, s, on) && !s.programmed
    requires c < sh.sets && c !in on && IsChunk(sh, db, c, data) && Uniform(data, sh.size)
    ensures PrimaryOk(sh, db, s.(parity := Absorb(sh, s.parity, s.tag, c, data)), on + {c})
  {
    OffsetBound(sh, s.tag, c);
    AbsorbChunk(sh, db, Expand(sh, s.tag), on, c);
  }

  lemma BackupAbsorbs(sh: Shape, db: seq<Entry>, b: BackupSet, group: nat, on: set<nat>, c: nat, data: seq<Entry>)
    requires sh.Ok() && DbOk(sh, db) && BackupOk(sh, db, b, group, on)
    requires c < sh.sets && c !in on && IsChunk(sh, db, c, data) && Uniform(data, sh.size)
    ensures group != c ==> BackupOk(sh, db, b.(parity := Absorb(sh, b.parity, b.tag, c, data)), group, on + {c})
    ensures group == c ==> BackupOk(sh, db, b, group, on + {c})
  {
    if group == c {
      assert (on + {c}) - {group} == on - {group};
    } else {
      assert (on + {c}) - {group} == (on - {group}) + {c};
      OffsetBound(sh, b.tag, c);
      AbsorbChunk(sh, db, Expand(sh, b.tag), on - {group}, c);
    }
  }
}
