# Verified models of the PSI and PIR core

Dafny models of the parts of this repository that carry a protocol, a state machine or arithmetic with a
bound, with proofs of what they promise over all inputs, runs and interleavings.

- **Hash to Curve25519** (`ModArith`, `PrimeField`, `Elligator2`, `ElligatorTextbook`, `Abscissas`,
  `CurvePoints`, `Curve25519`): both Elligator 2 maps, point addition and doubling, cofactor clearing. Fermat's little
  theorem and the quadratic characters are proved, not assumed.
- **Piano PIR** (`Entry`, `ChunkParams`, `PianoSets`, `PianoView`, `PianoClient`, `PianoProtocol`): preprocessing in any
  order, queries, recovery and hint refresh, and whole runs.
- **Puncturable-set PIR** (`Ggm`, `PuncturableSets`, `PpsPir`): the in-place GGM tree, punctured keys, the
  single-query and the multi-query protocol over any number of rounds.
- **SimplePIR** (`SimplePir`, `SimplePirProtocol`): retrieval with 64-bit wrap-around, the exact residue it
  leaves and the exact condition for a right answer.
- **Cuckoo index and KKRT PSI** (`CuckooIndex`, `CuckooRoom`, `KkrtSender`, `KkrtReceiver`): the eviction loop that
  compacts the list it reads, and the two-party protocol for every interleaving of the correction thread.
- **N-party tournament** (`Sorting`, `Tournament`): every party computes its partner, role and elimination
  from its own copy of the seating; all parties run in step.
- **Join pipeline** (`KeyInfo`, `JoinTable`, `JoinMerge`, `JoinAlign`, `JoinContents`, `JoinProcessor`, `JoinFromTables`,
  `SqlJoin`): run-length encoding across batches, the streaming merge, and the two aligned output files.
- **Duplicate-key PIR** (`CsvConverter`, `DuplicateKeyPir`): packing rows into values, the shuffle, and the
  row-count check.

Hash functions, pseudorandom functions and generators, the OPRF and the two-party intersection inside the
tournament are function-valued parameters. The hypotheses used about them are named predicates, and speak
only of the values that occur in a run, so that functions on fixed-width words meet them: the codes of the
bins and items of a run differ and the fillers used are not among them (`KkrtReceiver.Ideal`, met by
`KkrtReceiver.IdealOfWords`), a two-party run gives its target the common items (`Tournament.Ideal`;
for the strict order of the result also `Tournament.RepeatsNothing`), the
keys of a run have different children and zero nodes hide none of their nonzero points (`PpsPir.PoolOk`, met by
`PpsPir.PoolOfWords`), the keys in play stay apart (`DuplicateKeyPir.Apart`), and 2^255 - 19 is prime
(`Curve25519`). Random
choices, errors and the values read from another thread's counter are parameters, so every statement holds
for all of them. Items, keys and codes are natural numbers; files are sequences of lines.

## Where the code and its documentation disagree

The models follow the code.

- *Joins.* `docs/user_guide/faq.rst` line 22 promises the rules of SQL, and the example in
  `docs/reference/psi_v2_config.md` lines 139 to 290 interleaves the copies of repeated rows. The code writes
  all copies of a row consecutively on both sides, so for a key with several rows on both sides some pairs
  of rows never stand beside each other. `SqlJoin.SqlJoinIff` proves that the aligned rows are the SQL join
  exactly when no key is repeated on both sides, and `SqlJoin.TwoByTwoIsNotSql` gives the smallest failure.
- *Empty tables.* On an empty key column the run-length encoding still writes one run, for the empty key
  (`KeyInfo.EmptyColumnFails`); on every other sorted column it is exact. The join of an empty table is right
  exactly when the other side does not have that key, or both are empty and the join is a difference
  (`JoinFromTables.FilesRightIff`).
- *SimplePIR noise.* Noise below half of delta is not enough, because the unreduced subtraction can add
  (q mod p)^2 (`SimplePirProtocol.HalfDeltaRun`); `SimplePir.AlwaysRecoversIff` and
  `SimplePir.NoiseBoundIff` give the exact conditions.
- *Zero tree nodes.* The expansion of a punctured key takes a zero node for an unknown one, so a generator
  that outputs zero loses leaves; `Ggm.KnownExactly` says exactly which. The expanded set is right exactly when
  every lost leaf has the point zero (`PuncturableSets.EvalPunctured`), and `PuncturableSets.ZeroNodeLosesPoints`
  is a key whose expansion misses two points and keeps the one it should hide.
- *Row-count check.* A receiver that queries a key which does not exist is rejected although its claim is
  true, unless the group order divides the intercept times the number of missing keys
  (`DuplicateKeyPir.MissingKeysRejectTruth`, with an instance in `DuplicateKeyPir.MissingKeyRejected`).
- *Appending to a punctured key.* Puncturing into a key object that already holds siblings does not give a
  punctured key (`PuncturableSets.Punc`).
- *Failing hashes.* The hash to curve fails on equal or opposite field elements, since the two mapped points
  coincide (`CurvePoints.OppositeElementsFail`), while section 3 of RFC 9380 adds them by the group law, which
  covers equal points. It also fails when one element is 1/(2*u) or -1/(2*u) for the other, because the two
  candidate abscissas change places (`Abscissas.AbscissasCoincide`); `CurvePoints.HashFailsIff` has every case.
- *Textbook map.* Its guard against 2*u^2 = -1 compares a reduced value with the integer -1 and never fires;
  that is harmless, because the equation has no solution (`Elligator2.DenominatorNonzero`).

## Model

| member | source | states |
|---|---|---|
| Elligator2.DenominatorNonzero | psi/cryptor/hash_to_curve_elligator2.cc:279-281 | For every field element u, 2*u^2 + 1 is not zero, so neither map ever divides by zero and the exceptional case of section 6.7.1 of RFC 9380 does not occur on this curve. |
| Elligator2.CandidateRootMeaning | psi/cryptor/hash_to_curve_elligator2.cc:299-312 | The single exponentiation yields y with (y^2*gxd)^2 equal to gx1^2 times a power of gx1*gxd^7 that is its quadratic character: y is a square root of gx1/gxd up to a fourth root of unity. |
| Elligator2.SelectMeaning | psi/cryptor/hash_to_curve_elligator2.cc:311-358 | Over all combinations of the e1, e2, e3 and e4 tests: the first candidate is taken exactly when gx1/gxd is a square or zero, and the selected y is then a root of the selected candidate, on either branch. |
| Elligator2.SignedRootUnique | psi/cryptor/hash_to_curve_elligator2.cc:357-364 | The parity rule picks the same root whichever of the two roots it starts from. |
| Elligator2.MapToCurveG2OnCurve | psi/cryptor/hash_to_curve_elligator2.cc:266-376 | For every u the map succeeds and returns a point with reduced coordinates that satisfies y^2 = x^3 + J*x^2 + x, whose abscissa is the chosen candidate and whose ordinate is odd exactly for the first candidate, unless it is zero. |
| ElligatorTextbook.IsSquareMeaning | psi/cryptor/hash_to_curve_elligator2.cc:218-231 | The exponent computed with the inverse of 2 is (p-1)/2, so the test accepts exactly zero and the elements whose (p-1)/2-th power is 1. |
| ElligatorTextbook.SqrtMeaning | psi/cryptor/hash_to_curve_elligator2.cc:233-250 | For every square the result is a reduced square root of it, in both the direct and the corrected branch. |
| ElligatorTextbook.MapsAgree | psi/cryptor/hash_to_curve_elligator2.cc:379-462 | The inversion-free map of appendix G.2.1 and the textbook map of section 6.7.1 of RFC 9380 return the same point for every u. |
| CurvePoints.CheckPointMeaning | psi/cryptor/hash_to_curve_elligator2.cc:669-685 | The check accepts a pair exactly when it satisfies the curve equation. |
| CurvePoints.PointDblOnCurve | psi/cryptor/hash_to_curve_elligator2.cc:563-607 | Doubling a curve point gives a curve point. |
| CurvePoints.PointDblIff | psi/cryptor/hash_to_curve_elligator2.cc:563-607 | Affine doubling returns the double by the tangent rule on coordinates, and fails exactly when the point has none. |
| CurvePoints.ProjectiveDoublingAgrees | psi/cryptor/hash_to_curve_elligator2.cc:609-633 | On every curve point, doubling the abscissa alone gives the abscissa of affine doubling, and fails exactly when affine doubling does. |
| CurvePoints.PointAddOnCurve | psi/cryptor/hash_to_curve_elligator2.cc:473-561 | The sum of two curve points is on the curve, and the abscissa-only addition is its abscissa, errors included. |
| CurvePoints.PointAddIsSum | psi/cryptor/hash_to_curve_elligator2.cc:473-561 | Affine addition returns the sum by the chord rule on coordinates. |
| CurvePoints.ClearCofactorAgrees | psi/cryptor/hash_to_curve_elligator2.cc:635-667 | Three abscissa-only doublings equal the abscissa of three affine doublings on every curve point, errors included; the affine result is on the curve and is 8 times the point by the tangent rule. |
| CurvePoints.HashToCurveAgrees | psi/cryptor/hash_to_curve_elligator2.cc:687-705 | The hash equals the abscissa of the affine [8](map(u0) + map(u1)), which lies on the curve and is 8 times the sum by the chord and tangent rules on coordinates. |
| Abscissas.AbscissasCoincide | psi/cryptor/hash_to_curve_elligator2.cc:687-699 | Two elements map to the same abscissa if and only if they are equal or opposite, one is 1/(2*u) or -1/(2*u) for the other, so that the candidates swap places, or J is zero. |
| Abscissas.OrdinateNonzero | psi/cryptor/hash_to_curve_elligator2.cc:411-424 | For J nonzero no first candidate has ordinate zero, since 2 is not a square. |
| CurvePoints.HashFailsIff | psi/cryptor/hash_to_curve_elligator2.cc:687-705 | The hash fails if and only if J is zero, the two elements have equal squares, the square of one is the inverse of four times that of the other, or one of the three points that are doubled has ordinate zero. |
| CurvePoints.OppositeElementsFail | psi/cryptor/hash_to_curve_elligator2.cc:687-705 | Equal or opposite field elements map to the same point, so the hash always fails on them. |
| Curve25519.ConstantsGood | psi/cryptor/hash_to_curve_elligator2.cc:34-62 | The stored constants are p = 2^255 - 19, which is 5 modulo 8, a square root of -1, a fourth root of -4 and the two exponents; only primality of p is assumed. |
| Curve25519.MapToCurve25519 | psi/cryptor/hash_to_curve_elligator2.cc:266-462 | For the concrete curve the map always succeeds, satisfies y^2 = x^3 + 486662*x^2 + x, passes the point check, and equals the textbook map. |
| Curve25519.HashToCurve25519 | psi/cryptor/hash_to_curve_elligator2.cc:687-705 | The hash for the concrete curve is the abscissa of a point that passes the point check and is 8 times the sum of the two mapped points. |
| Entry.XorInto | experiment/pir/piano/util.h:41-53 | In-place exclusive or, as the server accumulates and the client recovers: the new contents are the bytewise exclusive or of the old ones, and unequal sizes are refused without any change. |
| Entry.XorRecover | experiment/pir/piano/util.h:41-46 | Two parities of sets that differ in one element, corrected by the replacement entry, leave exactly the other entry. |
| Entry.ParityOfOne | experiment/pir/piano/util.h:41-56 | The parity of no entry is zero and the parity of one entry is that entry. |
| ChunkParams.GenChunkParams | experiment/pir/piano/util.cc:19-30 | The chunk size is the smallest power of two whose square is at least 4*n, and the chunks cover n entries with less than one chunk to spare. |
| ChunkParams.MaskIsMod | experiment/pir/piano/util.cc:51-70 | Masking with a power of two minus one is the remainder, which the membership test and the expansion both rely on. |
| PianoSets.ExpandOnePerChunk | experiment/pir/piano/util.cc:51-62 | The expansion of every tag has one index in every chunk, in chunk order. |
| PianoSets.HitIsMember | experiment/pir/piano/util.cc:64-70 | A passed membership test in a chunk where the set is not programmed puts the index into the set that the hint stands for. |
| PianoSets.RecoveredEntry | experiment/pir/piano/client.cc:284-288 | For every correct primary hint, its parity, the server's parity of the edited set and the replacement entry combine to the database entry asked for. |
| PianoSets.RefreshedSet | experiment/pir/piano/client.cc:300-311 | A backup set with the answer programmed in is again a primary set whose hint is correct. |
| PianoSets.PrimaryAbsorbs | experiment/pir/piano/client.cc:129-140 | Absorbing one more chunk keeps a primary hint equal to the parity over the chunks seen so far. |
| PianoSets.BackupAbsorbs | experiment/pir/piano/client.cc:142-154 | The same for a backup hint, which skips the chunk of its own group. |
| PianoClient.Client.constructor | experiment/pir/piano/client.cc:28-100 | A new client has every hint equal to the empty parity, nothing consumed, and covers the empty set of chunks. |
| PianoClient.Client.UpdateParities | experiment/pir/piano/client.cc:107-162 | The threads' shares together update every primary and backup set exactly once, and mark exactly the offsets that some primary set contains. |
| PianoClient.Client.StoreMisses | experiment/pir/piano/client.cc:164-175 | Exactly the entries of the chunk that no primary set contains are added to the local-miss table, with their values. |
| PianoClient.Client.PreprocessDBChunk | experiment/pir/piano/client.cc:102-190 | Processing any chunk that was not processed before extends the preprocessing invariant to it: all hints are parities over the processed chunks, and every index of a processed chunk is in some primary set or among the misses. |
| PianoClient.Client.GenerateIndexQuery | experiment/pir/piano/client.cc:201-263 | Every query, masked or real, has exactly one index per chunk in chunk order; it is masked exactly when the index is cached, no set holds it or the replacements of its chunk have run out, and otherwise is the first set that holds it with one element replaced. |
| PianoClient.Client.RecoverIndexReply | experiment/pir/piano/client.cc:265-314 | Given the server's parity the answer is the entry asked for (zero for a query that could not be answered), the whole client invariant holds again, and the tables change exactly by one replacement and, if one is left, one backup set. |
| PianoClient.Client.Refresh | experiment/pir/piano/client.cc:293-311 | Only the hit set changes: it is replaced by the next backup set of the chunk with the answered index programmed in, and stays correct. |
| PianoProtocol.Server.constructor | experiment/pir/piano/server.cc:19-39 | Padding keeps the original entries as a prefix and reaches whole chunks. |
| PianoProtocol.Server.AlignDBToChunkBoundary | experiment/pir/piano/server.cc:26-39 | The padded table has exactly chunk*sets entries of the right size and starts with the old one. |
| PianoProtocol.Server.GetDBChunk | experiment/pir/piano/server.cc:41-48 | Chunk c holds exactly the entries whose quotient by the chunk size is c. |
| PianoProtocol.Server.GenerateIndexReply | experiment/pir/piano/server.cc:50-70 | For a query with one index per chunk the reply is the parity of the set, and the out-of-range branch is never taken. |
| PianoProtocol.FreshClientNeverFails | experiment/pir/piano/client.cc:164-175 | After all chunks no index in range can fail: it is in some primary set or a local miss. |
| PianoProtocol.Preprocess | experiment/pir/piano/client.cc:102-190 | In any order that visits each chunk once, preprocessing ends in a state where every hint is right and no query can fail. |
| PianoProtocol.Retrieve | experiment/pir/piano/client.cc:201-314 | One query, reply and recovery: the answer is the entry asked for, or zero exactly when the query cannot be answered; it is the entry whenever the indices of some set hold x outside the programmed chunk and a replacement is left; the invariant is kept, and the view of the client moves on by the specified step. |
| PianoProtocol.Run | experiment/pir/piano/client.cc:201-314 | Over any sequence of queries after preprocessing every answer is the entry asked for, or zero exactly when the query cannot be answered in the view that the earlier queries have led to; it is the entry whenever the indices of any set, refreshed or not, hold it and a replacement of its chunk is left; the first query is always answered. |
| PianoProtocol.RunOnline | experiment/pir/piano/client.cc:201-314 | The same from any state between two queries. |
| PianoView.HitsIff | experiment/pir/piano/client.cc:214-224 | The search finds a set if and only if its indices, with the programmed point substituted, hold x and x is not in the programmed chunk. |
| PianoView.FailsIff | experiment/pir/piano/client.cc:201-263 | A query cannot be answered if and only if it is not cached and either some set offers it but the replacements of its chunk are used up, or no set offers it and it is no local miss. |
| PianoView.StoodForIsAnswered | experiment/pir/piano/client.cc:201-263 | When every programmed point is cached, any index that some set stands for is answered as long as its chunk has a replacement. |
| PianoView.PointsStayCached | experiment/pir/piano/client.cc:293-311 | Over any run every programmed point is cached. |
| PianoView.OfferedStep | experiment/pir/piano/client.cc:276-311 | A query for an uncached index with a replacement left, which set j is the first to offer, uses up that replacement and puts the next backup set of the chunk, programmed with the index, in the place of set j; no other set changes. |
| PianoView.IdleStep | experiment/pir/piano/client.cc:201-263 | Any other query changes no set and no counter, and caches the index exactly when it can be answered. |
| PianoView.WhyItFails | experiment/pir/piano/client.cc:201-263 | A query fails only if it was never answered before and either no set holds it and it is no local miss, or exactly as many unmasked queries as there are replacements went before it in its chunk. |
| PianoView.UsedIsRealCount | experiment/pir/piano/client.cc:276-281 | Replacements are used up by unmasked queries in their chunk and by nothing else, over any run. |
| PianoView.CachedStays | experiment/pir/piano/client.cc:201-212 | What was answered once is answered ever after. |
| Ggm.Gen | experiment/pir/pps/ggm_pset.cc:27-38 | The in-place level-by-level construction yields at every leaf the value of the recursive tree function, for every height. |
| Ggm.CollectCoPath | experiment/pir/pps/ggm_pset.cc:59-71 | The walk collects, for every level, the sibling of the node on the way to the punctured leaf. |
| Ggm.ExpandCoPath | experiment/pir/pps/ggm_pset.cc:121-136 | The in-place expansion of the co-path yields at every leaf the value that the recursive reconstruction gives. |
| Ggm.KnownExactly | experiment/pir/pps/ggm_pset.cc:125-136 | A node off the punctured path is rebuilt correctly if and only if no node above it off the path is zero, or it is zero itself. |
| PuncturableSets.EvalMap | experiment/pir/pps/ggm_pset.cc:78-90 | Every point of the set with the first leaf that yields it; the map has full size if and only if no two leaves collide. |
| PuncturableSets.Eval | experiment/pir/pps/ggm_pset.cc:92-118 | The expansion is the set of points of all leaves, and has full size if and only if no two leaves collide. |
| PuncturableSets.GenKey | experiment/pir/pps/ggm_pset.cc:40-53 | The key is the first candidate whose set is collision-free, and there is none exactly when no candidate has such a set. |
| PuncturableSets.Punc | experiment/pir/pps/ggm_pset.cc:55-76 | Puncturing succeeds exactly for the points of the set; it appends the co-path to what the key object holds, so the object becomes a punctured key if and only if it held nothing. |
| PuncturableSets.PuncturedSet | experiment/pir/pps/ggm_pset.cc:141-145 | Leaving out one leaf of a collision-free key removes exactly its point from the set. |
| PuncturableSets.NonzeroGeneratorRecovers | experiment/pir/pps/ggm_pset.cc:128-135 | A generator that never outputs zero loses no leaf but the punctured one. |
| PuncturableSets.EvalPunctured | experiment/pir/pps/ggm_pset.cc:120-146 | Expanding a punctured key gives the points of the leaves that no zero node hides, and zero for the others; for a collision-free key that is the set minus the punctured point if and only if every hidden leaf has the point zero. |
| PuncturableSets.ZeroNodeLosesPoints | experiment/pir/pps/ggm_pset.cc:129-145 | A generator with a zero child for which the set of all four points, punctured at the point zero, expands to zero and three instead of one, two and three. |
| PpsPir.Hint | experiment/pir/pps/server.cc:19-58 | Every hint bit is the parity of the database over the shifted set of its key. |
| PpsPir.Answer | experiment/pir/pps/server.cc:34-43 | The answer to a punctured key is the parity over the set without the hidden index. |
| PpsPir.ParityOfOne | experiment/pir/pps/server.cc:34-43 | The parity over no index is false and over one index it is the bit at the shifted index. |
| PpsPir.ShortcutSound | experiment/pir/pps/server.cc:60-69 | Two keys that hide the same index and agree in position and first sibling are the same key with the same shift, provided that different keys among the two have different children, so the equal-key shortcut answers both correctly. |
| PpsPir.PoolOfWords | experiment/pir/pps/server.cc:60-69 | The assumption about the keys of a run is met by a generator on 128-bit words. |
| PpsPir.AnswerMulti | experiment/pir/pps/server.cc:60-69 | Both answers are the true ones, whether or not the shortcut is taken. |
| PpsPir.HintMinusAnswer | experiment/pir/pps/client.cc:87-95 | Hint and answer differ by exactly the hidden bit. |
| PpsPir.QuerySingle | experiment/pir/pps/client.cc:59-85 | No shift is found exactly when no shifted set holds the index; without the coin the key sent hides the index asked for. |
| PpsPir.RunSingle | experiment/pir/pps/client.cc:59-95 | One hint and one query return the bit asked for, for every database, unless the coin is set or no shift holds the index, and fail exactly then. |
| PpsPir.Session.Setup | experiment/pir/pps/client.cc:97-119 | The table holds the first candidates whose sets are collision-free, each with its set, and set-up succeeds if and only if enough of them came before the last try. |
| PpsPir.Session.Start | experiment/pir/pps/client.cc:97-119 | After set-up and the offline hint the table holds the first collision-free candidates, unshifted, and every hint bit is the parity of its set. |
| PpsPir.Session.TakeKey | experiment/pir/pps/client.cc:121-150 | The first key of the table that holds the index is handed out and replaced by the new one; if there is none, nothing changes. |
| PpsPir.Session.Query | experiment/pir/pps/client.cc:121-166 | Both punctured keys hide the index asked for, or with the coin set the drawn one; the right key is the first holder, whose slot goes to the fresh key shifted so that the drawn member falls on the index; the query is void, and the table unchanged, exactly when the coin is set or no key holds the index. |
| PpsPir.Session.Reconstruct | experiment/pir/pps/client.cc:168-178 | From true answers the recovered bit is the hidden one, and the slot of the used-up key holds the right hint of the key that replaced it; no other hint changes. |
| PpsPir.Session.Round | experiment/pir/pps/client.cc:97-178 | One round keeps every hint bit equal to the parity of its shifted set and every stored set equal to the expansion of its key, returns the bit asked for, or nothing exactly when the coin is set or no key holds the index, and changes the table by exactly the specified step. Only the keys that occur are assumed to have different children and to lose no nonzero point. |
| PpsPir.RunMulti | experiment/pir/pps/client.cc:97-178 | Over any number of rounds with fresh draws each, every answer is the bit asked for, and a round is void exactly when its coin is set or no key of the table at that time holds the index; the tables lead from the first to the last by replacing in each answered round the first holder by the first collision-free candidate, shifted to hold the index. |
| SimplePir.RecoverExactly | experiment/pir/simplepir/client.cc:82-90 | For every noise whatsoever the result is the plaintext plus the rounded residue, where every lost q adds q mod p to the noise and a wrapped 64-bit subtraction adds (q mod p)^2. |
| SimplePir.RecoverIff | experiment/pir/simplepir/client.cc:82-90 | The result is right if and only if the rounded residue is a multiple of p. |
| SimplePir.RecoverCorrect | experiment/pir/simplepir/client.cc:82-90 | The result is right whenever |noise| + (q mod p)^2 is below floor(delta/2), although the subtraction wraps modulo 2^64 and is never reduced modulo q. |
| SimplePir.AlwaysRecoversIff | experiment/pir/simplepir/client.cc:82-90 | For every noise: Recover is right on every answer and product that decrypt to the plaintext if and only if two residues, known from plaintext and noise alone, round to multiples of p. |
| SimplePir.NoiseBoundIff | experiment/pir/simplepir/client.cc:82-90 | The exact bound: every plaintext is recovered from every answer if and only if noise + rem^2 - rem < delta/2 for noise >= 0, and -(delta - delta/2) <= noise and noise + rem^2 < delta/2 for noise < 0. |
| SimplePir.InnerProductModq | experiment/pir/simplepir/util.cc:44-59 | The 128-bit accumulator gives the inner product modulo q in spite of its wrap-around. |
| SimplePirProtocol.Server.GenerateLweMatrix | experiment/pir/simplepir/server.cc:52-64 | Entry (j, i) of the matrix is the pseudorandom value number j*n + i modulo q. |
| SimplePirProtocol.Server.GetHint | experiment/pir/simplepir/server.cc:68-83 | The flat hint is the matrix product of table and transposed matrix, row by row, modulo q. |
| SimplePirProtocol.Server.Answer | experiment/pir/simplepir/server.cc:85-95 | The answer is the product of the table with the query modulo q. |
| SimplePirProtocol.Client.Setup | experiment/pir/simplepir/client.cc:40-55 | The client rebuilds the transposed matrix from the same seed and unpacks the flat hint. |
| SimplePirProtocol.Client.Query | experiment/pir/simplepir/client.cc:57-80 | The query is A*s + e + delta*unit modulo q, although negative errors first wrap to 64 bits. |
| SimplePirProtocol.PhaseOfAnswer | experiment/pir/simplepir/client.cc:57-90 | Answer minus hint times secret is delta times the entry plus the accumulated noise, modulo q, for the separately built matrices of both sides. |
| SimplePirProtocol.Retrieve | experiment/pir/simplepir/client.cc:40-90 | Set-up, query, answer and recovery return the entry at the index whenever its noise is one that Recover always removes, and so whenever the noise is small; the two words that are subtracted are determined. |
| SimplePirProtocol.HalfDeltaRun | experiment/pir/simplepir/client.cc:40-90 | A whole retrieval with p = 991 whose noise is below half of delta and whose answer is wrong. |
| CuckooIndex.PackingRoundTrip | psi/utils/cuckoo_index.h:50-76 | Packing input and hash index into 8 and 56 bits loses nothing and never yields the empty marker. |
| CuckooRoom.GetHashMeaning | psi/utils/cuckoo_index.h:85-94 | Hash function h reads the 64 bits of the code that start at bit 16*h. |
| CuckooIndex.PlacedConsistent | psi/utils/cuckoo_index.cc:53-66 | Placing a candidate and writing what it evicts into the candidate list that is being read keeps every input in exactly one place. |
| CuckooIndex.Index.Pass | psi/utils/cuckoo_index.cc:53-67 | A compacting pass leaves the tables and the candidates that the specification of a pass gives, and keeps every input in exactly one place. |
| CuckooIndex.Index.Insert | psi/utils/cuckoo_index.cc:32-73 | An insertion succeeds if and only if the inputs are not too many and those without a bin after the allowed passes fit the free stash slots; then each input is in exactly one bin or stash slot, every occupied bin being one that its entry hashes to. |
| CuckooRoom.CyclicOrder | psi/utils/cuckoo_index.cc:58-66 | After n evictions an input is tried with the hash function n places further on, in cyclic order. |
| CuckooRoom.EveryFunctionTried | psi/utils/cuckoo_index.cc:58-66 | Within as many evictions as there are hash functions an input is tried with each of them. |
| CuckooRoom.RoomForTwoWithin | psi/utils/cuckoo_index.cc:50-69 | Two inputs find room within the tries if and only if one of so many alternating visits leaves their common first bin. |
| CuckooRoom.RoomForTwo | psi/utils/cuckoo_index.cc:50-69 | With at least twice as many tries as hash functions, less one, two inputs find room if and only if their hash functions do not all reach one bin. |
| CuckooRoom.EvictionSeparates | psi/utils/cuckoo_index.cc:50-69 | The codes 0 and 0x10000 share their first bin and find room. |
| CuckooRoom.RoomIsAssignment | psi/utils/cuckoo_index.cc:32-73 | Any number of inputs that find room have different bins, each one reached by a hash function of its input. |
| CuckooIndex.ExactlyOnePlace | psi/utils/cuckoo_index.cc:86-108 | In every such state an input is held at its place and at no other. |
| CuckooIndex.Index.SanityCheck | psi/utils/cuckoo_index.cc:86-108 | The check passes if and only if all expected inputs have been inserted. |
| CuckooIndex.Index.MinCollidingHashIdx | psi/utils/cuckoo_index.cc:136-148 | For every occupied bin the search succeeds with the least hash function that maps the occupant to it. |
| KkrtSender.CollisionFlags | psi/algorithm/kkrt/kkrt_psi.cc:193-198 | The two collision flags single out exactly the hash functions whose bin repeats an earlier one. |
| KkrtSender.Encoder.constructor | psi/algorithm/kkrt/kkrt_psi.cc:163-213 | After bucketing every slot either waits for its bin or already holds its final code. |
| KkrtSender.Encoder.TryRow | psi/algorithm/kkrt/kkrt_psi.cc:224-246 | Encoding what can be encoded keeps every slot right, reads no bin whose correction has not arrived, and leaves none behind that has. |
| KkrtSender.Encoder.EncodeWhileReceiving | psi/algorithm/kkrt/kkrt_psi.cc:215-253 | For every sequence of values read from the correction thread's counter, every slot stays right, and a slot stays as it is or becomes done. |
| KkrtSender.Encoder.Send | psi/algorithm/kkrt/kkrt_psi.cc:258-301 | The batches carry every position once with its three codes, the counts above one, and the last-batch mark on the final batch only. |
| KkrtSender.KkrtPsiSend | psi/algorithm/kkrt/kkrt_psi.cc:111-307 | Whatever the interleaving and the batch sizes, what is sent is the code of every slot: the ideal function on first uses and a filler on repeated bins. |
| KkrtReceiver.FileStep | psi/algorithm/kkrt/kkrt_psi.cc:364-375 | Filing the occupant of a bin never meets an existing key, because no other bin yields its code. |
| KkrtReceiver.IdealOfWords | psi/algorithm/kkrt/kkrt_psi.cc:63-71 | The assumption about the codes is met by codes of at most 16 bytes. |
| KkrtReceiver.FileCodes | psi/algorithm/kkrt/kkrt_psi.cc:345-383 | Every input is filed under its least colliding hash function with the code of its bin, and nothing else is filed. |
| KkrtReceiver.HitIff | psi/algorithm/kkrt/kkrt_psi.cc:385-413 | A slot of the stream matches exactly the input that is sent at its position and filed under its hash function: the sender's collision rule and the receiver's least-hash rule agree. |
| KkrtReceiver.MatchAll | psi/algorithm/kkrt/kkrt_psi.cc:384-417 | Reading batches up to the last-batch mark reports each matched input once, with the count the sender attached. |
| KkrtReceiver.KkrtPsiRecvIndices | psi/algorithm/kkrt/kkrt_psi.cc:309-423 | The run succeeds if and only if the cuckoo index has room for the inputs, and then matches every input that the sender has too exactly once, with the count the sender attached, and nothing else. |
| KkrtReceiver.Run | psi/algorithm/kkrt/kkrt_psi.cc:111-423 | For every shuffle, interleaving and batch size: the run succeeds if and only if the cuckoo index has room (for two inputs: if and only if their bins are not all one), and then each common input is reported exactly once with the sender's count less one, and nothing else is reported. Codes are assumed to differ only among the bins and values of the run. |
| KkrtReceiver.KkrtPsiRecv | psi/algorithm/kkrt/kkrt_psi.h:78-98 | Index by index, a count of at least one becomes the count less one, and zero stays zero. |
| KkrtReceiver.ExtrasOfMatches | psi/algorithm/kkrt/kkrt_psi.h:78-98 | The converted result is the intersection: complete, free of repetition, with the sender's count less one. |
| Tournament.SeatingOk | psi/legacy/nparty_psi.cc:189-213 | Every party has exactly one seat, with its own size; the master has the first, and the others sit by ascending size and then rank. |
| Tournament.EmptyPartyShows | psi/legacy/nparty_psi.cc:62-68 | Some party is empty if and only if the first or the second seat is, so looking at two seats is enough. |
| Tournament.GetPsiRank | psi/legacy/nparty_psi.cc:215-246 | The loop finds the party in the mirrored seat and the one of the two that sits further to the front, and fails exactly for a rank without a seat. |
| Tournament.PartnersAgree | psi/legacy/nparty_psi.cc:215-246 | Partners sit in mirrored seats, name each other and the same target; the targets are exactly the parties in the front half, rounded up; only the middle of an odd row has no partner. |
| Tournament.PlayLevel | psi/legacy/nparty_psi.cc:83-109 | A party's own computation makes it play with its partner, on lists that are both non-empty, and leave exactly when it is not the target. |
| Tournament.PlayedLevel | psi/legacy/nparty_psi.cc:83-109 | After a level the running parties are the front half, on one and the same seating, and their lists still determine the intersection of all inputs. |
| Tournament.EndLevel | psi/legacy/nparty_psi.cc:110-152 | The running minimum is zero exactly when some gathered list is empty. |
| Tournament.EndedLevel | psi/legacy/nparty_psi.cc:110-152 | All survivors take the same branch: everybody returns with the right result, or all go on with non-empty lists. |
| Tournament.EndedAlone | psi/legacy/nparty_psi.cc:146-152 | The last one running is the master, and its list is the whole intersection. |
| Tournament.LevelNum | psi/legacy/nparty_psi.cc:70-80 | The number of levels is the logarithm of the least power of two that is at least the number of parties. |
| Tournament.HalvingTakesOneLevel | psi/legacy/nparty_psi.cc:80-109 | Halving the parties, rounding up, takes exactly one level off. |
| Tournament.Run | psi/legacy/nparty_psi.cc:60-156 | For any n >= 2 and any master: nobody is left running after the computed levels (the trailing return is unreachable), the master returns the sorted intersection of all inputs, strictly ascending if no input and no two-party run repeats an item, the others return nothing, and everybody joins the finish broadcast exactly once, or nobody does because some input was empty. |
| KeyInfo.Make | psi/utils/table_utils.cc:299-374 | For every split into batches the runs tile any non-empty sorted column with strictly increasing keys, and the counters are those of the runs; an empty column yields one run for a key that is not there. |
| KeyInfo.RoundTrip | psi/utils/table_utils.cc:301-361 | Expanding the runs gives back the column. |
| KeyInfo.EncodingUnique | psi/utils/table_utils.cc:326-361 | A column has only one such encoding, so the batch boundaries cannot show. |
| KeyInfo.MetaMeaning | psi/utils/table_utils.cc:306-319 | The three counters are the rows, the keys and the repeated keys of the column. |
| KeyInfo.EmptyColumnFails | psi/utils/table_utils.cc:326-361 | On an empty column, and only there, the written run does not stand for the column. |
| JoinMerge.InterIndexProcessor.GetBatchInfo | psi/utils/table_utils.cc:550-598 | Every call delivers the next matches with their runs, in order, is empty only at the end, and fails only if the indices are out of order or out of range. |
| JoinMerge.ResultDumper.ToIntersect | psi/utils/table_utils.cc:465-482 | The line is written once more than its extra count, if the file is wanted, and counted in any case. |
| JoinTable.PeerOfMeaning | psi/utils/table_utils.cc:497-542 | A matched key has the multiplicity its match gives it, an unmatched one none. |
| JoinTable.EveryRowOnce | psi/utils/table_utils.cc:497-542 | Every row is either matched or put aside once: none is lost and none is in both parts. |
| JoinMerge.ApplyPeerDupCnt | psi/utils/table_utils.cc:497-542 | For every batch size: success if and only if the indices are valid and strictly increasing; then each row of a matched key is in the intersection as often as the peer has the key, every other row once in the except part, in order, and the five statistics are the corresponding sizes. An empty file whose encoded key is matched is read as one empty row. |
| JoinAlign.InterCount | psi/utils/join_processor.cc:283-341 | A key occurs in the intersection once for every pair of rows that carry it. |
| JoinAlign.IntersectionsAlign | psi/utils/join_processor.cc:283-341 | Both parties list the same keys, row for row. |
| JoinAlign.OutputsAlign | psi/utils/join_processor.cc:212-341 | For every kind of join the two files have equally many rows; rows of the intersection carry the same key, and every other row is data on one side and nulls on the other. |
| JoinContents.OutputContents | psi/utils/join_processor.cc:212-341 | For every kind of join and either side, from the two tables alone: how many copies of each of its rows a party writes and how many rows of nulls, and nothing else. |
| JoinContents.SmallFiles | psi/utils/join_processor.cc:212-341 | The ten files of two rows against one, for the five kinds of join. |
| JoinContents.PartsInOrder | psi/utils/join_processor.cc:283-341 | The intersection and the except part list their rows in the order of the table. |
| JoinProcessor.Processor.constructor | psi/utils/join_processor.cc:212-223 | Which of the two intermediate files a party keeps, for every kind of join and side. |
| JoinProcessor.Processor.DealResultIndex | psi/utils/join_processor.cc:270-281 | The kept files hold the intersection and the except part of the table. |
| JoinProcessor.Processor.GenerateResult | psi/utils/join_processor.cc:283-341 | The result file is assembled from the kept files and the peer's count in the order of the join. |
| SqlJoin.SqlJoinIff | psi/utils/join_processor.cc:270-341 | The aligned intersection pairs every left row with every right row of the same key, as SQL does, if and only if no key is repeated on both sides. |
| SqlJoin.TwoByTwoIsNotSql | psi/utils/join_processor.cc:270-341 | A concrete pair of tables with two rows of one key on each side for which a pair of rows is missing. |
| JoinProcessor.PeerExceptCount | psi/interface.cc:168-173 | The peer's table size minus its matched rows never underflows and is the number of rows that the peer puts aside. |
| JoinProcessor.MergeIsJoin | psi/interface.cc:162-176 | The counts received through the key intersection split the table as if the peer's table were known. |
| JoinProcessor.Processor.Finalize | psi/interface.cc:168-176 | What a party writes is its side of the join of the two tables, with the right number of copies of each row and of nulls, although it only knows the matched keys, their counts and the size of the peer's table. |
| JoinProcessor.Processor.BeginFinalize | psi/interface.cc:162-166 | The matched keys and counts split the table as the join of both tables does, and count the peer's rows in the intersection. |
| JoinFromTables.RunFromTables | psi/interface.cc:145-183 | From any two sorted tables, empty ones included, whose keys arrive in any batches, to the two aligned files with their exact contents: they are those of the join in which an empty table whose encoded key is matched counts as one empty row. |
| JoinFromTables.FilesRightIff | psi/interface.cc:145-183 | Both files are those of the given tables if and only if the encoded key of an empty table is not matched, or the join is the difference of two empty tables. |
| JoinFromTables.EmptyAgainstBlankKey | psi/interface.cc:145-183 | An empty table joined with one row of the empty key: the inner join has a row. |
| JoinProcessor.Run | psi/interface.cc:145-183 | Both parties together, for every kind of join and side, with no side needed for an inner join: both files hold the right number of copies of each row and of nulls, counted from the two tables, and are aligned row by row. |
| CsvConverter.SplitJoin | psi/utils/csv_converter.cc:148-155 | Splitting undoes joining when no part contains the delimiter. |
| CsvConverter.JoinSplit | psi/utils/csv_converter.cc:251-259 | Joining undoes splitting, for every text. |
| CsvConverter.JoinConcat | psi/utils/csv_converter.cc:148-155 | Joined texts stand in order with one delimiter between them. |
| CsvConverter.MergeColumnAndRow | psi/utils/csv_converter.cc:108-166 | Exactly the keys that occur have a value, which joins their rows in order, and a count, which is their number. |
| CsvConverter.RowsOfMeaning | psi/utils/csv_converter.cc:108-166 | The rows of a key are the labels at all positions of the key, in ascending order. |
| CsvConverter.MergeRoundTrip | psi/utils/csv_converter.cc:108-281 | For labels without delimiters, taking the value of a key apart gives back its rows in order, as many as were counted. |
| CsvConverter.ExtractResult | psi/utils/csv_converter.cc:210-281 | The rows of all values in order and their total, or an error exactly when some row has the wrong number of labels. |
| DuplicateKeyPir.ProcessQueries | psi/algorithm/dkpir/sender.cc:53-90 | The answer to query i is stored at the place the shuffle gives it. |
| DuplicateKeyPir.AcceptedClaims | psi/algorithm/dkpir/sender.cc:480-493 | A claim passes if and only if the order divides slope*(claim - total) + intercept*(queries - found). |
| DuplicateKeyPir.ClaimIsTotal | psi/algorithm/dkpir/sender.cc:480-493 | When every queried key exists and the slope is invertible, a claim passes if and only if it is congruent to the true total. |
| DuplicateKeyPir.MissingKeysRejectTruth | psi/algorithm/dkpir/sender.cc:480-493 | With missing keys a true claim passes if and only if the order divides the intercept times their number. |
| DuplicateKeyPir.MissingKeyRejected | psi/algorithm/dkpir/sender.cc:480-493 | A concrete true claim with one missing key that is rejected. |
| DuplicateKeyPir.WriteIntersectionResults | psi/algorithm/dkpir/common.cc:107-126 | With the shuffle replayed, the found keys are listed in query order, each with the value stored at its shuffled place. |
| DuplicateKeyPir.OwnPlaces | psi/algorithm/dkpir/common.cc:107-126 | At the shuffled place of a query is the record of its own key, because the function keeps the keys in play apart. |
| DuplicateKeyPir.ComputeRowCountCt | psi/algorithm/dkpir/receiver.cc:214-250 | The summed ciphertext opens to the linear function of the true total and the number of found keys. |
| DuplicateKeyPir.SameTotal | psi/algorithm/dkpir/receiver.cc:252-266 | The rows counted in the values are the total of the count table. |
| DuplicateKeyPir.Exchange | psi/algorithm/dkpir/receiver.cc:214-266 | A receiver with honest counts passes the check if and only if the order divides the intercept times the number of missing keys. |
| DuplicateKeyPir.OpenEncrypt | psi/algorithm/dkpir/receiver.cc:214-250 | A ciphertext opens to its plaintext, and is the plaintext without randomness plus an encryption of zero. |
| DuplicateKeyPir.Run | psi/algorithm/dkpir/receiver.cc:214-297 | From the sender's rows to the receiver's: the result lists, query by query and in the order of the table, exactly the rows whose key is queried, whatever the shuffle, and the receiver's row count passes the check if and only if the order divides the intercept times the number of missing keys. |

## Left out

- Link, channel and protobuf code, byte and CSV serialisation, temporary files, external sorting and tracing: messages and files are values, and sorted input is a hypothesis.
- AES, SHA-256, Blake3, OT extension, SEAL and APSI, OKVS and elliptic-curve group internals: function-valued parameters, or a cyclic group whose elements are written as multiples of its generator.
- `ExpandMessageXmd` and `HashToField`: the hash to curve is modelled from the two field elements on.
- Primality of 2^255 - 19 is a hypothesis of the `Curve25519` lemmas; everything else about the constants is proved.
- Floating-point parts (Gaussian sampling, scale factors, logarithmic sizes): errors are arbitrary integers, bin counts and set counts are positive parameters, and the chunk size is stated through its square.
- Probabilities, privacy and the quality of random numbers.
- Threads: the shares of the Piano preprocessing threads and the stride of the query threads of duplicate-key PIR run one after the other, since they write to disjoint places; the concurrent counter of the KKRT sender is modelled, as an arbitrary sequence of loaded values that ends at the number of bins.
- Fixed integer widths outside SimplePIR and the cuckoo packing: row counts, indices and sizes are unbounded.
- KkrtSender.Encoder.EncodeWhileReceiving: promises that every slot stays right and moves only from waiting to done, and not how many do, because how much is encoded early depends on the interleaving; the final pass encodes the rest.
- A join without broadcast: only the receiver writes a file then, and there is nothing to align.
- DuplicateKeyPir.Exchange: says nothing about the check when no queried key exists, because the source then sends a ciphertext that was never set.
- The unique-key path of the join (sorting the intersection file in place afterwards) and the Unbalanced-PSI configuration.
- The digest-equal shortcut of the two-party driver, which the source marks as broken, and resuming an ECDH run from a checkpoint.
- Threshold ECDH, KMPRT, NTY and three-party ECDH: their content beyond the modelled components is mostly commutation over ideal primitives.
- Progress reports, resource management, configuration checks, benchmarks and scripts: easy members only.
