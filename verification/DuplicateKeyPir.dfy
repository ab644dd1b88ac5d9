/** Duplicate-key retrieval: the shuffle of the answers and the check of the claimed row count. */
module DuplicateKeyPir {
  import opened Common
  import opened ModArith
  import opened CsvConverter

  // ---- The shuffle

  /** The answer to query i is stored at the place the shuffle gives it. */
  method ProcessQueries<R(0)>(queries: seq<string>, perm: seq<nat>, oprf: string -> R) returns (responses: array<R>)
    requires IsPermutation(perm, |queries|)
    ensures fresh(responses) && responses.Length == |queries|
    ensures forall i :: 0 <= i < |queries| ==> responses[perm[i]] == oprf(queries[i])
  {
    responses := new R[|queries|];
    for i := 0 to |queries|
      invariant forall j :: 0 <= j < i ==> responses[perm[j]] == oprf(queries[j])
    {
      responses[perm[i]] := oprf(queries[i]);
    }
  }

  /** What the receiver learns about one place: whether the key exists, and its value. */
  datatype Record = Record(found: bool, value: string)

  /** The found keys among the first n queries, each with the value stored at its shuffled place. */
  ghost function Unshuffled(queries: seq<string>, records: seq<Record>, perm: seq<nat>, n: nat): seq<(string, string)>
    requires IsPermutation(perm, |queries|) && |records| == |queries| && n <= |queries|
  {
    if n == 0 then []
    else
      var r := records[perm[n - 1]];
      Unshuffled(queries, records, perm, n - 1) + if r.found then [(queries[n - 1], r.value)] else []
  }

  /** The receiver replays the shuffle to find the record of each of its keys. */
  method WriteIntersectionResults(queries: seq<string>, records: seq<Record>, perm: seq<nat>)
    returns (out: seq<(string, string)>)
    requires IsPermutation(perm, |queries|) && |records| == |queries|
    ensures out == Unshuffled(queries, records, perm, |queries|)
  {
    out := [];
    for i := 0 to |queries|
      invariant out == Unshuffled(queries, records, perm, i)
    {
      if records[perm[i]].found {
        out := out + [(queries[i], records[perm[i]].value)];
      }
    }
  }

  // ---- The count, in a cyclic group of order n whose elements are written as multiples of the generator

  datatype Ciphertext = Ciphertext(c1: int, c2: int)

  datatype Key = Key(n: int, x: int, a: int, b: int)

  function Encrypt(k: Key, m: int, r: int): Ciphertext
    requires k.n > 0
  {
    Ciphertext(r % k.n, (m + r * k.x) % k.n)
  }

  function Add(k: Key, c: Ciphertext, d: Ciphertext): Ciphertext
    requires k.n > 0
  {
    Ciphertext((c.c1 + d.c1) % k.n, (c.c2 + d.c2) % k.n)
  }

  /** A row count goes through a linear function before it is encrypted. */
  function ComputePoly(k: Key, count: int, keys: int): int { k.a * count + k.b * keys }

  /** The plaintext of a ciphertext, as a multiple of the generator. */
  ghost function Open(k: Key, c: Ciphertext): int
    requires k.n > 0
  {
    (c.c2 - k.x * c.c1) % k.n
  }

  lemma OpenEncrypt(k: Key, m: int, r: int)
    requires k.n > 0
    ensures Open(k, Encrypt(k, m, r)) == m % k.n
    ensures Encrypt(k, m, r) == Add(k, Encrypt(k, m, 0), Encrypt(k, 0, r)) && Encrypt(k, 0, r).c1 == r % k.n
  {
    var c := Encrypt(k, m, r);
    ModIdem(r, k.n);
    ModIdem(m + r * k.x, k.n);
    MulCong(k.x, k.x, c.c1, r, k.n);
    AddCong(c.c2, m + r * k.x, k.x * c.c1, k.x * r, k.n);
    assert m + r * k.x - k.x * r == m;
    Rerandomized(k, m, r);
  }

  lemma Rerandomized(k: Key, m: int, r: int)
    requires k.n > 0
    ensures Encrypt(k, m, r) == Add(k, Encrypt(k, m, 0), Encrypt(k, 0, r))
  {
    assert 0 * k.x == 0;
    SmallMod(0, k.n);
    ModIdem(r, k.n);
    ModIdem(m, k.n);
    ModIdem(r * k.x, k.n);
    AddCong(m % k.n, m, (r * k.x) % k.n, r * k.x, k.n);
  }

  lemma OpenAdd(k: Key, c: Ciphertext, d: Ciphertext)
    requires k.n > 0
    ensures Open(k, Add(k, c, d)) == (Open(k, c) + Open(k, d)) % k.n
  {
    var e := Add(k, c, d);
    ModIdem(c.c1 + d.c1, k.n);
    ModIdem(c.c2 + d.c2, k.n);
    MulCong(k.x, k.x, e.c1, c.c1 + d.c1, k.n);
    AddCong(e.c2, c.c2 + d.c2, k.x * e.c1, k.x * (c.c1 + d.c1), k.n);
    Spread(k.x, c, d);
    ModIdem(c.c2 - k.x * c.c1, k.n);
    ModIdem(d.c2 - k.x * d.c1, k.n);
    AddCong(Open(k, c), c.c2 - k.x * c.c1, Open(k, d), d.c2 - k.x * d.c1, k.n);
  }

  lemma Spread(x: int, c: Ciphertext, d: Ciphertext)
    ensures c.c2 + d.c2 - x * (c.c1 + d.c1) == (c.c2 - x * c.c1) + (d.c2 - x * d.c1)
  {
  }

  /** The count table's answer for one place. */
  datatype CountRecord = CountRecord(found: bool, ct: Ciphertext)

  ghost function TotalOf(records: seq<CountRecord>, counts: seq<nat>): nat
    requires |counts| == |records|
  {
    if records == [] then 0
    else
      var n := |records| - 1;
      TotalOf(records[..n], counts[..n]) + if records[n].found then counts[n] else 0
  }

  ghost function FoundOf(records: seq<CountRecord>): nat {
    if records == [] then 0 else FoundOf(records[..|records| - 1]) + if records[|records| - 1].found then 1 else 0
  }

  /** Every found record is an encryption of its count. */
  ghost predicate Honest(k: Key, records: seq<CountRecord>, counts: seq<nat>)
    requires k.n > 0
  {
    |counts| == |records| && forall i :: 0 <= i < |records| && records[i].found ==>
      Open(k, records[i].ct) == ComputePoly(k, counts[i], 1) % k.n
  }

  lemma PolyStep(k: Key, total: nat, found: nat, count: nat)
    ensures ComputePoly(k, total, found) + ComputePoly(k, count, 1) == ComputePoly(k, total + count, found + 1)
  {
  }

  /** The ciphertexts of the found keys are added up without being opened. */
  method ComputeRowCountCt(k: Key, records: seq<CountRecord>, ghost counts: seq<nat>)
    returns (any: bool, ct: Ciphertext)
    requires k.n > 0 && Honest(k, records, counts)
    ensures any <==> FoundOf(records) > 0
    ensures any ==> Open(k, ct) == ComputePoly(k, TotalOf(records, counts), FoundOf(records)) % k.n
  {
    hide Open, ComputePoly;
    any, ct := false, Ciphertext(0, 0);
    for i := 0 to |records|
      invariant any <==> FoundOf(records[..i]) > 0
      invariant any ==> Open(k, ct) == ComputePoly(k, TotalOf(records[..i], counts[..i]), FoundOf(records[..i])) % k.n
      invariant !any ==> TotalOf(records[..i], counts[..i]) == 0
    {
      assert records[..i + 1][..i] == records[..i] && counts[..i + 1][..i] == counts[..i];
      if records[i].found {
        ghost var total, found := TotalOf(records[..i], counts[..i]), FoundOf(records[..i]);
        if any {
          OpenAdd(k, ct, records[i].ct);
          ModIdem(ComputePoly(k, total, found), k.n);
          ModIdem(ComputePoly(k, counts[i], 1), k.n);
          AddCong(Open(k, ct), ComputePoly(k, total, found), Open(k, records[i].ct), ComputePoly(k, counts[i], 1), k.n);
          PolyStep(k, total, found, counts[i]);
          ct := Add(k, ct, records[i].ct);
        } else {
          ct := records[i].ct;
          any := true;
        }
      }
    }
    assert records[..|records|] == records && counts[..|records|] == counts;
  }

  /** The claimed count and the number of queries, against the summed ciphertext. */
  predicate CheckRowCount(k: Key, ct: Ciphertext, claim: nat, queries: nat)
    requires k.n > 0
  {
    (ComputePoly(k, claim, queries) + k.x * ct.c1) % k.n == ct.c2 % k.n
  }

  lemma CheckIsOpen(k: Key, ct: Ciphertext, claim: nat, queries: nat)
    requires k.n > 0
    ensures CheckRowCount(k, ct, claim, queries) <==> ComputePoly(k, claim, queries) % k.n == Open(k, ct)
  {
    var p := ComputePoly(k, claim, queries);
    CongIffDiff(p + k.x * ct.c1, ct.c2, k.n);
    CongIffDiff(p, ct.c2 - k.x * ct.c1, k.n);
    assert p + k.x * ct.c1 - ct.c2 == p - (ct.c2 - k.x * ct.c1);
  }

  lemma PolyDifference(k: Key, claim: int, total: int, queries: int, found: int)
    ensures ComputePoly(k, claim, queries) - ComputePoly(k, total, found)
      == k.a * (claim - total) + k.b * (queries - found)
  {
  }

  /** Exactly which claims pass, whether or not every queried key exists. */
  lemma AcceptedClaims(k: Key, ct: Ciphertext, claim: nat, queries: nat, total: nat, found: nat)
    requires k.n > 0 && Open(k, ct) == ComputePoly(k, total, found) % k.n
    ensures CheckRowCount(k, ct, claim, queries) <==> (k.a * (claim - total) + k.b * (queries - found)) % k.n == 0
  {
    CheckIsOpen(k, ct, claim, queries);
    CongIffDiff(ComputePoly(k, claim, queries), ComputePoly(k, total, found), k.n);
    PolyDifference(k, claim, total, queries, found);
  }

  lemma Unscale(a: int, inverse: int, d: int, n: int)
    requires n > 0 && (a * inverse) % n == 1 % n
    ensures (a * d) % n == 0 <==> d % n == 0
  {
    MulCong(a * inverse, 1, d, d, n);
    assert (a * inverse) * d == (a * d) * inverse by { MulSwap(a, inverse, d, 1); }
    if (a * d) % n == 0 {
      MulCong(a * d, 0, inverse, inverse, n);
    }
    if d % n == 0 {
      MulCong(a, a, d, 0, n);
    }
  }

  /** When every queried key exists and the slope is invertible, a claim passes exactly when it is the
      true total, up to the group order. */
  lemma ClaimIsTotal(k: Key, ct: Ciphertext, claim: nat, queries: nat, total: nat, inverse: int)
    requires k.n > 0 && Open(k, ct) == ComputePoly(k, total, queries) % k.n && (k.a * inverse) % k.n == 1 % k.n
    ensures CheckRowCount(k, ct, claim, queries) <==> claim % k.n == total % k.n
  {
    AcceptedClaims(k, ct, claim, queries, total, queries);
    Unscale(k.a, inverse, claim - total, k.n);
    CongIffDiff(claim, total, k.n);
  }

  /** A true claim about a query with missing keys passes exactly when the order divides the intercept
      times their number. */
  lemma MissingKeysRejectTruth(k: Key, ct: Ciphertext, queries: nat, total: nat, found: nat)
    requires k.n > 0 && Open(k, ct) == ComputePoly(k, total, found) % k.n
    ensures CheckRowCount(k, ct, total, queries) <==> (k.b * (queries - found)) % k.n == 0
  {
    AcceptedClaims(k, ct, total, queries, total, found);
  }

  // ---- The claim

  ghost function RowTotal(records: seq<Record>): nat {
    if records == [] then 0
    else
      var last := records[|records| - 1];
      RowTotal(records[..|records| - 1]) + if last.found then |Split(last.value, ROW_DELIMITER)| else 0
  }

  /** The receiver counts the rows of the values it has got. */
  method ComputeRowCount(records: seq<Record>) returns (count: nat)
    ensures count == RowTotal(records)
  {
    count := 0;
    for i := 0 to |records|
      invariant count == RowTotal(records[..i])
    {
      assert records[..i + 1][..i] == records[..i];
      if records[i].found {
        var rows := Split(records[i].value, ROW_DELIMITER);
        count := count + |rows|;
      }
    }
    assert records[..|records|] == records;
  }

  /** The values and the count table tell the same total. */
  lemma {:induction false} SameTotal(records: seq<Record>, counted: seq<CountRecord>, counts: seq<nat>)
    requires |records| == |counted| == |counts|
    requires forall i :: 0 <= i < |records| ==> records[i].found == counted[i].found
    requires forall i :: 0 <= i < |records| && records[i].found ==>
      |Split(records[i].value, ROW_DELIMITER)| == counts[i]
    ensures RowTotal(records) == TotalOf(counted, counts)
  {
    var n := |records|;
    if n > 0 {
      SameTotal(records[..n - 1], counted[..n - 1], counts[..n - 1]);
    }
  }

  /** The row-count part of a run: an honest receiver passes the check exactly when the order divides the
      intercept times the number of missing keys, so always when every queried key exists. */
  method Exchange(k: Key, records: seq<Record>, counted: seq<CountRecord>, ghost counts: seq<nat>)
    returns (any: bool, accepted: bool)
    requires k.n > 0 && Honest(k, counted, counts) && |records| == |counted|
    requires forall i :: 0 <= i < |records| ==> records[i].found == counted[i].found
    requires forall i :: 0 <= i < |records| && records[i].found ==>
      |Split(records[i].value, ROW_DELIMITER)| == counts[i]
    ensures any <==> FoundOf(counted) > 0
    ensures any ==> (accepted <==> (k.b * (|records| - FoundOf(counted))) % k.n == 0)
  {
    var ct;
    any, ct := ComputeRowCountCt(k, counted, counts);
    var claim := ComputeRowCount(records);
    SameTotal(records, counted, counts);
    accepted := CheckRowCount(k, ct, claim, |records|);
    if any {
      MissingKeysRejectTruth(k, ct, |records|, claim, FoundOf(counted));
    }
  }

  /** One of two queried keys is missing, and the true count of the other is rejected. */
  lemma MissingKeyRejected()
    ensures var k := Key(7, 3, 2, 5); var ct := Encrypt(k, ComputePoly(k, 1, 1), 4);
      Open(k, ct) == ComputePoly(k, 1, 1) % 7 && !CheckRowCount(k, ct, 1, 2)
  {
  }

  // ---- A whole run

  /** The pseudorandom function keeps the keys of the table and of the queries apart. */
  ghost predicate Apart<R(!new)>(oprf: string -> R, keys: set<string>) {
    forall a, b :: a in keys && b in keys && oprf(a) == oprf(b) ==> a == b
  }

  /** The sender's two databases, indexed by the function: values, and encrypted counts. */
  ghost predicate TablesOf<R(!new)>(m: map<string, (string, nat)>, oprf: string -> R, k: Key, rand: string -> int,
                                    values: map<R, string>, counts: map<R, Ciphertext>)
    requires k.n > 0
  {
    && values.Keys == counts.Keys
    && (forall key :: key in m ==> oprf(key) in values && values[oprf(key)] == m[key].0)
    && (forall key :: key in m ==>
          oprf(key) in counts && counts[oprf(key)] == Encrypt(k, ComputePoly(k, m[key].1, 1), rand(key)))
    && (forall r :: r in values ==> exists key :: key in m && oprf(key) == r)
  }

  method BuildTables<R(==, !new)>(m: map<string, (string, nat)>, oprf: string -> R, k: Key, rand: string -> int)
    returns (values: map<R, string>, counts: map<R, Ciphertext>)
    requires k.n > 0 && Apart(oprf, m.Keys)
    ensures TablesOf(m, oprf, k, rand, values, counts)
  {
    values := map key | key in m :: oprf(key) := m[key].0;
    counts := map key | key in m :: oprf(key) := Encrypt(k, ComputePoly(k, m[key].1, 1), rand(key));
  }

  /** Both databases are asked for every place. */
  method LookUp<R(==)>(responses: seq<R>, values: map<R, string>, counts: map<R, Ciphertext>)
    returns (records: seq<Record>, counted: seq<CountRecord>)
    requires values.Keys == counts.Keys
    ensures |records| == |counted| == |responses|
    ensures forall j :: 0 <= j < |responses| ==>
      records[j] == RecordOf(values, responses[j]) && counted[j] == CountOf(counts, responses[j])
  {
    records, counted := [], [];
    for j := 0 to |responses|
      invariant |records| == |counted| == j
      invariant forall l :: 0 <= l < j ==>
        records[l] == RecordOf(values, responses[l]) && counted[l] == CountOf(counts, responses[l])
    {
      records := records + [RecordOf(values, responses[j])];
      counted := counted + [CountOf(counts, responses[j])];
    }
  }

  function RecordOf<R(==)>(values: map<R, string>, r: R): Record {
    if r in values then Record(true, values[r]) else Record(false, "")
  }

  function CountOf<R(==)>(counts: map<R, Ciphertext>, r: R): CountRecord {
    if r in counts then CountRecord(true, counts[r]) else CountRecord(false, Ciphertext(0, 0))
  }

  /** The queried keys that occur in the table. */
  ghost function Known(rows: seq<Row>, queries: seq<string>): set<nat> {
    set i: nat | i < |queries| && RowsOf(rows, queries[i]) != []
  }

  /** Every queried key that exists, with its own rows in order. */
  ghost function ResultOf(rows: seq<Row>, queries: seq<string>, n: nat): seq<Row>
    requires n <= |queries|
  {
    if n == 0 then [] else ResultOf(rows, queries, n - 1) + RowsWithKey(queries[n - 1], RowsOf(rows, queries[n - 1]))
  }

  /** The result lists, query by query and in the order of the table, every row whose key is queried. */
  ghost predicate Lists(rows: seq<Row>, queries: seq<string>, n: nat, result: seq<Row>, at: seq<(nat, nat)>)
    requires n <= |queries|
  {
    && |at| == |result|
    && (forall r :: 0 <= r < |at| ==>
          at[r].0 < n && at[r].1 < |rows| && rows[at[r].1].key == queries[at[r].0] && result[r] == rows[at[r].1])
    && (forall r, s :: 0 <= r < s < |at| ==> at[r].0 < at[s].0 || (at[r].0 == at[s].0 && at[r].1 < at[s].1))
    && (forall i, p :: 0 <= i < n && 0 <= p < |rows| && rows[p].key == queries[i] ==> (i, p) in at)
  }

  lemma {:induction false} ResultOfMeaning(rows: seq<Row>, queries: seq<string>, n: nat) returns (at: seq<(nat, nat)>)
    requires n <= |queries|
    ensures Lists(rows, queries, n, ResultOf(rows, queries, n), at)
  {
    at := [];
    if n > 0 {
      var before := ResultOfMeaning(rows, queries, n - 1);
      var own := RowsOfMeaning(rows, queries[n - 1]);
      at := before + seq(|own|, i requires 0 <= i < |own| => (n - 1, own[i]));
      ListsNext(rows, queries, n, ResultOf(rows, queries, n - 1), before, RowsOf(rows, queries[n - 1]), own, at);
    }
  }

  lemma ListsNext(rows: seq<Row>, queries: seq<string>, n: nat, result: seq<Row>, before: seq<(nat, nat)>,
                  labels: seq<seq<string>>, own: seq<nat>, at: seq<(nat, nat)>)
    requires 0 < n <= |queries| && Lists(rows, queries, n - 1, result, before)
    requires Positions(rows, queries[n - 1], own) && |labels| == |own|
    requires forall i :: 0 <= i < |own| ==> own[i] < |rows| && labels[i] == rows[own[i]].labels
    requires at == before + seq(|own|, i requires 0 <= i < |own| => (n - 1, own[i]))
    ensures Lists(rows, queries, n, result + RowsWithKey(queries[n - 1], labels), at)
  {
    var more := result + RowsWithKey(queries[n - 1], labels);
    forall r | 0 <= r < |at|
      ensures at[r].0 < n && at[r].1 < |rows| && rows[at[r].1].key == queries[at[r].0] && more[r] == rows[at[r].1]
    {
      if r >= |before| { assert own[r - |before|] in own; }
    }
    forall i, p | 0 <= i < n && 0 <= p < |rows| && rows[p].key == queries[i] ensures (i, p) in at {
      if i == n - 1 {
        assert p in own;
        var k :| 0 <= k < |own| && own[k] == p;
        assert at[|before| + k] == (n - 1, p);
      } else {
        assert (i, p) in before;
      }
    }
  }

  ghost predicate PlainTable(rows: seq<Row>, width: nat) {
    forall i :: 0 <= i < |rows| ==> PlainRow(rows[i].labels) && |rows[i].labels| == width
  }

  lemma {:induction false} RowsOfPlain(rows: seq<Row>, width: nat, key: string)
    requires PlainTable(rows, width)
    ensures forall i :: 0 <= i < |RowsOf(rows, key)| ==>
      PlainRow(RowsOf(rows, key)[i]) && |RowsOf(rows, key)[i]| == width
  {
    if rows != [] {
      RowsOfPlain(rows[..|rows| - 1], width, key);
    }
  }

  /** The value of an existing key is made of its rows. */
  lemma ValueOf(m: map<string, (string, nat)>, rows: seq<Row>, width: nat, key: string)
    requires PlainTable(rows, width) && MergedAt(m, rows, key) && key in m
    ensures Unpack(m[key].0) == RowsOf(rows, key) && |Split(m[key].0, ROW_DELIMITER)| == m[key].1 == |RowsOf(rows, key)|
    ensures forall i :: 0 <= i < |Unpack(m[key].0)| ==> |Unpack(m[key].0)[i]| == width
  {
    RowsOfPlain(rows, width, key);
    MergeRoundTrip(m, rows, key);
  }

  /** The record at the place of query i is the one of its own key. */
  ghost predicate OwnRecord(m: map<string, (string, nat)>, q: string, r: Record) {
    r.found == (q in m) && (q in m ==> r.value == m[q].0)
  }

  ghost predicate AllMerged(m: map<string, (string, nat)>, rows: seq<Row>) {
    forall key :: MergedAt(m, rows, key)
  }

  /** One more pair takes its rows along. */
  lemma ExtractOneMore(pairs: seq<(string, string)>, key: string, value: string, width: nat)
    requires RightWidth(pairs, width) && forall i :: 0 <= i < |Unpack(value)| ==> |Unpack(value)[i]| == width
    ensures RightWidth(pairs + [(key, value)], width)
    ensures Extracted(pairs + [(key, value)]) == Extracted(pairs) + RowsWithKey(key, Unpack(value))
  {
    hide Unpack;
    assert (pairs + [(key, value)])[..|pairs|] == pairs;
  }

  lemma {:induction false} ExtractedResult(m: map<string, (string, nat)>, rows: seq<Row>, width: nat,
      queries: seq<string>, records: seq<Record>, perm: seq<nat>, n: nat)
    requires IsPermutation(perm, |queries|) && |records| == |queries| && n <= |queries| && PlainTable(rows, width)
    requires AllMerged(m, rows)
    requires forall i :: 0 <= i < |queries| ==> OwnRecord(m, queries[i], records[perm[i]])
    ensures RightWidth(Unshuffled(queries, records, perm, n), width)
    ensures Extracted(Unshuffled(queries, records, perm, n)) == ResultOf(rows, queries, n)
  {
    hide Unpack, RightWidth, Extracted, MergedAt, PlainTable, RowsOf;
    if n == 0 {
      assert RightWidth([], width) && Extracted([]) == [] by { NothingExtracted(width); }
    } else {
      ExtractedResult(m, rows, width, queries, records, perm, n - 1);
      var q, r := queries[n - 1], records[perm[n - 1]];
      assert OwnRecord(m, q, r) && MergedAt(m, rows, q);
      var init := Unshuffled(queries, records, perm, n - 1);
      if q in m {
        ValueOf(m, rows, width, q);
        ExtractOneMore(init, q, r.value, width);
      } else {
        assert RowsOf(rows, q) == [] by { Unmerged(m, rows, q); }
        assert init + [] == init && RowsWithKey(q, []) == [];
      }
    }
  }

  lemma NothingExtracted(width: nat)
    ensures RightWidth([], width) && Extracted([]) == []
  {
  }

  lemma Unmerged(m: map<string, (string, nat)>, rows: seq<Row>, q: string)
    requires MergedAt(m, rows, q) && q !in m
    ensures RowsOf(rows, q) == []
  {
  }

  lemma {:induction false} FoundSet(counted: seq<CountRecord>)
    ensures FoundOf(counted) == |set j: nat | j < |counted| && counted[j].found|
  {
    if counted != [] {
      var init := counted[..|counted| - 1];
      FoundSet(init);
      var a, b := set j: nat | j < |init| && init[j].found, set j: nat | j < |counted| && counted[j].found;
      assert b == if counted[|init|].found then a + {|init|} else a;
    }
  }

  /** A permutation carries a set onto one of the same size. */
  lemma {:induction false} CarriedSize(perm: seq<nat>, a: set<nat>, b: set<nat>)
    requires IsPermutation(perm, |perm|)
    requires forall i :: i in a ==> i < |perm| && perm[i] in b
    requires forall j :: j in b ==> exists i :: i in a && i < |perm| && perm[i] == j
    ensures |a| == |b|
  {
    if a == {} {
      if j :| j in b { assert false; }
    } else {
      var i :| i in a;
      CarriedSize(perm, a - {i}, b - {perm[i]});
    }
  }

  lemma FoundIsKnown(m: map<string, (string, nat)>, rows: seq<Row>, queries: seq<string>, counted: seq<CountRecord>,
      perm: seq<nat>)
    requires IsPermutation(perm, |queries|) && |counted| == |queries| && AllMerged(m, rows)
    requires forall i :: 0 <= i < |queries| ==> counted[perm[i]].found == (queries[i] in m)
    ensures FoundOf(counted) == |Known(rows, queries)|
  {
    FoundSet(counted);
    var b := set j: nat | j < |counted| && counted[j].found;
    forall i | i in Known(rows, queries) ensures perm[i] in b { assert MergedAt(m, rows, queries[i]); }
    forall j | j in b ensures exists i :: i in Known(rows, queries) && i < |perm| && perm[i] == j {
      assert j in perm;
      var i: nat :| i < |perm| && perm[i] == j;
      assert MergedAt(m, rows, queries[i]);
    }
    CarriedSize(perm, Known(rows, queries), b);
  }

  ghost function KeysInPlay(rows: seq<Row>, queries: seq<string>): set<string> {
    (set i | 0 <= i < |rows| :: rows[i].key) + (set q | q in queries)
  }

  lemma MergedKeysInPlay(m: map<string, (string, nat)>, rows: seq<Row>, queries: seq<string>)
    requires AllMerged(m, rows)
    ensures m.Keys <= KeysInPlay(rows, queries)
  {
    forall key | key in m ensures key in KeysInPlay(rows, queries) {
      assert MergedAt(m, rows, key);
      KeyOccurs(rows, key);
    }
  }

  /** The shuffle is undone: at the place of query i is the record of its own key. */
  lemma OwnPlaces<R(!new)>(m: map<string, (string, nat)>, oprf: string -> R, k: Key, rand: string -> int,
      keys: set<string>,                            values: map<R, string>, counts: map<R, Ciphertext>, q: string, r: R)
    requires k.n > 0 && TablesOf(m, oprf, k, rand, values, counts) && Apart(oprf, keys) && m.Keys <= keys && q in keys
    requires r == oprf(q)
    ensures OwnRecord(m, q, RecordOf(values, r)) && CountOf(counts, r).found == (q in m)
  {
    hide Encrypt, ComputePoly;
  }

  /** A found count is an honest encryption, and counts the rows of the found value. */
  lemma HonestPlace<R(!new)>(m: map<string, (string, nat)>, rows: seq<Row>, width: nat, oprf: string -> R, k: Key,
      rand: string -> int, values: map<R, string>, counts: map<R, Ciphertext>, r: R)
    requires k.n > 0 && TablesOf(m, oprf, k, rand, values, counts) && AllMerged(m, rows) && PlainTable(rows, width)
    requires r in values
    ensures |Split(values[r], ROW_DELIMITER)| == SizeFor(m, oprf, r)
    ensures Open(k, counts[r]) == ComputePoly(k, SizeFor(m, oprf, r), 1) % k.n
  {
    hide Split, Encrypt, Open, ComputePoly, PlainTable;
    var key :| key in m && oprf(key) == r && SizeFor(m, oprf, r) == m[key].1;
    assert MergedAt(m, rows, key);
    ValueOf(m, rows, width, key);
    OpenEncrypt(k, ComputePoly(k, m[key].1, 1), rand(key));
  }

  /** The two databases asked with the shuffled answers. */
  method AskAll<R(==, 0, !new)>(m: map<string, (string, nat)>, ghost rows: seq<Row>, ghost width: nat,
      queries: seq<string>, perm: seq<nat>, oprf: string -> R, k: Key, rand: string -> int)
    returns (records: seq<Record>, counted: seq<CountRecord>, ghost sizes: seq<nat>)
    requires k.n > 0 && IsPermutation(perm, |queries|) && PlainTable(rows, width) && AllMerged(m, rows)
    requires Apart(oprf, KeysInPlay(rows, queries))
    ensures |records| == |counted| == |sizes| == |queries|
    ensures forall i :: 0 <= i < |queries| ==> OwnRecord(m, queries[i], records[perm[i]])
    ensures forall i :: 0 <= i < |queries| ==> counted[perm[i]].found == (queries[i] in m)
    ensures forall j :: 0 <= j < |records| ==> records[j].found == counted[j].found
    ensures forall j :: 0 <= j < |records| && records[j].found ==> |Split(records[j].value, ROW_DELIMITER)| == sizes[j]
    ensures Honest(k, counted, sizes)
  {
    hide Split, Open, ComputePoly, Encrypt, PlainTable, AllMerged, OwnRecord;
    MergedKeysInPlay(m, rows, queries);
    var values, counts := BuildTables(m, oprf, k, rand);
    var places := ProcessQueries(queries, perm, oprf);
    var responses := places[..];
    records, counted := LookUp(responses, values, counts);
    sizes := seq(|responses|, j requires 0 <= j < |responses| => SizeFor(m, oprf, responses[j]));
    hide TablesOf;
    forall i | 0 <= i < |queries|
      ensures OwnRecord(m, queries[i], records[perm[i]]) && counted[perm[i]].found == (queries[i] in m) {
      OwnPlaces(m, oprf, k, rand, KeysInPlay(rows, queries), values, counts, queries[i], responses[perm[i]]);
    }
    forall j | 0 <= j < |records| && records[j].found
      ensures |Split(records[j].value, ROW_DELIMITER)| == sizes[j]
      ensures Open(k, counted[j].ct) == ComputePoly(k, sizes[j], 1) % k.n
    {
      HonestPlace(m, rows, width, oprf, k, rand, values, counts, responses[j]);
    }
  }

  /** From the sender's rows to the receiver's: every queried key that exists gets its own rows in order,
      whatever the shuffle; and the receiver's honest row count passes exactly when the order divides the
      intercept times the number of missing keys. */
  method Run<R(==, 0, !new)>(rows: seq<Row>, width: nat, queries: seq<string>, perm: seq<nat>, oprf: string -> R,
      k: Key, rand: string -> int)
    returns (ok: bool, result: seq<Row>, total: nat, any: bool, accepted: bool, ghost at: seq<(nat, nat)>)
    requires k.n > 0 && IsPermutation(perm, |queries|) && PlainTable(rows, width)
    requires Apart(oprf, KeysInPlay(rows, queries))
    ensures ok && result == ResultOf(rows, queries, |queries|) && total == |result|
    ensures Lists(rows, queries, |queries|, result, at)
    ensures any <==> Known(rows, queries) != {}
    ensures any ==> (accepted <==> (k.b * (|queries| - |Known(rows, queries)|)) % k.n == 0)
  {
    hide Split, Honest, PlainTable, Apart, OwnRecord, ResultOf, RightWidth, Lists;
    at := ResultOfMeaning(rows, queries, |queries|);
    var m := MergeColumnAndRow(rows);
    assert AllMerged(m, rows);
    hide MergedAt;
    var records, counted, sizes := AskAll(m, rows, width, queries, perm, oprf, k, rand);
    var pairs := WriteIntersectionResults(queries, records, perm);
    ExtractedResult(m, rows, width, queries, records, perm, |queries|);
    ok, result, total := ExtractResult(pairs, width);
    FoundIsKnown(m, rows, queries, counted, perm);
    any, accepted := Exchange(k, records, counted, sizes);
  }

  ghost function SizeFor<R(!new)>(m: map<string, (string, nat)>, oprf: string -> R, r: R): (size: nat)
    ensures (exists key :: key in m && oprf(key) == r) ==> exists key :: key in m && oprf(key) == r && size == m[key].1
  {
    if key :| key in m && oprf(key) == r then m[key].1 else 0
  }

  lemma {:induction false} KeyOccurs(rows: seq<Row>, key: string)
    requires RowsOf(rows, key) != []
    ensures exists i :: 0 <= i < |rows| && rows[i].key == key
  {
    if rows[|rows| - 1].key != key {
      KeyOccurs(rows[..|rows| - 1], key);
    }
  }
}
