/** N-party intersection as a tournament of two-party intersections. */
module Tournament {
  import opened Common
  import opened Sorting

  /** A party's item count and rank, as they are gathered from everybody. */
  datatype Entry = Entry(size: nat, rank: nat)

  // ---- The seating

  predicate EntryOrder(a: Entry, b: Entry) {
    a.size < b.size || (a.size == b.size && a.rank <= b.rank)
  }

  function Gathered(sizes: seq<nat>): seq<Entry> {
    seq(|sizes|, i requires 0 <= i < |sizes| => Entry(sizes[i], i))
  }

  /** The master first, the others by ascending size and then rank. */
  function Seating(sizes: seq<nat>, master: nat): seq<Entry>
    requires master < |sizes|
  {
    var all := Gathered(sizes);
    var swapped := all[0 := all[master]][master := all[0]];
    [swapped[0]] + Sort(swapped[1..], EntryOrder)
  }

  method GetAllPartyItemSizeVec(sizes: seq<nat>, master: nat) returns (seats: seq<Entry>)
    requires master < |sizes|
    ensures seats == Seating(sizes, master)
  {
    seats := [];
    for i := 0 to |sizes|
      invariant seats == Gathered(sizes)[..i]
    {
      seats := seats + [Entry(sizes[i], i)];
    }
    assert Gathered(sizes)[..|sizes|] == Gathered(sizes);
    if master != 0 {
      seats := seats[0 := seats[master]][master := seats[0]];
    }
    seats := [seats[0]] + Sort(seats[1..], EntryOrder);
  }

  /** Seats of distinct parties, the master in the first. */
  ghost predicate Seated(seats: seq<Entry>, n: nat, master: nat) {
    && 0 < |seats| && seats[0].rank == master
    && (forall k :: 0 <= k < |seats| ==> seats[k].rank < n)
    && DistinctSeats(seats)
  }

  lemma SwapMultiset<T>(s: seq<T>, j: nat)
    requires j < |s|
    ensures multiset(s[0 := s[j]][j := s[0]]) == multiset(s)
  {
  }

  lemma SeatingMultiset(sizes: seq<nat>, master: nat)
    requires master < |sizes|
    ensures var seats := Seating(sizes, master);
      multiset(seats) == multiset(Gathered(sizes)) && |seats| == |sizes| && seats[0] == Entry(sizes[master], master)
      && Sorted(seats[1..], EntryOrder)
  {
    var all := Gathered(sizes);
    var swapped := all[0 := all[master]][master := all[0]];
    SwapMultiset(all, master);
    SortOk(swapped[1..], EntryOrder);
    SameElements(swapped[1..], EntryOrder);
    assert swapped == [swapped[0]] + swapped[1..];
    assert Seating(sizes, master)[1..] == Sort(swapped[1..], EntryOrder);
  }

  ghost predicate HasSeat(seats: seq<Entry>, r: nat) {
    exists k :: 0 <= k < |seats| && seats[k].rank == r
  }

  /** Every party has exactly one seat, with its own size. */
  lemma SeatingOk(sizes: seq<nat>, master: nat)
    requires master < |sizes|
    ensures |Seating(sizes, master)| == |sizes| && Seated(Seating(sizes, master), |sizes|, master)
    ensures forall k :: 0 <= k < |sizes| ==>
      Seating(sizes, master)[k].rank < |sizes|
          && Seating(sizes, master)[k].size == sizes[Seating(sizes, master)[k].rank]
    ensures forall r :: 0 <= r < |sizes| ==> HasSeat(Seating(sizes, master), r)
    ensures var seats := Seating(sizes, master);
      forall k, l :: 0 < k < l < |seats| ==>
        seats[k].size < seats[l].size || (seats[k].size == seats[l].size && seats[k].rank < seats[l].rank)
  {
    SeatingMultiset(sizes, master);
    hide Seating;
    var all, seats := Gathered(sizes), Seating(sizes, master);
    forall k, l | 0 < k < l < |seats| ensures EntryOrder(seats[k], seats[l]) {
      assert seats[1..][k - 1] == seats[k] && seats[1..][l - 1] == seats[l];
    }
    forall k | 0 <= k < |seats| ensures seats[k].rank < |sizes| && seats[k].size == sizes[seats[k].rank] {
      assert seats[k] in multiset(seats);
      assert seats[k] in all;
    }
    forall r | 0 <= r < |sizes| ensures HasSeat(seats, r) {
      assert all[r] in multiset(all);
      assert all[r] in seats;
    }
    DistinctRanks(all, seats);
  }

  lemma DistinctRanks(all: seq<Entry>, seats: seq<Entry>)
    requires multiset(seats) == multiset(all)
    requires forall k :: 0 <= k < |all| ==> all[k].rank == k
    ensures forall k, l :: 0 <= k < l < |seats| ==> seats[k].rank != seats[l].rank
  {
    forall k, l | 0 <= k < l < |seats| ensures seats[k].rank != seats[l].rank {
      assert seats[k] in multiset(seats) && seats[l] in multiset(seats);
      assert seats[k] in all && seats[l] in all;
      if seats[k] == seats[l] {
        Twice(seats, k, l);
        Once(all, seats[k]);
      }
    }
  }

  /** Some party is empty exactly when the first or the second seat is. */
  lemma EmptyPartyShows(sizes: seq<nat>, master: nat)
    requires master < |sizes| && 2 <= |sizes|
    ensures |Seating(sizes, master)| == |sizes|
    ensures (Seating(sizes, master)[0].size == 0 || Seating(sizes, master)[1].size == 0) <==> 0 in sizes
  {
    SeatingMultiset(sizes, master);
    SeatingOk(sizes, master);
    hide Seating;
    var seats := Seating(sizes, master);
    if r :| 0 <= r < |sizes| && sizes[r] == 0 {
      assert HasSeat(seats, r);
      var k :| 0 <= k < |seats| && seats[k].rank == r;
      if k > 1 {
        assert seats[1..][0] == seats[1] && seats[1..][k - 1] == seats[k];
      }
    }
  }

  lemma Twice<T>(s: seq<T>, k: nat, l: nat)
    requires k < l < |s| && s[k] == s[l]
    ensures multiset(s)[s[k]] >= 2
  {
    assert s == s[..l] + s[l..];
    assert s[k] == s[..l][k] && s[k] in multiset(s[..l]);
    assert s[k] == s[l..][0] && s[k] in multiset(s[l..]);
  }

  lemma {:induction false} Once(all: seq<Entry>, e: Entry)
    requires forall k, l :: 0 <= k < l < |all| ==> all[k] != all[l]
    ensures multiset(all)[e] <= 1
  {
    if all != [] {
      Once(all[1..], e);
      assert all == [all[0]] + all[1..];
    }
  }

  // ---- One level

  ghost predicate DistinctSeats(seats: seq<Entry>) {
    forall k, l :: 0 <= k < l < |seats| ==> seats[k].rank != seats[l].rank
  }

  ghost function SeatOf(seats: seq<Entry>, r: nat): (k: nat)
    requires HasSeat(seats, r)
    ensures k < |seats| && seats[k].rank == r
  {
    var k :| 0 <= k < |seats| && seats[k].rank == r; k
  }

  function Mirror(m: nat, k: nat): nat
    requires k < m
  {
    m - 1 - k
  }

  /** The party in the seat opposite; the one in the middle of an odd row sits opposite to itself. */
  ghost function Partner(seats: seq<Entry>, r: nat): nat
    requires HasSeat(seats, r)
  {
    seats[Mirror(|seats|, SeatOf(seats, r))].rank
  }

  /** Of a party and its partner, the one seated further to the front. */
  ghost function Target(seats: seq<Entry>, r: nat): nat
    requires HasSeat(seats, r)
  {
    var k := SeatOf(seats, r);
    var j := Mirror(|seats|, k);
    seats[if k <= j then k else j].rank
  }

  /** What a party works out for itself, from its copy of the seating. */
  method GetPsiRank(seats: seq<Entry>, rank: nat) returns (found: bool, peer: nat, target: nat)
    requires DistinctSeats(seats)
    ensures found <==> HasSeat(seats, rank)
    ensures found ==> peer == Partner(seats, rank) && target == Target(seats, rank)
  {
    var m := |seats|;
    if m % 2 != 0 && seats[m / 2].rank == rank {
      return true, rank, rank;
    }
    for i := 0 to m / 2
      invariant forall k :: 0 <= k < m && (k < i || m - i <= k) ==> seats[k].rank != rank
    {
      var j := m - 1 - i;
      if seats[i].rank == rank {
        return true, seats[j].rank, seats[i].rank;
      } else if seats[j].rank == rank {
        return true, seats[i].rank, seats[i].rank;
      }
    }
    return false, 0, 0;
  }

  /** Partners name each other and agree on the target, which is one of them; the targets are exactly the
      parties in the front half, rounded up, who stay in. */
  lemma PartnersAgree(seats: seq<Entry>, r: nat)
    requires DistinctSeats(seats) && HasSeat(seats, r)
    ensures HasSeat(seats, Partner(seats, r)) && Partner(seats, Partner(seats, r)) == r
    ensures Target(seats, Partner(seats, r)) == Target(seats, r)
    ensures Target(seats, r) == r || Target(seats, r) == Partner(seats, r)
    ensures Target(seats, r) == r <==> SeatOf(seats, r) < (|seats| + 1) / 2
    ensures Partner(seats, r) == r <==> |seats| == 2 * SeatOf(seats, r) + 1
    ensures Partner(seats, r) == seats[|seats| - 1 - SeatOf(seats, r)].rank
  {
    var k := SeatOf(seats, r);
    var j := Mirror(|seats|, k);
    assert seats[j].rank == Partner(seats, r);
    assert SeatOf(seats, Partner(seats, r)) == j;
  }

  // ---- The run

  type Psi = (seq<nat>, seq<nat>) -> seq<nat>

  /** A two-party run gives its target the common items, in any order. */
  ghost predicate Ideal(psi: Psi) {
    forall a, b, x :: x in psi(a, b) <==> x in a && x in b
  }

  ghost predicate NoRepeats(s: seq<nat>) {
    forall x :: multiset(s)[x] <= 1
  }

  /** A two-party run on lists without repetitions repeats no item. */
  ghost predicate RepeatsNothing(psi: Psi) {
    forall a, b :: NoRepeats(a) && NoRepeats(b) ==> NoRepeats(psi(a, b))
  }

  /** A party is in the level loop with its own copy of the seating and its current list, or it has
      returned, having joined the finish broadcast so many times. */
  datatype Party = Running(seats: seq<Entry>, list: seq<nat>) | Returned(result: seq<nat>, joins: nat)

  /** Item x is on the list of everybody who is still running. */
  ghost predicate InAll(ps: seq<Party>, x: nat) {
    forall r :: 0 <= r < |ps| && ps[r].Running? ==> x in ps[r].list
  }

  ghost predicate InInputs(inputs: seq<seq<nat>>, x: nat) {
    forall r :: 0 <= r < |inputs| ==> x in inputs[r]
  }

  /** Everybody seated is running on the same seating, everybody else has returned empty after one finish
      broadcast, and the seated lists still determine the whole intersection. */
  ghost predicate Level(inputs: seq<seq<nat>>, master: nat, ps: seq<Party>, seats: seq<Entry>) {
    && |ps| == |inputs| && Seated(seats, |ps|, master)
    && (forall k :: 0 <= k < |seats| ==> ps[seats[k].rank].Running?)
    && (forall r :: 0 <= r < |ps| ==>
          if ps[r].Running? then ps[r].seats == seats && HasSeat(seats, r) else ps[r] == Returned([], 1))
    && (forall x :: InAll(ps, x) <==> InInputs(inputs, x))
  }

  /** Between levels at least two parties are left, and no list is empty. */
  ghost predicate Ready(inputs: seq<seq<nat>>, master: nat, ps: seq<Party>, seats: seq<Entry>) {
    && Level(inputs, master, ps, seats) && |seats| >= 2
    && forall k :: 0 <= k < |seats| ==> ps[seats[k].rank].list != []
  }

  predicate Ascending(a: nat, b: nat) { a <= b }

  /** No list and no result has an item twice. */
  ghost predicate Clean(ps: seq<Party>) {
    forall r :: 0 <= r < |ps| ==> NoRepeats(if ps[r].Running? then ps[r].list else ps[r].result)
  }

  lemma PlayedClean(psi: Psi, ps: seq<Party>, next: seq<Party>, seats: seq<Entry>)
    requires RepeatsNothing(psi) && Clean(ps) && DistinctSeats(seats) && |next| == |ps|
    requires forall k :: 0 <= k < |seats| ==> seats[k].rank < |ps| && ps[seats[k].rank].Running?
    requires forall r :: 0 <= r < |ps| && ps[r].Running? ==> HasSeat(seats, r)
    requires forall r :: 0 <= r < |ps| ==> next[r] == if ps[r].Running? then Played(psi, ps, seats, r) else ps[r]
    ensures Clean(next)
  {
    hide NoRepeats, Mirror, SeatOf, Partner, Target, DistinctSeats;
    forall r | 0 <= r < |ps| ensures NoRepeats(if next[r].Running? then next[r].list else next[r].result) {
      assert NoRepeats([]) by { NothingRepeats(); }
      if ps[r].Running? { PartnersAgree(seats, r); }
    }
  }

  lemma NothingRepeats()
    ensures NoRepeats([])
  {
  }

  lemma SortedNoRepeats(s: seq<nat>)
    requires NoRepeats(s)
    ensures NoRepeats(Sort(s, Ascending))
  {
    SortOk(s, Ascending);
  }

  lemma EndedClean(ps: seq<Party>, next: seq<Party>, gathered: seq<nat>)
    requires Clean(ps) && |next| == |ps|
    requires forall r :: 0 <= r < |ps| ==> next[r] == if ps[r].Running? then Ended(ps[r], gathered) else ps[r]
    ensures Clean(next)
  {
    hide NoRepeats, Sort;
    NothingRepeats();
    forall r | 0 <= r < |ps| ensures NoRepeats(if next[r].Running? then next[r].list else next[r].result) {
      if ps[r].Running? { SortedNoRepeats(ps[r].list); }
    }
  }

  /** In order and without repetitions is strictly ascending. */
  lemma Strictly(s: seq<nat>)
    requires Sorted(s, Ascending) && NoRepeats(s)
    ensures forall i, j :: 0 <= i < j < |s| ==> s[i] < s[j]
  {
    forall i, j | 0 <= i < j < |s| ensures s[i] < s[j] {
      CountsBoth(s, i, j);
      assert multiset(s)[s[i]] <= 1;
      assert Ascending(s[i], s[j]);
    }
  }

  lemma CountsBoth(s: seq<nat>, i: nat, j: nat)
    requires i < j < |s|
    ensures s[i] == s[j] ==> multiset(s)[s[i]] >= 2
  {
    assert s == s[..j] + [s[j]] + s[j + 1..];
    assert s[..j][i] == s[i];
    assert s[i] in multiset(s[..j]);
  }

  /** Everybody has returned: the master with the whole intersection in order, the others with nothing. */
  ghost predicate Outcome(inputs: seq<seq<nat>>, master: nat, ps: seq<Party>, joins: nat) {
    && |ps| == |inputs| && master < |ps|
    && (forall r :: 0 <= r < |ps| ==> ps[r].Returned? && ps[r].joins == joins && (r != master ==> ps[r].result == []))
    && Sorted(ps[master].result, Ascending)
    && forall x :: x in ps[master].result <==> InInputs(inputs, x)
  }

  /** A two-party run is started only on lists that are not empty. */
  function Run2PartyPsi(psi: Psi, rank: nat, mine: seq<nat>, peer: nat, theirs: seq<nat>, target: nat): seq<nat>
    requires peer != rank ==> mine != [] && theirs != []
  {
    if peer == rank then mine else if target == rank then psi(mine, theirs) else []
  }

  /** Party r after the two-party run and the erasure of the back half. */
  ghost function Played(psi: Psi, ps: seq<Party>, seats: seq<Entry>, r: nat): Party
    requires HasSeat(seats, r)
    requires forall k :: 0 <= k < |seats| ==> seats[k].rank < |ps| && ps[seats[k].rank].Running?
  {
    if Target(seats, r) != r then Returned([], 1)
    else if Partner(seats, r) == r then Running(seats[..(|seats| + 1) / 2], ps[r].list)
    else Running(seats[..(|seats| + 1) / 2], psi(ps[r].list, ps[Partner(seats, r)].list))
  }

  /** One party's part of a level: find the partner, run, and leave if seated in the back half. */
  method PlayLevel(psi: Psi, ghost inputs: seq<seq<nat>>, ghost master: nat, ps: seq<Party>, rank: nat)
    returns (next: Party)
    requires rank < |ps| && ps[rank].Running? && Ready(inputs, master, ps, ps[rank].seats)
    ensures next == Played(psi, ps, ps[rank].seats, rank)
  {
    var seats, mine := ps[rank].seats, ps[rank].list;
    var m := |seats|;
    PartnersAgree(seats, rank);
    var found, peer, target := GetPsiRank(seats, rank);
    ghost var k, j := SeatOf(seats, rank), SeatOf(seats, peer);
    assert ps[seats[k].rank].list != [] && ps[seats[j].rank].Running? && ps[seats[j].rank].list != [];
    var list := Run2PartyPsi(psi, rank, mine, peer, ps[peer].list, target);
    var erasePos := (m + 1) / 2;
    for i := erasePos to m
      invariant forall l :: erasePos <= l < i ==> seats[l].rank != rank
    {
      if seats[i].rank == rank {
        return Returned([], 1);
      }
    }
    next := Running(seats[..erasePos], list);
  }

  /** The front half still determines the whole intersection. */
  lemma PlayedInAll(psi: Psi, ps: seq<Party>, next: seq<Party>, seats: seq<Entry>, x: nat)
    requires Ideal(psi) && DistinctSeats(seats) && |next| == |ps|
    requires forall k :: 0 <= k < |seats| ==> seats[k].rank < |ps| && ps[seats[k].rank].Running?
    requires forall r :: 0 <= r < |ps| && ps[r].Running? ==> HasSeat(seats, r)
    requires forall r :: 0 <= r < |ps| ==> next[r] == if ps[r].Running? then Played(psi, ps, seats, r) else ps[r]
    ensures InAll(next, x) <==> InAll(ps, x)
  {
    hide Mirror, SeatOf, Partner, Target, DistinctSeats;
    forall r | 0 <= r < |ps| && ps[r].Running?
      ensures InAll(next, x) ==> x in ps[r].list
      ensures InAll(ps, x) && next[r].Running? ==> x in next[r].list
    {
      PartnersAgree(seats, r);
      var t := Target(seats, r);
      PartnersAgree(seats, t);
      assert seats[SeatOf(seats, t)].rank == t && seats[SeatOf(seats, Partner(seats, t))].rank == Partner(seats, t);
      assert next[t] == Played(psi, ps, seats, t) && next[t].Running?;
    }
  }

  lemma PlayedLevel(psi: Psi, inputs: seq<seq<nat>>, master: nat, ps: seq<Party>, next: seq<Party>, seats: seq<Entry>)
    requires Ideal(psi) && Ready(inputs, master, ps, seats) && |next| == |ps|
    requires forall r :: 0 <= r < |ps| ==> next[r] == if ps[r].Running? then Played(psi, ps, seats, r) else ps[r]
    ensures Level(inputs, master, next, seats[..(|seats| + 1) / 2])
  {
    hide Ideal, InInputs, Mirror, SeatOf, Partner, Target, InAll;
    var front := seats[..(|seats| + 1) / 2];
    forall k | 0 <= k < |front| ensures next[front[k].rank].Running? {
      var r := seats[k].rank;
      assert HasSeat(seats, r);
      PartnersAgree(seats, r);
      assert SeatOf(seats, r) == k;
    }
    forall r | 0 <= r < |ps| && next[r].Running? ensures HasSeat(front, r) {
      PartnersAgree(seats, r);
      assert front[SeatOf(seats, r)].rank == r;
    }
    forall x ensures InAll(next, x) <==> InInputs(inputs, x) {
      PlayedInAll(psi, ps, next, seats, x);
    }
  }

  /** What a survivor does with the gathered list sizes. */
  ghost function Ended(p: Party, gathered: seq<nat>): Party
    requires p.Running?
  {
    if 0 in gathered then Returned([], 1)
    else if |p.seats| == 1 then Returned(Sort(p.list, Ascending), 1)
    else p
  }

  method EndLevel(inputSize: nat, p: Party, gathered: seq<nat>) returns (next: Party)
    requires p.Running? && inputSize > 0
    ensures next == Ended(p, gathered)
  {
    var least := inputSize;
    for i := 0 to |gathered|
      invariant least > 0 && forall j :: 0 <= j < i ==> gathered[j] > 0
    {
      least := if gathered[i] < least then gathered[i] else least;
      if least == 0 {
        assert gathered[i] in gathered;
        break;
      }
    }
    if least == 0 {
      return Returned([], 1);
    }
    if |p.seats| == 1 {
      return Returned(Sort(p.list, Ascending), 1);
    }
    return p;
  }

  ghost predicate ListSizes(ps: seq<Party>, seats: seq<Entry>, gathered: seq<nat>)
    requires forall k :: 0 <= k < |seats| ==> seats[k].rank < |ps| && ps[seats[k].rank].Running?
  {
    |gathered| == |seats| && forall k :: 0 <= k < |seats| ==> gathered[k] == |ps[seats[k].rank].list|
  }

  /** All survivors take the same branch: on with the next level, or out with the result. */
  lemma EndedLevel(inputs: seq<seq<nat>>, master: nat, ps: seq<Party>, next: seq<Party>, seats: seq<Entry>,
      gathered: seq<nat>)
    requires Level(inputs, master, ps, seats) && |next| == |ps| && ListSizes(ps, seats, gathered)
    requires forall r :: 0 <= r < |ps| ==> next[r] == if ps[r].Running? then Ended(ps[r], gathered) else ps[r]
    ensures if |seats| == 1 || 0 in gathered then Outcome(inputs, master, next, 1)
        else Ready(inputs, master, next, seats)
  {
    hide InAll, InInputs, Sort, DistinctSeats;
    assert ps[seats[0].rank].Running?;
    if 0 in gathered {
      var k :| 0 <= k < |gathered| && gathered[k] == 0;
      forall x ensures !InInputs(inputs, x) {
        assert ps[seats[k].rank].Running?;
        NotInAll(ps, seats[k].rank, x);
      }
    } else if |seats| == 1 {
      EndedAlone(inputs, master, ps, seats);
    } else {
      assert next == ps;
      forall k | 0 <= k < |seats| ensures ps[seats[k].rank].list != [] {
        assert gathered[k] in gathered;
      }
    }
  }

  lemma NotInAll(ps: seq<Party>, r: nat, x: nat)
    requires r < |ps| && ps[r].Running? && x !in ps[r].list
    ensures !InAll(ps, x)
  {
  }

  /** The last one running is the master, with the whole intersection. */
  lemma EndedAlone(inputs: seq<seq<nat>>, master: nat, ps: seq<Party>, seats: seq<Entry>)
    requires Level(inputs, master, ps, seats) && |seats| == 1
    ensures ps[master].Running? && forall r :: 0 <= r < |ps| && r != master ==> !ps[r].Running?
    ensures Sorted(Sort(ps[master].list, Ascending), Ascending)
    ensures forall x :: x in Sort(ps[master].list, Ascending) <==> InInputs(inputs, x)
  {
    hide InInputs, Sort;
    assert ps[seats[0].rank].Running?;
    assert forall r :: 0 <= r < |ps| && ps[r].Running? ==> HasSeat(seats, r);
    SortOk(ps[master].list, Ascending);
    SameElements(ps[master].list, Ascending);
    forall x ensures x in Sort(ps[master].list, Ascending) <==> InInputs(inputs, x) {
      assert InAll(ps, x) <==> x in ps[master].list;
    }
  }

  // ---- The number of levels

  /** The logarithm of the least power of two that is at least n. */
  method LevelNum(n: nat) returns (l: nat)
    requires n > 0
    ensures IsLevelNum(n, l)
  {
    l := 0;
    var p := 1;
    while p < n
      invariant p == Pow2(l) && (l > 0 ==> Pow2(l - 1) < n)
      decreases n - p
    {
      p, l := 2 * p, l + 1;
    }
  }

  ghost predicate IsLevelNum(n: nat, l: nat) {
    n <= Pow2(l) && (l > 0 ==> Pow2(l - 1) < n)
  }

  /** Halving the number of parties, rounding up, takes exactly one level off. */
  lemma HalvingTakesOneLevel(n: nat, l: nat)
    requires n >= 2 && IsLevelNum(n, l)
    ensures l > 0 && IsLevelNum((n + 1) / 2, l - 1)
  {
    assert l > 0;
    if l > 1 {
      assert Pow2(l - 1) == 2 * Pow2(l - 2);
    }
  }

  // ---- Everybody together

  /** One level, played by all parties in step. */
  method Step(psi: Psi, inputs: seq<seq<nat>>, master: nat, ps: seq<Party>, ghost seats: seq<Entry>)
    returns (next: seq<Party>)
    requires Ideal(psi) && Ready(inputs, master, ps, seats)
    requires forall r :: 0 <= r < |inputs| ==> inputs[r] != []
    ensures var front := seats[..(|seats| + 1) / 2];
      Outcome(inputs, master, next, 1) || (|front| >= 2 && Ready(inputs, master, next, front))
    ensures RepeatsNothing(psi) && Clean(ps) ==> Clean(next)
  {
    hide Ideal, InAll, InInputs, Sort, DistinctSeats, Clean, RepeatsNothing;
    var mid: seq<Party> := [];
    for r := 0 to |ps|
      invariant |mid| == r
      invariant forall q :: 0 <= q < r ==> mid[q] == if ps[q].Running? then Played(psi, ps, seats, q) else ps[q]
    {
      var p := ps[r];
      if p.Running? {
        p := PlayLevel(psi, inputs, master, ps, r);
      }
      mid := mid + [p];
    }
    PlayedLevel(psi, inputs, master, ps, mid, seats);
    if RepeatsNothing(psi) && Clean(ps) { PlayedClean(psi, ps, mid, seats); }
    next := EndAll(inputs, master, mid, seats[..(|seats| + 1) / 2]);
  }

  method GatherSizes(ps: seq<Party>, seats: seq<Entry>) returns (gathered: seq<nat>)
    requires forall k :: 0 <= k < |seats| ==> seats[k].rank < |ps| && ps[seats[k].rank].Running?
    ensures ListSizes(ps, seats, gathered)
  {
    gathered := seq(|seats|, k requires 0 <= k < |seats| => |ps[seats[k].rank].list|);
  }

  method EndAll(inputs: seq<seq<nat>>, master: nat, mid: seq<Party>, ghost front: seq<Entry>) returns (next: seq<Party>)
    requires Level(inputs, master, mid, front)
    requires forall r :: 0 <= r < |inputs| ==> inputs[r] != []
    ensures Outcome(inputs, master, next, 1) || (|front| >= 2 && Ready(inputs, master, next, front))
    ensures Clean(mid) ==> Clean(next)
  {
    hide InAll, InInputs, Sort, DistinctSeats, Outcome, Clean;
    next := [];
    ghost var gathered := seq(|front|, k requires 0 <= k < |front| => |mid[front[k].rank].list|);
    for r := 0 to |mid|
      invariant |next| == r
      invariant forall q :: 0 <= q < r ==> next[q] == if mid[q].Running? then Ended(mid[q], gathered) else mid[q]
    {
      var p := mid[r];
      if p.Running? {
        var sizes := GatherSizes(mid, p.seats);
        assert sizes == gathered;
        p := EndLevel(|inputs[r]|, p, sizes);
      }
      next := next + [p];
    }
    EndedLevel(inputs, master, mid, next, front, gathered);
    if Clean(mid) { EndedClean(mid, next, gathered); }
  }

  /** Every party starts the level loop with its inputs, or everybody returns before the first level. */
  method Begin(inputs: seq<seq<nat>>, master: nat) returns (ps: seq<Party>)
    requires 2 <= |inputs| && master < |inputs|
    ensures if [] in inputs then Outcome(inputs, master, ps, 0)
            else Ready(inputs, master, ps, Seating(Sizes(inputs), master)) &&
                 |Seating(Sizes(inputs), master)| == |inputs|
    ensures (forall r :: 0 <= r < |inputs| ==> NoRepeats(inputs[r])) ==> Clean(ps)
  {
    hide Seating, Sort;
    var sizes := Sizes(inputs);
    SeatingOk(sizes, master);
    EmptyPartyShows(sizes, master);
    ghost var seats := Seating(sizes, master);
    ps := [];
    for r := 0 to |inputs|
      invariant |ps| == r
      invariant forall q :: 0 <= q < r ==> ps[q] == if 0 in sizes then Returned([], 0) else Running(seats, inputs[q])
    {
      var mine := GetAllPartyItemSizeVec(sizes, master);
      ps := ps + [if mine[0].size == 0 || mine[1].size == 0 then Returned([], 0) else Running(mine, inputs[r])];
    }
    NothingRepeats();
    BeginOk(inputs, master, ps, seats);
  }

  function Sizes(inputs: seq<seq<nat>>): seq<nat> {
    seq(|inputs|, r requires 0 <= r < |inputs| => |inputs[r]|)
  }

  lemma BeginOk(inputs: seq<seq<nat>>, master: nat, ps: seq<Party>, seats: seq<Entry>)
    requires 2 <= |inputs| && master < |inputs| && |ps| == |inputs| == |seats| && Seated(seats, |ps|, master)
    requires forall r :: 0 <= r < |inputs| ==> HasSeat(seats, r)
    requires forall r :: 0 <= r < |ps| ==>
      ps[r] == if 0 in Sizes(inputs) then Returned([], 0) else Running(seats, inputs[r])
    ensures if [] in inputs then Outcome(inputs, master, ps, 0) else Ready(inputs, master, ps, seats)
  {
    if [] in inputs {
      var r :| 0 <= r < |inputs| && inputs[r] == [];
      assert Sizes(inputs)[r] == 0;
      assert forall x :: !InInputs(inputs, x) by { assert forall x :: x !in inputs[r]; }
    } else {
      assert forall r :: 0 <= r < |inputs| ==> Sizes(inputs)[r] == |inputs[r]| && inputs[r] != [];
      assert forall x :: InAll(ps, x) <==> InInputs(inputs, x);
    }
  }

  lemma RunningOrOver(inputs: seq<seq<nat>>, master: nat, ps: seq<Party>, seats: seq<Entry>, joins: nat)
    ensures Outcome(inputs, master, ps, joins) ==> forall r :: 0 <= r < |ps| ==> !ps[r].Running?
    ensures Ready(inputs, master, ps, seats) ==> master < |ps| && ps[master].Running?
  {
    if Ready(inputs, master, ps, seats) {
      assert ps[seats[0].rank].Running?;
    }
  }

  /** Any number of parties and any master: after the computed number of levels nobody is left running,
      the master has the intersection of all inputs, in order, and the others have nothing. Everybody has
      joined the finish broadcast exactly once, unless some input was empty and nobody has joined it. */
  method Run(psi: Psi, inputs: seq<seq<nat>>, master: nat) returns (results: seq<Party>)
    requires Ideal(psi) && 2 <= |inputs| && master < |inputs|
    ensures Outcome(inputs, master, results, if [] in inputs then 0 else 1)
    ensures RepeatsNothing(psi) && (forall r :: 0 <= r < |inputs| ==> NoRepeats(inputs[r])) ==>
      forall i, j :: 0 <= i < j < |results[master].result| ==> results[master].result[i] < results[master].result[j]
  {
    hide Ideal, Ready, Outcome, IsLevelNum, Seating, RepeatsNothing, NoRepeats, Clean;
    ghost var clean := RepeatsNothing(psi) && forall r :: 0 <= r < |inputs| ==> NoRepeats(inputs[r]);
    results := Begin(inputs, master);
    ghost var seats := Seating(Sizes(inputs), master);
    var levels := LevelNum(|inputs|);
    for li := 0 to levels
      invariant Outcome(inputs, master, results, if [] in inputs then 0 else 1)
        || ([] !in inputs && Ready(inputs, master, results, seats) && |seats| >= 2 && IsLevelNum(|seats|, levels - li))
      invariant clean ==> Clean(results)
    {
      RunningOrOver(inputs, master, results, seats, if [] in inputs then 0 else 1);
      if exists r :: 0 <= r < |results| && results[r].Running? {
        HalvingTakesOneLevel(|seats|, levels - li);
        results := Step(psi, inputs, master, results, seats);
        seats := seats[..(|seats| + 1) / 2];
      }
    }
    assert IsLevelNum(|seats|, 0) ==> |seats| <= 1 by { NoLevelsLeft(|seats|); }
    MasterReturned(inputs, master, results, if [] in inputs then 0 else 1);
    if clean { Strictly(results[master].result) by { CleanAt(results, master); } }
  }

  lemma MasterReturned(inputs: seq<seq<nat>>, master: nat, ps: seq<Party>, joins: nat)
    requires Outcome(inputs, master, ps, joins)
    ensures master < |ps| && ps[master].Returned? && Sorted(ps[master].result, Ascending)
  {
  }

  lemma CleanAt(ps: seq<Party>, r: nat)
    requires Clean(ps) && r < |ps| && ps[r].Returned?
    ensures NoRepeats(ps[r].result)
  {
  }

  lemma NoLevelsLeft(m: nat)
    ensures IsLevelNum(m, 0) ==> m <= 1
  {
  }
}
