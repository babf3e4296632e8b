/** The collection logic of `Election`: vote totals per party, polling
    stations in a zip-code range, candidates grouped by party id, candidates
    whose names repeat, and the ranking of parties by votes. Parties,
    candidates, constituencies and polling stations are records exposing
    only the getters the election uses; every hash collection the election
    iterates is a sequence in its (arbitrary) iteration order. */
module Elections {
  import opened Wrappers
  import opened Ordering
  import opened Strings
  import opened Sums

  datatype Candidate = Candidate(fullName: string)

  datatype Party = Party(id: int, name: string, candidates: seq<Candidate>)

  datatype PollingStation = PollingStation(id: string, zipCode: string, votesByParty: map<Party, int>)

  datatype Constituency = Constituency(id: int, name: string, parties: seq<Party>,
                                       pollingStations: seq<PollingStation>, votesByParty: map<Party, int>)

  /** `integersSum(integers)`: `reduce(Integer::sum).orElse(0)`. */
  function IntegersSum(integers: seq<int>): (r: int)
    ensures integers == [] ==> r == 0
  {
    if integers == [] then 0 else IntegersSum(integers[..|integers| - 1]) + integers[|integers| - 1]
  }

  function Identity(x: int): int {
    x
  }

  lemma {:induction false} IntegersSumIsTotal(integers: seq<int>)
    ensures IntegersSum(integers) == Total(integers, Identity)
  {
    if integers != [] {
      IntegersSumIsTotal(integers[..|integers| - 1]);
    }
  }

  /** Summing two collections one after the other adds their sums. */
  lemma IntegersSumAppend(a: seq<int>, b: seq<int>)
    ensures IntegersSum(a + b) == IntegersSum(a) + IntegersSum(b)
  {
    IntegersSumIsTotal(a);
    IntegersSumIsTotal(b);
    IntegersSumIsTotal(a + b);
    TotalAppend(a, b, Identity);
  }

  /** The sum does not depend on the iteration order of the collection. */
  lemma IntegersSumPermutation(a: seq<int>, b: seq<int>)
    requires multiset(a) == multiset(b)
    ensures IntegersSum(a) == IntegersSum(b)
  {
    IntegersSumIsTotal(a);
    IntegersSumIsTotal(b);
    TotalPermutation(a, b, Identity);
  }

  /** `votes.getOrDefault(party, 0)`. */
  function VoteCount(votes: map<Party, int>, p: Party): int {
    if p in votes then votes[p] else 0
  }

  /** The votes of `p` over all the maps of `ms`. */
  function PartyVotes(ms: seq<map<Party, int>>, p: Party): int {
    if ms == [] then 0 else PartyVotes(ms[..|ms| - 1], p) + VoteCount(ms[|ms| - 1], p)
  }

  /** Adding one more map of votes to the running totals. */
  function AddVotes(totals: map<Party, int>, votes: map<Party, int>): map<Party, int> {
    map p | p in totals.Keys + votes.Keys :: VoteCount(totals, p) + VoteCount(votes, p)
  }

  /** `flatMap(entrySet).collect(groupingBy(key, summingInt(value)))` over
      the maps of `ms`. */
  function VotesByParty(ms: seq<map<Party, int>>): map<Party, int> {
    if ms == [] then map[] else AddVotes(VotesByParty(ms[..|ms| - 1]), ms[|ms| - 1])
  }

  /** The grouped sums hold exactly the parties that appear in some map, each
      with its total over all maps. */
  lemma {:induction false} VotesByPartySums(ms: seq<map<Party, int>>)
    ensures forall p :: p in VotesByParty(ms) <==> exists i :: 0 <= i < |ms| && p in ms[i]
    ensures forall p :: p in VotesByParty(ms) ==> VotesByParty(ms)[p] == PartyVotes(ms, p)
  {
    if ms != [] {
      var init := ms[..|ms| - 1];
      VotesByPartySums(init);
      forall p | p !in VotesByParty(init) ensures PartyVotes(init, p) == 0 {
        PartyVotesAbsent(init, p);
      }
      forall p ensures p in VotesByParty(ms) <==> exists i :: 0 <= i < |ms| && p in ms[i] {
        if p in VotesByParty(init) {
          var i :| 0 <= i < |init| && p in init[i];
          assert ms[i] == init[i];
        }
        if exists i :: 0 <= i < |ms| && p in ms[i] {
          var i :| 0 <= i < |ms| && p in ms[i];
          if i < |init| {
            assert init[i] == ms[i];
          }
        }
      }
    }
  }

  /** A party that appears in none of the maps has no votes. */
  lemma {:induction false} PartyVotesAbsent(ms: seq<map<Party, int>>, p: Party)
    requires forall i :: 0 <= i < |ms| ==> p !in ms[i]
    ensures PartyVotes(ms, p) == 0
  {
    if ms != [] {
      var init := ms[..|ms| - 1];
      assert forall i :: 0 <= i < |init| ==> init[i] == ms[i];
      PartyVotesAbsent(init, p);
    }
  }

  /** The vote maps of the polling stations, in order. Stations and
      constituencies are different records that both expose
      `getVotesByParty()`, so each has its own projection. */
  function StationVotes(stations: seq<PollingStation>): (ms: seq<map<Party, int>>)
    ensures |ms| == |stations| && forall i :: 0 <= i < |ms| ==> ms[i] == stations[i].votesByParty
  {
    seq(|stations|, i requires 0 <= i < |stations| => stations[i].votesByParty)
  }

  /** The vote maps of the constituencies, in order. */
  function ConstituencyVotes(cs: seq<Constituency>): (ms: seq<map<Party, int>>)
    ensures |ms| == |cs| && forall i :: 0 <= i < |ms| ==> ms[i] == cs[i].votesByParty
  {
    seq(|cs|, i requires 0 <= i < |cs| => cs[i].votesByParty)
  }

  /** `getVotesByPartyAcrossPollingStations(pollingStations)`: every party
      with an entry at one of the stations, with the sum of its votes there;
      a party with no entry at any station is absent. */
  function GetVotesByPartyAcrossPollingStations(pollingStations: seq<PollingStation>): (r: map<Party, int>)
    ensures forall p :: p in r <==> exists i :: 0 <= i < |pollingStations| && p in pollingStations[i].votesByParty
    ensures forall p :: p in r ==> r[p] == PartyVotes(StationVotes(pollingStations), p)
  {
    VotesByPartySums(StationVotes(pollingStations));
    VotesByParty(StationVotes(pollingStations))
  }

  /** `zipCode.compareTo(firstZipCode) >= 0 && zipCode.compareTo(lastZipCode) <= 0`. */
  predicate InZipRange(zipCode: string, firstZipCode: string, lastZipCode: string) {
    CompareStrings(zipCode, firstZipCode) >= 0 && CompareStrings(zipCode, lastZipCode) <= 0
  }

  /** The polling stations of all constituencies, constituency by
      constituency. */
  function AllPollingStations(cs: seq<Constituency>): seq<PollingStation> {
    if cs == [] then [] else AllPollingStations(cs[..|cs| - 1]) + cs[|cs| - 1].pollingStations
  }

  /** The stations of `s` whose zip code lies in the range, in order. */
  function FilterByZipCode(s: seq<PollingStation>, firstZipCode: string, lastZipCode: string): (r: seq<PollingStation>)
    ensures |r| <= |s|
    ensures forall x :: x in r <==> x in s && InZipRange(x.zipCode, firstZipCode, lastZipCode)
    ensures forall x :: multiset(r)[x] == if InZipRange(x.zipCode, firstZipCode, lastZipCode) then multiset(s)[x] else 0
  {
    if s == [] then []
    else
      var rest := FilterByZipCode(s[..|s| - 1], firstZipCode, lastZipCode);
      assert s == s[..|s| - 1] + [s[|s| - 1]];
      assert multiset(s) == multiset(s[..|s| - 1]) + multiset{s[|s| - 1]};
      if InZipRange(s[|s| - 1].zipCode, firstZipCode, lastZipCode) then rest + [s[|s| - 1]] else rest
  }

  /** No zip code lies in a range whose first code comes after its last. */
  lemma EmptyZipRange(zipCode: string, firstZipCode: string, lastZipCode: string)
    requires CompareStrings(firstZipCode, lastZipCode) > 0
    ensures !InZipRange(zipCode, firstZipCode, lastZipCode)
  {
    if InZipRange(zipCode, firstZipCode, lastZipCode) {
      CompareStringsAntisymmetric(zipCode, firstZipCode);
      CompareStringsTransitive(firstZipCode, zipCode, lastZipCode);
    }
  }

  /** The vote count of a `(party, votes)` entry. */
  function EntryVotes(e: (Party, int)): int {
    e.1
  }

  /** The entries of `votesCounts` in the iteration order `order`. */
  function Entries(votesCounts: map<Party, int>, order: seq<Party>): (r: seq<(Party, int)>)
    requires forall i :: 0 <= i < |order| ==> order[i] in votesCounts
    ensures |r| == |order|
    ensures forall e :: e in r ==> e.0 in votesCounts && e.1 == votesCounts[e.0]
  {
    seq(|order|, i requires 0 <= i < |order| => (order[i], votesCounts[order[i]]))
  }

  /** The ordering and limit of `sortedElectionResultsByPartyPercentage(tops,
      votesCounts)`, the map's entries arriving in the iteration order
      `order`: sorted by decreasing votes (stably), cut to `tops` entries;
      `limit` rejects a negative `tops`. */
  function RankedVoteCounts(tops: int, votesCounts: map<Party, int>, order: seq<Party>)
    : (r: Outcome<seq<(Party, int)>, JavaException>)
    requires |order| == |votesCounts| && forall p :: p in order <==> p in votesCounts
    ensures r.Thrown? <==> tops < 0
    ensures r.Thrown? ==> r.error == IllegalArgument
    ensures r.Ok? ==> |r.result| == (if tops < |votesCounts| then tops else |votesCounts|)
    ensures r.Ok? ==> forall i :: 0 <= i < |r.result| ==>
                        r.result[i].0 in votesCounts && r.result[i].1 == votesCounts[r.result[i].0]
    ensures r.Ok? ==> IsTopList(Entries(votesCounts, order), EntryVotes, tops, r.result,
                                ExcludedByKey(Entries(votesCounts, order), EntryVotes, tops))
  {
    if tops < 0 then Thrown(IllegalArgument)
    else
      var entries := Entries(votesCounts, order);
      TopByKeyIsTopList(entries, EntryVotes, tops);
      var top := TopByKey(entries, EntryVotes, tops);
      assert forall i :: 0 <= i < |top| ==> top[i] in multiset(entries);
      Ok(top)
  }

  /** A Java `double` quotient: a finite value, here exact, or one of the
      IEEE 754 results of a division by zero. */
  datatype Percentage = Finite(value: real) | NaN | PositiveInfinity | NegativeInfinity

  /** `100.0 * votes / totalVotes` in floating point: the share of `votes`
      in `totalVotes`, as a percentage; dividing by a zero total gives NaN
      for no votes and an infinity of the sign of the votes otherwise. */
  function VotesPercentage(votes: int, totalVotes: int): (p: Percentage)
    ensures p.Finite? <==> totalVotes != 0
    ensures p.Finite? ==> p.value * totalVotes as real == 100.0 * votes as real
    ensures p.NaN? <==> totalVotes == 0 && votes == 0
    ensures p.PositiveInfinity? <==> totalVotes == 0 && votes > 0
  {
    if totalVotes != 0 then Finite(100.0 * votes as real / totalVotes as real)
    else if votes == 0 then NaN
    else if votes > 0 then PositiveInfinity
    else NegativeInfinity
  }

  /** A larger vote count has the larger share of the same positive total. */
  lemma PercentageMonotone(a: int, b: int, totalVotes: int)
    requires totalVotes > 0 && a >= b
    ensures VotesPercentage(a, totalVotes).value >= VotesPercentage(b, totalVotes).value
  {
    var t := totalVotes as real;
    var x := VotesPercentage(a, totalVotes).value;
    var y := VotesPercentage(b, totalVotes).value;
    assert (x - y) * t == 100.0 * (a - b) as real;
    if x < y {
      assert (y - x) * t > 0.0;
    }
  }

  /** A count between nothing and the whole positive total has a share
      between 0 and 100 percent. */
  lemma PercentageBounded(votes: int, totalVotes: int)
    requires 0 <= votes <= totalVotes && totalVotes > 0
    ensures 0.0 <= VotesPercentage(votes, totalVotes).value <= 100.0
  {
    PercentageMonotone(votes, 0, totalVotes);
    PercentageMonotone(totalVotes, votes, totalVotes);
    assert VotesPercentage(totalVotes, totalVotes).value == 100.0;
  }

  /** `totalVotes`: the sum of the map's vote counts. */
  function TotalVotes(votesCounts: map<Party, int>, order: seq<Party>): int
    requires forall i :: 0 <= i < |order| ==> order[i] in votesCounts
  {
    Total(Entries(votesCounts, order), EntryVotes)
  }

  /** `sortedElectionResultsByPartyPercentage(tops, votesCounts)`: the
      ranked entries, each vote count replaced by its percentage of all the
      votes in the map. */
  function SortedElectionResultsByPartyPercentage(tops: int, votesCounts: map<Party, int>, order: seq<Party>)
    : (r: Outcome<seq<(Party, Percentage)>, JavaException>)
    requires |order| == |votesCounts| && forall p :: p in order <==> p in votesCounts
    ensures r.Thrown? <==> tops < 0
    ensures r.Thrown? ==> r.error == IllegalArgument
    ensures r.Ok? ==>
              var ranked := RankedVoteCounts(tops, votesCounts, order);
              && ranked.Ok? && |r.result| == |ranked.result|
              && forall i :: 0 <= i < |r.result| ==>
                   r.result[i] == (ranked.result[i].0,
                                   VotesPercentage(ranked.result[i].1, TotalVotes(votesCounts, order)))
  {
    match RankedVoteCounts(tops, votesCounts, order)
    case Thrown(e) => Thrown(e)
    case Ok(ranked) =>
      var totalVotes := TotalVotes(votesCounts, order);
      Ok(seq(|ranked|, i requires 0 <= i < |ranked| => (ranked[i].0, VotesPercentage(ranked[i].1, totalVotes))))
  }

  /** With a positive total, the percentages come in non-increasing order,
      as the ranking promises. */
  lemma PercentagesNonIncreasing(tops: int, votesCounts: map<Party, int>, order: seq<Party>)
    requires |order| == |votesCounts| && forall p :: p in order <==> p in votesCounts
    requires TotalVotes(votesCounts, order) > 0
    ensures var r := SortedElectionResultsByPartyPercentage(tops, votesCounts, order);
            r.Ok? ==> forall i, j :: 0 <= i < j < |r.result| ==>
                        r.result[i].1.Finite? && r.result[i].1.value >= r.result[j].1.value
  {
    var r := SortedElectionResultsByPartyPercentage(tops, votesCounts, order);
    if r.Ok? {
      var ranked := RankedVoteCounts(tops, votesCounts, order).result;
      forall i, j | 0 <= i < j < |r.result|
        ensures r.result[i].1.Finite? && r.result[i].1.value >= r.result[j].1.value
      {
        assert EntryVotes(ranked[i]) >= EntryVotes(ranked[j]);
        PercentageMonotone(ranked[i].1, ranked[j].1, TotalVotes(votesCounts, order));
      }
    }
  }

  /** With no negative vote count and some votes cast, every percentage lies
      between 0 and 100. */
  lemma PercentagesBounded(tops: int, votesCounts: map<Party, int>, order: seq<Party>)
    requires |order| == |votesCounts| && forall p :: p in order <==> p in votesCounts
    requires forall p :: p in votesCounts ==> votesCounts[p] >= 0
    requires TotalVotes(votesCounts, order) > 0
    ensures var r := SortedElectionResultsByPartyPercentage(tops, votesCounts, order);
            r.Ok? ==> forall i :: 0 <= i < |r.result| ==>
                        r.result[i].1.Finite? && 0.0 <= r.result[i].1.value <= 100.0
  {
    var r := SortedElectionResultsByPartyPercentage(tops, votesCounts, order);
    if r.Ok? {
      var ranked := RankedVoteCounts(tops, votesCounts, order).result;
      var entries := Entries(votesCounts, order);
      var total := TotalVotes(votesCounts, order);
      forall i | 0 <= i < |r.result|
        ensures r.result[i].1.Finite? && 0.0 <= r.result[i].1.value <= 100.0
      {
        var p := ranked[i].0;
        var k :| 0 <= k < |order| && order[k] == p;
        assert entries[k] == (p, votesCounts[p]);
        TotalAtLeastTerm(entries, k, EntryVotes);
        PercentageBounded(ranked[i].1, total);
      }
    }
  }

  /** `computeIfAbsent(id, new HashSet).add(c)` for every candidate `c` of
      `cands`, in one step. */
  function WithCandidates(m: map<int, set<Candidate>>, id: int, cands: seq<Candidate>): map<int, set<Candidate>> {
    if cands == [] then m else m[id := Group(m, id) + (set c | c in cands)]
  }

  function Group(m: map<int, set<Candidate>>, id: int): set<Candidate> {
    if id in m then m[id] else {}
  }

  /** The map after the candidates of the parties `ps`. */
  function FoldParties(m: map<int, set<Candidate>>, ps: seq<Party>): map<int, set<Candidate>> {
    if ps == [] then m
    else WithCandidates(FoldParties(m, ps[..|ps| - 1]), ps[|ps| - 1].id, ps[|ps| - 1].candidates)
  }

  /** The map after the parties of the constituencies `cs`. */
  function FoldConstituencies(m: map<int, set<Candidate>>, cs: seq<Constituency>): map<int, set<Candidate>> {
    if cs == [] then m else FoldParties(FoldConstituencies(m, cs[..|cs| - 1]), cs[|cs| - 1].parties)
  }

  ghost predicate InGroup(m: map<int, set<Candidate>>, id: int, c: Candidate) {
    id in m && c in m[id]
  }

  /** `c` is a candidate of a party with id `id` among `ps`. */
  ghost predicate RegisteredIn(ps: seq<Party>, id: int, c: Candidate) {
    exists j :: 0 <= j < |ps| && ps[j].id == id && c in ps[j].candidates
  }

  /** `c` is a candidate of a party with id `id` in one of the
      constituencies `cs`. */
  ghost predicate Registered(cs: seq<Constituency>, id: int, c: Candidate) {
    exists i :: 0 <= i < |cs| && RegisteredIn(cs[i].parties, id, c)
  }

  lemma {:induction false} FoldPartiesGroups(m: map<int, set<Candidate>>, ps: seq<Party>, id: int, c: Candidate)
    ensures InGroup(FoldParties(m, ps), id, c) <==> InGroup(m, id, c) || RegisteredIn(ps, id, c)
  {
    if ps != [] {
      var init := ps[..|ps| - 1];
      var last := ps[|ps| - 1];
      FoldPartiesGroups(m, init, id, c);
      if RegisteredIn(ps, id, c) && !(last.id == id && c in last.candidates) {
        var j :| 0 <= j < |ps| && ps[j].id == id && c in ps[j].candidates;
        assert init[j] == ps[j];
      }
      if RegisteredIn(init, id, c) {
        var j :| 0 <= j < |init| && init[j].id == id && c in init[j].candidates;
        assert ps[j] == init[j];
      }
    }
  }

  lemma {:induction false} FoldConstituenciesGroups(m: map<int, set<Candidate>>, cs: seq<Constituency>, id: int, c: Candidate)
    ensures InGroup(FoldConstituencies(m, cs), id, c) <==> InGroup(m, id, c) || Registered(cs, id, c)
  {
    if cs != [] {
      var init := cs[..|cs| - 1];
      FoldConstituenciesGroups(m, init, id, c);
      FoldPartiesGroups(FoldConstituencies(m, init), cs[|cs| - 1].parties, id, c);
      if Registered(cs, id, c) && !RegisteredIn(cs[|cs| - 1].parties, id, c) {
        var i :| 0 <= i < |cs| && RegisteredIn(cs[i].parties, id, c);
        assert init[i] == cs[i];
      }
      if Registered(init, id, c) {
        var i :| 0 <= i < |init| && RegisteredIn(init[i].parties, id, c);
        assert cs[i] == init[i];
      }
    }
  }

  /** `r` lists the groups of `m` whose ids are in `done`, by increasing id,
      each candidate of a group once, `ids` naming the group of each. */
  ghost predicate Flattened(m: map<int, set<Candidate>>, done: set<int>, r: seq<Candidate>, ids: seq<int>) {
    && |ids| == |r|
    && (forall i :: 0 <= i < |r| ==> ids[i] in done && InGroup(m, ids[i], r[i]))
    && (forall i, j :: 0 <= i < j < |r| ==> ids[i] <= ids[j])
    && (forall i, j :: 0 <= i < j < |r| && ids[i] == ids[j] ==> r[i] != r[j])
    && (forall id, c :: id in done && InGroup(m, id, c) ==> exists i :: 0 <= i < |r| && ids[i] == id && r[i] == c)
  }

  /** The candidates of the set `group`, in the set's iteration order, added
      after `r` with the group id `id`. */
  method AppendGroup(r: seq<Candidate>, ghost ids: seq<int>, id: int, group: set<Candidate>)
    returns (r': seq<Candidate>, ghost ids': seq<int>)
    requires |ids| == |r|
    ensures |ids'| == |r'| && |r| <= |r'|
    ensures r'[..|r|] == r && ids'[..|r|] == ids
    ensures forall i :: |r| <= i < |r'| ==> ids'[i] == id && r'[i] in group
    ensures forall i, j :: |r| <= i < j < |r'| ==> r'[i] != r'[j]
    ensures forall c :: c in group ==> exists i :: |r| <= i < |r'| && r'[i] == c
  {
    r', ids' := r, ids;
    var rest := group;
    while rest != {}
      invariant rest <= group
      invariant |ids'| == |r'| && |r| <= |r'|
      invariant r'[..|r|] == r && ids'[..|r|] == ids
      invariant forall i :: |r| <= i < |r'| ==> ids'[i] == id && r'[i] in group && r'[i] !in rest
      invariant forall i, j :: |r| <= i < j < |r'| ==> r'[i] != r'[j]
      invariant forall c :: c in group && c !in rest ==> exists i :: |r| <= i < |r'| && r'[i] == c
      decreases |rest|
    {
      var c :| c in rest;
      ghost var prev := r';
      r', ids' := r' + [c], ids' + [id];
      rest := rest - {c};
      forall c' | c' in group && c' !in rest ensures exists i :: |r| <= i < |r'| && r'[i] == c' {
        if c' == c {
          assert r'[|r'| - 1] == c;
        } else {
          var i :| |r| <= i < |prev| && prev[i] == c';
          assert r'[i] == c';
        }
      }
    }
  }

  /** `id` is the smallest of `ids`, the one a `TreeMap` visits first. */
  ghost predicate IsLeast(id: int, ids: set<int>) {
    id in ids && forall k :: k in ids ==> id <= k
  }

  /** A set of ids holding `x` has a smallest id. */
  lemma {:induction false} SmallestId(x: int, ids: set<int>) returns (k: int)
    requires x in ids
    ensures IsLeast(k, ids)
    decreases |ids|
  {
    if y :| y in ids && y < x {
      k := SmallestId(y, ids - {x});
      forall j | j in ids ensures k <= j {
        if j != x {
          assert j in ids - {x};
        }
      }
    } else {
      k := x;
    }
  }

  /** Adding the next group, whose id exceeds every id done so far, keeps the
      listing flattened. */
  lemma FlattenStep(m: map<int, set<Candidate>>, done: set<int>, r: seq<Candidate>, ids: seq<int>,
                    id: int, r': seq<Candidate>, ids': seq<int>)
    requires Flattened(m, done, r, ids) && id in m && forall d :: d in done ==> d < id
    requires |ids'| == |r'| && |r| <= |r'| && r'[..|r|] == r && ids'[..|r|] == ids
    requires forall i :: |r| <= i < |r'| ==> ids'[i] == id && r'[i] in m[id]
    requires forall i, j :: |r| <= i < j < |r'| ==> r'[i] != r'[j]
    requires forall c :: c in m[id] ==> exists i :: |r| <= i < |r'| && r'[i] == c
    ensures Flattened(m, done + {id}, r', ids')
  {
    forall i | 0 <= i < |r| ensures r'[i] == r[i] && ids'[i] == ids[i] {
      assert r'[..|r|][i] == r'[i] && ids'[..|r|][i] == ids'[i];
    }
    forall d, c | d in done + {id} && InGroup(m, d, c) ensures exists i :: 0 <= i < |r'| && ids'[i] == d && r'[i] == c {
      if d in done {
        var i :| 0 <= i < |r| && ids[i] == d && r[i] == c;
        assert ids'[i] == d && r'[i] == c;
      }
    }
  }

  /** `candidatesByPartyId.values().stream().flatMap(Set::stream)`: the
      groups by increasing party id, each in its set's iteration order. */
  method FlattenGroups(m: map<int, set<Candidate>>) returns (r: seq<Candidate>, ghost ids: seq<int>)
    ensures Flattened(m, m.Keys, r, ids)
  {
    r, ids := [], [];
    var remaining := m.Keys;
    while remaining != {}
      invariant remaining <= m.Keys
      invariant Flattened(m, m.Keys - remaining, r, ids)
      invariant forall d, k :: d in m.Keys - remaining && k in remaining ==> d < k
      decreases |remaining|
    {
      assert exists k :: k in remaining by {
        if forall k :: k !in remaining {
          assert false;
        }
      }
      ghost var some :| some in remaining;
      ghost var least := SmallestId(some, remaining);
      var id :| id in remaining && forall k :: k in remaining ==> id <= k;
      var r', ids' := AppendGroup(r, ids, id, m[id]);
      FlattenStep(m, m.Keys - remaining, r, ids, id, r', ids');
      assert (m.Keys - remaining) + {id} == m.Keys - (remaining - {id});
      r, ids := r', ids';
      remaining := remaining - {id};
    }
  }

  /** The inner loop of `getAllCandidates` for one party. */
  method AddPartyCandidates(m: map<int, set<Candidate>>, party: Party) returns (m': map<int, set<Candidate>>)
    ensures m' == WithCandidates(m, party.id, party.candidates)
  {
    m' := m;
    var cands := party.candidates;
    var i := 0;
    while i < |cands|
      invariant 0 <= i <= |cands|
      invariant m' == WithCandidates(m, party.id, cands[..i])
    {
      var candidate := cands[i];
      var partyId := party.id;
      WithCandidatesStep(m, partyId, cands, i);
      m' := m'[partyId := Group(m', partyId) + {candidate}];
      i := i + 1;
    }
    assert cands[..i] == cands;
  }

  lemma WithCandidatesStep(m: map<int, set<Candidate>>, id: int, cands: seq<Candidate>, i: int)
    requires 0 <= i < |cands|
    ensures WithCandidates(m, id, cands[..i + 1]) ==
              WithCandidates(m, id, cands[..i])[id := Group(WithCandidates(m, id, cands[..i]), id) + {cands[i]}]
  {
    var p, q := cands[..i], cands[..i + 1];
    assert q == p + [cands[i]] && q != [];
    assert (set c | c in q) == (set c | c in p) + {cands[i]};
    if p == [] {
      assert (set c | c in q) == {cands[i]};
      assert WithCandidates(m, id, p) == m;
    } else {
      var w := WithCandidates(m, id, p);
      assert w == m[id := Group(m, id) + (set c | c in p)];
      assert Group(w, id) == Group(m, id) + (set c | c in p);
      var x := Group(m, id) + (set c | c in q);
      assert Group(w, id) + {cands[i]} == x;
      assert w[id := x].Keys == m[id := x].Keys;
      assert w[id := x] == m[id := x];
    }
  }

  /** The middle loop of `getAllCandidates` for one constituency. */
  method AddConstituencyCandidates(m: map<int, set<Candidate>>, constituency: Constituency)
    returns (m': map<int, set<Candidate>>)
    ensures m' == FoldParties(m, constituency.parties)
  {
    m' := m;
    var ps := constituency.parties;
    var j := 0;
    while j < |ps|
      invariant 0 <= j <= |ps|
      invariant m' == FoldParties(m, ps[..j])
    {
      assert ps[..j + 1][..j] == ps[..j];
      m' := AddPartyCandidates(m', ps[j]);
      j := j + 1;
    }
    assert ps[..j] == ps;
  }

  /** The state of the duplicate-name scan: the trimmed full names seen so
      far and the candidates found to repeat one of them. */
  datatype NameScan = NameScan(seenNames: set<string>, duplicates: set<Candidate>)

  /** One candidate of `getCandidatesWithDuplicateNames`: a trimmed name seen
      before makes the candidate a duplicate, a new one is remembered. */
  function ScanCandidate(st: NameScan, c: Candidate): NameScan {
    var fullName := Trim(c.fullName);
    if fullName in st.seenNames then st.(duplicates := st.duplicates + {c})
    else st.(seenNames := st.seenNames + {fullName})
  }

  function Scan(st: NameScan, v: seq<Candidate>): NameScan {
    if v == [] then st else ScanCandidate(Scan(st, v[..|v| - 1]), v[|v| - 1])
  }

  lemma {:induction false} ScanConcat(st: NameScan, a: seq<Candidate>, b: seq<Candidate>)
    ensures Scan(st, a + b) == Scan(Scan(st, a), b)
  {
    if b == [] {
      assert a + b == a;
    } else {
      ScanConcat(st, a, b[..|b| - 1]);
      assert (a + b)[..|a + b| - 1] == a + b[..|b| - 1];
    }
  }

  /** The candidates of the parties `ps`, party by party. */
  function PartyVisits(ps: seq<Party>): seq<Candidate> {
    if ps == [] then [] else PartyVisits(ps[..|ps| - 1]) + ps[|ps| - 1].candidates
  }

  /** The order in which the nested loops visit candidates. */
  function Visits(cs: seq<Constituency>): seq<Candidate> {
    if cs == [] then [] else Visits(cs[..|cs| - 1]) + PartyVisits(cs[|cs| - 1].parties)
  }

  /** An earlier visit than the `i`-th carries the same trimmed name. */
  ghost predicate HasEarlierNamesake(v: seq<Candidate>, i: int)
    requires 0 <= i < |v|
  {
    exists j :: 0 <= j < i && Trim(v[j].fullName) == Trim(v[i].fullName)
  }

  /** `c` is visited at some point after a candidate with the same trimmed
      name. */
  ghost predicate DuplicateVisit(v: seq<Candidate>, c: Candidate) {
    exists i :: 0 <= i < |v| && v[i] == c && HasEarlierNamesake(v, i)
  }

  /** The trimmed names of the candidates of `v`. */
  function NamesOf(v: seq<Candidate>): set<string> {
    if v == [] then {} else NamesOf(v[..|v| - 1]) + {Trim(v[|v| - 1].fullName)}
  }

  lemma {:induction false} NamesOfVisited(v: seq<Candidate>, n: string)
    ensures n in NamesOf(v) <==> exists j :: 0 <= j < |v| && Trim(v[j].fullName) == n
  {
    if v != [] {
      var init := v[..|v| - 1];
      NamesOfVisited(init, n);
      if exists j :: 0 <= j < |init| && Trim(init[j].fullName) == n {
        var j :| 0 <= j < |init| && Trim(init[j].fullName) == n;
        assert v[j] == init[j];
      }
      if exists j :: 0 <= j < |v| - 1 && Trim(v[j].fullName) == n {
        var j :| 0 <= j < |v| - 1 && Trim(v[j].fullName) == n;
        assert init[j] == v[j];
      }
    }
  }

  lemma {:induction false} ScanSeenNames(v: seq<Candidate>)
    ensures Scan(NameScan({}, {}), v).seenNames == NamesOf(v)
  {
    if v != [] {
      ScanSeenNames(v[..|v| - 1]);
    }
  }

  lemma EarlierNamesakeInPrefix(v: seq<Candidate>, i: int)
    requires 0 <= i < |v|
    ensures HasEarlierNamesake(v, i) <==> Trim(v[i].fullName) in NamesOf(v[..i])
  {
    NamesOfVisited(v[..i], Trim(v[i].fullName));
    assert forall j :: 0 <= j < i ==> v[..i][j] == v[j];
  }

  /** Dropping the last visit does not change who came before the `i`-th. */
  lemma NamesakeInInit(v: seq<Candidate>, i: int)
    requires 0 <= i < |v| - 1
    ensures HasEarlierNamesake(v, i) <==> HasEarlierNamesake(v[..|v| - 1], i)
  {
    var init := v[..|v| - 1];
    assert forall j :: 0 <= j <= i ==> init[j] == v[j];
  }

  /** A duplicate visit of `v + [x]` is one of `v` or the visit of `x`. */
  lemma DuplicateVisitSnoc(v: seq<Candidate>, c: Candidate)
    requires v != []
    ensures DuplicateVisit(v, c) <==>
              DuplicateVisit(v[..|v| - 1], c) || (c == v[|v| - 1] && HasEarlierNamesake(v, |v| - 1))
  {
    var init := v[..|v| - 1];
    if DuplicateVisit(v, c) {
      var i :| 0 <= i < |v| && v[i] == c && HasEarlierNamesake(v, i);
      if i < |init| {
        NamesakeInInit(v, i);
        assert init[i] == c;
      }
    }
    if DuplicateVisit(init, c) {
      var i :| 0 <= i < |init| && init[i] == c && HasEarlierNamesake(init, i);
      NamesakeInInit(v, i);
      assert v[i] == c;
    }
  }

  /** Scanning from nothing reports exactly the candidates visited after a
      namesake. */
  lemma {:induction false} ScanDuplicates(v: seq<Candidate>, c: Candidate)
    ensures c in Scan(NameScan({}, {}), v).duplicates <==> DuplicateVisit(v, c)
  {
    if v != [] {
      var init := v[..|v| - 1];
      ScanDuplicates(init, c);
      ScanSeenNames(init);
      EarlierNamesakeInPrefix(v, |v| - 1);
      DuplicateVisitSnoc(v, c);
    }
  }

  /** The first visit of a name never counts as a duplicate, and any later
      visit of the same name does. */
  lemma DuplicateNames(v: seq<Candidate>, i: int, j: int)
    requires 0 <= i < j < |v| && Trim(v[i].fullName) == Trim(v[j].fullName)
    requires forall k :: 0 <= k < i ==> Trim(v[k].fullName) != Trim(v[i].fullName)
    requires forall k :: 0 <= k < |v| && k != i ==> v[k] != v[i]
    ensures v[j] in Scan(NameScan({}, {}), v).duplicates
    ensures v[i] !in Scan(NameScan({}, {}), v).duplicates
  {
    ScanDuplicates(v, v[j]);
    ScanDuplicates(v, v[i]);
    assert HasEarlierNamesake(v, j);
  }

  /** The innermost loop of `getCandidatesWithDuplicateNames`. */
  method ScanPartyCandidates(st: NameScan, party: Party) returns (st': NameScan)
    ensures st' == Scan(st, party.candidates)
  {
    var seenNames, candidatesWithDuplicateNames := st.seenNames, st.duplicates;
    var cands := party.candidates;
    var i := 0;
    while i < |cands|
      invariant 0 <= i <= |cands|
      invariant NameScan(seenNames, candidatesWithDuplicateNames) == Scan(st, cands[..i])
    {
      assert cands[..i + 1][..i] == cands[..i];
      var candidate := cands[i];
      var fullName := Trim(candidate.fullName);
      if fullName in seenNames {
        candidatesWithDuplicateNames := candidatesWithDuplicateNames + {candidate};
      } else {
        seenNames := seenNames + {fullName};
      }
      i := i + 1;
    }
    assert cands[..i] == cands;
    st' := NameScan(seenNames, candidatesWithDuplicateNames);
  }

  /** The middle loop of `getCandidatesWithDuplicateNames`. */
  method ScanConstituency(st: NameScan, constituency: Constituency) returns (st': NameScan)
    ensures st' == Scan(st, PartyVisits(constituency.parties))
  {
    st' := st;
    var ps := constituency.parties;
    var j := 0;
    while j < |ps|
      invariant 0 <= j <= |ps|
      invariant st' == Scan(st, PartyVisits(ps[..j]))
    {
      assert ps[..j + 1][..j] == ps[..j];
      ScanConcat(st, PartyVisits(ps[..j]), ps[j].candidates);
      st' := ScanPartyCandidates(st', ps[j]);
      j := j + 1;
    }
    assert ps[..j] == ps;
  }

  /** An election as imported: its parties by id and its constituencies in
      the iteration order of their set. */
  datatype Election = Election(name: string, parties: map<int, Party>, constituencies: seq<Constituency>)
  {
    /** `getParty(id)`: the registered party, or null. */
    function GetParty(id: int): (r: Option<Party>)
      ensures r.Some? <==> id in parties
      ensures r.Some? ==> r.value == parties[id]
    {
      if id in parties then Some(parties[id]) else None
    }

    /** `getAllCandidates()`: the candidates of every party of every
        constituency, grouped by strictly increasing party id (a
        `TreeMap`), each candidate once within its party's group (a
        `HashSet`); `partyIds` names the group of each. */
    method GetAllCandidates() returns (r: seq<Candidate>, ghost partyIds: seq<int>)
      ensures |partyIds| == |r|
      ensures forall i, j :: 0 <= i < j < |r| ==> partyIds[i] <= partyIds[j]
      ensures forall i, j :: 0 <= i < j < |r| && partyIds[i] == partyIds[j] ==> r[i] != r[j]
      ensures forall i :: 0 <= i < |r| ==> Registered(constituencies, partyIds[i], r[i])
      ensures forall id, c :: Registered(constituencies, id, c) ==>
                exists i :: 0 <= i < |r| && partyIds[i] == id && r[i] == c
    {
      var candidatesByPartyId: map<int, set<Candidate>> := map[];
      var cs := constituencies;
      var k := 0;
      while k < |cs|
        invariant 0 <= k <= |cs|
        invariant candidatesByPartyId == FoldConstituencies(map[], cs[..k])
      {
        assert cs[..k + 1][..k] == cs[..k];
        candidatesByPartyId := AddConstituencyCandidates(candidatesByPartyId, cs[k]);
        k := k + 1;
      }
      assert cs[..k] == cs;
      r, partyIds := FlattenGroups(candidatesByPartyId);
      forall id, c ensures InGroup(candidatesByPartyId, id, c) <==> Registered(constituencies, id, c) {
        FoldConstituenciesGroups(map[], constituencies, id, c);
      }
    }

    /** `getCandidatesWithDuplicateNames()`: the candidates visited after a
        candidate with the same trimmed full name, in the order of the
        nested loops over constituencies, parties and candidates. */
    method GetCandidatesWithDuplicateNames() returns (r: set<Candidate>)
      ensures forall c :: c in r <==> DuplicateVisit(Visits(constituencies), c)
    {
      var st := NameScan({}, {});
      var cs := constituencies;
      var k := 0;
      while k < |cs|
        invariant 0 <= k <= |cs|
        invariant st == Scan(NameScan({}, {}), Visits(cs[..k]))
      {
        assert cs[..k + 1][..k] == cs[..k];
        ScanConcat(NameScan({}, {}), Visits(cs[..k]), PartyVisits(cs[k].parties));
        st := ScanConstituency(st, cs[k]);
        k := k + 1;
      }
      assert cs[..k] == cs;
      r := st.duplicates;
      forall c ensures c in r <==> DuplicateVisit(Visits(constituencies), c) {
        ScanDuplicates(Visits(constituencies), c);
      }
    }

    /** `getPollingStationsByZipCodeRange(firstZipCode, lastZipCode)`: the
        stations of all constituencies whose zip code lies between the two,
        in string order. */
    function GetPollingStationsByZipCodeRange(firstZipCode: string, lastZipCode: string): (r: seq<PollingStation>)
      ensures forall x :: x in r <==> x in AllPollingStations(constituencies) && InZipRange(x.zipCode, firstZipCode, lastZipCode)
    {
      FilterByZipCode(AllPollingStations(constituencies), firstZipCode, lastZipCode)
    }

    /** `getVotesByParty()`: every party with an entry in a constituency's
        votes, with its sum over the constituencies. */
    function GetVotesByParty(): (r: map<Party, int>)
      ensures forall p :: p in r <==> exists i :: 0 <= i < |constituencies| && p in constituencies[i].votesByParty
      ensures forall p :: p in r ==> r[p] == PartyVotes(ConstituencyVotes(constituencies), p)
    {
      VotesByPartySums(ConstituencyVotes(constituencies));
      VotesByParty(ConstituencyVotes(constituencies))
    }
  }

  /** A range whose first zip code comes after its last holds no station. */
  lemma ZipRangeReversed(e: Election, firstZipCode: string, lastZipCode: string)
    requires CompareStrings(firstZipCode, lastZipCode) > 0
    ensures e.GetPollingStationsByZipCodeRange(firstZipCode, lastZipCode) == []
  {
    var r := e.GetPollingStationsByZipCodeRange(firstZipCode, lastZipCode);
    if r != [] {
      assert r[0] in r;
      EmptyZipRange(r[0].zipCode, firstZipCode, lastZipCode);
    }
  }
}
