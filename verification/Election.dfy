/** Electing the active endpoint (resolver/endpoint/manager.go). */
module Election {
  import opened Wire
  import opened ActiveEndpoints

  const SECOND := 1_000_000_000
  const MIN_TEST_INTERVAL_FAILED := 10 * SECOND
  const DEFAULT_MIN_TEST_INTERVAL := 7200 * SECOND

  /** What testing an endpoint finds, and what asking a provider for its endpoints finds. */
  datatype Probe = Healthy | Unhealthy | ProbeUnreachable
  datatype Candidate = Candidate(endpoint: Endpoint, probe: Probe)
  datatype Answered<+T> = Listed(candidates: T) | Broken | ProviderUnreachable
  type Listing = Answered<seq<Candidate>>

  /** An election as one sequence: candidates in provider-then-list order, and where the network was unreachable. */
  datatype Item = Tried(candidate: Candidate) | Unreachable

  function Items(l: Listing): seq<Item> {
    match l
    case Listed(cs) => seq(|cs|, i requires 0 <= i < |cs| => Tried(cs[i]))
    case Broken => []
    case ProviderUnreachable => [Unreachable]
  }

  function AllItems(listings: seq<Listing>): seq<Item>
    decreases |listings|
  {
    if listings == [] then [] else AllItems(listings[..|listings| - 1]) + Items(listings[|listings| - 1])
  }

  predicate Stops(i: Item) {
    i.Unreachable? || i.candidate.probe == ProbeUnreachable
  }

  predicate Passed(i: Item) {
    i.Tried? && i.candidate.probe == Unhealthy
  }

  /** Everything in front of `k` was tried and found unhealthy. */
  ghost predicate AllPassed(items: seq<Item>, k: nat) {
    k <= |items| && forall i :: 0 <= i < k ==> Passed(items[i])
  }

  datatype Result = NetworkUnreachable | Best(endpoint: Endpoint) | Fallback(endpoint: Endpoint)

  /** The first healthy endpoint; without one the first endpoint, unless the network turns out unreachable before. */
  ghost predicate Elects(items: seq<Item>, r: Result) {
    match r
    case NetworkUnreachable => exists k :: 0 <= k < |items| && AllPassed(items, k) && Stops(items[k])
    case Best(e) => exists k :: 0 <= k < |items| && AllPassed(items, k) && items[k] == Tried(Candidate(e, Healthy))
    case Fallback(e) => items != [] && AllPassed(items, |items|) && items[0] == Tried(Candidate(e, Unhealthy))
  }

  /** An election has one result. */
  lemma OneResult(items: seq<Item>, r: Result, r': Result)
    requires Elects(items, r) && Elects(items, r')
    ensures r == r'
  {
    var k :| 0 <= k <= |items| && AllPassed(items, k) && (k < |items| ==> !Passed(items[k]))
             && (r.Fallback? <==> k == |items|);
    var k' :| 0 <= k' <= |items| && AllPassed(items, k') && (k' < |items| ==> !Passed(items[k']))
              && (r'.Fallback? <==> k' == |items|);
    assert k == k';
  }

  // ---------- The manager ----------

  /** No two neighbours are equal. */
  ghost predicate Changing(committed: seq<Endpoint>) {
    forall i {:trigger committed[i]} :: 0 < i < |committed| ==> !Equal(committed[i - 1], committed[i])
  }

  class Manager {
    const errorThreshold: uint32
    const minTestInterval: int
    const getMinTestInterval: Endpoint -> int

    var active: ActiveEndpoint?

    /** Every endpoint that became the active one, in order: what OnChange was called with, and the initial one. */
    ghost var committed: seq<Endpoint>

    ghost predicate Valid()
      reads this
    {
      && Changing(committed)
      && (if active == null then committed == [] else committed != [] && committed[|committed| - 1] == active.endpoint)
      && (active != null ==> Configured(active))
    }

    /** It recovers at the configured number of errors, or at the tenth. */
    ghost predicate Configured(ae: ActiveEndpoint) {
      ae.threshold == if errorThreshold == 0 then 10 else errorThreshold
    }

    constructor (errorThreshold: uint32, minTestInterval: int, getMinTestInterval: Endpoint -> int)
      ensures Valid() && active == null && committed == []
    {
      this.errorThreshold, this.minTestInterval := errorThreshold, minTestInterval;
      this.getMinTestInterval := getMinTestInterval;
      active, committed := null, [];
    }

    /** The interval of a new active endpoint: the first setting that is not zero. */
    function IntervalOf(e: Endpoint): int {
      if getMinTestInterval(e) != 0 then getMinTestInterval(e)
      else if minTestInterval != 0 then minTestInterval
      else DEFAULT_MIN_TEST_INTERVAL
    }

    /** The object for `e`: the active one with all its state, if that stands for an equal endpoint. */
    ghost predicate ObjectFor(ae: ActiveEndpoint, e: Endpoint)
      reads this
    {
      && (active != null && Equal(active.endpoint, e) ==> ae == active)
      && (active == null || !Equal(active.endpoint, e) ==> ae != active && ae.endpoint == e)
    }

    method NewActiveEndpoint(e: Endpoint, now: int) returns (ae: ActiveEndpoint)
      ensures ObjectFor(ae, e)
      ensures ae != active ==> fresh(ae) && ae.Now() == Active(now, IntervalOf(e), false, 0) && Configured(ae)
      ensures ae != active ==>
        ae.testInterval == if getMinTestInterval(e) != 0 then getMinTestInterval(e)
                           else if minTestInterval != 0 then minTestInterval else 7200_000_000_000
    {
      if active != null && Equal(active.endpoint, e) {
        return active;
      }
      ae := new ActiveEndpoint(e, errorThreshold, IntervalOf(e), now);
    }

    /** The candidates of one provider: the first one that is not unhealthy ends the election. */
    method TestCandidates(candidates: seq<Candidate>, first: Option<Endpoint>, now: int)
      returns (first': Option<Endpoint>, end: Option<Result>, ae: ActiveEndpoint?, ghost j: nat)
      ensures j <= |candidates| && AllPassed(Items(Listed(candidates)), j) && (end.None? <==> j == |candidates|)
      ensures end.Some? ==>
        match candidates[j].probe
        case Healthy => end.value == Best(candidates[j].endpoint) && ae != null && ObjectFor(ae, candidates[j].endpoint)
        case ProbeUnreachable => end.value == NetworkUnreachable && ae == null
        case Unhealthy => false
      ensures ae != null && end.Some? && ae != active ==>
        fresh(ae) && ae.Now() == Active(now, IntervalOf(end.value.endpoint), false, 0) && Configured(ae)
      ensures first' == if first.None? && candidates != [] then Some(candidates[0].endpoint) else first
    {
      first' := first;
      for i := 0 to |candidates|
        invariant AllPassed(Items(Listed(candidates)), i)
        invariant first' == if first.None? && i > 0 then Some(candidates[0].endpoint) else first
      {
        var c := candidates[i];
        if first'.None? {
          first' := Some(c.endpoint);
        }
        ae := NewActiveEndpoint(c.endpoint, now);
        if c.probe != Healthy {
          if c.probe == ProbeUnreachable {
            return first', Some(NetworkUnreachable), null, i;
          }
          continue;
        }
        return first', Some(Best(c.endpoint)), ae, i;
      }
      return first', None, null, |candidates|;
    }

    /** The election. Its losers leave no trace; the fallback gets the short interval, even if it is the active one. */
    method FindBestEndpoint(listings: seq<Listing>, now: int) returns (r: Result, ae: ActiveEndpoint?)
      requires AllItems(listings) != []
      modifies if active == null then {} else {active}
      ensures Elects(AllItems(listings), r)
      ensures r.NetworkUnreachable? <==> ae == null
      ensures ae != null ==> ObjectFor(ae, r.endpoint)
      ensures ae != null && ae != active ==>
        && fresh(ae) && ae.Now() == Active(now, if r.Fallback? then 10_000_000_000 else IntervalOf(r.endpoint), false, 0)
        && Configured(ae)
      ensures active != null ==>
        active.Now() == if r.Fallback? && ae == active then old(active.Now()).(testInterval := 10_000_000_000)
                        else old(active.Now())
    {
      var first: Option<Endpoint> := None;
      assert listings[..0] == [];
      for i := 0 to |listings|
        invariant active != null ==> active.Now() == old(active.Now())
        invariant PassedSoFar(AllItems(listings[..i]), first)
      {
        ghost var before := AllItems(listings[..i]);
        ItemsOneMore(listings, i);
        match listings[i] {
          case ProviderUnreachable =>
            EndsAt(listings, i, 0);
            return NetworkUnreachable, null;
          case Broken =>
          case Listed(candidates) =>
            var end;
            ghost var j;
            first, end, ae, j := TestCandidates(candidates, first, now);
            if end.Some? {
              ElectsAt(listings, i, candidates, j, end.value);
              return end.value, ae;
            }
            PassedMore(before, candidates, first);
        }
      }
      assert listings[..|listings|] == listings;
      ae := NewActiveEndpoint(first.value, now);
      ae.testInterval := MIN_TEST_INTERVAL_FAILED;
      return Fallback(first.value), ae;
    }

    /** With any number of callers of the active endpoint, in every interleaving from its first use on: the error that ends
        `streak` errors in a row starts a recovery test exactly if there are as many of them as configured, or ten. */
    lemma RecoveryAtThreshold(interval: int, lastTest: int, now: int, steps: seq<Step>, caller: nat, start: nat)
      requires Valid() && active != null && lastTest <= now
      requires Possible(Fresh(active.threshold, interval, lastTest, now), steps)
      requires var w := Run(Fresh(active.threshold, interval, lastTest, now), steps);
        && Enabled(w, Fail(caller)) && start <= |w.ends| && |w.ends| - start < 0xFFFF_FFFF
        && (start == 0 || w.ends[start - 1]) && forall k :: start <= k < |w.ends| ==> !w.ends[k]
      ensures var w := Run(Fresh(active.threshold, interval, lastTest, now), steps);
        var streak := |w.ends| + 1 - start;
        ActiveEndpoints.At(Apply(w, Fail(caller)), caller) == Recovering <==> streak == if errorThreshold == 0 then 10 else errorThreshold
    {
      var w := Run(Fresh(active.threshold, interval, lastTest, now), steps);
      EveryInterleaving(active.threshold, interval, lastTest, now, steps);
      ThresholdKept(Fresh(active.threshold, interval, lastTest, now), steps);
      FailTriggers(w, caller);
      var ends := w.ends + [false];
      StreakTriggersOnce(ends, active.threshold, start, |w.ends|);
    }

    /** An election, and its commitment: only an endpoint that is not equal to the active one replaces it. */
    method Test(listings: seq<Listing>, now: int) returns (r: Result)
      requires Valid() && AllItems(listings) != []
      modifies this`active, this`committed, if active == null then {} else {active}
      ensures Valid() && Elects(AllItems(listings), r)
      ensures if !r.NetworkUnreachable? && !(old(active) != null && Equal(old(active).endpoint, r.endpoint)) then
          active != null && fresh(active) && active.endpoint == r.endpoint && committed == old(committed) + [r.endpoint]
          && active.Now() == Active(now, if r.Fallback? then 10_000_000_000 else IntervalOf(r.endpoint), false, 0)
        else active == old(active) && committed == old(committed)
      ensures old(active) != null ==>
        old(active).Now() == if r.Fallback? && active == old(active) then old(active.Now()).(testInterval := 10_000_000_000)
                             else old(active.Now())
    {
      var ae;
      r, ae := FindBestEndpoint(listings, now);
      if ae == null {
        return;
      }
      // Only a new endpoint is announced.
      if active == null || !Equal(active.endpoint, ae.endpoint) {
        active := ae;
        committed := committed + [ae.endpoint];
      }
    }

    /** The active endpoint; the first call sets it, from the initial endpoint or by an election. */
    method GetActiveEndpoint(init: Option<Endpoint>, listings: seq<Listing>, now: int) returns (ae: ActiveEndpoint?)
      requires Valid() && AllItems(listings) != []
      modifies this`active, this`committed
      ensures Valid() && ae == active && (ae != null ==> Configured(ae))
      ensures old(active) != null ==> active == old(active) && committed == old(committed)
      ensures old(active) == null && init.Some? ==>
        active != null && active.Now() == Active(0, IntervalOf(init.value), false, 0) && committed == [init.value]
      ensures old(active) == null && init.None? ==>
        (active == null <==> Elects(AllItems(listings), NetworkUnreachable))
        && (active != null ==>
              exists r :: Elects(AllItems(listings), r) && !r.NetworkUnreachable? && committed == [r.endpoint]
                && active.Now() == Active(now, if r.Fallback? then 10_000_000_000 else IntervalOf(r.endpoint), false, 0))
    {
      if active != null {
        return active;
      }
      if init.Some? {
        // Zero time: the first query triggers a test.
        ae := NewActiveEndpoint(init.value, now);
        ae.lastTest := 0;
        active, committed := ae, [init.value];
        return;
      }
      var r := Test(listings, now);
      if Elects(AllItems(listings), NetworkUnreachable) {
        OneResult(AllItems(listings), r, NetworkUnreachable);
      }
      return active;
    }
  }

  /** Everything so far was unhealthy, and `first` is the first endpoint of it. */
  ghost predicate PassedSoFar(items: seq<Item>, first: Option<Endpoint>) {
    && AllPassed(items, |items|)
    && (if items == [] then first.None? else first.Some? && items[0] == Tried(Candidate(first.value, Unhealthy)))
  }

  lemma PassedMore(items: seq<Item>, candidates: seq<Candidate>, first: Option<Endpoint>)
    requires AllPassed(items, |items|) && AllPassed(Items(Listed(candidates)), |candidates|)
    requires items == [] ==> first == if candidates == [] then None else Some(candidates[0].endpoint)
    requires items != [] ==> PassedSoFar(items, first)
    ensures PassedSoFar(items + Items(Listed(candidates)), first)
  {
    var more := Items(Listed(candidates));
    if items == [] && candidates != [] {
      assert Passed(more[0]);
    }
  }

  lemma ItemsOneMore(listings: seq<Listing>, i: nat)
    requires i < |listings|
    ensures AllItems(listings[..i + 1]) == AllItems(listings[..i]) + Items(listings[i])
  {
    assert listings[..i + 1][..i] == listings[..i];
  }

  lemma {:induction false} ItemsPrefix(listings: seq<Listing>, i: nat)
    requires i <= |listings|
    ensures AllItems(listings[..i]) <= AllItems(listings)
    decreases |listings| - i
  {
    if i == |listings| {
      assert listings[..i] == listings;
    } else {
      ItemsOneMore(listings, i);
      ItemsPrefix(listings, i + 1);
    }
  }

  /** Item `j` of provider `i` ends the election if everything in front of it was passed and it was not. */
  lemma EndsAt(listings: seq<Listing>, i: nat, j: nat)
    requires i < |listings| && j < |Items(listings[i])|
    requires AllPassed(AllItems(listings[..i]), |AllItems(listings[..i])|) && AllPassed(Items(listings[i]), j)
    ensures var k := |AllItems(listings[..i])| + j;
      k < |AllItems(listings)| && AllPassed(AllItems(listings), k) && AllItems(listings)[k] == Items(listings[i])[j]
  {
    ItemsOneMore(listings, i);
    ItemsPrefix(listings, i + 1);
    PassedPrefix(AllItems(listings[..i]), Items(listings[i]), AllItems(listings), j);
  }

  /** The candidate that ends the election decides it. */
  lemma ElectsAt(listings: seq<Listing>, i: nat, candidates: seq<Candidate>, j: nat, r: Result)
    requires i < |listings| && listings[i] == Listed(candidates) && j < |candidates|
    requires AllPassed(AllItems(listings[..i]), |AllItems(listings[..i])|) && AllPassed(Items(listings[i]), j)
    requires match candidates[j].probe
      case Healthy => r == Best(candidates[j].endpoint)
      case ProbeUnreachable => r == NetworkUnreachable
      case Unhealthy => false
    ensures Elects(AllItems(listings), r)
  {
    EndsAt(listings, i, j);
  }

  lemma PassedPrefix(before: seq<Item>, here: seq<Item>, all: seq<Item>, j: nat)
    requires before + here <= all && j < |here| && AllPassed(before, |before|) && AllPassed(here, j)
    ensures AllPassed(all, |before| + j) && all[|before| + j] == here[j]
  {
    forall k | 0 <= k < |before| + j ensures Passed(all[k]) {
      assert all[k] == (before + here)[k];
    }
    assert all[|before| + j] == (before + here)[|before| + j];
  }

  // ---------- Who wins ----------

  /** The provider lists nobody but unhealthy endpoints, or nothing. */
  predicate Hopeless(l: Listing) {
    l.Broken? || (l.Listed? && forall j :: 0 <= j < |l.candidates| ==> l.candidates[j].probe == Unhealthy)
  }

  lemma {:induction false} HopelessPassed(listings: seq<Listing>, i: nat)
    requires i <= |listings| && forall k :: 0 <= k < i ==> Hopeless(listings[k])
    ensures AllPassed(AllItems(listings[..i]), |AllItems(listings[..i])|)
    decreases i
  {
    if i > 0 {
      HopelessPassed(listings, i - 1);
      ItemsOneMore(listings, i - 1);
    }
  }

  /** The first endpoint that is not unhealthy, in the first provider that is not hopeless, decides the election: it wins if it is
      healthy, and ends the election without a winner if it finds the network unreachable. */
  lemma FirstDecides(listings: seq<Listing>, i: nat, j: nat, r: Result)
    requires i < |listings| && (forall k :: 0 <= k < i ==> Hopeless(listings[k])) && listings[i].Listed?
    requires j < |listings[i].candidates| && forall k :: 0 <= k < j ==> listings[i].candidates[k].probe == Unhealthy
    requires listings[i].candidates[j].probe != Unhealthy && Elects(AllItems(listings), r)
    ensures r == if listings[i].candidates[j].probe == Healthy then Best(listings[i].candidates[j].endpoint) else NetworkUnreachable
  {
    var c := listings[i].candidates[j];
    var decided := if c.probe == Healthy then Best(c.endpoint) else NetworkUnreachable;
    HopelessPassed(listings, i);
    ElectsAt(listings, i, listings[i].candidates, j, decided);
    OneResult(AllItems(listings), r, decided);
  }

  /** So does a provider that finds the network unreachable. */
  lemma ProviderDecides(listings: seq<Listing>, i: nat, r: Result)
    requires i < |listings| && (forall k :: 0 <= k < i ==> Hopeless(listings[k])) && listings[i].ProviderUnreachable?
    requires Elects(AllItems(listings), r)
    ensures r == NetworkUnreachable
  {
    HopelessPassed(listings, i);
    EndsAt(listings, i, 0);
    OneResult(AllItems(listings), r, NetworkUnreachable);
  }

  /** If all are hopeless, the first endpoint of all is the fallback. */
  lemma FirstIsFallback(listings: seq<Listing>, i: nat, r: Result)
    requires i < |listings| && (forall k :: 0 <= k < |listings| ==> Hopeless(listings[k])) && Elects(AllItems(listings), r)
    requires (forall k :: 0 <= k < i ==> Items(listings[k]) == []) && listings[i].Listed? && listings[i].candidates != []
    ensures r == Fallback(listings[i].candidates[0].endpoint)
  {
    HopelessPassed(listings, |listings|);
    assert listings[..|listings|] == listings;
    FirstItem(listings, i);
    FallsBack(AllItems(listings), listings[i].candidates[0], r);
  }

  lemma FirstItem(listings: seq<Listing>, i: nat)
    requires i < |listings| && (forall k :: 0 <= k < i ==> Items(listings[k]) == []) && Items(listings[i]) != []
    ensures AllItems(listings) != [] && AllItems(listings)[0] == Items(listings[i])[0]
  {
    NoItemsBefore(listings, i);
    ItemAt(listings, i, AllItems(listings[..i]));
  }

  lemma ItemAt(listings: seq<Listing>, i: nat, before: seq<Item>)
    requires i < |listings| && Items(listings[i]) != [] && before == AllItems(listings[..i]) == []
    ensures AllItems(listings) != [] && AllItems(listings)[0] == Items(listings[i])[0]
  {
    EndsAt(listings, i, 0);
  }

  lemma FallsBack(items: seq<Item>, c: Candidate, r: Result)
    requires items != [] && AllPassed(items, |items|) && items[0] == Tried(c) && Elects(items, r)
    ensures r == Fallback(c.endpoint)
  {
    assert Passed(items[0]);
    OneResult(items, r, Fallback(c.endpoint));
  }

  lemma {:induction false} NoItemsBefore(listings: seq<Listing>, i: nat)
    requires i <= |listings| && forall k :: 0 <= k < i ==> Items(listings[k]) == []
    ensures AllItems(listings[..i]) == []
    decreases i
  {
    if i > 0 {
      NoItemsBefore(listings, i - 1);
      ItemsOneMore(listings, i - 1);
    }
  }
}
