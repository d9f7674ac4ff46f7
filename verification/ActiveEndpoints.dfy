/** Opportunistic and recovery tests of an active endpoint, with any number of callers at once
    (resolver/endpoint/manager.go). Every lock section and every atomic operation is one step. */
module ActiveEndpoints {
  import opened Wire

  /** The fields of an active endpoint that its own lock or atomics guard. Times count nanoseconds. */
  datatype Active = Active(lastTest: int, testInterval: int, testing: bool, consecutiveErrors: uint32)

  // ---------- The lock sections ----------

  predicate TestTimeExceeded(a: Active, now: int) {
    now - a.lastTest > a.testInterval
  }

  /** The second section of shouldTest: the clock is read once for the check, and again for the reset. */
  function ClaimTest(a: Active, now: int, later: int): (Active, bool) {
    if TestTimeExceeded(a, now) then (a.(lastTest := later), true) else (a, false)
  }

  function WithTesting(a: Active, testing: bool, resetTimer: bool, now: int): (Active, bool) {
    if a.testing == testing then (a, false)
    else (a.(testing := testing, lastTest := if resetTimer then now else a.lastTest), true)
  }

  /** One error more, counted in 32 bits; true if it is the one that triggers a recovery test. */
  function CountError(a: Active, threshold: uint32): (Active, bool) {
    var n := (a.consecutiveErrors + 1) % 0x1_0000_0000;
    (a.(consecutiveErrors := n), n == threshold)
  }

  /** Endpoints are equal when they stand for the same server, whatever else they carry. */
  datatype Endpoint = Endpoint(server: string, details: int)

  predicate Equal(e: Endpoint, e': Endpoint) {
    e.server == e'.server
  }

  class ActiveEndpoint {
    const endpoint: Endpoint
    const threshold: uint32
    var lastTest: int
    var testInterval: int
    var testing: bool
    var consecutiveErrors: uint32

    ghost function Now(): Active
      reads this
    {
      Active(lastTest, testInterval, testing, consecutiveErrors)
    }

    constructor (endpoint: Endpoint, errorThreshold: uint32, interval: int, now: int)
      ensures this.endpoint == endpoint && Now() == Active(now, interval, false, 0)
      ensures threshold == if errorThreshold == 0 then 10 else errorThreshold
    {
      this.endpoint := endpoint;
      threshold := if errorThreshold == 0 then 10 else errorThreshold;
      lastTest, testInterval, testing, consecutiveErrors := now, interval, false, 0;
    }

    /** The first section of shouldTest only looks. */
    method Look(now: int) returns (maybe: bool)
      ensures maybe == (!testing && TestTimeExceeded(Now(), now))
    {
      maybe := !testing && now - lastTest > testInterval;
    }

    method Claim(now: int, later: int) returns (should: bool)
      modifies this`lastTest
      ensures (Now(), should) == ClaimTest(old(Now()), now, later)
    {
      should := false;
      if now - lastTest > testInterval {
        should := true;
        // Only one caller wins.
        lastTest := later;
      }
    }

    method SetTesting(target: bool, resetTimer: bool, now: int) returns (changed: bool)
      modifies this`testing, this`lastTest
      ensures (Now(), changed) == WithTesting(old(Now()), target, resetTimer, now)
    {
      if testing == target {
        return false;
      }
      testing := target;
      if resetTimer {
        lastTest := now;
      }
      return true;
    }

    method AddError() returns (recover: bool)
      modifies this`consecutiveErrors
      ensures (Now(), recover) == CountError(old(Now()), threshold)
    {
      consecutiveErrors := (consecutiveErrors + 1) % 0x1_0000_0000;
      recover := consecutiveErrors == threshold;
    }

    method ClearErrors()
      modifies this`consecutiveErrors
      ensures Now() == old(Now()).(consecutiveErrors := 0)
    {
      consecutiveErrors := 0;
    }
  }

  // ---------- All interleavings ----------

  /** Where a caller of `do` stands between two steps. */
  datatype Place = Outside | Upgrading | Claimed | Acting | Recovering

  datatype Claim = Claim(checked: int, reset: int, interval: int)

  /** The endpoint, the clock, the callers, the background tests, and what has happened: the opportunistic claims,
      and the ends of the actions in the order in which they reached the counter. */
  datatype World = World(
    active: Active, threshold: uint32, clock: int, callers: map<nat, Place>, running: nat,
    claims: seq<Claim>, ends: seq<bool>)

  datatype Step =
    | Tick(to: int)
    | Enter(caller: nat)
    | Upgrade(caller: nat, later: int)
    | Begin(caller: nat)
    | Succeed(caller: nat)
    | Fail(caller: nat)
    | Recover(caller: nat)
    | Finish(reset: bool)
    | ChangeInterval(interval: int)

  function At(w: World, caller: nat): Place {
    if caller in w.callers then w.callers[caller] else Outside
  }

  /** The clock does not run backwards, callers take their steps in order, and only a running test finishes. */
  predicate Enabled(w: World, s: Step) {
    match s
    case Tick(to) => to >= w.clock
    case Enter(caller) => At(w, caller) == Outside
    case Upgrade(caller, later) => At(w, caller) == Upgrading && later >= w.clock
    case Begin(caller) => At(w, caller) == Claimed
    case Succeed(caller) => At(w, caller) == Acting
    case Fail(caller) => At(w, caller) == Acting
    case Recover(caller) => At(w, caller) == Recovering
    case Finish(_) => w.running > 0
    case ChangeInterval(_) => true
  }

  /** setTesting(true, false), and the background test it starts if it wins. */
  function Started(w: World, caller: nat, next: Place): World {
    var (a, won) := WithTesting(w.active, true, false, w.clock);
    w.(active := a, running := if won then w.running + 1 else w.running, callers := w.callers[caller := next])
  }

  function Apply(w: World, s: Step): World
    requires Enabled(w, s)
  {
    match s
    case Tick(to) => w.(clock := to)
    case Enter(caller) =>
      w.(callers := w.callers[caller := if !w.active.testing && TestTimeExceeded(w.active, w.clock) then Upgrading else Acting])
    case Upgrade(caller, later) =>
      var (a, should) := ClaimTest(w.active, w.clock, later);
      if should then
        w.(active := a, clock := later, callers := w.callers[caller := Claimed],
           claims := w.claims + [Claim(w.clock, later, a.testInterval)])
      else w.(callers := w.callers[caller := Acting])
    case Begin(caller) => Started(w, caller, Acting)
    case Succeed(caller) =>
      w.(active := w.active.(consecutiveErrors := 0), callers := w.callers[caller := Outside], ends := w.ends + [true])
    case Fail(caller) =>
      var (a, recover) := CountError(w.active, w.threshold);
      w.(active := a, callers := w.callers[caller := if recover then Recovering else Outside], ends := w.ends + [false])
    case Recover(caller) => Started(w, caller, Outside)
    case Finish(reset) =>
      w.(active := WithTesting(w.active, false, reset, w.clock).0, running := w.running - 1)
    case ChangeInterval(interval) => w.(active := w.active.(testInterval := interval))
  }

  predicate Possible(w: World, steps: seq<Step>)
    decreases |steps|
  {
    steps == [] || (Enabled(w, steps[0]) && Possible(Apply(w, steps[0]), steps[1..]))
  }

  function Run(w: World, steps: seq<Step>): World
    requires Possible(w, steps)
    decreases |steps|
  {
    if steps == [] then w else Run(Apply(w, steps[0]), steps[1..])
  }

  // ---------- What every interleaving keeps ----------

  /** The consecutive errors after these ends of actions. */
  function Errors(ends: seq<bool>): uint32
    decreases |ends|
  {
    if ends == [] then 0
    else if ends[|ends| - 1] then 0
    else (Errors(ends[..|ends| - 1]) + 1) % 0x1_0000_0000
  }

  /** Any later claim was checked more than its interval after the reset of an earlier one. */
  ghost predicate Spaced(claims: seq<Claim>) {
    forall i, j {:trigger claims[i], claims[j]} :: 0 <= i < j < |claims| ==> claims[j].checked - claims[i].reset > claims[j].interval
  }

  ghost predicate Good(w: World) {
    && w.running == (if w.active.testing then 1 else 0)
    && w.active.lastTest <= w.clock
    && Spaced(w.claims) && (forall i {:trigger w.claims[i]} :: 0 <= i < |w.claims| ==> w.claims[i].reset <= w.active.lastTest)
    && w.active.consecutiveErrors == Errors(w.ends)
  }

  function Fresh(threshold: uint32, interval: int, lastTest: int, now: int): World {
    World(Active(lastTest, interval, false, 0), threshold, now, map[], 0, [], [])
  }

  lemma FreshGood(threshold: uint32, interval: int, lastTest: int, now: int)
    requires lastTest <= now
    ensures Good(Fresh(threshold, interval, lastTest, now))
  {
  }

  lemma StepKeepsGood(w: World, s: Step)
    requires Good(w) && Enabled(w, s)
    ensures Good(Apply(w, s))
  {
    match s {
      case Succeed(_) => assert (w.ends + [true])[..|w.ends|] == w.ends;
      case Fail(_) => assert (w.ends + [false])[..|w.ends|] == w.ends;
      case _ =>
    }
  }

  lemma {:induction false} RunKeepsGood(w: World, steps: seq<Step>)
    requires Good(w) && Possible(w, steps)
    ensures Good(Run(w, steps))
    decreases |steps|
  {
    if steps != [] {
      StepKeepsGood(w, steps[0]);
      RunKeepsGood(Apply(w, steps[0]), steps[1..]);
    }
  }

  /** Single flight and spacing, in every interleaving from a new endpoint on: never more than one background test, the flag
      set exactly while there is one, opportunistic claims further apart than the interval in force at the later one, and
      the counter at the length of the streak of errors. */
  lemma EveryInterleaving(threshold: uint32, interval: int, lastTest: int, now: int, steps: seq<Step>)
    requires lastTest <= now && Possible(Fresh(threshold, interval, lastTest, now), steps)
    ensures var w := Run(Fresh(threshold, interval, lastTest, now), steps);
      && w.running == (if w.active.testing then 1 else 0)
      && Spaced(w.claims) && w.active.consecutiveErrors == Errors(w.ends)
      && Good(w)
  {
    FreshGood(threshold, interval, lastTest, now);
    RunKeepsGood(Fresh(threshold, interval, lastTest, now), steps);
  }

  /** No step changes the threshold. */
  lemma {:induction false} ThresholdKept(w: World, steps: seq<Step>)
    requires Possible(w, steps)
    ensures Run(w, steps).threshold == w.threshold
    decreases |steps|
  {
    if steps != [] {
      ThresholdKept(Apply(w, steps[0]), steps[1..]);
    }
  }

  // ---------- Opportunistic tests ----------

  /** A caller that comes alone, when no test is running and more than the interval has passed, starts a test and takes the time;
      at any other time it starts none and changes nothing. */
  lemma LoneCaller(w: World, caller: nat, later: int)
    requires Good(w) && At(w, caller) == Outside && later >= w.clock
    ensures if !w.active.testing && w.clock > w.active.lastTest + w.active.testInterval then
        var steps := [Enter(caller), Upgrade(caller, later), Begin(caller)];
        && Possible(w, steps)
        && var w' := Run(w, steps);
           && At(w', caller) == Acting && w'.running == 1 && w'.active == w.active.(testing := true, lastTest := later)
           && w'.claims == w.claims + [Claim(w.clock, later, w.active.testInterval)]
      else Apply(w, Enter(caller)) == w.(callers := w.callers[caller := Acting])
  {
    if !w.active.testing && w.clock > w.active.lastTest + w.active.testInterval {
      var s1, s2, s3 := Enter(caller), Upgrade(caller, later), Begin(caller);
      var w1 := Apply(w, s1);
      var w2 := Apply(w1, s2);
      RunsThree(w, s1, s2, s3, w1, w2);
    }
  }

  lemma RunsThree(w: World, s1: Step, s2: Step, s3: Step, w1: World, w2: World)
    requires Enabled(w, s1) && w1 == Apply(w, s1) && Enabled(w1, s2) && w2 == Apply(w1, s2) && Enabled(w2, s3)
    ensures Possible(w, [s1, s2, s3]) && Run(w, [s1, s2, s3]) == Apply(w2, s3)
  {
    assert [s1, s2, s3][1..] == [s2, s3] && [s2, s3][1..] == [s3] && [s3][1..] == [];
    assert Possible(w2, [s3]) && Run(w2, [s3]) == Apply(w2, s3);
    assert Possible(w1, [s2, s3]);
  }

  /** Of several callers that saw the interval pass, the first one claims the test, and no other before it passes again. */
  lemma OneClaimWins(w: World, caller: nat, later: int, other: nat, soon: int)
    requires Good(w) && At(w, caller) == Upgrading && At(w, other) == Upgrading && caller != other && w.clock <= later <= soon
    requires w.clock > w.active.lastTest + w.active.testInterval && w.active.testInterval >= 0
    ensures var w1 := Apply(w, Upgrade(caller, later));
      && At(w1, caller) == Claimed && |w1.claims| == |w.claims| + 1
      && Enabled(w1, Upgrade(other, soon))
      && var w2 := Apply(w1, Upgrade(other, soon)); At(w2, other) == Acting && w2.claims == w1.claims
  {
  }

  /** The end of a test: nobody is testing any more, and the time counts from now exactly if the timer is reset. */
  lemma FinishedTest(w: World, reset: bool)
    requires Good(w) && Enabled(w, Finish(reset))
    ensures var w' := Apply(w, Finish(reset));
      && w'.running == 0 && !w'.active.testing && w'.active.lastTest == (if reset then w.clock else w.active.lastTest)
      && w'.active.consecutiveErrors == w.active.consecutiveErrors && w'.callers == w.callers
  {
  }

  // ---------- Recovery ----------

  /** The action that ended at `i` triggers a recovery test. */
  ghost predicate Triggers(ends: seq<bool>, threshold: uint32, i: nat)
    requires i < |ends|
  {
    !ends[i] && Errors(ends[..i + 1]) == threshold
  }

  /** A failing step makes its caller recover exactly if it triggers; and then a test is running. */
  lemma FailTriggers(w: World, caller: nat)
    requires Good(w) && Enabled(w, Fail(caller))
    ensures var w' := Apply(w, Fail(caller));
      && w'.ends == w.ends + [false]
      && (At(w', caller) == Recovering <==> Triggers(w'.ends, w.threshold, |w.ends|))
  {
    var ends := w.ends + [false];
    assert ends[..|w.ends| + 1] == ends && ends[..|w.ends|] == w.ends;
  }

  lemma RecoverRuns(w: World, caller: nat)
    requires Good(w) && Enabled(w, Recover(caller))
    ensures Apply(w, Recover(caller)).active.testing && Apply(w, Recover(caller)).running == 1
  {
  }

  lemma {:induction false} OnlyErrorsBetween(ends: seq<bool>, i: nat, j: nat)
    requires i <= j < |ends| && forall k :: i < k <= j ==> !ends[k]
    ensures Errors(ends[..j + 1]) == (Errors(ends[..i + 1]) + (j - i)) % 0x1_0000_0000
    decreases j - i
  {
    if i < j {
      OnlyErrorsBetween(ends, i, j - 1);
      ErrorsAt(ends, j);
      WrapsOn(Errors(ends[..i + 1]), j - 1 - i);
    }
  }

  lemma ErrorsAt(ends: seq<bool>, j: nat)
    requires j < |ends|
    ensures Errors(ends[..j + 1]) == if ends[j] then 0 else (Errors(ends[..j]) + 1) % 0x1_0000_0000
  {
    assert ends[..j + 1][..j] == ends[..j];
  }

  lemma WrapsOn(n: nat, k: nat)
    ensures ((n + k) % 0x1_0000_0000 + 1) % 0x1_0000_0000 == (n + (k + 1)) % 0x1_0000_0000
  {
  }

  /** Between two triggers fewer than 2^32 actions apart, some action succeeded. */
  lemma SuccessBetweenTriggers(ends: seq<bool>, threshold: uint32, i: nat, j: nat)
    requires i < j < |ends| && j - i < 0x1_0000_0000
    requires Triggers(ends, threshold, i) && Triggers(ends, threshold, j)
    ensures exists k :: i < k < j && ends[k]
  {
    Different(threshold, j - i);
    if forall k :: i < k < j ==> !ends[k] {
      OnlyErrorsBetween(ends, i, j);
    }
  }

  lemma Different(n: uint32, k: nat)
    requires 0 < k < 0x1_0000_0000
    ensures (n + k) % 0x1_0000_0000 != n
  {
  }

  /** A streak of errors after a success, or at the start, triggers at its `threshold`-th error and at no other. */
  lemma StreakTriggersOnce(ends: seq<bool>, threshold: uint32, start: nat, i: nat)
    requires threshold > 0 && start <= i < |ends| && i - start < 0xFFFF_FFFF
    requires (start == 0 || ends[start - 1]) && forall k :: start <= k <= i ==> !ends[k]
    ensures Triggers(ends, threshold, i) <==> i - start + 1 == threshold
  {
    assert ends[..start + 1][..start] == ends[..start];
    OnlyErrorsBetween(ends, start, i);
  }
}
