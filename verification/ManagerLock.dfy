/** The manager's lock around the active endpoint: first use, background tests and announcements by any number of callers at
    once (resolver/endpoint/manager.go). Every stretch between taking and giving the lock is one step. */
module ManagerLock {
  import opened Wire
  import opened ActiveEndpoints
  import opened Election

  /** Where a caller stands. `first` tells a first use, which bootstraps the active endpoint, from a background test. */
  datatype Place =
    | Away
    | Wanting(first: bool)
    | Electing(first: bool)
    | Announcing(first: bool)
    | Concluding(first: bool)
    | Done
    | Stuck

  /** The manager: its active endpoint, who holds its lock, its callers, and every endpoint that became active. */
  datatype Shared = Shared(active: Option<Endpoint>, holder: Option<nat>, callers: map<nat, Place>, committed: seq<Endpoint>)

  datatype Move =
    | Look(caller: nat)                              // a first use reads the active endpoint under the read lock
    | StartTest(caller: nat)
    | Take(caller: nat)                              // the lock is taken, and the active endpoint read again
    | Elect(caller: nat, elected: Option<Endpoint>)  // nothing when the network is unreachable
    | Retake(caller: nat)                            // the lock is taken back behind the announcement
    | Conclude(caller: nat)
    | Leave(caller: nat)

  function PlaceOf(s: Shared, caller: nat): Place {
    if caller in s.callers then s.callers[caller] else Away
  }

  predicate Holds(p: Place) {
    p.Electing? || p.Concluding? || p.Stuck?
  }

  predicate Enabled(s: Shared, m: Move) {
    match m
    case Look(c) => PlaceOf(s, c) == Away && s.holder.None?
    case StartTest(c) => PlaceOf(s, c) == Away
    case Take(c) => PlaceOf(s, c).Wanting? && s.holder.None?
    case Elect(c, _) => PlaceOf(s, c).Electing?
    case Retake(c) => PlaceOf(s, c).Announcing? && s.holder.None?
    case Conclude(c) => PlaceOf(s, c).Concluding?
    case Leave(c) => PlaceOf(s, c) == Done
  }

  function At(s: Shared, caller: nat, p: Place): Shared {
    s.(callers := s.callers[caller := p], holder := if Holds(p) then Some(caller) else if s.holder == Some(caller) then None else s.holder)
  }

  function Committed(s: Shared, e: Endpoint): Shared {
    s.(active := Some(e), committed := s.committed + [e])
  }

  /** `init` is the manager's initial endpoint, `announces` whether it has somebody to tell about changes. */
  function Act(s: Shared, m: Move, init: Option<Endpoint>, announces: bool): Shared
    requires Enabled(s, m)
  {
    match m
    case Look(c) => At(s, c, if s.active.Some? then Done else Wanting(true))
    case StartTest(c) => At(s, c, Wanting(false))
    case Take(c) =>
      if !PlaceOf(s, c).first then At(s, c, Electing(false))
      else if s.active.Some? then At(s, c, Done)
      else if init.Some? then At(Committed(s, init.value), c, Done)
      else At(s, c, Electing(true))
    case Elect(c, elected) =>
      var first := PlaceOf(s, c).first;
      // Only a background test gives the lock back when it fails.
      if elected.None? then At(s, c, if first then Stuck else Away)
      else if s.active.Some? && Equal(s.active.value, elected.value) then At(s, c, Concluding(first))
      else At(Committed(s, elected.value), c, if announces then Announcing(first) else Concluding(first))
    case Retake(c) => At(s, c, Concluding(PlaceOf(s, c).first))
    case Conclude(c) => At(s, c, if PlaceOf(s, c).first then Done else Away)
    case Leave(c) => At(s, c, Away)
  }

  predicate Possible(s: Shared, moves: seq<Move>, init: Option<Endpoint>, announces: bool)
    decreases |moves|
  {
    moves == [] || (Enabled(s, moves[0]) && Possible(Act(s, moves[0], init, announces), moves[1..], init, announces))
  }

  function Run(s: Shared, moves: seq<Move>, init: Option<Endpoint>, announces: bool): Shared
    requires Possible(s, moves, init, announces)
    decreases |moves|
  {
    if moves == [] then s else Run(Act(s, moves[0], init, announces), moves[1..], init, announces)
  }

  const IDLE := Shared(None, None, map[], [])

  // ---------- What every interleaving keeps ----------

  /** The lock is held by the one caller that stands in it; the active endpoint is the last one that was committed, and
      neighbours among those are never equal; whoever is past its election or done finds an active endpoint. */
  ghost predicate Orderly(s: Shared) {
    && (forall c: nat {:trigger PlaceOf(s, c)} :: Holds(PlaceOf(s, c)) <==> s.holder == Some(c))
    && Changing(s.committed)
    && (if s.committed == [] then s.active.None? else s.active == Some(s.committed[|s.committed| - 1]))
    && (forall c: nat {:trigger PlaceOf(s, c)} ::
          PlaceOf(s, c).Announcing? || PlaceOf(s, c).Concluding? || PlaceOf(s, c) == Done ==> s.active.Some?)
  }

  /** One caller moves, the others stay. */
  lemma AtOthers(s: Shared, caller: nat, p: Place)
    ensures forall c: nat {:trigger PlaceOf(At(s, caller, p), c)} ::
      PlaceOf(At(s, caller, p), c) == if c == caller then p else PlaceOf(s, c)
  {
  }

  /** A move of a caller that takes, keeps or gives the lock, or does without it. */
  lemma MoveKeepsOrder(s: Shared, caller: nat, p: Place)
    requires Orderly(s) && (s.holder.None? || s.holder == Some(caller) || !Holds(p))
    requires p.Announcing? || p.Concluding? || p == Done ==> s.active.Some?
    ensures Orderly(At(s, caller, p))
  {
    AtOthers(s, caller, p);
    var s' := At(s, caller, p);
    forall c: nat ensures Holds(PlaceOf(s', c)) <==> s'.holder == Some(c) {
      assert PlaceOf(s', c) == if c == caller then p else PlaceOf(s, c);
    }
    forall c: nat ensures PlaceOf(s', c).Announcing? || PlaceOf(s', c).Concluding? || PlaceOf(s', c) == Done ==> s'.active.Some? {
      assert PlaceOf(s', c) == if c == caller then p else PlaceOf(s, c);
    }
  }

  lemma CommitKeepsOrder(s: Shared, e: Endpoint)
    requires Orderly(s) && (s.active.Some? ==> !Equal(s.active.value, e))
    ensures Orderly(Committed(s, e))
  {
    var s' := Committed(s, e);
    forall c: nat ensures Holds(PlaceOf(s', c)) <==> s'.holder == Some(c) {
      assert PlaceOf(s', c) == PlaceOf(s, c);
    }
  }

  lemma ActKeepsOrder(s: Shared, m: Move, init: Option<Endpoint>, announces: bool)
    requires Orderly(s) && Enabled(s, m)
    ensures Orderly(Act(s, m, init, announces))
  {
    var place := PlaceOf(s, m.caller);
    match m {
      case Take(c) =>
        if place.first && s.active.None? && init.Some? {
          CommitKeepsOrder(s, init.value);
          MoveKeepsOrder(Committed(s, init.value), c, Done);
        } else {
          MoveKeepsOrder(s, c, if !place.first then Electing(false) else if s.active.Some? then Done else Electing(true));
        }
      case Elect(c, elected) =>
        if elected.None? {
          MoveKeepsOrder(s, c, if place.first then Stuck else Away);
        } else if s.active.Some? && Equal(s.active.value, elected.value) {
          MoveKeepsOrder(s, c, Concluding(place.first));
        } else {
          CommitKeepsOrder(s, elected.value);
          MoveKeepsOrder(Committed(s, elected.value), c, if announces then Announcing(place.first) else Concluding(place.first));
        }
      case Look(c) => MoveKeepsOrder(s, c, if s.active.Some? then Done else Wanting(true));
      case StartTest(c) => MoveKeepsOrder(s, c, Wanting(false));
      case Retake(c) => MoveKeepsOrder(s, c, Concluding(place.first));
      case Conclude(c) => MoveKeepsOrder(s, c, if place.first then Done else Away);
      case Leave(c) => MoveKeepsOrder(s, c, Away);
    }
  }

  lemma {:induction false} RunKeepsOrder(s: Shared, moves: seq<Move>, init: Option<Endpoint>, announces: bool)
    requires Orderly(s) && Possible(s, moves, init, announces)
    ensures Orderly(Run(s, moves, init, announces))
    ensures s.committed <= Run(s, moves, init, announces).committed
    decreases |moves|
  {
    if moves != [] {
      var s' := Act(s, moves[0], init, announces);
      ActKeepsOrder(s, moves[0], init, announces);
      RunKeepsOrder(s', moves[1..], init, announces);
    }
  }

  /** In every interleaving from an idle manager on: at most one caller is in the lock; every call that is done has an active
      endpoint; neighbours among the endpoints that became active are never equal. */
  lemma EveryLocking(moves: seq<Move>, init: Option<Endpoint>, announces: bool)
    requires Possible(IDLE, moves, init, announces)
    ensures var s := Run(IDLE, moves, init, announces);
      && (forall c: nat, d: nat :: Holds(PlaceOf(s, c)) && Holds(PlaceOf(s, d)) ==> c == d)
      && (forall c: nat :: PlaceOf(s, c) == Done ==> s.active.Some?)
      && Changing(s.committed) && Orderly(s)
  {
    RunKeepsOrder(IDLE, moves, init, announces);
    var s := Run(IDLE, moves, init, announces);
    forall c: nat, d: nat | Holds(PlaceOf(s, c)) && Holds(PlaceOf(s, d)) ensures c == d {
      assert s.holder == Some(c) && s.holder == Some(d);
    }
  }

  // ---------- The lock that is never given back ----------

  /** The holder can always go on, unless it has left with an error. */
  lemma HolderMoves(s: Shared, c: nat)
    requires Orderly(s) && s.holder == Some(c)
    ensures PlaceOf(s, c) == Stuck || (forall e :: Enabled(s, Elect(c, e))) || Enabled(s, Conclude(c))
  {
    assert Holds(PlaceOf(s, c));
  }

  /** A call gets stuck exactly if its election is the first one and finds the network unreachable. */
  lemma GetsStuck(s: Shared, m: Move, init: Option<Endpoint>, announces: bool)
    requires Orderly(s) && Enabled(s, m) && PlaceOf(s, m.caller) != Stuck
    ensures PlaceOf(Act(s, m, init, announces), m.caller) == Stuck <==> m.Elect? && m.elected.None? && PlaceOf(s, m.caller) == Electing(true)
  {
  }

  /** Then nobody ever takes the lock again: calls that were done leave, tests are started and wait, no first use even looks,
      and nothing becomes active any more. */
  lemma {:induction false} StuckForever(s: Shared, stuck: nat, moves: seq<Move>, init: Option<Endpoint>, announces: bool)
    requires Orderly(s) && PlaceOf(s, stuck) == Stuck && Possible(s, moves, init, announces)
    ensures var s' := Run(s, moves, init, announces);
      && PlaceOf(s', stuck) == Stuck && s'.holder == Some(stuck) && s'.active == s.active && s'.committed == s.committed
      && (forall c: nat {:trigger PlaceOf(s', c)} :: PlaceOf(s, c).Wanting? ==> PlaceOf(s', c) == PlaceOf(s, c))
      && forall m :: m in moves ==> m.StartTest? || m.Leave?
    decreases |moves|
  {
    if moves != [] {
      var m := moves[0];
      var s1 := Act(s, m, init, announces);
      assert s.holder == Some(stuck);
      assert Holds(PlaceOf(s, m.caller)) <==> m.caller == stuck;
      assert m.StartTest? || m.Leave?;
      ActKeepsOrder(s, m, init, announces);
      AtOthers(s, m.caller, if m.StartTest? then Wanting(false) else Away);
      StuckForever(s1, stuck, moves[1..], init, announces);
      forall c: nat | PlaceOf(s, c).Wanting? ensures PlaceOf(Run(s, moves, init, announces), c) == PlaceOf(s, c) {
        assert PlaceOf(s1, c) == PlaceOf(s, c);
      }
    }
  }
}
