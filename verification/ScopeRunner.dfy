/**
 * The scope lock of the HTTP layer at the level of its atomic operations, for any number of threads
 * and with compare-exchange operations that may fail spuriously.
 */
module ScopeRunner {

  type Thread = nat

  /** Where a thread is inside continue_lock or stop; `expected` is the local variable of that name. */
  datatype Pc = Idle | Continuing(expected: int) | Stopping

  /** One atomic operation on the counter and its thread; locks are movable, so any thread may drop one. */
  datatype Action =
    | Load(t: Thread)
    | AcquireCas(t: Thread, spurious: bool)
    | Release(t: Thread, owner: Thread)
    | BeginStop(t: Thread)
    | StopCas(t: Thread, spurious: bool)

  /** What a caller can observe: a lock or a null pointer handed out, a lock destroyed, a stop that returned. */
  datatype Event = Acquired(t: Thread) | Refused(t: Thread) | Released(t: Thread) | Stopped(t: Thread)

  /** The atomic counter, the threads inside an operation, and the lock objects that exist, by who acquired them. */
  datatype State = State(count: int, pcs: map<Thread, Pc>, locks: multiset<Thread>)
  {
    function PcOf(t: Thread): Pc
    {
      if t in pcs then pcs[t] else Idle
    }

    function At(t: Thread, pc: Pc): State
    {
      this.(pcs := pcs[t := pc])
    }

    predicate Enabled(action: Action)
    {
      match action
      case Load(t) => PcOf(t).Idle?
      case AcquireCas(t, _) => PcOf(t).Continuing?
      case Release(t, owner) => PcOf(t).Idle? && owner in locks
      case BeginStop(t) => PcOf(t).Idle?
      case StopCas(t, _) => PcOf(t).Stopping?
    }

    /** The next state and the events of one action. */
    function Next(action: Action): (State, seq<Event>)
      requires Enabled(action)
    {
      match action
      case Load(t) =>
        if count < 0 then (this, [Refused(t)]) else (At(t, Continuing(count)), [])
      case AcquireCas(t, spurious) =>
        if count == PcOf(t).expected && !spurious then
          (At(t, Idle).(count := count + 1, locks := locks + multiset{t}), [Acquired(t)])
        else if count < 0 then (At(t, Idle), [Refused(t)])
        else (At(t, Continuing(count)), [])
      case Release(_, owner) =>
        (this.(count := count - 1, locks := locks - multiset{owner}), [Released(owner)])
      case BeginStop(t) =>
        (At(t, Stopping), [])
      case StopCas(t, spurious) =>
        if count == 0 && !spurious then (At(t, Idle).(count := -1), [Stopped(t)])
        else if count < 0 then (At(t, Idle), [Stopped(t)])
        else (this, [])
    }
  }

  const INITIAL := State(0, map[], multiset{})

  /** The counter is -1 or the number of lock objects; nobody waits to turn a negative value into a lock. */
  predicate Inv(s: State)
  {
    && (s.count == |s.locks| || (s.count == -1 && s.locks == multiset{}))
    && forall t :: t in s.pcs && s.pcs[t].Continuing? ==> s.pcs[t].expected >= 0
  }

  /** The object the lock is meant to be: open with its holders, or closed for good. */
  datatype Gate = Open(holders: multiset<Thread>) | Closed
  {
    predicate Allows(event: Event)
    {
      match event
      case Acquired(_) => Open?
      case Refused(_) => Closed?
      case Released(t) => Open? && t in holders
      case Stopped(_) => Closed? || holders == multiset{}
    }

    function After(event: Event): Gate
    {
      match event
      case Acquired(t) => if Open? then Open(holders + multiset{t}) else this
      case Refused(_) => this
      case Released(t) => if Open? then Open(holders - multiset{t}) else this
      case Stopped(_) => Closed
    }
  }

  function Abstract(s: State): Gate
  {
    if s.count == -1 then Closed else Open(s.locks)
  }

  ghost predicate Legal(gate: Gate, events: seq<Event>)
    decreases |events|
  {
    events == [] || (gate.Allows(events[0]) && Legal(gate.After(events[0]), events[1..]))
  }

  function Final(gate: Gate, events: seq<Event>): Gate
    decreases |events|
  {
    if events == [] then gate else Final(gate.After(events[0]), events[1..])
  }

  /** One atomic step keeps the invariant and is one step of the gate, or none. */
  lemma StepRefines(s: State, action: Action)
    requires Inv(s) && s.Enabled(action)
    ensures var (next, events) := s.Next(action);
            && Inv(next) && |events| <= 1
            && Legal(Abstract(s), events) && Abstract(next) == Final(Abstract(s), events)
            && (s.count == -1 ==> next.count == -1)
  {
    var (next, events) := s.Next(action);
    if events != [] {
      assert events[1..] == [];
    }
    if action.Release? {
      assert |s.locks - multiset{action.owner}| == |s.locks| - 1;
    }
  }

  /** All actions of a run are possible where they occur. */
  predicate IsRun(s: State, actions: seq<Action>)
    decreases |actions|
  {
    actions == [] || (s.Enabled(actions[0]) && IsRun(s.Next(actions[0]).0, actions[1..]))
  }

  function Run(s: State, actions: seq<Action>): (State, seq<Event>)
    requires IsRun(s, actions)
    decreases |actions|
  {
    if actions == [] then (s, []) else
      var (next, events) := s.Next(actions[0]);
      var (last, more) := Run(next, actions[1..]);
      (last, events + more)
  }

  lemma {:induction false} LegalConcat(gate: Gate, a: seq<Event>, b: seq<Event>)
    requires Legal(gate, a) && Legal(Final(gate, a), b)
    ensures Legal(gate, a + b) && Final(gate, a + b) == Final(Final(gate, a), b)
    decreases |a|
  {
    if a == [] {
      assert a + b == b;
    } else {
      LegalConcat(gate.After(a[0]), a[1..], b);
      assert (a + b)[1..] == a[1..] + b;
    }
  }

  /** Every interleaving of the atomic operations looks to its callers like a run of the gate. */
  lemma {:induction false} RunsRefine(s: State, actions: seq<Action>)
    requires Inv(s) && IsRun(s, actions)
    ensures var (last, events) := Run(s, actions);
            && Inv(last) && Legal(Abstract(s), events) && Abstract(last) == Final(Abstract(s), events)
            && (s.count == -1 ==> last.count == -1)
    decreases |actions|
  {
    if actions != [] {
      StepRefines(s, actions[0]);
      var (next, events) := s.Next(actions[0]);
      RunsRefine(next, actions[1..]);
      LegalConcat(Abstract(s), events, Run(next, actions[1..]).1);
    }
  }

  /** In a legal history a closed gate hands out nothing, destroys nothing and stays closed. */
  lemma {:induction false} ClosedForGood(events: seq<Event>)
    requires Legal(Closed, events)
    ensures forall e :: e in events ==> e.Refused? || e.Stopped?
    ensures Final(Closed, events) == Closed
  {
    if events != [] {
      ClosedForGood(events[1..]);
    }
  }

  lemma {:induction false} NothingAfterStopped(gate: Gate, events: seq<Event>, i: nat)
    requires Legal(gate, events) && i < |events| && events[i].Stopped?
    ensures Final(gate, events) == Closed
    ensures forall k :: i < k < |events| ==> !events[k].Acquired?
    decreases |events|
  {
    var rest := events[1..];
    if i == 0 {
      ClosedForGood(rest);
      assert forall k :: 0 < k < |events| ==> events[k] == rest[k - 1] && rest[k - 1] in rest;
    } else {
      NothingAfterStopped(gate.After(events[0]), rest, i - 1);
      assert forall k :: 0 < k < |events| ==> events[k] == rest[k - 1];
    }
  }

  /** In every run, once a stop has returned there is no lock, the counter is -1, and no lock is handed out again. */
  lemma StopIsFinal(actions: seq<Action>, i: nat)
    requires IsRun(INITIAL, actions) && i < |Run(INITIAL, actions).1| && Run(INITIAL, actions).1[i].Stopped?
    ensures Run(INITIAL, actions).0.count == -1 && Run(INITIAL, actions).0.locks == multiset{}
    ensures forall k :: i < k < |Run(INITIAL, actions).1| ==> !Run(INITIAL, actions).1[k].Acquired?
  {
    RunsRefine(INITIAL, actions);
    NothingAfterStopped(Abstract(INITIAL), Run(INITIAL, actions).1, i);
  }

  /** Locks are conserved: at every point as many exist as were handed out and not yet destroyed. */
  lemma {:induction false} LocksAreCounted(s: State, actions: seq<Action>)
    requires Inv(s) && IsRun(s, actions)
    ensures var (last, events) := Run(s, actions);
            |last.locks| == |s.locks| + Acquisitions(events) - Releases(events)
    decreases |actions|
  {
    if actions != [] {
      StepRefines(s, actions[0]);
      var (next, events) := s.Next(actions[0]);
      LocksAreCounted(next, actions[1..]);
      CountsConcat(events, Run(next, actions[1..]).1);
      assert events != [] ==> events[1..] == [];
      if actions[0].Release? {
        assert |s.locks - multiset{actions[0].owner}| == |s.locks| - 1;
      }
    }
  }

  lemma OneAction(s: State, a: Action)
    requires s.Enabled(a)
    ensures IsRun(s, [a]) && Run(s, [a]) == s.Next(a)
  {
    assert [a][1..] == [];
    assert s.Next(a).1 + [] == s.Next(a).1;
  }

  lemma TwoActions(s: State, a: Action, b: Action)
    requires s.Enabled(a) && s.Next(a).0.Enabled(b)
    ensures IsRun(s, [a, b])
    ensures Run(s, [a, b]) == (s.Next(a).0.Next(b).0, s.Next(a).1 + s.Next(a).0.Next(b).1)
  {
    hide State.Next, State.Enabled;
    assert [a, b][1..] == [b];
    OneAction(s.Next(a).0, b);
  }

  /** Undisturbed, a thread gets a lock exactly when the gate is open, and is turned away when it is closed. */
  lemma AloneAcquires(s: State, t: Thread)
    requires Inv(s) && s.PcOf(t).Idle?
    ensures var actions := if s.count < 0 then [Load(t)] else [Load(t), AcquireCas(t, false)];
            && IsRun(s, actions)
            && var (last, events) := Run(s, actions);
               if Abstract(s).Closed? then events == [Refused(t)] && last == s
               else events == [Acquired(t)] && Abstract(last) == Open(s.locks + multiset{t}) && last.PcOf(t).Idle?
  {
    if s.count < 0 {
      OneAction(s, Load(t));
    } else {
      TwoActions(s, Load(t), AcquireCas(t, false));
    }
    hide Run, IsRun;
  }

  /** Undisturbed, a stop returns at its first attempt exactly when no lock is held, and changes nothing otherwise. */
  lemma AloneStops(s: State, t: Thread)
    requires Inv(s) && s.PcOf(t).Idle?
    ensures IsRun(s, [BeginStop(t), StopCas(t, false)])
    ensures var (last, events) := Run(s, [BeginStop(t), StopCas(t, false)]);
            if s.locks == multiset{} then events == [Stopped(t)] && Abstract(last) == Closed
            else events == [] && Abstract(last) == Abstract(s) && last.PcOf(t).Stopping?
  {
    TwoActions(s, BeginStop(t), StopCas(t, false));
    hide Run, IsRun;
    assert |s.locks| == 0 <==> s.locks == multiset{};
  }

  function Acquisitions(events: seq<Event>): nat
  {
    if events == [] then 0 else (if events[0].Acquired? then 1 else 0) + Acquisitions(events[1..])
  }

  function Releases(events: seq<Event>): nat
  {
    if events == [] then 0 else (if events[0].Released? then 1 else 0) + Releases(events[1..])
  }

  lemma {:induction false} CountsConcat(a: seq<Event>, b: seq<Event>)
    ensures Acquisitions(a + b) == Acquisitions(a) + Acquisitions(b) && Releases(a + b) == Releases(a) + Releases(b)
  {
    if a == [] {
      assert a + b == b;
    } else {
      CountsConcat(a[1..], b);
      assert (a + b)[1..] == a[1..] + b;
    }
  }

  /** The counter as the threads share it, one method for each atomic operation. */
  class Runner {
    var count: int
    var pcs: map<Thread, Pc>
    var locks: multiset<Thread>

    function View(): State
      reads this
    {
      State(count, pcs, locks)
    }

    constructor ()
      ensures View() == INITIAL
    {
      count, pcs, locks := 0, map[], multiset{};
    }

    /** compare_exchange_weak: on failure the value found is handed back. */
    method CompareExchangeWeak(expected: int, desired: int, spurious: bool) returns (ok: bool, found: int)
      modifies this`count
      ensures ok <==> old(count) == expected && !spurious
      ensures count == if ok then desired else old(count)
      ensures found == if ok then expected else old(count)
    {
      if count == expected && !spurious {
        count := desired;
        return true, expected;
      }
      return false, count;
    }

    /** continue_lock up to its first look at the counter. */
    method BeginContinue(t: Thread) returns (refused: bool)
      requires Inv(View()) && View().Enabled(Load(t))
      modifies this`pcs
      ensures (View(), if refused then [Refused(t)] else []) == old(View()).Next(Load(t)) && Inv(View())
    {
      StepRefines(View(), Load(t));
      refused := count < 0;
      if !refused {
        pcs := pcs[t := Continuing(count)];
      }
    }

    /** One turn of the loop in continue_lock. */
    method TryAcquire(t: Thread, spurious: bool) returns (events: seq<Event>)
      requires Inv(View()) && View().Enabled(AcquireCas(t, spurious))
      modifies this
      ensures (View(), events) == old(View()).Next(AcquireCas(t, spurious)) && Inv(View())
    {
      StepRefines(View(), AcquireCas(t, spurious));
      var expected := pcs[t].expected;
      var ok, found := CompareExchangeWeak(expected, expected + 1, spurious);
      if ok {
        pcs, locks := pcs[t := Idle], locks + multiset{t};
        events := [Acquired(t)];
      } else if found < 0 {
        pcs := pcs[t := Idle];
        events := [Refused(t)];
      } else {
        pcs := pcs[t := Continuing(found)];
        events := [];
      }
    }

    /** The destructor of a lock object, in whichever thread it was moved to. */
    method ReleaseLock(t: Thread, owner: Thread)
      requires Inv(View()) && View().Enabled(Release(t, owner))
      modifies this
      ensures View() == old(View()).Next(Release(t, owner)).0 && Inv(View())
    {
      StepRefines(View(), Release(t, owner));
      count := count - 1;
      locks := locks - multiset{owner};
    }

    /** stop before its first compare-exchange. */
    method EnterStop(t: Thread)
      requires Inv(View()) && View().Enabled(BeginStop(t))
      modifies this`pcs
      ensures View() == old(View()).Next(BeginStop(t)).0 && Inv(View())
    {
      StepRefines(View(), BeginStop(t));
      pcs := pcs[t := Stopping];
    }

    /** One turn of the loop in stop. */
    method TryStop(t: Thread, spurious: bool) returns (events: seq<Event>)
      requires Inv(View()) && View().Enabled(StopCas(t, spurious))
      modifies this
      ensures (View(), events) == old(View()).Next(StopCas(t, spurious)) && Inv(View())
    {
      StepRefines(View(), StopCas(t, spurious));
      var ok, found := CompareExchangeWeak(0, -1, spurious);
      if ok || found < 0 {
        pcs := pcs[t := Idle];
        events := [Stopped(t)];
      } else {
        events := [];
      }
    }
  }
}
