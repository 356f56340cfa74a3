/** Triggers, index and predicates together: from polls of the system to callbacks. */
module Monitor {
  import opened Config
  import opened Triggers
  import opened Predicates
  import opened PredicateEngines

  /** What a predicate is told, in order, when the trigger callbacks run in the order of the log. */
  ghost function Heard(registered: seq<Predicate>, p: Predicate, log: seq<Event>): seq<Event>
  {
    if log == [] then [] else
      Heard(registered, p, log[..|log| - 1]) + Repeat(log[|log| - 1], Deliveries(registered, p, log[|log| - 1].t))
  }

  lemma HeardNext(registered: seq<Predicate>, p: Predicate, log: seq<Event>, e: Event)
    ensures Heard(registered, p, log + [e]) == Heard(registered, p, log) + Repeat(e, Deliveries(registered, p, e.t))
  {
    assert (log + [e])[..|log|] == log;
  }

  lemma CountSnoc<T>(xs: seq<T>, e: T)
    ensures forall x :: Count(xs + [e], x) == Count(xs, x) + if e == x then 1 else 0
  {
    assert (xs + [e])[..|xs|] == xs;
  }

  type Histories = map<TriggerType, seq<bool>>

  /** How often the trigger callbacks must have run for `t`, given the polls so far. */
  function FiresOf(histories: Histories, t: TriggerType): nat
  {
    if t in histories then Fires(histories[t], t.duration) else 0
  }

  function DeactivationsOf(histories: Histories, t: TriggerType): nat
  {
    if t in histories then Deactivations(histories[t], t.duration) else 0
  }

  ghost predicate LogAgrees(log: seq<Event>, histories: Histories)
  {
    forall t :: AgreesOn(log, histories, t)
  }

  predicate AgreesOn(log: seq<Event>, histories: Histories, t: TriggerType)
  {
    Count(log, Activated(t)) == FiresOf(histories, t) && Count(log, Deactivated(t)) == DeactivationsOf(histories, t)
  }

  /** The events one poll adds to the log for one trigger. */
  function PollEvents(t: TriggerType, verdict: Verdict): seq<Event>
  {
    (if verdict.deactivated then [Deactivated(t)] else []) + (if verdict.fired then [Activated(t)] else [])
  }

  lemma CountPollEvents(log: seq<Event>, t: TriggerType, verdict: Verdict, u: TriggerType)
    ensures Count(log + PollEvents(t, verdict), Activated(u)) ==
            Count(log, Activated(u)) + if verdict.fired && u == t then 1 else 0
    ensures Count(log + PollEvents(t, verdict), Deactivated(u)) ==
            Count(log, Deactivated(u)) + if verdict.deactivated && u == t then 1 else 0
  {
    hide Count;
    var middle := log + if verdict.deactivated then [Deactivated(t)] else [];
    assert log + PollEvents(t, verdict) == middle + if verdict.fired then [Activated(t)] else [];
    assert log + [] == log && middle + [] == middle;
    CountSnoc(log, Deactivated(t));
    CountSnoc(middle, Activated(t));
  }

  /** One more poll of one trigger. */
  function Polled(histories: Histories, t: TriggerType, exceeds: bool): Histories
    requires t in histories
  {
    histories[t := histories[t] + [exceeds]]
  }

  lemma CounterNext(history: seq<bool>, duration: int, exceeds: bool)
    ensures var verdict, longer := Poll(Counter(history, duration), duration, exceeds), history + [exceeds];
            && Counter(longer, duration) == verdict.count
            && Fires(longer, duration) == Fires(history, duration) + (if verdict.fired then 1 else 0)
            && Deactivations(longer, duration) ==
               Deactivations(history, duration) + if verdict.deactivated then 1 else 0
  {
    assert (history + [exceeds])[..|history|] == history;
  }

  lemma LogAgreesNext(log: seq<Event>, histories: Histories, t: TriggerType, exceeds: bool)
    requires LogAgrees(log, histories) && t in histories
    ensures var verdict := Poll(Counter(histories[t], t.duration), t.duration, exceeds);
            && LogAgrees(log + PollEvents(t, verdict), Polled(histories, t, exceeds))
            && Counter(Polled(histories, t, exceeds)[t], t.duration) == verdict.count
  {
    hide Counter, Fires, Deactivations, Count, PollEvents;
    var verdict := Poll(Counter(histories[t], t.duration), t.duration, exceeds);
    CounterNext(histories[t], t.duration, exceeds);
    forall u ensures AgreesOn(log + PollEvents(t, verdict), Polled(histories, t, exceeds), u) {
      assert AgreesOn(log, histories, u);
      CountPollEvents(log, t, verdict, u);
    }
  }

  class SamplingManager {
    const engine: PredicateEngine
    /** How many polls in a row exceeded each trigger, as the source counts them. */
    var triggerStates: map<TriggerType, int>
    ghost var histories: map<TriggerType, seq<bool>>
    /** The trigger callbacks that have run, in order. */
    ghost var log: seq<Event>

    ghost predicate Valid()
      reads this, engine, engine.registered
    {
      && engine.Valid()
      && histories.Keys == triggerStates.Keys
      && (forall t :: t in triggerStates ==> triggerStates[t] == Counter(histories[t], t.duration))
      && LogAgrees(log, histories)
    }

    /** Every live predicate was registered before the first poll and has heard the whole log. */
    ghost predicate InSync()
      reads this`log, engine`registered, engine.registered
    {
      forall p :: p in engine.registered && p.alive ==> p.received == Heard(engine.registered, p, log)
    }

    constructor (triggerTypes: seq<TriggerType>, engine: PredicateEngine)
      requires engine.Valid()
      ensures this.engine == engine && Valid() && log == []
      ensures triggerStates.Keys == set t | t in triggerTypes
      ensures (forall p :: p in engine.registered ==> p.received == []) ==> InSync()
    {
      this.engine := engine;
      triggerStates := map t | t in triggerTypes :: 0;
      histories := map t | t in triggerTypes :: [];
      log := [];
    }

    /** A callback into the engine. */
    method Notify(event: Event)
      requires engine.Valid()
      modifies this`log, engine, engine.registered
      ensures engine.Valid() && log == old(log) + [event] && engine.registered == old(engine.registered)
      ensures old(InSync()) ==> InSync()
    {
      engine.Deliver(event);
      forall p | p in engine.registered && p.alive
        ensures old(InSync()) ==> p.received == Heard(engine.registered, p, log + [event])
      {
        HeardNext(engine.registered, p, log, event);
      }
      log := log + [event];
    }

    /** The loop body of processTriggers, on the counter at hand. */
    method ProcessCounter(t: TriggerType, count: int, exceeds: bool) returns (next: int)
      requires engine.Valid()
      modifies this`log, engine, engine.registered
      ensures engine.Valid() && engine.registered == old(engine.registered)
      ensures next == Poll(count, t.duration, exceeds).count
      ensures log == old(log) + PollEvents(t, Poll(count, t.duration, exceeds))
      ensures old(InSync()) ==> InSync()
    {
      hide PredicateEngine.Valid, InSync;
      next := count;
      if exceeds {
        next := next + 1;
      } else {
        if next >= t.duration {
          Notify(Deactivated(t));
        }
        next := 0;
      }
      if next == t.duration {
        Notify(Activated(t));
        next := 0;
      }
    }

    method ProcessTrigger(t: TriggerType, exceeds: bool)
      requires Valid() && t in triggerStates
      modifies this, engine, engine.registered
      ensures Valid() && engine.registered == old(engine.registered)
      ensures triggerStates.Keys == old(triggerStates).Keys && histories == Polled(old(histories), t, exceeds)
      ensures old(InSync()) ==> InSync()
    {
      hide PredicateEngine.Valid, InSync, PollEvents, Poll;
      LogAgreesNext(log, histories, t, exceeds);
      hide LogAgrees, Counter;
      var next := ProcessCounter(t, triggerStates[t], exceeds);
      triggerStates := triggerStates[t := next];
      histories := histories[t := histories[t] + [exceeds]];
    }

    /** processTriggers: one poll; the container fixes no order among the triggers. */
    method ProcessTriggers(exceeds: TriggerType -> bool)
      requires Valid()
      modifies this, engine, engine.registered
      ensures Valid() && engine.registered == old(engine.registered)
      ensures histories.Keys == old(histories).Keys
      ensures forall t :: t in histories ==> histories[t] == old(histories)[t] + [exceeds(t)]
      ensures old(InSync()) ==> InSync()
    {
      hide LogAgrees, Counter, PredicateEngine.Valid, InSync;
      var todo := triggerStates.Keys;
      while todo != {}
        invariant Valid() && engine.registered == old(engine.registered) && (old(InSync()) ==> InSync())
        invariant todo <= triggerStates.Keys == old(triggerStates).Keys && histories.Keys == old(histories).Keys
        invariant forall t ::
                    t in histories ==> histories[t] == old(histories)[t] + if t in todo then [] else [exceeds(t)]
        decreases |todo|
      {
        hide Valid;
        var t :| t in todo;
        ProcessTrigger(t, exceeds(t));
        todo := todo - {t};
      }
    }
  }

  lemma {:induction false} CountZero<T>(xs: seq<T>, x: T)
    ensures Count(xs, x) == 0 <==> x !in xs
  {
    if xs != [] {
      CountZero(xs[..|xs| - 1], x);
      assert xs == xs[..|xs| - 1] + [xs[|xs| - 1]];
    }
  }

  lemma {:induction false} OnlyOperandsReach(registered: seq<Predicate>, p: Predicate, t: TriggerType)
    requires t !in p.kind.Operands()
    ensures Deliveries(registered, p, t) == 0
  {
    CountZero(p.kind.Operands(), t);
    if registered != [] {
      OnlyOperandsReach(registered[..|registered| - 1], p, t);
    }
  }

  lemma {:induction false} RepeatedActivation(t: TriggerType, events: seq<Event>, n: nat)
    ensures After(OneElement(t), events + Repeat(Activated(t), n)).callbacks ==
            After(OneElement(t), events).callbacks + n
  {
    if n == 0 {
      assert events + Repeat(Activated(t), n) == events;
    } else {
      RepeatedActivation(t, events, n - 1);
      var before := events + Repeat(Activated(t), n - 1);
      assert events + Repeat(Activated(t), n) == before + [Activated(t)];
      CallbackLaw(OneElement(t), before, Activated(t));
    }
  }

  /** `n` added up so many times. */
  function Total(n: nat, times: nat): nat
  {
    if times == 0 then 0 else Total(n, times - 1) + n
  }

  lemma {:induction false} TotalIsProduct(n: nat, times: nat)
    ensures Total(n, times) == times * n
  {
    if times > 0 {
      TotalIsProduct(n, times - 1);
      assert times * n == (times - 1) * n + n;
    }
  }

  lemma {:induction false} OneElementHears(registered: seq<Predicate>, p: Predicate, t: TriggerType, log: seq<Event>)
    requires p.kind == OneElement(t) && Deactivated(t) !in log
    ensures After(p.kind, Heard(registered, p, log)).callbacks ==
            Total(Deliveries(registered, p, t), Count(log, Activated(t)))
  {
    if log != [] {
      var front, last, n := log[..|log| - 1], log[|log| - 1], Deliveries(registered, p, t);
      OneElementHears(registered, p, t, front);
      assert log == front + [last];
      CountSnoc(front, last);
      HeardNext(registered, p, front, last);
      hide Count, Heard, Deliveries, After;
      if last.t == t {
        RepeatedActivation(t, Heard(registered, p, front), n);
      } else {
        OnlyOperandsReach(registered, p, last.t);
        assert Heard(registered, p, log) == Heard(registered, p, front);
      }
    }
  }

  /** The log ends with a fire of one of two triggers, and both have fired by now. */
  predicate BothFiredNow(log: seq<Event>, a: TriggerType, b: TriggerType)
    requires log != []
  {
    var last := log[|log| - 1];
    (last == Activated(a) || last == Activated(b)) && Activated(a) in log && Activated(b) in log
  }

  /** Log positions at which that is the case. */
  function BothFired(log: seq<Event>, a: TriggerType, b: TriggerType): nat
  {
    if log == [] then 0 else BothFired(log[..|log| - 1], a, b) + if BothFiredNow(log, a, b) then 1 else 0
  }

  lemma IsOnNext(events: seq<Event>, e: Event, t: TriggerType)
    ensures IsOn(events + [e], t) <==> if e.t == t then e.Activated? else IsOn(events, t)
  {
    assert (events + [e])[..|events|] == events;
  }

  lemma HeardOnce(registered: seq<Predicate>, p: Predicate, front: seq<Event>, last: Event)
    requires Deliveries(registered, p, last.t) <= 1
    ensures Heard(registered, p, front + [last]) ==
            Heard(registered, p, front) + if Deliveries(registered, p, last.t) == 1 then [last] else []
  {
    hide Deliveries;
    HeardNext(registered, p, front, last);
    assert Repeat(last, 1) == [last];
  }

  lemma {:induction false} OneAndTwoHears(registered: seq<Predicate>, p: Predicate, a: TriggerType, b: TriggerType,
                                          log: seq<Event>)
    requires p.kind == OneAndTwo(a, b) && Deactivated(a) !in log && Deactivated(b) !in log
    requires Deliveries(registered, p, a) == 1 && Deliveries(registered, p, b) == 1
    ensures IsOn(Heard(registered, p, log), a) <==> Activated(a) in log
    ensures IsOn(Heard(registered, p, log), b) <==> Activated(b) in log
    ensures After(p.kind, Heard(registered, p, log)).callbacks == BothFired(log, a, b)
  {
    if log != [] {
      var front, last := log[..|log| - 1], log[|log| - 1];
      assert log == front + [last];
      InFront(log);
      OneAndTwoHears(registered, p, a, b, front);
      hide Heard, Deliveries, After, IsOn, BothFired, BothFiredNow;
      BothFiredNext(front, last, a, b);
      var heard := Heard(registered, p, front);
      if last.t == a || last.t == b {
        HeardOnce(registered, p, front, last);
        IsOnNext(heard, last, a);
        IsOnNext(heard, last, b);
        CallbackLaw(p.kind, heard, last);
      } else {
        OnlyOperandsReach(registered, p, last.t);
        HeardOnce(registered, p, front, last);
        assert heard + [] == heard;
      }
    }
  }

  lemma InFront(log: seq<Event>)
    requires log != []
    ensures forall e :: e in log <==> e in log[..|log| - 1] || e == log[|log| - 1]
  {
    assert log == log[..|log| - 1] + [log[|log| - 1]];
  }

  lemma BothFiredNext(front: seq<Event>, last: Event, a: TriggerType, b: TriggerType)
    ensures var log := front + [last];
            BothFired(log, a, b) == BothFired(front, a, b) +
              if (last == Activated(a) || last == Activated(b))
                 && (last == Activated(a) || Activated(a) in front)
                 && (last == Activated(b) || Activated(b) in front) then 1 else 0
  {
    assert (front + [last])[..|front|] == front;
    InFront(front + [last]);
  }

  /** The or-and formula over what has fired so far. */
  predicate OrAndFired(log: seq<Event>, a: TriggerType, b: TriggerType, c: TriggerType)
  {
    (Activated(a) in log || Activated(b) in log) && Activated(c) in log
  }

  predicate AllFired(log: seq<Event>, a: TriggerType, b: TriggerType, c: TriggerType)
  {
    Activated(a) in log && Activated(b) in log && Activated(c) in log
  }

  /** The log ends with a fire of an operand the or-and predicate reports. */
  predicate ReportedNow(log: seq<Event>, a: TriggerType, b: TriggerType, c: TriggerType)
    requires log != []
  {
    var front, last := log[..|log| - 1], log[|log| - 1];
    && (last == Activated(a) || last == Activated(b) || last == Activated(c))
    && OrAndFired(log, a, b, c) && !(AllFired(log, a, b, c) && OrAndFired(front, a, b, c))
  }

  /** Log positions at which that is the case. */
  function Reported(log: seq<Event>, a: TriggerType, b: TriggerType, c: TriggerType): nat
  {
    if log == [] then 0
    else Reported(log[..|log| - 1], a, b, c) + if ReportedNow(log, a, b, c) then 1 else 0
  }

  /** Once all three have fired nothing is reported any more, whatever fires next. */
  lemma {:induction false} NothingReportedAgain(log: seq<Event>, more: seq<Event>, a: TriggerType, b: TriggerType,
                                                c: TriggerType)
    requires AllFired(log, a, b, c)
    ensures Reported(log + more, a, b, c) == Reported(log, a, b, c)
  {
    if more == [] {
      assert log + more == log;
    } else {
      var front := more[..|more| - 1];
      NothingReportedAgain(log, front, a, b, c);
      assert (log + more)[..|log + more| - 1] == log + front;
      assert AllFired(log + front, a, b, c) && AllFired(log + more, a, b, c);
    }
  }

  /** What an or-and predicate has heard so far, when each operand's events reach it once. */
  ghost predicate OrAndHeard(heard: seq<Event>, log: seq<Event>, a: TriggerType, b: TriggerType, c: TriggerType)
  {
    && (IsOn(heard, a) <==> Activated(a) in log)
    && (IsOn(heard, b) <==> Activated(b) in log)
    && (IsOn(heard, c) <==> Activated(c) in log)
    && (HeldAtLatestActivation(OneOrTwoAndThree(a, b, c), heard) <==> OrAndFired(log, a, b, c))
  }

  lemma HeldNext(kind: Kind, heard: seq<Event>, e: Event)
    requires e.Activated?
    ensures HeldAtLatestActivation(kind, heard + [e]) <==> Holds(kind, heard + [e])
  {}

  lemma OrAndHeardNext(heard: seq<Event>, front: seq<Event>, last: Event, a: TriggerType, b: TriggerType,
                       c: TriggerType)
    requires OrAndHeard(heard, front, a, b, c) && last.Activated? && (last.t == a || last.t == b || last.t == c)
    ensures OrAndHeard(heard + [last], front + [last], a, b, c)
    ensures After(OneOrTwoAndThree(a, b, c), heard + [last]).callbacks ==
            After(OneOrTwoAndThree(a, b, c), heard).callbacks + if ReportedNow(front + [last], a, b, c) then 1 else 0
  {
    hide After, IsOn, HeldAtLatestActivation;
    var kind := OneOrTwoAndThree(a, b, c);
    assert (front + [last])[..|front|] == front;
    IsOnNext(heard, last, a);
    IsOnNext(heard, last, b);
    IsOnNext(heard, last, c);
    HeldNext(kind, heard, last);
    CallbackLaw(kind, heard, last);
    assert AllHold(kind, heard + [last]) <==> AllFired(front + [last], a, b, c) by {
      assert kind.Operands() == [a, b, c];
    }
  }

  lemma {:induction false} OrAndHears(registered: seq<Predicate>, p: Predicate, a: TriggerType, b: TriggerType,
                                      c: TriggerType, log: seq<Event>)
    requires p.kind == OneOrTwoAndThree(a, b, c)
    requires Deactivated(a) !in log && Deactivated(b) !in log && Deactivated(c) !in log
    requires Deliveries(registered, p, a) == Deliveries(registered, p, b) == Deliveries(registered, p, c) == 1
    ensures OrAndHeard(Heard(registered, p, log), log, a, b, c)
    ensures After(p.kind, Heard(registered, p, log)).callbacks == Reported(log, a, b, c)
  {
    if log != [] {
      var front, last := log[..|log| - 1], log[|log| - 1];
      assert log == front + [last];
      InFront(log);
      OrAndHears(registered, p, a, b, c, front);
      hide Heard, Deliveries, After, IsOn, OrAndHeard;
      var heard := Heard(registered, p, front);
      if last.t == a || last.t == b || last.t == c {
        HeardOnce(registered, p, front, last);
        OrAndHeardNext(heard, front, last, a, b, c);
      } else {
        OnlyOperandsReach(registered, p, last.t);
        HeardOnce(registered, p, front, last);
        assert heard + [] == heard;
        OrAndHeardKept(heard, front, last, a, b, c);
      }
    }
  }

  lemma OrAndHeardKept(heard: seq<Event>, front: seq<Event>, last: Event, a: TriggerType, b: TriggerType,
                       c: TriggerType)
    requires OrAndHeard(heard, front, a, b, c) && last.t != a && last.t != b && last.t != c
    ensures OrAndHeard(heard, front + [last], a, b, c) && !ReportedNow(front + [last], a, b, c)
  {
    hide IsOn, HeldAtLatestActivation;
  }

  lemma NeverDeactivated(manager: SamplingManager, t: TriggerType)
    requires manager.Valid() && t.duration >= 1
    ensures Deactivated(t) !in manager.log
    ensures Count(manager.log, Activated(t)) ==
            if t in manager.histories then FloorSum(Stretches(manager.histories[t]), t.duration) else 0
  {
    assert AgreesOn(manager.log, manager.histories, t);
    if t in manager.histories {
      FiringLaw(manager.histories[t], t.duration);
    }
    CountZero(manager.log, Deactivated(t));
  }

  /**
   * From polls to callbacks: a one-element predicate registered before sampling has called back once for every whole
   * multiple of the duration in the exceeding stretches of its trigger, times the number of its registrations.
   */
  lemma OneElementEndToEnd(manager: SamplingManager, p: Predicate, t: TriggerType)
    requires manager.Valid() && manager.InSync()
    requires p in manager.engine.registered && p.alive && p.kind == OneElement(t)
    requires t in manager.histories && t.duration >= 1
    ensures p.callbacks ==
            FloorSum(Stretches(manager.histories[t]), t.duration) * Deliveries(manager.engine.registered, p, t)
  {
    NeverDeactivated(manager, t);
    OneElementHears(manager.engine.registered, p, t, manager.log);
    TotalIsProduct(Deliveries(manager.engine.registered, p, t), Count(manager.log, Activated(t)));
  }

  /**
   * A two-element predicate over distinct triggers, registered once, calls back on exactly the fires after which both
   * have fired.
   */
  lemma OneAndTwoEndToEnd(manager: SamplingManager, p: Predicate, a: TriggerType, b: TriggerType)
    requires manager.Valid() && manager.InSync()
    requires p in manager.engine.registered && p.alive && p.kind == OneAndTwo(a, b)
    requires a.duration >= 1 && b.duration >= 1
    requires Deliveries(manager.engine.registered, p, a) == 1 && Deliveries(manager.engine.registered, p, b) == 1
    ensures p.callbacks == BothFired(manager.log, a, b)
  {
    NeverDeactivated(manager, a);
    NeverDeactivated(manager, b);
    OneAndTwoHears(manager.engine.registered, p, a, b, manager.log);
  }

  /**
   * An or-and predicate, registered once, calls back on exactly the fires of its operands after which its formula is
   * fulfilled, except those that leave all three fired when the formula had been fulfilled before.
   */
  lemma OrAndEndToEnd(manager: SamplingManager, p: Predicate, a: TriggerType, b: TriggerType, c: TriggerType)
    requires manager.Valid() && manager.InSync()
    requires p in manager.engine.registered && p.alive && p.kind == OneOrTwoAndThree(a, b, c)
    requires a.duration >= 1 && b.duration >= 1 && c.duration >= 1
    requires Deliveries(manager.engine.registered, p, a) == Deliveries(manager.engine.registered, p, b)
             == Deliveries(manager.engine.registered, p, c) == 1
    ensures p.callbacks == Reported(manager.log, a, b, c)
    ensures forall k :: 0 <= k <= |manager.log| && AllFired(manager.log[..k], a, b, c) ==>
              p.callbacks == Reported(manager.log[..k], a, b, c)
  {
    NeverDeactivated(manager, a);
    NeverDeactivated(manager, b);
    NeverDeactivated(manager, c);
    OrAndHears(manager.engine.registered, p, a, b, c, manager.log);
    forall k | 0 <= k <= |manager.log| && AllFired(manager.log[..k], a, b, c)
      ensures Reported(manager.log, a, b, c) == Reported(manager.log[..k], a, b, c)
    {
      NothingReportedAgain(manager.log[..k], manager.log[k..], a, b, c);
      assert manager.log[..k] + manager.log[k..] == manager.log;
    }
  }
}
