/** Predicates over triggers: when their callbacks run, over every sequence of activations and deactivations. */
module Predicates {
  import opened Config

  /** The three predicate classes with their operands. */
  datatype Kind =
    | OneElement(operand: TriggerType)
    | OneAndTwo(and1: TriggerType, and2: TriggerType)
    | OneOrTwoAndThree(or1: TriggerType, or2: TriggerType, and3: TriggerType)
  {
    function Operands(): (operands: seq<TriggerType>)
      ensures operands != []
    {
      match this
      case OneElement(operand) => [operand]
      case OneAndTwo(and1, and2) => [and1, and2]
      case OneOrTwoAndThree(or1, or2, and3) => [or1, or2, and3]
    }
  }

  datatype Event = Activated(t: TriggerType) | Deactivated(t: TriggerType)

  /** What a predicate object remembers, and how often its callback has run. */
  datatype Recall = Recall(triggerState: map<TriggerType, bool>, lastSatisfied: bool, callbacks: nat)
  {
    predicate Has(kind: Kind)
    {
      forall t :: t in kind.Operands() ==> t in triggerState
    }
  }

  /** The predicate's formula over the remembered trigger states. */
  predicate Satisfied(kind: Kind, state: map<TriggerType, bool>)
    requires forall t :: t in kind.Operands() ==> t in state
  {
    match kind
    case OneElement(operand) => state[operand]
    case OneAndTwo(and1, and2) => state[and1] && state[and2]
    case OneOrTwoAndThree(or1, or2, and3) => (state[or1] || state[or2]) && state[and3]
  }

  predicate AllOn(kind: Kind, state: map<TriggerType, bool>)
    requires forall t :: t in kind.Operands() ==> t in state
  {
    forall t :: t in kind.Operands() ==> state[t]
  }

  function Begin(kind: Kind): (recall: Recall)
    ensures recall.Has(kind)
  {
    Recall(map t | t in kind.Operands() :: false, false, 0)
  }

  function React(kind: Kind, recall: Recall, event: Event): (next: Recall)
    requires recall.Has(kind)
    ensures next.Has(kind)
  {
    match event
    case Deactivated(t) => recall.(triggerState := recall.triggerState[t := false])
    case Activated(t) =>
      var state := recall.triggerState[t := true];
      var silent := kind.OneOrTwoAndThree? && recall.lastSatisfied && AllOn(kind, state);
      var now := Satisfied(kind, state);
      Recall(state, if kind.OneOrTwoAndThree? then now else recall.lastSatisfied,
             recall.callbacks + if now && !silent then 1 else 0)
  }

  /** What is remembered after a history of events, oldest first. */
  function After(kind: Kind, events: seq<Event>): (recall: Recall)
    ensures recall.Has(kind)
  {
    if events == [] then Begin(kind) else React(kind, After(kind, events[..|events| - 1]), events[|events| - 1])
  }

  /** The latest event about the trigger was an activation. */
  predicate IsOn(events: seq<Event>, t: TriggerType)
  {
    events != [] && (if events[|events| - 1].t == t then events[|events| - 1].Activated?
                     else IsOn(events[..|events| - 1], t))
  }

  /** The formula over the history itself. */
  predicate Holds(kind: Kind, events: seq<Event>)
  {
    match kind
    case OneElement(operand) => IsOn(events, operand)
    case OneAndTwo(and1, and2) => IsOn(events, and1) && IsOn(events, and2)
    case OneOrTwoAndThree(or1, or2, and3) => (IsOn(events, or1) || IsOn(events, or2)) && IsOn(events, and3)
  }

  predicate AllHold(kind: Kind, events: seq<Event>)
  {
    forall t :: t in kind.Operands() ==> IsOn(events, t)
  }

  /** The formula right after the latest activation; later deactivations are not looked at. */
  predicate HeldAtLatestActivation(kind: Kind, events: seq<Event>)
  {
    events != [] && (if events[|events| - 1].Activated? then Holds(kind, events)
                     else HeldAtLatestActivation(kind, events[..|events| - 1]))
  }

  lemma {:induction false} StateIsHistory(kind: Kind, events: seq<Event>, t: TriggerType)
    requires t in kind.Operands()
    ensures After(kind, events).triggerState[t] <==> IsOn(events, t)
  {
    if events != [] {
      StateIsHistory(kind, events[..|events| - 1], t);
    }
  }

  lemma FormulaIsHistory(kind: Kind, events: seq<Event>)
    ensures Satisfied(kind, After(kind, events).triggerState) <==> Holds(kind, events)
    ensures AllOn(kind, After(kind, events).triggerState) <==> AllHold(kind, events)
  {
    forall t | t in kind.Operands() ensures After(kind, events).triggerState[t] <==> IsOn(events, t) {
      StateIsHistory(kind, events, t);
    }
    assert kind.Operands()[0] in kind.Operands();
    assert kind.OneAndTwo? || kind.OneOrTwoAndThree? ==> kind.Operands()[1] in kind.Operands();
    assert kind.OneOrTwoAndThree? ==> kind.Operands()[2] in kind.Operands();
  }

  /** The hidden bit of the three-operand predicate is the formula's value right after the latest activation. */
  lemma {:induction false} HiddenBit(kind: Kind, events: seq<Event>)
    requires kind.OneOrTwoAndThree?
    ensures After(kind, events).lastSatisfied <==> HeldAtLatestActivation(kind, events)
  {
    if events != [] {
      HiddenBit(kind, events[..|events| - 1]);
      FormulaIsHistory(kind, events);
    }
  }

  /**
   * When a callback runs, over every history: on activations after which the formula holds, except that the
   * three-operand predicate keeps silent when all three hold and the formula held at the previous activation.
   */
  lemma CallbackLaw(kind: Kind, events: seq<Event>, event: Event)
    ensures After(kind, events + [event]).callbacks == After(kind, events).callbacks + (
              if event.Activated? && Holds(kind, events + [event])
                 && !(kind.OneOrTwoAndThree? && AllHold(kind, events + [event]) && HeldAtLatestActivation(kind, events))
              then 1 else 0)
  {
    var longer := events + [event];
    assert longer[..|events|] == events;
    FormulaIsHistory(kind, longer);
    if kind.OneOrTwoAndThree? {
      HiddenBit(kind, events);
    }
  }

  /** With activations only, a trigger that is on stays on. */
  lemma {:induction false} OnStaysOn(events: seq<Event>, more: seq<Event>, t: TriggerType)
    requires IsOn(events, t) && forall e :: e in more ==> e.Activated?
    ensures IsOn(events + more, t)
  {
    if more == [] {
      assert events + more == events;
    } else {
      var front := more[..|more| - 1];
      OnStaysOn(events, front, t);
      assert (events + more)[..|events + more| - 1] == events + front;
      assert more[|more| - 1] in more;
    }
  }

  /**
   * After an activation at which all three operands hold, the three-operand predicate never calls back again unless
   * something is deactivated.
   */
  lemma {:induction false} SilentForGood(kind: Kind, events: seq<Event>, more: seq<Event>)
    requires kind.OneOrTwoAndThree? && events != [] && events[|events| - 1].Activated? && AllHold(kind, events)
    requires forall e :: e in more ==> e.Activated?
    ensures After(kind, events + more).callbacks == After(kind, events).callbacks
    ensures HeldAtLatestActivation(kind, events + more)
  {
    AllHoldIsEnough(kind, events);
    if more == [] {
      assert events + more == events;
    } else {
      var front, last := more[..|more| - 1], more[|more| - 1];
      assert last in more;
      SilentForGood(kind, events, front);
      assert events + more == (events + front) + [last];
      CallbackLaw(kind, events + front, last);
      forall t | t in kind.Operands() ensures IsOn(events + more, t) {
        OnStaysOn(events, more, t);
      }
      AllHoldIsEnough(kind, events + more);
    }
  }

  lemma AllHoldIsEnough(kind: Kind, events: seq<Event>)
    requires AllHold(kind, events)
    ensures Holds(kind, events)
  {
    assert kind.Operands()[0] in kind.Operands();
    assert kind.OneAndTwo? || kind.OneOrTwoAndThree? ==> kind.Operands()[1] in kind.Operands();
    assert kind.OneOrTwoAndThree? ==> kind.Operands()[2] in kind.Operands();
  }

  /** A deactivation does not refresh the hidden bit, so a renewed satisfaction of all three can go unreported. */
  lemma MissedAfterDeactivation(a: TriggerType, b: TriggerType, c: TriggerType)
    requires a != b && b != c && a != c
    ensures var kind := OneOrTwoAndThree(a, b, c);
            var events := [Activated(a), Activated(b), Activated(c), Deactivated(c)];
            && !Holds(kind, events) && Holds(kind, events + [Activated(c)])
            && After(kind, events + [Activated(c)]).callbacks == After(kind, events).callbacks
  {
    var kind := OneOrTwoAndThree(a, b, c);
    var e3 := [Activated(a), Activated(b), Activated(c)];
    var e4 := e3 + [Deactivated(c)];
    var e5 := e4 + [Activated(c)];
    assert e3[..2] == [Activated(a), Activated(b)] && e3[..2][..1] == [Activated(a)];
    assert e4[..3] == e3 && e5[..4] == e4;
    assert IsOn(e3, a) && IsOn(e3, b) && IsOn(e3, c);
    assert e4 == [Activated(a), Activated(b), Activated(c), Deactivated(c)];
    assert Holds(kind, e3) && HeldAtLatestActivation(kind, e3) && HeldAtLatestActivation(kind, e4);
    assert IsOn(e4, a) && IsOn(e4, b) && IsOn(e5, a) && IsOn(e5, b) && IsOn(e5, c);
    assert forall t :: t in kind.Operands() ==> t == a || t == b || t == c;
    CallbackLaw(kind, e4, Activated(c));
  }

  /** A predicate object. The ghost history says what it has been told. */
  class Predicate {
    const kind: Kind
    var triggerState: map<TriggerType, bool>
    var lastSatisfied: bool
    /** Number of callback invocations so far. */
    var callbacks: nat
    /** False once the owner has dropped the object; the engine's weak pointer then no longer locks. */
    var alive: bool
    ghost var received: seq<Event>

    ghost function View(): Recall
      reads this
    {
      Recall(triggerState, lastSatisfied, callbacks)
    }

    ghost predicate Valid()
      reads this
    {
      View() == After(kind, received)
    }

    constructor (kind: Kind)
      ensures this.kind == kind && Valid() && alive && received == []
    {
      this.kind := kind;
      triggerState := map t | t in kind.Operands() :: false;
      lastSatisfied, callbacks, alive, received := false, 0, true, [];
    }

    /** isPredicateSatisfied of the three classes; one of them writes. */
    method IsPredicateSatisfied() returns (satisfied: bool)
      requires View().Has(kind)
      modifies this`lastSatisfied
      ensures satisfied <==> Satisfied(kind, triggerState)
                             && !(kind.OneOrTwoAndThree? && old(lastSatisfied) && AllOn(kind, triggerState))
      ensures lastSatisfied == if kind.OneOrTwoAndThree? then Satisfied(kind, triggerState) else old(lastSatisfied)
    {
      assert forall k :: 0 <= k < |kind.Operands()| ==> kind.Operands()[k] in kind.Operands();
      match kind {
        case OneElement(operand) =>
          satisfied := triggerState[operand];
        case OneAndTwo(and1, and2) =>
          satisfied := triggerState[and1] && triggerState[and2];
        case OneOrTwoAndThree(or1, or2, and3) =>
          assert kind.Operands()[0] == or1 && kind.Operands()[1] == or2 && kind.Operands()[2] == and3;
          if triggerState[or1] && triggerState[or2] && lastSatisfied && triggerState[and3] {
            return false;
          }
          lastSatisfied := (triggerState[or1] || triggerState[or2]) && triggerState[and3];
          satisfied := lastSatisfied;
      }
    }

    method Activate(t: TriggerType)
      requires Valid()
      modifies this`triggerState, this`lastSatisfied, this`callbacks, this`received
      ensures Valid() && received == old(received) + [Activated(t)]
    {
      triggerState := triggerState[t := true];
      var satisfied := IsPredicateSatisfied();
      if satisfied {
        callbacks := callbacks + 1;
      }
      received := received + [Activated(t)];
      assert received[..|received| - 1] == old(received);
    }

    method Deactivate(t: TriggerType)
      requires Valid()
      modifies this`triggerState, this`received
      ensures Valid() && received == old(received) + [Deactivated(t)]
    {
      triggerState := triggerState[t := false];
      received := received + [Deactivated(t)];
      assert received[..|received| - 1] == old(received);
    }

    /** What the engine does with a weak pointer to this object: nothing once the object is gone. */
    method Tell(event: Event)
      requires Valid()
      modifies this
      ensures Valid() && alive == old(alive) && received == old(received) + if alive then [event] else []
    {
      if alive {
        if event.Activated? {
          Activate(event.t);
        } else {
          Deactivate(event.t);
        }
      }
    }
  }
}
