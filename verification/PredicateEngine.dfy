/** The index from triggers to predicates, and the delivery of trigger events through it. */
module PredicateEngines {
  import opened Text
  import opened Config
  import opened Predicates

  function Repeat<T>(x: T, n: nat): seq<T>
  {
    seq(n, _ => x)
  }

  function Count<T(==)>(xs: seq<T>, x: T): nat
  {
    if xs == [] then 0 else Count(xs[..|xs| - 1], x) + if xs[|xs| - 1] == x then 1 else 0
  }

  lemma CountNext<T>(xs: seq<T>, i: nat)
    requires i < |xs|
    ensures forall x :: Count(xs[..i + 1], x) == Count(xs[..i], x) + if xs[i] == x then 1 else 0
  {
    assert xs[..i + 1][..i] == xs[..i];
  }

  /** A plain scan over all registered predicates: each as often as the trigger occurs among its operands. */
  ghost function Scan(registered: seq<Predicate>, t: TriggerType): seq<Predicate>
  {
    if registered == [] then [] else
      var p := registered[|registered| - 1];
      Scan(registered[..|registered| - 1], t) + Repeat(p, Count(p.kind.Operands(), t))
  }

  /** How many times one event for `t` reaches `p`: once for every registration and every operand that is `t`. */
  ghost function Deliveries(registered: seq<Predicate>, p: Predicate, t: TriggerType): nat
  {
    if registered == [] then 0
    else Deliveries(registered[..|registered| - 1], p, t) +
         if registered[|registered| - 1] == p then Count(p.kind.Operands(), t) else 0
  }

  lemma RepeatNext<T>(x: T, n: nat)
    ensures Repeat(x, n + 1) == Repeat(x, n) + [x]
  {}

  lemma {:induction false} CountRepeat<T>(xs: seq<T>, x: T, n: nat, y: T)
    ensures Count(xs + Repeat(x, n), y) == Count(xs, y) + if x == y then n else 0
  {
    if n == 0 {
      assert xs + Repeat(x, n) == xs;
    } else {
      CountRepeat(xs, x, n - 1, y);
      var longer := xs + Repeat(x, n);
      assert longer[..|longer| - 1] == xs + Repeat(x, n - 1);
    }
  }

  lemma {:induction false} ScanCount(registered: seq<Predicate>, p: Predicate, t: TriggerType)
    ensures Count(Scan(registered, t), p) == Deliveries(registered, p, t)
  {
    if registered != [] {
      var front, last := registered[..|registered| - 1], registered[|registered| - 1];
      ScanCount(front, p, t);
      CountRepeat(Scan(front, t), last, Count(last.kind.Operands(), t), p);
    }
  }

  lemma {:induction false} ScanMembers(registered: seq<Predicate>, t: TriggerType)
    ensures forall p :: p in Scan(registered, t) ==> p in registered
  {
    if registered != [] {
      ScanMembers(registered[..|registered| - 1], t);
    }
  }

  type Index = map<TriggerType, seq<Predicate>>

  function Listed(index: Index, t: TriggerType): seq<Predicate>
  {
    if t in index then index[t] else []
  }

  /** The index after the first `i` operands of a predicate have been entered. */
  ghost predicate Entered(before: Index, index: Index, p: Predicate, operands: seq<TriggerType>, i: nat)
    requires i <= |operands|
  {
    forall t :: Listed(index, t) == Listed(before, t) + Repeat(p, Count(operands[..i], t))
  }

  lemma EnterNext(before: Index, index: Index, p: Predicate, operands: seq<TriggerType>, i: nat)
    requires i < |operands| && Entered(before, index, p, operands, i)
    ensures Entered(before, index[operands[i] := Listed(index, operands[i]) + [p]], p, operands, i + 1)
  {
    var next := index[operands[i] := Listed(index, operands[i]) + [p]];
    forall t ensures Listed(next, t) == Listed(before, t) + Repeat(p, Count(operands[..i + 1], t)) {
      CountNext(operands, i);
      RepeatNext(p, Count(operands[..i], t));
      Associative(Listed(before, t), Repeat(p, Count(operands[..i], t)), [p]);
    }
  }

  /** The index holds, for every trigger, what a plain scan finds. */
  ghost predicate Agrees(index: Index, registered: seq<Predicate>)
  {
    forall t :: Listed(index, t) == Scan(registered, t)
  }

  lemma AgreesNext(before: Index, index: Index, registered: seq<Predicate>, p: Predicate)
    requires Agrees(before, registered) && Entered(before, index, p, p.kind.Operands(), |p.kind.Operands()|)
    ensures Agrees(index, registered + [p])
  {
    var operands, longer := p.kind.Operands(), registered + [p];
    assert operands[..|operands|] == operands && longer[..|registered|] == registered;
  }

  /** What one event amounts to for a registered predicate. */
  ghost function Told(registered: seq<Predicate>, p: Predicate, event: Event): seq<Event>
    reads p
  {
    if p.alive then Repeat(event, Deliveries(registered, p, event.t)) else []
  }

  /** The loop over one vector of weak pointers. */
  method DeliverAll(list: seq<Predicate>, event: Event, ghost all: set<Predicate>)
    requires forall p :: p in list ==> p in all
    requires forall p :: p in all ==> p.Valid()
    modifies all
    ensures forall p :: p in all ==> p.Valid() && p.alive == old(p.alive)
    ensures forall p :: p in all ==>
              p.received == old(p.received) + Repeat(event, if p.alive then Count(list, p) else 0)
  {
    hide Predicate.Valid, Count;
    CountNone(list);
    for i := 0 to |list|
      invariant forall p :: p in all ==> p.Valid() && p.alive == old(p.alive)
      invariant forall p :: p in all ==>
                  p.received == old(p.received) + Repeat(event, if p.alive then Count(list[..i], p) else 0)
    {
      var p := list[i];
      CountNext(list, i);
      RepeatNext(event, Count(list[..i], p));
      Associative(old(p.received), Repeat(event, Count(list[..i], p)), [event]);
      p.Tell(event);
    }
    assert list[..|list|] == list;
  }

  lemma CountNone<T>(xs: seq<T>)
    ensures forall x :: Count(xs[..0], x) == 0
  {}

  class PredicateEngine {
    /** The vectors of weak pointers, by trigger. */
    var predicates: Index
    ghost var registered: seq<Predicate>

    ghost predicate Valid()
      reads this, registered
    {
      Agrees(predicates, registered) && forall p :: p in registered ==> p.Valid()
    }

    constructor ()
      ensures Valid() && registered == []
    {
      predicates, registered := map[], [];
    }

    /** addPredicate: one entry for every operand. */
    method AddPredicate(predicate_: Predicate)
      requires Valid() && predicate_.Valid()
      modifies this
      ensures Valid() && registered == old(registered) + [predicate_]
    {
      hide Predicate.Valid, Agrees;
      var operands := predicate_.kind.Operands();
      CountNone(operands);
      for i := 0 to |operands|
        invariant registered == old(registered) && Entered(old(predicates), predicates, predicate_, operands, i)
      {
        hide Entered;
        EnterNext(old(predicates), predicates, predicate_, operands, i);
        var t := operands[i];
        predicates := predicates[t := (if t in predicates then predicates[t] else []) + [predicate_]];
      }
      AgreesNext(old(predicates), predicates, registered, predicate_);
      registered := registered + [predicate_];
    }

    /** triggerActivation and triggerDeactivation: the event goes to the listed predicates in order. */
    method Deliver(event: Event)
      requires Valid()
      modifies this`predicates, registered
      ensures Valid()
      ensures forall p :: p in registered ==>
                p.alive == old(p.alive) && p.received == old(p.received) + Told(registered, p, event)
    {
      hide Predicate.Valid, Scan, Count;
      if event.t !in predicates {
        predicates := predicates[event.t := []];
      }
      ScanMembers(registered, event.t);
      DeliverAll(predicates[event.t], event, set p | p in registered);
      forall p | p in registered ensures p.received == old(p.received) + Told(registered, p, event) {
        ScanCount(registered, p, event.t);
      }
    }
  }
}
