/** The counter of one trigger over a history of polls. */
module Triggers {

  /** What one poll makes of a counter, and which callbacks it runs. */
  datatype Verdict = Verdict(count: int, deactivated: bool, fired: bool)

  function Poll(count: int, duration: int, exceeds: bool): Verdict
  {
    var counted := if exceeds then count + 1 else 0;
    var fired := counted == duration;
    Verdict(if fired then 0 else counted, !exceeds && count >= duration, fired)
  }

  /** The counter after a history of polls, oldest first. */
  function Counter(history: seq<bool>, duration: int): int
    decreases |history|, 1
  {
    if history == [] then 0 else Last(history, duration).count
  }

  function Last(history: seq<bool>, duration: int): Verdict
    requires history != []
    decreases |history|, 0
  {
    Poll(Counter(history[..|history| - 1], duration), duration, history[|history| - 1])
  }

  function Fires(history: seq<bool>, duration: int): nat
  {
    if history == [] then 0
    else Fires(history[..|history| - 1], duration) + if Last(history, duration).fired then 1 else 0
  }

  function Deactivations(history: seq<bool>, duration: int): nat
  {
    if history == [] then 0
    else Deactivations(history[..|history| - 1], duration) + if Last(history, duration).deactivated then 1 else 0
  }

  /** Lengths of the stretches of exceeding polls, cut at every poll that does not exceed; the last one is current. */
  function Stretches(history: seq<bool>): (lengths: seq<nat>)
    ensures lengths != []
  {
    if history == [] then [0] else
      var before := Stretches(history[..|history| - 1]);
      if history[|history| - 1] then before[..|before| - 1] + [before[|before| - 1] + 1] else before + [0]
  }

  function CurrentRun(history: seq<bool>): nat
  {
    var lengths := Stretches(history); lengths[|lengths| - 1]
  }

  /** The history is its stretches with one non-exceeding poll between each two. */
  function Rebuilt(lengths: seq<nat>): seq<bool>
    requires lengths != []
  {
    (if |lengths| == 1 then [] else Rebuilt(lengths[..|lengths| - 1]) + [false])
    + seq(lengths[|lengths| - 1], _ => true)
  }

  lemma {:induction false} StretchesAreTheHistory(history: seq<bool>)
    ensures Rebuilt(Stretches(history)) == history
  {
    if history != [] {
      var front, last := history[..|history| - 1], history[|history| - 1];
      var before := Stretches(front);
      var n := |before| - 1;
      StretchesAreTheHistory(front);
      if last {
        var longer := before[..n] + [before[n] + 1];
        assert longer[..n] == before[..n];
        assert seq(before[n] + 1, _ => true) == seq(before[n], _ => true) + [true];
      } else {
        assert (before + [0])[..n + 1] == before;
      }
      assert history == front + [last];
    }
  }

  /** Whole multiples of the duration contained in each stretch. */
  function FloorSum(lengths: seq<nat>, duration: int): nat
    requires duration >= 1
  {
    if lengths == [] then 0 else FloorSum(lengths[..|lengths| - 1], duration) + lengths[|lengths| - 1] / duration
  }

  lemma OneMore(n: nat, duration: int)
    requires duration >= 1
    ensures (n + 1) / duration == n / duration + if (n + 1) % duration == 0 then 1 else 0
    ensures (n + 1) % duration == if n % duration + 1 == duration then 0 else n % duration + 1
  {
    var q, r := n / duration, n % duration;
    assert n == q * duration + r;
    if r + 1 == duration {
      assert n + 1 == (q + 1) * duration;
      DivModUnique(n + 1, duration, q + 1, 0);
    } else {
      DivModUnique(n + 1, duration, q, r + 1);
    }
  }

  lemma Gap(a: int, b: int, d: int)
    requires a < b && d >= 1
    ensures a * d + d <= b * d
  {
    assert (b - a - 1) * d >= 0;
    assert (b - a - 1) * d == b * d - a * d - d;
  }

  lemma DivModUnique(n: int, d: int, q: int, r: int)
    requires d >= 1 && 0 <= r < d && n == q * d + r
    ensures n / d == q && n % d == r
  {
    var p := n / d;
    assert n == p * d + n % d;
    if q < p {
      Gap(q, p, d);
    } else if p < q {
      Gap(p, q, d);
    }
  }

  /**
   * With a duration of at least 1, over every history: the counter is the current run modulo the duration, the trigger
   * fires exactly when the run reaches a multiple of it, the fires are the whole multiples in all stretches together,
   * and the deactivation callback never runs.
   */
  lemma {:induction false} FiringLaw(history: seq<bool>, duration: int)
    requires duration >= 1
    ensures Counter(history, duration) == CurrentRun(history) % duration
    ensures history != [] ==>
            (Last(history, duration).fired <==> CurrentRun(history) > 0 && CurrentRun(history) % duration == 0)
    ensures Fires(history, duration) == FloorSum(Stretches(history), duration)
    ensures Deactivations(history, duration) == 0
  {
    if history == [] {
      DivModUnique(0, duration, 0, 0);
      assert Stretches(history) == [0] && FloorSum([0][..0], duration) == 0;
    } else {
      var front, last := history[..|history| - 1], history[|history| - 1];
      FiringLaw(front, duration);
      var before := Stretches(front);
      var n := |before| - 1;
      if last {
        OneMore(before[n], duration);
        assert Stretches(history)[..n] == before[..n];
      } else {
        DivModUnique(0, duration, 0, 0);
        assert Stretches(history)[..n + 1] == before;
      }
    }
  }

  /** The deactivation callback runs exactly for durations below 1, on polls that do not exceed. */
  lemma {:induction false} DeactivationIff(history: seq<bool>, duration: int)
    requires history != []
    ensures Last(history, duration).deactivated <==> duration <= 0 && !history[|history| - 1]
  {
    var front := history[..|history| - 1];
    if duration >= 1 {
      FiringLaw(front, duration);
      assert Counter(front, duration) < duration;
    } else {
      CounterNotNegative(front, duration);
    }
  }

  lemma {:induction false} CounterNotNegative(history: seq<bool>, duration: int)
    ensures Counter(history, duration) >= 0
  {
    if history != [] {
      CounterNotNegative(history[..|history| - 1], duration);
    }
  }

  /** A duration of 0 fires on every poll that does not exceed, a negative one never. */
  lemma FiringBelowOne(history: seq<bool>, duration: int)
    requires history != [] && duration <= 0
    ensures Last(history, duration).fired <==> duration == 0 && !history[|history| - 1]
  {
    CounterNotNegative(history[..|history| - 1], duration);
  }
}
