/** The averaging loop of the sampling manager, over the reals. */
module Averaging {

  /** The loop divides the running sum by the number of samples on every turn; newest sample first. */
  function Accumulated(samples: seq<real>, n: real): real
    requires samples != [] && n > 0.0
  {
    if |samples| == 1 then samples[0]
    else (Accumulated(samples[..|samples| - 1], n) + samples[|samples| - 1]) / n
  }

  function Power(x: real, k: nat): (p: real)
    requires x > 0.0
    ensures p > 0.0
  {
    if k == 0 then 1.0 else Positive(x, Power(x, k - 1)); x * Power(x, k - 1)
  }

  lemma Positive(x: real, y: real)
    requires x > 0.0 && y > 0.0
    ensures x * y > 0.0
  {}

  /** How much the sample at place `j`, counted from the newest, weighs in the result over `m` samples. */
  function Weight(m: nat, j: nat, n: real): real
    requires j < m && n > 0.0
  {
    1.0 / Power(n, if j == 0 then m - 1 else m - j)
  }

  /** The weighted sum of the first samples out of `m`. */
  function WeightedSum(samples: seq<real>, m: nat, n: real): real
    requires |samples| <= m && n > 0.0
  {
    if samples == [] then 0.0
    else WeightedSum(samples[..|samples| - 1], m, n) + samples[|samples| - 1] * Weight(m, |samples| - 1, n)
  }

  lemma DivideTwice(p: real, n: real)
    requires p > 0.0 && n > 0.0
    ensures n * p > 0.0 && 1.0 / (n * p) == (1.0 / p) / n
  {}

  lemma WeightNext(m: nat, j: nat, n: real)
    requires j < m && n > 0.0
    ensures Weight(m + 1, j, n) == Weight(m, j, n) / n
  {
    var k := if j == 0 then m - 1 else m - j;
    DivideTwice(Power(n, k), n);
  }

  lemma DivideSum(a: real, x: real, w: real, n: real)
    requires n > 0.0
    ensures (a + x * w) / n == a / n + x * (w / n)
  {}

  /** One more sample divides all weights by `n`. */
  lemma {:induction false} SumNext(samples: seq<real>, m: nat, n: real)
    requires |samples| <= m && n > 0.0
    ensures WeightedSum(samples, m + 1, n) == WeightedSum(samples, m, n) / n
  {
    hide Weight;
    if samples != [] {
      var front, j := samples[..|samples| - 1], |samples| - 1;
      SumNext(front, m, n);
      WeightNext(m, j, n);
      DivideSum(WeightedSum(front, m, n), samples[j], Weight(m, j, n), n);
    }
  }

  /**
   * The closed form of the loop over m samples, newest s0: s0 / n^(m-1) plus the sum of sj / n^(m-j). The newest
   * sample weighs least.
   */
  lemma {:induction false} ClosedForm(samples: seq<real>, n: real)
    requires samples != [] && n > 0.0
    ensures Accumulated(samples, n) == WeightedSum(samples, |samples|, n)
  {
    var m := |samples|;
    var front := samples[..m - 1];
    if m == 1 {
      assert front == [] && Power(n, 0) == 1.0;
    } else {
      ClosedForm(front, n);
      SumNext(front, m - 1, n);
      assert Power(n, 1) == n by {
        assert Power(n, 0) == 1.0;
      }
      DivideSum(Accumulated(front, n), samples[m - 1], 1.0, n);
    }
  }

  function Sum(samples: seq<real>): real
  {
    if samples == [] then 0.0 else Sum(samples[..|samples| - 1]) + samples[|samples| - 1]
  }

  function Average(samples: seq<real>): real
    requires samples != []
  {
    Sum(samples) / |samples| as real
  }

  lemma Scale(x: real, y: real, n: real)
    requires n > 0.0 && x <= y
    ensures x / n <= y / n
  {}

  lemma Shrink(x: real, n: real)
    requires n >= 2.0 && x >= 0.0
    ensures 0.0 <= 2.0 * x / n <= x
    ensures n > 2.0 && x > 0.0 ==> 2.0 * x / n < x
  {
    var q := 2.0 * x / n;
    assert q * n == 2.0 * x;
    if n > 2.0 && x > 0.0 {
      assert (n - 2.0) * x > 0.0;
      assert q >= x ==> (q - x) * n >= 0.0;
    }
  }

  /** With at least two samples between 0 and a bound, the result lies between 0 and twice the bound over n. */
  lemma {:induction false} Bounds(samples: seq<real>, n: real, bound: real)
    requires samples != [] && n >= 2.0
    requires forall k :: 0 <= k < |samples| ==> 0.0 <= samples[k] <= bound
    ensures 0.0 <= Accumulated(samples, n) <= bound
    ensures |samples| >= 2 ==> Accumulated(samples, n) <= 2.0 * bound / n
  {
    if |samples| > 1 {
      var front, last := samples[..|samples| - 1], samples[|samples| - 1];
      Bounds(front, n, bound);
      Scale(0.0, Accumulated(front, n) + last, n);
      Scale(Accumulated(front, n) + last, 2.0 * bound, n);
      Shrink(bound, n);
    }
  }

  predicate AllZero(samples: seq<real>)
  {
    forall k :: 0 <= k < |samples| ==> samples[k] == 0.0
  }

  predicate NotNegative(samples: seq<real>)
  {
    forall k :: 0 <= k < |samples| ==> samples[k] >= 0.0
  }

  lemma {:induction false} SumIsZeroIff(samples: seq<real>)
    requires NotNegative(samples)
    ensures Sum(samples) >= 0.0 && (Sum(samples) == 0.0 <==> AllZero(samples))
  {
    if samples != [] {
      var front := samples[..|samples| - 1];
      SumIsZeroIff(front);
      assert forall k :: 0 <= k < |front| ==> front[k] == samples[k];
    }
  }

  lemma Divided(x: real, n: real)
    requires n > 1.0 && x >= 0.0
    ensures x / n <= x && (x / n == x <==> x == 0.0)
  {
    var q := x / n;
    Cancel(q, n);
    assert n * q == x;
    if x == 0.0 {
      assert q == 0.0;
    } else {
      assert q > 0.0;
      Positive(n - 1.0, q);
      assert n * q - q == (n - 1.0) * q;
    }
  }

  /** Two samples or more are never summed up in full, unless there is nothing to sum. */
  lemma {:induction false} BelowSum(samples: seq<real>, n: real)
    requires samples != [] && NotNegative(samples) && n > 1.0
    ensures 0.0 <= Accumulated(samples, n) <= Sum(samples)
    ensures |samples| >= 2 ==> (Accumulated(samples, n) == Sum(samples) <==> AllZero(samples))
  {
    SumIsZeroIff(samples);
    if |samples| == 1 {
      assert samples[..0] == [];
    } else {
      var front, last := samples[..|samples| - 1], samples[|samples| - 1];
      BelowSum(front, n);
      Scale(0.0, Accumulated(front, n) + last, n);
      Scale(Accumulated(front, n) + last, Sum(samples), n);
      Divided(Sum(samples), n);
    }
  }

  lemma SameQuotient(x: real, y: real, n: real)
    requires n > 0.0
    ensures x / n == y / n <==> x == y
  {
    assert x / n * n == x && y / n * n == y;
  }

  /**
   * Over three samples or more, none negative, the loop never reports more than the arithmetic mean, and reports the
   * mean exactly when every sample but the oldest is 0.
   */
  lemma UnderreportsIff(samples: seq<real>)
    requires |samples| >= 3 && NotNegative(samples)
    ensures Accumulated(samples, |samples| as real) <= Average(samples)
    ensures Accumulated(samples, |samples| as real) == Average(samples) <==> AllZero(samples[..|samples| - 1])
  {
    var n := |samples| as real;
    var front, last := samples[..|samples| - 1], samples[|samples| - 1];
    BelowSum(front, n);
    Scale(Accumulated(front, n) + last, Sum(samples), n);
    SameQuotient(Accumulated(front, n) + last, Sum(samples), n);
  }

  /** A constant positive load is reported strictly below its value from three samples on. */
  lemma ConstantIsUnderreported(samples: seq<real>, c: real)
    requires |samples| >= 3 && c > 0.0 && forall k :: 0 <= k < |samples| ==> samples[k] == c
    ensures Accumulated(samples, |samples| as real) < c == Average(samples)
  {
    UnderreportsIff(samples);
    AverageOfConstant(samples, c);
    assert samples[..|samples| - 1][0] == c;
  }

  lemma AverageOfConstant(samples: seq<real>, c: real)
    requires samples != [] && forall k :: 0 <= k < |samples| ==> samples[k] == c
    ensures Average(samples) == c
  {
    SumOfConstant(samples, c);
    Cancel(c, |samples| as real);
  }

  lemma Cancel(c: real, n: real)
    requires n > 0.0
    ensures n * c / n == c
  {}

  lemma {:induction false} SumOfConstant(samples: seq<real>, c: real)
    requires forall k :: 0 <= k < |samples| ==> samples[k] == c
    ensures Sum(samples) == |samples| as real * c
  {
    if samples != [] {
      SumOfConstant(samples[..|samples| - 1], c);
      assert |samples| as real * c == (|samples| - 1) as real * c + c;
    }
  }

  lemma ExactForTwo(samples: seq<real>)
    requires 1 <= |samples| <= 2
    ensures Accumulated(samples, |samples| as real) == Average(samples)
  {
    assert samples[..1] == [samples[0]] && [samples[0]][..0] == [];
    assert Sum([samples[0]]) == samples[0];
    if |samples| == 1 {
      assert samples == [samples[0]];
    } else {
      assert samples[..|samples| - 1] == [samples[0]];
    }
  }

  /** The loop computes the arithmetic mean of every window of n samples exactly when n is at most 2. */
  lemma ArithmeticMeanIff(n: nat)
    requires n >= 1
    ensures (forall samples: seq<real> :: |samples| == n ==> Accumulated(samples, n as real) == Average(samples))
            <==> n <= 2
  {
    if n <= 2 {
      forall samples: seq<real> | |samples| == n ensures Accumulated(samples, n as real) == Average(samples) {
        ExactForTwo(samples);
      }
    } else {
      var ones := seq(n, _ => 1.0);
      ConstantIsUnderreported(ones, 1.0);
    }
  }
}
