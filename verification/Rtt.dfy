/** Round-trip time estimation over exact rationals. */
module Rtt {
  import opened Wrappers
  import opened Wire

  const ALPHA: real := 0.2

  datatype RttState = RttState(minUs: Option<uint32>, ewmaUs: Option<real>)

  const NO_RTT := RttState(None, None)

  function WithSample(s: RttState, rttUs: uint32): RttState {
    RttState(
      if s.minUs.None? || rttUs < s.minUs.value then Some(rttUs) else s.minUs,
      if s.ewmaUs.None? then Some(rttUs as real)
      else Some(ALPHA * (rttUs as real) + (1.0 - ALPHA) * s.ewmaUs.value))
  }

  /** One more sample: it lowers the minimum or not, and enters the average with weight 0.2. */
  lemma WithSampleExactly(s: RttState, rttUs: uint32)
    ensures var t := WithSample(s, rttUs);
            && t.minUs == Some(if s.minUs.Some? && s.minUs.value < rttUs then s.minUs.value else rttUs)
            && t.ewmaUs == Some(if s.ewmaUs.None? then rttUs as real
                                else 0.2 * (rttUs as real) + 0.8 * s.ewmaUs.value)
  {
  }

  /** The estimates after a whole run of samples. */
  ghost function Estimate(samples: seq<uint32>): RttState {
    if samples == [] then NO_RTT else WithSample(Estimate(samples[..|samples| - 1]), samples[|samples| - 1])
  }

  // ---------- the closed form ----------

  ghost function Decay(n: nat): real {
    if n == 0 then 1.0 else (1.0 - ALPHA) * Decay(n - 1)
  }

  /** The weight of sample i of n: the first sample seeds the average, later ones enter with ALPHA. */
  ghost function Weight(n: nat, i: nat): real
    requires i < n
  {
    if i == 0 then Decay(n - 1) else ALPHA * Decay(n - 1 - i)
  }

  ghost function Scaled(w: real, x: real): real {
    w * x
  }

  lemma ScaledDecays(w: real, x: real)
    ensures Scaled((1.0 - ALPHA) * w, x) == (1.0 - ALPHA) * Scaled(w, x)
  {
    assert ((1.0 - ALPHA) * w) * x == (1.0 - ALPHA) * (w * x);
  }

  ghost function WeightedSum(samples: seq<uint32>, n: nat, k: nat): real
    requires k <= n && k <= |samples|
  {
    if k == 0 then 0.0 else WeightedSum(samples, n, k - 1) + Scaled(Weight(n, k - 1), samples[k - 1] as real)
  }

  ghost function WeightTotal(n: nat, k: nat): real
    requires k <= n
  {
    if k == 0 then 0.0 else WeightTotal(n, k - 1) + Weight(n, k - 1)
  }

  lemma WeightDecays(n: nat, i: nat)
    requires i < n
    ensures Weight(n + 1, i) == (1.0 - ALPHA) * Weight(n, i)
  {
    assert Decay(n - i) == (1.0 - ALPHA) * Decay(n - 1 - i);
  }

  lemma {:induction false} SumDecays(samples: seq<uint32>, n: nat, k: nat)
    requires k <= n && k <= |samples|
    ensures WeightedSum(samples, n + 1, k) == (1.0 - ALPHA) * WeightedSum(samples, n, k)
    ensures WeightTotal(n + 1, k) == (1.0 - ALPHA) * WeightTotal(n, k)
  {
    if k > 0 {
      SumDecays(samples, n, k - 1);
      WeightDecays(n, k - 1);
      ScaledDecays(Weight(n, k - 1), samples[k - 1] as real);
    }
  }

  lemma {:induction false} SumPrefix(samples: seq<uint32>, n: nat, k: nat)
    requires k <= n < |samples|
    ensures WeightedSum(samples, n, k) == WeightedSum(samples[..n], n, k)
  {
    if k > 0 {
      SumPrefix(samples, n, k - 1);
    }
  }

  /** The weights of n samples sum to one, so the average stays an average. */
  lemma {:induction false} WeightsSumToOne(samples: seq<uint32>, n: nat)
    requires 0 < n <= |samples|
    ensures WeightTotal(n, n) == 1.0
  {
    if n == 1 {
      assert WeightTotal(1, 1) == WeightTotal(1, 0) + Weight(1, 0);
    } else {
      WeightsSumToOne(samples, n - 1);
      SumDecays(samples, n - 1, n - 1);
      assert Weight(n, n - 1) == ALPHA * Decay(0);
    }
  }

  lemma {:induction false} EstimateIsWeightedSum(samples: seq<uint32>)
    requires samples != []
    ensures Estimate(samples).ewmaUs == Some(WeightedSum(samples, |samples|, |samples|))
  {
    var n := |samples|;
    var front, last := samples[..n - 1], samples[n - 1];
    if n == 1 {
      assert WeightedSum(samples, 1, 1) == WeightedSum(samples, 1, 0) + Scaled(Weight(1, 0), last as real);
    } else {
      EstimateIsWeightedSum(front);
      SumDecays(samples, n - 1, n - 1);
      SumPrefix(samples, n - 1, n - 1);
      assert Weight(n, n - 1) == ALPHA * Decay(0) == ALPHA;
    }
  }

  ghost predicate Within(samples: seq<uint32>, low: nat, high: nat) {
    forall i :: 0 <= i < |samples| ==> low <= samples[i] <= high
  }

  lemma {:induction false} EstimateWithin(samples: seq<uint32>, low: nat, high: nat)
    requires samples != [] && Within(samples, low, high)
    ensures Estimate(samples).ewmaUs.Some?
    ensures low as real <= Estimate(samples).ewmaUs.value <= high as real
  {
    var front := samples[..|samples| - 1];
    if front != [] {
      EstimateWithin(front, low, high);
    }
  }

  lemma {:induction false} MinIsLeast(samples: seq<uint32>)
    requires samples != []
    ensures Estimate(samples).minUs.Some?
    ensures var least := Estimate(samples).minUs.value;
            && (exists i :: 0 <= i < |samples| && samples[i] == least)
            && forall i :: 0 <= i < |samples| ==> least <= samples[i]
  {
    var n := |samples|;
    var front := samples[..n - 1];
    if front == [] {
      assert samples[0] == Estimate(samples).minUs.value;
    } else {
      MinIsLeast(front);
      var i :| 0 <= i < |front| && front[i] == Estimate(front).minUs.value;
      assert samples[i] == front[i];
      assert forall j :: 0 <= j < n - 1 ==> samples[j] == front[j];
      assert samples[n - 1] == Estimate(samples).minUs.value || samples[i] == Estimate(samples).minUs.value;
    }
  }

  /** After any run: the minimum is the least sample, and the moving average equals its closed
      weighted sum and lies between the least and the greatest sample. */
  lemma EstimateClosedForm(samples: seq<uint32>, high: nat)
    requires samples != [] && Within(samples, 0, high)
    ensures ALPHA == 0.2
    ensures var e := Estimate(samples);
            && e.minUs.Some? && e.ewmaUs.Some?
            && (exists i :: 0 <= i < |samples| && samples[i] == e.minUs.value)
            && Within(samples, e.minUs.value, high)
            && e.ewmaUs.value == WeightedSum(samples, |samples|, |samples|)
            && WeightTotal(|samples|, |samples|) == 1.0
            && e.minUs.value as real <= e.ewmaUs.value <= high as real
  {
    MinIsLeast(samples);
    EstimateIsWeightedSum(samples);
    WeightsSumToOne(samples, |samples|);
    EstimateWithin(samples, Estimate(samples).minUs.value, high);
  }
}
