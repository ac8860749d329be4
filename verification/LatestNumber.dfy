/** The search for the newest EKS-D patch number of a channel (internal/eksd/fetch.go).

    A channel's releases are probed one at a time, each probe being an HTTP HEAD request.
    The probe is a function of the number asked for: it answers yes, answers no, or fails.
 */
module LatestNumber {
  import opened Wrappers

  datatype ProbeError = NoRelease | ProbeFailed

  /** What one HEAD request says about one patch number. */
  type Probe = nat -> Result<bool, ProbeError>

  /** The releases 1..n exist, nothing above does, and no probe fails. */
  ghost predicate Publishes(probe: Probe, n: nat) {
    forall k: nat :: k >= 1 ==> probe(k) == Success(k <= n)
  }

  function Pow2(e: nat): (p: nat)
    ensures p > e
  {
    if e == 0 then 1 else 2 * Pow2(e - 1)
  }

  /** The integer part of the base-2 logarithm. */
  function Log2(n: nat): nat
    requires n >= 1
  {
    if n == 1 then 0 else 1 + Log2(n / 2)
  }

  lemma {:induction false} Pow2Monotone(a: nat, b: nat)
    requires a < b
    ensures 2 * Pow2(a) <= Pow2(b)
  {
    if a + 1 < b {
      Pow2Monotone(a, b - 1);
    }
  }

  lemma {:induction false} Log2Brackets(n: nat)
    requires n >= 1
    ensures Pow2(Log2(n)) <= n < Pow2(Log2(n) + 1)
  {
    if n > 1 {
      Log2Brackets(n / 2);
    }
  }

  /** Only one exponent brackets a number. */
  lemma Log2Unique(n: nat, e: nat)
    requires Pow2(e) <= n < Pow2(e + 1)
    ensures n >= 1 && Log2(n) == e
  {
    Log2Brackets(n);
    var f := Log2(n);
    if e < f {
      Pow2Monotone(e, f);
    } else if f < e {
      Pow2Monotone(f, e);
    }
  }

  /** Doubles `high` until a probe does not answer yes, then halves the gap between the last yes
      and the first no. `stop` is any exponent at which the doubling ends: without one the
      doubling loop of the program does not return either. `probes` counts the HEAD requests.
   */
  method LatestNumber(probe: Probe, ghost stop: nat) returns (r: Result<nat, ProbeError>, ghost probes: nat)
    requires probe(Pow2(stop + 1)) != Success(true)
    ensures probe(1) == Success(false) <==> r == Failure(NoRelease)
    ensures r == Failure(ProbeFailed) ==> exists k: nat :: probe(k).Failure?
    ensures r.Success? ==> r.value >= 1 && probe(r.value) == Success(true) && probe(r.value + 1) == Success(false)
    ensures forall n: nat :: n >= 1 && Publishes(probe, n) ==> r == Success(n) && probes == 2 * Log2(n) + 2
  {
    probes := 1;
    var first := probe(1);
    if first.Failure? {
      return Failure(ProbeFailed), probes;
    }
    if !first.value {
      return Failure(NoRelease), probes;
    }

    var low, high := 1, 2;
    ghost var e: nat := 0;
    while true
      invariant e <= stop && low == Pow2(e) && high == Pow2(e + 1)
      invariant probe(low) == Success(true)
      invariant probes == e + 1
      decreases stop - e
    {
      var answer := probe(high);
      probes := probes + 1;
      if answer.Failure? {
        return Failure(ProbeFailed), probes;
      }
      if !answer.value {
        break;
      }
      assert e < stop;
      low := high;
      high := high * 2;
      e := e + 1;
    }

    ghost var gap := e;
    while low + 1 < high
      invariant high == low + Pow2(gap) && Pow2(e) <= low && high <= Pow2(e + 1)
      invariant probe(low) == Success(true) && probe(high) == Success(false)
      invariant probes == e + 2 + (e - gap) && gap <= e
      decreases high - low
    {
      var mid := (low + high) / 2;
      assert gap > 0 && mid == low + Pow2(gap - 1);
      var answer := probe(mid);
      probes := probes + 1;
      if answer.Failure? {
        return Failure(ProbeFailed), probes;
      }
      if answer.value {
        low := mid;
      } else {
        high := mid;
      }
      gap := gap - 1;
    }
    r := Success(low);
    forall n: nat | n >= 1 && Publishes(probe, n)
      ensures low == n && probes == 2 * Log2(n) + 2
    {
      assert probe(low) == Success(low <= n) && probe(high) == Success(high <= n);
      Log2Unique(n, e);
      assert Pow2(gap) > gap;
    }
  }
}
