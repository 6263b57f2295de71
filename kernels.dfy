/**
 * The two response kernels of the Spike Response Model.
 *
 * The exponential is a parameter: the kernels work for any function, and
 * the lemmas assume only the properties of exp stated by IsExp (and, for
 * the bound on the post-synaptic kernel, ExpBounds).
 */
module Kernels {

  /** The firing threshold of every neuron. */
  const NeuronThreshold: real := 1.0

  /** What the lemmas rely on about exp: exp(0) = 1, positive, strictly increasing. */
  ghost predicate IsExp(exp: real -> real)
  {
    exp(0.0) == 1.0 &&
    (forall t :: exp(t) > 0.0) &&
    (forall s, t :: s < t ==> exp(s) < exp(t))
  }

  /**
   * Two further facts of the real exponential: exp(s) * exp(-s) = 1, and
   * exp lies above its tangent at 0, exp(t) >= 1 + t.
   */
  ghost predicate ExpBounds(exp: real -> real)
  {
    (forall s, t :: s + t == 0.0 ==> exp(s) * exp(t) == 1.0) &&
    (forall t :: exp(t) >= 1.0 + t)
  }

  /**
   * The post-synaptic potential kernel: (t / tau) * exp(1 - t / tau) once the
   * spike has arrived (t > 0), and 0 before. With a positive decay it is
   * never negative, and it is zero exactly when the spike has not arrived.
   */
  function SpikeResponse(exp: real -> real, time: real, timeDecay: real): (psp: real)
    requires time > 0.0 ==> timeDecay != 0.0
    ensures time <= 0.0 ==> psp == 0.0
    ensures IsExp(exp) && timeDecay > 0.0 ==> psp >= 0.0 && (psp == 0.0 <==> time <= 0.0)
  {
    if time > 0.0 then (time / timeDecay) * exp(1.0 - time / timeDecay) else 0.0
  }

  /**
   * The refractoriness kernel: -2 * threshold * exp(-t / tau_r) after the
   * neuron's own spike (t > 0), and 0 before. With a positive decay it is
   * never positive, zero exactly before the spike, and strictly between
   * -2 * threshold and 0 afterwards.
   */
  function Refractoriness(exp: real -> real, time: real, refractorinessDecay: real): (rho: real)
    requires time > 0.0 ==> refractorinessDecay != 0.0
    ensures time <= 0.0 ==> rho == 0.0
    ensures IsExp(exp) && refractorinessDecay > 0.0 ==>
      rho <= 0.0 && (rho == 0.0 <==> time <= 0.0) &&
      (time > 0.0 ==> -2.0 * NeuronThreshold < rho < 0.0)
  {
    if time > 0.0 then -2.0 * NeuronThreshold * exp(-time / refractorinessDecay) else 0.0
  }

  /** The post-synaptic potential takes the value 1 at t = tau. */
  lemma SpikeResponseAtDecay(exp: real -> real, timeDecay: real)
    requires IsExp(exp) && timeDecay > 0.0
    ensures SpikeResponse(exp, timeDecay, timeDecay) == 1.0
  {
  }

  /**
   * For the real exponential, 1 is the largest value of the post-synaptic
   * potential: u * exp(1 - u) <= exp(u - 1) * exp(1 - u) = 1.
   */
  lemma SpikeResponseAtMostOne(exp: real -> real, time: real, timeDecay: real)
    requires IsExp(exp) && ExpBounds(exp) && timeDecay > 0.0
    ensures SpikeResponse(exp, time, timeDecay) <= 1.0
  {
    if time > 0.0 {
      var u := time / timeDecay;
      var a := exp(1.0 - u);
      var b := exp(u - 1.0);
      assert (1.0 - u) + (u - 1.0) == 0.0;
      assert a * b == 1.0;
      assert b >= 1.0 + (u - 1.0);
      ScaledBelowInverse(u, b, a);
      var psp := SpikeResponse(exp, time, timeDecay);
      assert psp == u * a;
    }
  }

  /** u <= b, a > 0 and a * b = 1 give u * a <= 1. */
  lemma ScaledBelowInverse(u: real, b: real, a: real)
    requires u <= b && a > 0.0 && a * b == 1.0
    ensures u * a <= 1.0
  {
  }

  /** After the neuron's own spike the refractoriness term rises strictly toward 0. */
  lemma RefractorinessIncreasing(exp: real -> real, t1: real, t2: real, refractorinessDecay: real)
    requires IsExp(exp) && refractorinessDecay > 0.0
    requires 0.0 < t1 < t2
    ensures Refractoriness(exp, t1, refractorinessDecay) < Refractoriness(exp, t2, refractorinessDecay)
  {
    assert -t2 / refractorinessDecay < -t1 / refractorinessDecay;
  }
}
