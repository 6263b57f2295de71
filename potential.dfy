/**
 * The membrane potential of one neuron in the Spike Response Model:
 *
 *   x_j(t) = sum over source neurons i, synapses k and spikes g of i of
 *              w_ij^k * eps(t - t_i^(g) - d^k)
 *            + rho(t - t_j^(f))
 *
 * where eps is the post-synaptic kernel, rho the refractoriness kernel,
 * d^k the delay of synapse k and t_j^(f) the neuron's own last spike.
 */
module Potential {
  import opened Wrappers
  import opened Kernels
  import Weights

  /** Sum over the first n spikes g of one train of weight * eps(time - spikes[g] - delay). */
  function SpikesSum(exp: real -> real, timeDecay: real, weight: real, spikes: seq<real>, n: nat,
                     delay: real, time: real): real
    requires timeDecay != 0.0 && n <= |spikes|
  {
    if n == 0 then 0.0
    else
      SpikesSum(exp, timeDecay, weight, spikes, n - 1, delay, time)
        + weight * SpikeResponse(exp, time - spikes[n - 1] - delay, timeDecay)
  }

  /** Sum over the first m synapses z of one connection of that synapse's contribution for the whole train. */
  function SynapsesSum(exp: real -> real, timeDecay: real, synapseWeights: seq<real>, delays: seq<int>,
                       spikes: seq<real>, m: nat, time: real): real
    requires timeDecay != 0.0 && m <= |synapseWeights| && m <= |delays|
  {
    if m == 0 then 0.0
    else
      SynapsesSum(exp, timeDecay, synapseWeights, delays, spikes, m - 1, time)
        + SpikesSum(exp, timeDecay, synapseWeights[m - 1], spikes, |spikes|, delays[m - 1] as real, time)
  }

  /**
   * The weights of one destination neuron ([source neuron][synapse]) cover
   * every presynaptic neuron and every synapse of the delay schedule.
   */
  predicate Covers(neuronWeights: seq<seq<real>>, presynaptic: seq<seq<real>>, delays: seq<int>)
  {
    |presynaptic| <= |neuronWeights| &&
    forall y :: 0 <= y < |presynaptic| ==> |delays| <= |neuronWeights[y]|
  }

  /** Sum over the first n source neurons y of all their synapses and spikes. */
  function SourcesSum(exp: real -> real, timeDecay: real, neuronWeights: seq<seq<real>>, delays: seq<int>,
                      presynaptic: seq<seq<real>>, n: nat, time: real): real
    requires timeDecay != 0.0 && n <= |presynaptic| && Covers(neuronWeights, presynaptic, delays)
  {
    if n == 0 then 0.0
    else
      SourcesSum(exp, timeDecay, neuronWeights, delays, presynaptic, n - 1, time)
        + SynapsesSum(exp, timeDecay, neuronWeights[n - 1], delays, presynaptic[n - 1], |delays|, time)
  }

  /**
   * The neuron's last spike, or None when it has not fired yet. Spike trains
   * are recorded in ascending time, so the last spike is also the latest.
   */
  function LastSpike(train: seq<real>): (last: Option<real>)
    ensures last == None <==> train == []
    ensures last.Some? ==> last.value == train[|train| - 1]
    ensures (forall i, j :: 0 <= i <= j < |train| ==> train[i] <= train[j]) ==>
      (last.Some? ==> forall s :: s in train ==> s <= last.value)
  {
    if |train| == 0 then None else Some(train[|train| - 1])
  }

  /**
   * The refractoriness term: rho of the time since the last own spike, 0 if
   * there is none. It never raises the potential, and it lowers it by less
   * than twice the threshold.
   */
  function SelfInhibition(exp: real -> real, refractorinessDecay: real, lastSpike: Option<real>,
                          time: real): (inhibition: real)
    requires refractorinessDecay != 0.0
    ensures lastSpike == None ==> inhibition == 0.0
    ensures IsExp(exp) && refractorinessDecay > 0.0 ==>
      -2.0 * NeuronThreshold < inhibition <= 0.0
  {
    match lastSpike
    case None => 0.0
    case Some(s) => Refractoriness(exp, time - s, refractorinessDecay)
  }

  /** (w, x) names a destination neuron of the tensor whose weights cover the inputs. */
  predicate Wired(weights: Weights.Tensor, w: nat, x: nat, presynaptic: seq<seq<real>>, delays: seq<int>)
  {
    w < |weights| && x < |weights[w]| && Covers(weights[w][x], presynaptic, delays)
  }

  /**
   * The weights of one destination neuron cover the inputs and every synapse
   * is excitatory.
   */
  predicate Excitatory(neuronWeights: seq<seq<real>>, presynaptic: seq<seq<real>>, delays: seq<int>)
  {
    Covers(neuronWeights, presynaptic, delays) &&
    forall y, z :: 0 <= y < |presynaptic| && 0 <= z < |delays| ==> neuronWeights[y][z] >= 0.0
  }

  /**
   * The membrane potential of neuron (w, x) at `time`, by the formula above.
   * When every term of the sum vanishes, only the refractoriness term is
   * left; with excitatory synapses the inputs never lower the potential
   * below it.
   */
  function MembranePotential(exp: real -> real, timeDecay: real, refractorinessDecay: real,
                             weights: Weights.Tensor, w: nat, x: nat, presynaptic: seq<seq<real>>,
                             lastSpike: Option<real>, delays: seq<int>, time: real): (potential: real)
    requires timeDecay != 0.0 && refractorinessDecay != 0.0
    requires Wired(weights, w, x, presynaptic, delays)
    ensures Silent(weights[w][x], presynaptic, delays, time) ==>
      potential == SelfInhibition(exp, refractorinessDecay, lastSpike, time)
    ensures IsExp(exp) && timeDecay > 0.0 && Excitatory(weights[w][x], presynaptic, delays) ==>
      potential >= SelfInhibition(exp, refractorinessDecay, lastSpike, time)
  {
    SourcesSumSilent(exp, timeDecay, weights[w][x], delays, presynaptic, |presynaptic|, time);
    SourcesSumNonNegative(exp, timeDecay, weights[w][x], delays, presynaptic, |presynaptic|, time);
    SourcesSum(exp, timeDecay, weights[w][x], delays, presynaptic, |presynaptic|, time)
      + SelfInhibition(exp, refractorinessDecay, lastSpike, time)
  }

  /**
   * Accumulates the potential of neuron (w, x) over source neurons,
   * synapses and spikes in that nesting order, then adds the refractoriness
   * of the time since the neuron's own last spike.
   */
  method NewNeuronState(exp: real -> real, timeDecay: real, refractorinessDecay: real,
                        weights: Weights.Tensor, presynapticLayerStates: seq<seq<real>>,
                        currentState: seq<real>, delays: seq<int>, time: real, w: nat, x: nat)
    returns (internalState: real)
    requires timeDecay != 0.0 && refractorinessDecay != 0.0
    requires Wired(weights, w, x, presynapticLayerStates, delays)
    ensures internalState == MembranePotential(exp, timeDecay, refractorinessDecay, weights, w, x,
                                               presynapticLayerStates, LastSpike(currentState), delays, time)
  {
    ghost var neuronWeights := weights[w][x];
    internalState := 0.0;
    for y := 0 to |presynapticLayerStates|
      invariant internalState
        == SourcesSum(exp, timeDecay, neuronWeights, delays, presynapticLayerStates, y, time)
    {
      ghost var before := internalState;
      for z := 0 to |delays|
        invariant internalState == before
          + SynapsesSum(exp, timeDecay, neuronWeights[y], delays, presynapticLayerStates[y], z, time)
      {
        ghost var beforeSynapse := internalState;
        var spikes := presynapticLayerStates[y];
        for g := 0 to |spikes|
          invariant internalState == beforeSynapse
            + SpikesSum(exp, timeDecay, neuronWeights[y][z], spikes, g, delays[z] as real, time)
        {
          var weight := weights[w][x][y][z];
          var adjustedTime := time - (spikes[g] + delays[z] as real);
          internalState := internalState + weight * SpikeResponse(exp, adjustedTime, timeDecay);
        }
      }
    }
    internalState := internalState
      + SelfInhibition(exp, refractorinessDecay, LastSpike(currentState), time);
  }

  /**
   * Every term of the sum vanishes: for each source neuron y, synapse z and
   * spike g, either the weight is zero or the spike, delayed by d^z, has not
   * arrived strictly before `time`.
   */
  ghost predicate Silent(neuronWeights: seq<seq<real>>, presynaptic: seq<seq<real>>, delays: seq<int>,
                         time: real)
  {
    Covers(neuronWeights, presynaptic, delays) &&
    forall y, z, g :: 0 <= y < |presynaptic| && 0 <= z < |delays| && 0 <= g < |presynaptic[y]| ==>
      neuronWeights[y][z] == 0.0 || time - presynaptic[y][g] - delays[z] as real <= 0.0
  }

  lemma {:induction false} SpikesSumSilent(exp: real -> real, timeDecay: real, weight: real,
                                           spikes: seq<real>, n: nat, delay: real, time: real)
    requires timeDecay != 0.0 && n <= |spikes|
    requires forall g :: 0 <= g < n ==> weight == 0.0 || time - spikes[g] - delay <= 0.0
    ensures SpikesSum(exp, timeDecay, weight, spikes, n, delay, time) == 0.0
  {
    if n > 0 {
      SpikesSumSilent(exp, timeDecay, weight, spikes, n - 1, delay, time);
    }
  }

  lemma {:induction false} SynapsesSumSilent(exp: real -> real, timeDecay: real, synapseWeights: seq<real>,
                                             delays: seq<int>, spikes: seq<real>, m: nat, time: real)
    requires timeDecay != 0.0 && m <= |synapseWeights| && m <= |delays|
    requires forall z, g :: 0 <= z < m && 0 <= g < |spikes| ==>
      synapseWeights[z] == 0.0 || time - spikes[g] - delays[z] as real <= 0.0
    ensures SynapsesSum(exp, timeDecay, synapseWeights, delays, spikes, m, time) == 0.0
  {
    if m > 0 {
      SynapsesSumSilent(exp, timeDecay, synapseWeights, delays, spikes, m - 1, time);
      SpikesSumSilent(exp, timeDecay, synapseWeights[m - 1], spikes, |spikes|, delays[m - 1] as real, time);
    }
  }

  lemma {:induction false} SourcesSumSilent(exp: real -> real, timeDecay: real, neuronWeights: seq<seq<real>>,
                                            delays: seq<int>, presynaptic: seq<seq<real>>, n: nat, time: real)
    requires timeDecay != 0.0 && n <= |presynaptic| && Covers(neuronWeights, presynaptic, delays)
    ensures Silent(neuronWeights, presynaptic, delays, time) ==>
      SourcesSum(exp, timeDecay, neuronWeights, delays, presynaptic, n, time) == 0.0
  {
    if n > 0 && Silent(neuronWeights, presynaptic, delays, time) {
      SourcesSumSilent(exp, timeDecay, neuronWeights, delays, presynaptic, n - 1, time);
      SynapsesSumSilent(exp, timeDecay, neuronWeights[n - 1], delays, presynaptic[n - 1], |delays|, time);
    }
  }

  /**
   * Spikes whose delayed arrival is not strictly before `time` contribute
   * nothing: if no spike has arrived through any synapse, the potential is
   * the refractoriness term alone.
   */
  lemma UnarrivedSpikesContributeNothing(exp: real -> real, timeDecay: real, refractorinessDecay: real,
                                         weights: Weights.Tensor, w: nat, x: nat,
                                         presynaptic: seq<seq<real>>, lastSpike: Option<real>,
                                         delays: seq<int>, time: real)
    requires timeDecay != 0.0 && refractorinessDecay != 0.0
    requires Wired(weights, w, x, presynaptic, delays)
    requires forall y, z, g :: 0 <= y < |presynaptic| && 0 <= z < |delays| && 0 <= g < |presynaptic[y]| ==>
      presynaptic[y][g] + delays[z] as real >= time
    ensures MembranePotential(exp, timeDecay, refractorinessDecay, weights, w, x, presynaptic, lastSpike, delays, time)
      == SelfInhibition(exp, refractorinessDecay, lastSpike, time)
  {
  }

  /** The sum over the first n spikes depends only on those n spikes. */
  lemma {:induction false} SpikesSumPrefix(exp: real -> real, timeDecay: real, weight: real,
                                           spikes: seq<real>, longer: seq<real>, n: nat,
                                           delay: real, time: real)
    requires timeDecay != 0.0 && n <= |spikes| && n <= |longer|
    requires forall g :: 0 <= g < n ==> spikes[g] == longer[g]
    ensures SpikesSum(exp, timeDecay, weight, spikes, n, delay, time)
         == SpikesSum(exp, timeDecay, weight, longer, n, delay, time)
  {
    if n > 0 {
      SpikesSumPrefix(exp, timeDecay, weight, spikes, longer, n - 1, delay, time);
    }
  }

  /** A spike appended to a train adds nothing through a synapse it has not crossed yet. */
  lemma SpikesSumLateSpike(exp: real -> real, timeDecay: real, weight: real, spikes: seq<real>,
                           s: real, delay: real, time: real)
    requires timeDecay != 0.0 && time - s - delay <= 0.0
    ensures SpikesSum(exp, timeDecay, weight, spikes + [s], |spikes| + 1, delay, time)
         == SpikesSum(exp, timeDecay, weight, spikes, |spikes|, delay, time)
  {
    SpikesSumPrefix(exp, timeDecay, weight, spikes, spikes + [s], |spikes|, delay, time);
  }

  lemma {:induction false} SynapsesSumLateSpike(exp: real -> real, timeDecay: real, synapseWeights: seq<real>,
                                                delays: seq<int>, spikes: seq<real>, s: real, m: nat,
                                                time: real)
    requires timeDecay != 0.0 && m <= |synapseWeights| && m <= |delays|
    requires forall z :: 0 <= z < m ==> time - s - delays[z] as real <= 0.0
    ensures SynapsesSum(exp, timeDecay, synapseWeights, delays, spikes + [s], m, time)
         == SynapsesSum(exp, timeDecay, synapseWeights, delays, spikes, m, time)
  {
    if m > 0 {
      SynapsesSumLateSpike(exp, timeDecay, synapseWeights, delays, spikes, s, m - 1, time);
      SpikesSumLateSpike(exp, timeDecay, synapseWeights[m - 1], spikes, s, delays[m - 1] as real, time);
    }
  }

  lemma {:induction false} SourcesSumLateSpike(exp: real -> real, timeDecay: real, neuronWeights: seq<seq<real>>,
                                               delays: seq<int>, presynaptic: seq<seq<real>>, y0: nat,
                                               s: real, n: nat, time: real)
    requires timeDecay != 0.0 && n <= |presynaptic| && y0 < |presynaptic|
    requires Covers(neuronWeights, presynaptic, delays)
    requires forall z :: 0 <= z < |delays| ==> time - s - delays[z] as real <= 0.0
    ensures SourcesSum(exp, timeDecay, neuronWeights, delays, presynaptic[y0 := presynaptic[y0] + [s]], n, time)
         == SourcesSum(exp, timeDecay, neuronWeights, delays, presynaptic, n, time)
  {
    if n > 0 {
      SourcesSumLateSpike(exp, timeDecay, neuronWeights, delays, presynaptic, y0, s, n - 1, time);
      if n - 1 == y0 {
        SynapsesSumLateSpike(exp, timeDecay, neuronWeights[y0], delays, presynaptic[y0], s, |delays|, time);
      }
    }
  }

  /**
   * Causality: appending to source neuron y0's train a spike s that has not
   * arrived strictly before `time` through any synapse leaves the potential
   * unchanged, whatever the other spikes are. With non-negative delays this
   * covers a spike recorded at the current time step.
   */
  lemma LateSpikeLeavesPotential(exp: real -> real, timeDecay: real, refractorinessDecay: real,
                                 weights: Weights.Tensor, w: nat, x: nat,
                                 presynaptic: seq<seq<real>>, lastSpike: Option<real>,
                                 delays: seq<int>, time: real, y0: nat, s: real)
    requires timeDecay != 0.0 && refractorinessDecay != 0.0
    requires Wired(weights, w, x, presynaptic, delays) && y0 < |presynaptic|
    requires forall z :: 0 <= z < |delays| ==> time - s - delays[z] as real <= 0.0
    ensures Wired(weights, w, x, presynaptic[y0 := presynaptic[y0] + [s]], delays)
    ensures MembranePotential(exp, timeDecay, refractorinessDecay, weights, w, x,
                              presynaptic[y0 := presynaptic[y0] + [s]], lastSpike, delays, time)
         == MembranePotential(exp, timeDecay, refractorinessDecay, weights, w, x,
                              presynaptic, lastSpike, delays, time)
  {
    SourcesSumLateSpike(exp, timeDecay, weights[w][x], delays, presynaptic, y0, s, |presynaptic|, time);
  }

  /** With every weight of the neuron zero, the potential is the refractoriness term alone. */
  lemma ZeroWeightsLeaveRefractoriness(exp: real -> real, timeDecay: real, refractorinessDecay: real,
                                       weights: Weights.Tensor, w: nat, x: nat,
                                       presynaptic: seq<seq<real>>, lastSpike: Option<real>,
                                       delays: seq<int>, time: real)
    requires timeDecay != 0.0 && refractorinessDecay != 0.0
    requires Wired(weights, w, x, presynaptic, delays)
    requires forall y, z :: 0 <= y < |presynaptic| && 0 <= z < |delays| ==> weights[w][x][y][z] == 0.0
    ensures MembranePotential(exp, timeDecay, refractorinessDecay, weights, w, x, presynaptic, lastSpike, delays, time)
      == SelfInhibition(exp, refractorinessDecay, lastSpike, time)
  {
  }

  /**
   * A neuron none of whose weighted inputs has arrived stays at or below
   * zero, so it cannot reach the firing threshold.
   */
  lemma SilentNeuronDoesNotFire(exp: real -> real, timeDecay: real, refractorinessDecay: real,
                                weights: Weights.Tensor, w: nat, x: nat,
                                presynaptic: seq<seq<real>>, lastSpike: Option<real>,
                                delays: seq<int>, time: real)
    requires IsExp(exp) && timeDecay != 0.0 && refractorinessDecay > 0.0
    requires Wired(weights, w, x, presynaptic, delays)
    requires Silent(weights[w][x], presynaptic, delays, time)
    ensures MembranePotential(exp, timeDecay, refractorinessDecay, weights, w, x, presynaptic, lastSpike, delays, time) <= 0.0
    ensures MembranePotential(exp, timeDecay, refractorinessDecay, weights, w, x, presynaptic, lastSpike, delays, time) < NeuronThreshold
  {
  }

  lemma {:induction false} SpikesSumNonNegative(exp: real -> real, timeDecay: real, weight: real,
                                                spikes: seq<real>, n: nat, delay: real, time: real)
    requires IsExp(exp) && timeDecay > 0.0 && n <= |spikes| && weight >= 0.0
    ensures SpikesSum(exp, timeDecay, weight, spikes, n, delay, time) >= 0.0
  {
    if n > 0 {
      SpikesSumNonNegative(exp, timeDecay, weight, spikes, n - 1, delay, time);
    }
  }

  lemma {:induction false} SynapsesSumNonNegative(exp: real -> real, timeDecay: real, synapseWeights: seq<real>,
                                                  delays: seq<int>, spikes: seq<real>, m: nat, time: real)
    requires IsExp(exp) && timeDecay > 0.0 && m <= |synapseWeights| && m <= |delays|
    requires forall z :: 0 <= z < m ==> synapseWeights[z] >= 0.0
    ensures SynapsesSum(exp, timeDecay, synapseWeights, delays, spikes, m, time) >= 0.0
  {
    if m > 0 {
      SynapsesSumNonNegative(exp, timeDecay, synapseWeights, delays, spikes, m - 1, time);
      SpikesSumNonNegative(exp, timeDecay, synapseWeights[m - 1], spikes, |spikes|, delays[m - 1] as real, time);
    }
  }

  lemma {:induction false} SourcesSumNonNegative(exp: real -> real, timeDecay: real, neuronWeights: seq<seq<real>>,
                                                 delays: seq<int>, presynaptic: seq<seq<real>>, n: nat, time: real)
    requires timeDecay != 0.0 && n <= |presynaptic| && Covers(neuronWeights, presynaptic, delays)
    ensures IsExp(exp) && timeDecay > 0.0 && Excitatory(neuronWeights, presynaptic, delays) ==>
      SourcesSum(exp, timeDecay, neuronWeights, delays, presynaptic, n, time) >= 0.0
  {
    if n > 0 && IsExp(exp) && timeDecay > 0.0 && Excitatory(neuronWeights, presynaptic, delays) {
      SourcesSumNonNegative(exp, timeDecay, neuronWeights, delays, presynaptic, n - 1, time);
      SynapsesSumNonNegative(exp, timeDecay, neuronWeights[n - 1], delays, presynaptic[n - 1], |delays|, time);
    }
  }

  /**
   * With non-negative weights every synapse is excitatory: a neuron that has
   * not fired yet has a non-negative potential.
   */
  lemma ExcitatoryWeightsNonNegativePotential(exp: real -> real, timeDecay: real, refractorinessDecay: real,
                                              weights: Weights.Tensor, w: nat, x: nat,
                                              presynaptic: seq<seq<real>>, delays: seq<int>, time: real)
    requires IsExp(exp) && timeDecay > 0.0 && refractorinessDecay != 0.0
    requires Wired(weights, w, x, presynaptic, delays)
    requires forall y, z :: 0 <= y < |presynaptic| && 0 <= z < |delays| ==> weights[w][x][y][z] >= 0.0
    ensures MembranePotential(exp, timeDecay, refractorinessDecay, weights, w, x, presynaptic, None, delays, time) >= 0.0
  {
  }

  /**
   * The sum as newNeuronState writes it: the synapse loop of source neuron y
   * runs over the indices of y's spike train instead of over the synapses.
   * Defined only where that loop stays inside the weight and delay lists.
   */
  function SourcesSumAsWritten(exp: real -> real, timeDecay: real, neuronWeights: seq<seq<real>>,
                               delays: seq<int>, presynaptic: seq<seq<real>>, n: nat, time: real): real
    requires timeDecay != 0.0 && n <= |presynaptic| && n <= |neuronWeights|
    requires forall y :: 0 <= y < n ==> |presynaptic[y]| <= |neuronWeights[y]| && |presynaptic[y]| <= |delays|
  {
    if n == 0 then 0.0
    else
      SourcesSumAsWritten(exp, timeDecay, neuronWeights, delays, presynaptic, n - 1, time)
        + SynapsesSum(exp, timeDecay, neuronWeights[n - 1], delays, presynaptic[n - 1], |presynaptic[n - 1]|, time)
  }

  /**
   * One source neuron that spiked once at time 0, four unit-weight synapses
   * with delays 1..4, tau = 7, evaluated at time 10: the loop as written
   * counts only synapse 0 and so undercounts the potential of the formula.
   */
  lemma SynapseLoopBoundCounterexample(exp: real -> real)
    requires IsExp(exp)
    ensures SourcesSumAsWritten(exp, 7.0, [[1.0, 1.0, 1.0, 1.0]], [1, 2, 3, 4], [[0.0]], 1, 10.0)
          < SourcesSum(exp, 7.0, [[1.0, 1.0, 1.0, 1.0]], [1, 2, 3, 4], [[0.0]], 1, 10.0)
  {
    var ws := [1.0, 1.0, 1.0, 1.0];
    var ds := [1, 2, 3, 4];
    var spikes := [0.0];
    var first := SynapsesSum(exp, 7.0, ws, ds, spikes, 1, 10.0);
    assert SourcesSumAsWritten(exp, 7.0, [ws], ds, [spikes], 1, 10.0) == first;
    var m := 1;
    while m < 4
      invariant 1 <= m <= 4
      invariant SynapsesSum(exp, 7.0, ws, ds, spikes, m, 10.0) >= first
      invariant m > 1 ==> SynapsesSum(exp, 7.0, ws, ds, spikes, m, 10.0) > first
    {
      var delay := ds[m] as real;
      assert SpikesSum(exp, 7.0, ws[m], spikes, 1, delay, 10.0)
          == 1.0 * SpikeResponse(exp, 10.0 - spikes[0] - delay, 7.0);
      m := m + 1;
    }
  }
}
