/**
 * The network object and the validation `simulate` performs before its
 * time-stepped loop.
 */
module Network {
  import opened Wrappers
  import Weights

  /** Why `simulate` refuses to start. */
  datatype SimulationError =
    | NoWeightLayers           // the topology has no destination layer to compare against
    | NoInputLayer             // the topology is empty
    | InputCountMismatch       // one spike train per input neuron was not supplied
    | DelayOverrunsSimulation  // the output window is longer than the simulation

  /**
   * The checks as the source writes them: the number of input trains is
   * compared with the length of weights[0], which is the number of neurons
   * of layer 1, not of the input layer.
   */
  function EntryCheckAsWritten(weights: Weights.Tensor, duration: int, lastOutput: int, inputCount: nat)
    : Outcome<SimulationError>
  {
    if |weights| == 0 then Fail(NoWeightLayers)
    else if inputCount != |weights[0]| then Fail(InputCountMismatch)
    else if lastOutput > duration then Fail(DelayOverrunsSimulation)
    else Pass
  }

  /**
   * The checks as intended: one input train per neuron of the input layer,
   * and an output window no longer than the simulation. The input count is
   * checked first.
   */
  function EntryCheck(layerNeuronCounts: seq<nat>, duration: int, lastOutput: int, inputCount: nat)
    : (outcome: Outcome<SimulationError>)
    ensures outcome == Pass <==>
      |layerNeuronCounts| > 0 && inputCount == layerNeuronCounts[0] && lastOutput <= duration
    ensures outcome == Fail(InputCountMismatch) <==>
      |layerNeuronCounts| > 0 && inputCount != layerNeuronCounts[0]
    ensures outcome == Fail(DelayOverrunsSimulation) <==>
      |layerNeuronCounts| > 0 && inputCount == layerNeuronCounts[0] && lastOutput > duration
  {
    if |layerNeuronCounts| == 0 then Fail(NoInputLayer)
    else if inputCount != layerNeuronCounts[0] then Fail(InputCountMismatch)
    else if lastOutput > duration then Fail(DelayOverrunsSimulation)
    else Pass
  }

  /**
   * For the XOR topology [3, 5, 1] the check as written rejects the three
   * input trains the input layer needs and would accept five.
   */
  lemma InputCountCheckCounterexample(weights: Weights.Tensor)
    requires Weights.Shaped(weights, [3, 5, 1], 4)
    ensures EntryCheckAsWritten(weights, 40, 6, 3) == Fail(InputCountMismatch)
    ensures EntryCheckAsWritten(weights, 40, 6, 5) == Pass
    ensures EntryCheck([3, 5, 1], 40, 6, 3) == Pass
    ensures EntryCheck([3, 5, 1], 40, 6, 5) == Fail(InputCountMismatch)
  {
    var counts: seq<nat> := [3, 5, 1];
    assert Weights.LayerShaped(weights[0], counts[1], counts[0], 4);
  }

  /** Both versions agree whenever the input layer and layer 1 have the same size. */
  lemma EntryChecksAgreeOnEqualFirstLayers(weights: Weights.Tensor, layerNeuronCounts: seq<nat>, synapses: nat,
                                           duration: int, lastOutput: int, inputCount: nat)
    requires Weights.Shaped(weights, layerNeuronCounts, synapses)
    requires |layerNeuronCounts| >= 2 && layerNeuronCounts[0] == layerNeuronCounts[1]
    ensures EntryCheckAsWritten(weights, duration, lastOutput, inputCount)
         == EntryCheck(layerNeuronCounts, duration, lastOutput, inputCount)
  {
  }

  /** A feed-forward network of multi-synapse spiking neurons. */
  class MultiSpikingNetwork {
    var layerNeuronCounts: seq<nat>
    var weights: Weights.Tensor
    var encodingInterval: int
    var refractorinessDecay: real  // tau_r
    var timeDecay: int             // tau

    /** Builds the weights for the topology; tau is one more than the encoding interval. */
    constructor (layerNeuronCounts: seq<nat>, synapsesPerConnection: nat, encodingInterval: int,
                 refractorinessDecay: real)
      ensures this.layerNeuronCounts == layerNeuronCounts
      ensures Weights.Shaped(weights, layerNeuronCounts, synapsesPerConnection)
      ensures Weights.Uniform(weights, Weights.InitialWeight)
      ensures this.encodingInterval == encodingInterval
      ensures this.refractorinessDecay == refractorinessDecay
      ensures timeDecay == encodingInterval + 1
    {
      this.layerNeuronCounts := layerNeuronCounts;
      var initial := Weights.InitWeights(layerNeuronCounts, synapsesPerConnection);
      weights := initial;
      this.encodingInterval := encodingInterval;
      this.refractorinessDecay := refractorinessDecay;
      timeDecay := encodingInterval + 1;
    }

    /**
     * Validates a simulation request before any time step runs: one spike
     * train per input neuron, then an output window within the duration.
     * Nothing of the network changes.
     */
    method Simulate(duration: int, lastOutput: int, inputs: seq<seq<real>>)
      returns (outcome: Outcome<SimulationError>)
      ensures outcome == EntryCheck(layerNeuronCounts, duration, lastOutput, |inputs|)
    {
      if |layerNeuronCounts| == 0 {
        return Fail(NoInputLayer);
      }
      if |inputs| != layerNeuronCounts[0] {
        return Fail(InputCountMismatch);
      }
      if lastOutput > duration {
        return Fail(DelayOverrunsSimulation);
      }
      return Pass;
    }
  }
}
