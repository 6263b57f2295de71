/**
 * The weight tensor of a multi-synapse network.
 *
 * weights[w][x][y][z] is the weight of synapse z of the connection from
 * source neuron y (in layer w) to destination neuron x (in layer w + 1).
 * Layer 0 is the input layer, so entry w of the tensor belongs to
 * destination layer w + 1.
 */
module Weights {

  /** The value every weight starts with. */
  const InitialWeight: real := 1.0

  /** A whole tensor, indexed [destination layer - 1][destination neuron][source neuron][synapse]. */
  type Tensor = seq<seq<seq<seq<real>>>>

  /** The weights into one destination layer, indexed [destination neuron][source neuron][synapse]. */
  type LayerWeights = seq<seq<seq<real>>>

  /** One tensor entry per layer that receives connections: every layer but the input layer. */
  function DestinationLayerCount(layerNeuronCounts: seq<nat>): nat
  {
    if |layerNeuronCounts| == 0 then 0 else |layerNeuronCounts| - 1
  }

  /** `layer` has `rows` destination neurons, each with `cols` source neurons of `synapses` weights. */
  ghost predicate LayerShaped(layer: LayerWeights, rows: nat, cols: nat, synapses: nat)
  {
    |layer| == rows &&
    forall x :: 0 <= x < rows ==>
      |layer[x]| == cols &&
      forall y :: 0 <= y < cols ==> |layer[x][y]| == synapses
  }

  /** The tensor matches the topology `layerNeuronCounts` with `synapses` synapses per connection. */
  ghost predicate Shaped(t: Tensor, layerNeuronCounts: seq<nat>, synapses: nat)
  {
    |t| == DestinationLayerCount(layerNeuronCounts) &&
    forall d :: 0 <= d < |t| ==>
      LayerShaped(t[d], layerNeuronCounts[d + 1], layerNeuronCounts[d], synapses)
  }

  /** (w, x, y, z) addresses an existing weight of `t`. */
  predicate InBounds(t: Tensor, w: nat, x: nat, y: nat, z: nat)
  {
    w < |t| && x < |t[w]| && y < |t[w][x]| && z < |t[w][x][y]|
  }

  /** Every weight of `t` equals `v`. */
  ghost predicate Uniform(t: Tensor, v: real)
  {
    forall w: nat, x: nat, y: nat, z: nat :: InBounds(t, w, x, y, z) ==> t[w][x][y][z] == v
  }

  /** `s` and `t` have the same dimensions at every level. */
  ghost predicate SameShape(s: Tensor, t: Tensor)
  {
    |s| == |t| &&
    forall w :: 0 <= w < |s| ==>
      |s[w]| == |t[w]| &&
      forall x :: 0 <= x < |s[w]| ==>
        |s[w][x]| == |t[w][x]| &&
        forall y :: 0 <= y < |s[w][x]| ==> |s[w][x][y]| == |t[w][x][y]|
  }

  /**
   * The connections into one destination layer: `rows` destination neurons,
   * each holding its own list of `synapses` initial weights for every one of
   * the `cols` source neurons.
   */
  function LayerConnections(rows: nat, cols: nat, synapses: nat): (layer: LayerWeights)
    ensures LayerShaped(layer, rows, cols, synapses)
    ensures forall x, y, z :: 0 <= x < rows && 0 <= y < cols && 0 <= z < synapses ==>
      layer[x][y][z] == InitialWeight
  {
    seq(rows, _ => seq(cols, _ => seq(synapses, _ => InitialWeight)))
  }

  /**
   * Builds the weight tensor for the topology `layerNeuronCounts`: one entry
   * per destination layer, appended in layer order, every weight initial.
   */
  method InitWeights(layerNeuronCounts: seq<nat>, synapsesPerConnection: nat) returns (weights: Tensor)
    ensures Shaped(weights, layerNeuronCounts, synapsesPerConnection)
    ensures Uniform(weights, InitialWeight)
  {
    weights := [];
    var destinationLayer := 1;
    while destinationLayer < |layerNeuronCounts|
      invariant 1 <= destinationLayer
      invariant |weights| == destinationLayer - 1 <= DestinationLayerCount(layerNeuronCounts)
      invariant forall d :: 0 <= d < |weights| ==>
        LayerShaped(weights[d], layerNeuronCounts[d + 1], layerNeuronCounts[d], synapsesPerConnection)
      invariant Uniform(weights, InitialWeight)
    {
      var layerConnections := LayerConnections(
        layerNeuronCounts[destinationLayer], layerNeuronCounts[destinationLayer - 1], synapsesPerConnection);
      weights := weights + [layerConnections];
      destinationLayer := destinationLayer + 1;
    }
  }

  /**
   * Sets one weight. Because each synapse list is its own value, every other
   * weight keeps its value and the tensor keeps its shape.
   */
  function UpdateWeight(t: Tensor, w: nat, x: nat, y: nat, z: nat, v: real): (r: Tensor)
    requires InBounds(t, w, x, y, z)
    ensures SameShape(r, t)
    ensures r[w][x][y][z] == v
    ensures forall w': nat, x': nat, y': nat, z': nat ::
      InBounds(t, w', x', y', z') && (w', x', y', z') != (w, x, y, z) ==>
        r[w'][x'][y'][z'] == t[w'][x'][y'][z']
  {
    t[w := t[w][x := t[w][x][y := t[w][x][y][z := v]]]]
  }

  /** An update keeps a shaped tensor shaped for the same topology. */
  lemma UpdateKeepsTopology(t: Tensor, layerNeuronCounts: seq<nat>, synapses: nat,
                            w: nat, x: nat, y: nat, z: nat, v: real)
    requires Shaped(t, layerNeuronCounts, synapses)
    requires InBounds(t, w, x, y, z)
    ensures Shaped(UpdateWeight(t, w, x, y, z, v), layerNeuronCounts, synapses)
  {
  }

  /**
   * After the initial tensor has one weight changed, every other weight
   * still holds the initial value.
   */
  lemma InitialWeightsIndependent(layerNeuronCounts: seq<nat>, synapses: nat, t: Tensor,
                                  w: nat, x: nat, y: nat, z: nat, v: real)
    requires Shaped(t, layerNeuronCounts, synapses) && Uniform(t, InitialWeight)
    requires InBounds(t, w, x, y, z)
    ensures forall w': nat, x': nat, y': nat, z': nat ::
      InBounds(t, w', x', y', z') && (w', x', y', z') != (w, x, y, z) ==>
        UpdateWeight(t, w, x, y, z, v)[w'][x'][y'][z'] == InitialWeight
  {
  }
}
