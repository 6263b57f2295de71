# Multi-synapse Spike Response Model network, forward arithmetic

This project models the forward-simulation arithmetic of the multi-synapse
spiking network in `multi-spiking/network.py`. Every connection between two
neurons is made of several parallel synapses. Each synapse has its own delay
and weight. A neuron's membrane potential is a sum of delayed, weighted
post-synaptic responses, plus a refractoriness term after the neuron's own
last spike.

Modules, one per component of the file:

- `Weights` (`weights.dfy`): the weight tensor `weights[w][x][y][z]`.
  `InitWeights` is a loop that appends one layer of initial weights per
  destination layer. `UpdateWeight` sets one weight and leaves the rest alone.
- `Delays` (`delays.dfy`): `SynapseDelays` builds the delay list as a running
  sum. It is proved equal to the closed form `DelaySchedule`:
  delay `i` = `1 + i * int(lastOutput / synapseCount)`.
- `Kernels` (`kernels.dfy`): the post-synaptic kernel `SpikeResponse` and the
  refractoriness kernel `Refractoriness`.
- `Potential` (`potential.dfy`): `NewNeuronState` accumulates the potential in
  three nested loops: source neurons, then synapses, then spikes. It is
  proved equal to `MembranePotential`, the sum written in the comment on
  lines 75-76.
- `Loss` (`loss.dfy`): `NetworkError`, half the sum of squared differences.
- `Network` (`network.dfy`): the `MultiSpikingNetwork` class, its constructor
  and the validation that `simulate` does before its time loop.
- `Wrappers` (`wrappers.dfy`): `Option` and `Outcome`.

How the model deals with names the source never defines:

- `math` is never imported (lines 1-2), but lines 56 and 63 call `math.exp`.
  The exponential is a parameter `exp: real -> real`. Lemmas assume only
  `Kernels.IsExp`: `exp(0) = 1`, `exp` is positive and `exp` is strictly
  increasing. The bound `SpikeResponse <= 1` also assumes `Kernels.ExpBounds`:
  `exp(s) * exp(-s) = 1` and `exp(t) >= 1 + t`.
- `newNeuronState` reads `presynapticStates` (line 87), but the parameter is
  named `presynapticLayerStates`. The model reads the parameter.
- `newNeuronState` reads `synapseDelay` (line 94), which is a local of
  `synapseDelays`. The model passes the delay list in explicitly.
- Lines 95 and 97 call the kernels with one argument. The model passes the two
  decay constants `timeDecay` and `refractorinessDecay` explicitly.
- `currentState[-1]` (line 96) fails on a neuron that has never fired. The
  model takes the last own spike as an `Option`. `None` contributes nothing,
  because the refractoriness term is 0 before the neuron's own spike.

Numbers are `real` and the integer counts are `nat` or `int`. The source's
`int(lastOutput / synapseCount)` truncates toward zero. `Delays.TruncDiv`
writes that out, so the result matches the source for negative `lastOutput`
too.

## Model

| member | source | states |
|---|---|---|
| `Weights.LayerConnections` | multi-spiking/network.py:30-37 | one destination layer has `rows` neurons. Each holds a list of `synapses` weights for each of its `cols` source neurons, and every weight is `INITIAL_WEIGHT` |
| `Weights.InitWeights` | multi-spiking/network.py:18-39 | the tensor has one entry per layer after the input layer. Entry `d` has `counts[d+1]` rows of `counts[d]` lists of exactly `synapsesPerConnection` weights, and every weight equals `INITIAL_WEIGHT` = 1 |
| `Weights.UpdateWeight` | multi-spiking/network.py:27-35 | setting weight `[w][x][y][z]` changes that entry only. Every other entry keeps its value and the tensor keeps its shape, because the synapse lists are separate copies |
| `Weights.UpdateKeepsTopology` | multi-spiking/network.py:27-35 | after an update the tensor still fits the same topology and synapse count |
| `Weights.InitialWeightsIndependent` | multi-spiking/network.py:29-35 | after one weight of a freshly built tensor is set, every other weight is still the initial value |
| `Delays.TruncDiv` | multi-spiking/network.py:46-48 | `int(a / b)` for `b > 0` is the quotient truncated toward zero. For `a >= 0` the remainder is in `[0, b)`; for `a < 0` it is in `(-b, 0]` |
| `Delays.DelaySchedule` | multi-spiking/network.py:44-51 | the schedule has one delay per synapse. It starts at 1, and each delay exceeds the previous one by `int(lastOutput / synapseCount)` |
| `Delays.SynapseDelays` | multi-spiking/network.py:44-51 | starting from `[1]` and appending previous + increment `synapseCount - 1` times gives exactly the closed form `1 + i * int(lastOutput / synapseCount)` |
| `Delays.DelayScheduleExample` | multi-spiking/network.py:44-51 | `synapseDelays(4, 6) == [1, 2, 3, 4]` |
| `Delays.DelayScheduleNonDecreasing` | multi-spiking/network.py:48-50 | for `lastOutput >= 0` the delays never decrease |
| `Delays.DelayScheduleWithinWindow` | multi-spiking/network.py:48-50 | for `lastOutput >= 0` every delay lies between 1 and `1 + lastOutput` |
| `Kernels.SpikeResponse` | multi-spiking/network.py:54-58 | a spike that has not arrived (`time <= 0`) gives 0. For a positive decay the post-synaptic potential is `>= 0`, and it is 0 if and only if `time <= 0` |
| `Kernels.SpikeResponseAtDecay` | multi-spiking/network.py:55-56 | `spikeResponse(tau, tau) == 1`, since it reduces to `1 * exp(0)` |
| `Kernels.SpikeResponseAtMostOne` | multi-spiking/network.py:54-58 | for the real exponential the post-synaptic potential never exceeds 1, so its value 1 at `t = tau` is its maximum |
| `Kernels.Refractoriness` | multi-spiking/network.py:61-65 | before the neuron's own spike (`time <= 0`) the term is 0. For a positive decay it is `<= 0` and is 0 if and only if `time <= 0`. For `time > 0` it lies strictly between `-2 * NEURON_THRESHOLD` and 0 |
| `Kernels.RefractorinessIncreasing` | multi-spiking/network.py:62-63 | for `0 < t1 < t2` the refractoriness at `t1` is strictly below that at `t2`, so it rises toward 0 |
| `Loss.SquaredDifferenceSum` | multi-spiking/network.py:71 | the sum of squared differences is never negative, and a vector compared with itself gives 0 |
| `Loss.NetworkError` | multi-spiking/network.py:68-71 | on equal-length inputs the loss is `>= 0`, and it is 0 when `observed == expected` |
| `Loss.NetworkErrorSymmetric` | multi-spiking/network.py:68-71 | swapping observed and expected does not change the loss |
| `Loss.NetworkErrorExample` | multi-spiking/network.py:68-71 | `networkError([1], [0]) == 0.5` |
| `Potential.LastSpike` | multi-spiking/network.py:96 | the last own spike is `None` exactly for an empty train. Otherwise it is the train's last element, `currentState[-1]`. For a train in ascending time order (the order line 81 describes), no spike of the train is later |
| `Potential.SelfInhibition` | multi-spiking/network.py:96-97 | the refractoriness contribution is 0 for a neuron that has never fired. For a positive decay it is never positive and lies above `-2 * NEURON_THRESHOLD` |
| `Potential.MembranePotential` | multi-spiking/network.py:75-76 | if every term of the triple sum has a zero weight or an unarrived spike, the potential is the refractoriness term alone. With non-negative weights the potential is at least the refractoriness term |
| `Potential.NewNeuronState` | multi-spiking/network.py:84-98 | the triple loop over source neurons, synapses and spikes, plus the refractoriness term, equals the potential formula of lines 75-76 |
| `Potential.UnarrivedSpikesContributeNothing` | multi-spiking/network.py:75-76 | if no spike has arrived strictly before `time` through any delay (`spike + delay[z] >= time`), the potential is the refractoriness term alone |
| `Potential.LateSpikeLeavesPotential` | multi-spiking/network.py:75-76 | appending to one source neuron's train a spike that has not arrived strictly before `time` through any synapse leaves the potential unchanged, whatever spikes the other trains hold |
| `Potential.ZeroWeightsLeaveRefractoriness` | multi-spiking/network.py:93-95 | with all of the neuron's weights zero, the potential equals the refractoriness term |
| `Potential.SilentNeuronDoesNotFire` | multi-spiking/network.py:75-76 | if every term has a zero weight or a spike that has not arrived, the potential is `<= 0`. It is therefore below the threshold `NEURON_THRESHOLD` = 1 |
| `Potential.ExcitatoryWeightsNonNegativePotential` | multi-spiking/network.py:75-76 | with non-negative weights and no own spike yet, the potential is `>= 0` |
| `Potential.SynapseLoopBoundCounterexample` | multi-spiking/network.py:88-90 | the `z` loop as written, bounded by the spike count, gives a smaller potential than the formula for one input spike and four synapses |
| `Network.EntryCheck` | multi-spiking/network.py:125-130 | the request passes if and only if there is one input train per input neuron and `lastOutput <= duration`. The count mismatch is reported first, and a delay overrun only on a correct count |
| `Network.InputCountCheckCounterexample` | multi-spiking/network.py:127 | for topology `[3, 5, 1]` the check as written rejects 3 input trains and accepts 5. The corrected check does the opposite |
| `Network.EntryChecksAgreeOnEqualFirstLayers` | multi-spiking/network.py:127 | the written and corrected checks agree whenever the input layer and layer 1 have the same size |
| `Network.MultiSpikingNetwork.constructor` | multi-spiking/network.py:104-111 | the network stores its topology, weights shaped by it and all at the initial value, the encoding interval, `tau_r`, and `tau = encodingInterval + 1` |
| `Network.MultiSpikingNetwork.Simulate` | multi-spiking/network.py:124-130 | before any time step, `simulate` fails with `InputCountMismatch` or `DelayOverrunsSimulation` exactly as `EntryCheck` says. It changes nothing |

## Findings

| source | as written | input that shows it | evidently intended | confidence | as-written member | corrected member |
|---|---|---|---|---|---|---|
| multi-spiking/network.py:90 | the synapse loop `z` runs over the indices of source neuron `y`'s spike train | one spike at time 0, four unit-weight synapses with delays 1-4, tau 7, time 10: only synapse 0 is summed. A train of five spikes indexes a fifth synapse that does not exist | `z` runs over the synapses of the connection (`K` in lines 75-76) | not executed | `Potential.SourcesSumAsWritten` | `Potential.NewNeuronState` |
| multi-spiking/network.py:127 | `len(inputs)` is compared with `len(self.weights[0])`, the neuron count of layer 1 | topology `[3, 5, 1]`: three input trains (the input layer size) are rejected and five are accepted | compare with the input layer size `layerNeuronCounts[0]` | not executed | `Network.EntryCheckAsWritten` | `Network.EntryCheck` |

## Left out

- The time-stepped loop of `simulate` (multi-spiking/network.py:132-145) is not modelled. It never compares a potential with the threshold and never records a spike. It also reads `self.synapsesPerConnection`, which is never set. `Simulate` therefore returns only the verdict of the entry checks.
- `makeXorNetwork` (lines 113-122) is left out, because it is a fixed literal configuration. The `__main__` print (lines 149-150) is left out too.
- The numeric values of `math.exp` are not modelled, and neither are IEEE floating point, rounding, overflow or underflow. The model computes on exact reals and treats `exp` as a parameter.
- `Delays.TruncDiv` does not model the float rounding of `lastOutput / synapseCount` for integers too large for a double.
- `Delays.SynapseDelays` requires `synapseCount >= 1`. The source raises `ZeroDivisionError` for 0, and the model does not represent that error.
- `Loss.NetworkError` requires equal lengths. numpy broadcasting of mismatched arrays is not modelled.
- `copy.deepcopy` itself is not modelled. Sequences are values, so independence of the synapse lists is stated as a property of `UpdateWeight`.
- `Weights.InitWeights` takes layer sizes as `nat`. The source's treatment of negative sizes as empty ranges is not modelled.
- `Potential.NewNeuronState` requires both decay constants to be non-zero. The source divides by them only when a spike has arrived or the neuron has fired, so it accepts a zero decay when neither happens.
- The single-spike versus multi-spike firing policy is not modelled, because the source never records a spike.
- Python `assert` statements vanish under `python -O`. The model always runs the checks.
