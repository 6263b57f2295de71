/**
 * The synapse delay schedule: a map from synapse index to transmission
 * delay, shared by every connection of the network.
 */
module Delays {

  /**
   * `int(a / b)` for a positive divisor: the quotient truncated toward zero,
   * which is the floor for a non-negative dividend.
   */
  function TruncDiv(a: int, b: int): (q: int)
    requires b > 0
    ensures a >= 0 ==> q >= 0 && 0 <= a - q * b < b
    ensures a < 0 ==> q <= 0 && -b < a - q * b <= 0
  {
    if a >= 0 then a / b else -((-a) / b)
  }

  /**
   * The closed form of the schedule: delay i is 1 + i times the increment.
   * It has one delay per synapse, starts at 1, and each delay exceeds the
   * previous one by int(lastOutput / synapseCount).
   */
  function DelaySchedule(synapseCount: nat, lastOutput: int): (delays: seq<int>)
    requires synapseCount >= 1
    ensures |delays| == synapseCount && delays[0] == 1
    ensures forall i :: 0 < i < synapseCount ==>
      delays[i] == delays[i - 1] + TruncDiv(lastOutput, synapseCount)
  {
    seq(synapseCount, i => 1 + i * TruncDiv(lastOutput, synapseCount))
  }

  /**
   * Builds the schedule as a running sum: start at 1 and add the increment
   * int(lastOutput / synapseCount) once per further synapse.
   */
  method SynapseDelays(synapseCount: nat, lastOutput: int) returns (synapseDelay: seq<int>)
    requires synapseCount >= 1
    ensures synapseDelay == DelaySchedule(synapseCount, lastOutput)
  {
    synapseDelay := [1];
    var increment := TruncDiv(lastOutput, synapseCount);
    for i := 0 to synapseCount - 1
      invariant |synapseDelay| == i + 1
      invariant forall j :: 0 <= j <= i ==> synapseDelay[j] == 1 + j * increment
    {
      synapseDelay := synapseDelay + [synapseDelay[i] + increment];
    }
  }

  /** Four synapses spread over an output window of 6 get delays 1, 2, 3, 4. */
  lemma DelayScheduleExample()
    ensures DelaySchedule(4, 6) == [1, 2, 3, 4]
  {
  }

  /** With a non-negative output window the delays never decrease. */
  lemma DelayScheduleNonDecreasing(synapseCount: nat, lastOutput: int)
    requires synapseCount >= 1 && lastOutput >= 0
    ensures forall i, j :: 0 <= i <= j < synapseCount ==>
      DelaySchedule(synapseCount, lastOutput)[i] <= DelaySchedule(synapseCount, lastOutput)[j]
  {
  }

  /**
   * With a non-negative output window every delay lies between 1 and
   * 1 + lastOutput: no synapse is slower than the window allows.
   */
  lemma DelayScheduleWithinWindow(synapseCount: nat, lastOutput: int)
    requires synapseCount >= 1 && lastOutput >= 0
    ensures forall i :: 0 <= i < synapseCount ==>
      1 <= DelaySchedule(synapseCount, lastOutput)[i] <= 1 + lastOutput
  {
  }
}
