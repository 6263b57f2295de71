/** The squared-error loss between an observed and an expected output vector. */
module Loss {

  /**
   * (o_0 - e_0)^2 + ... + (o_{n-1} - e_{n-1})^2, summed left to right. A sum
   * of squares is never negative, and it is zero for a vector compared with
   * itself.
   */
  function SquaredDifferenceSum(observed: seq<real>, expected: seq<real>): (sum: real)
    requires |observed| == |expected|
    ensures sum >= 0.0
    ensures observed == expected ==> sum == 0.0
    decreases |observed|
  {
    if |observed| == 0 then 0.0
    else
      var n := |observed| - 1;
      var d := observed[n] - expected[n];
      assert d * d >= 0.0;
      SquaredDifferenceSum(observed[..n], expected[..n]) + d * d
  }

  /**
   * Half the sum of squared differences: never negative, and zero when the
   * observed vector equals the expected one.
   */
  function NetworkError(observed: seq<real>, expected: seq<real>): (error: real)
    requires |observed| == |expected|
    ensures error >= 0.0
    ensures observed == expected ==> error == 0.0
  {
    1.0 / 2.0 * SquaredDifferenceSum(observed, expected)
  }

  /** The sum of squares does not depend on which vector is called observed. */
  lemma {:induction false} SquaredDifferenceSumSymmetric(observed: seq<real>, expected: seq<real>)
    requires |observed| == |expected|
    ensures SquaredDifferenceSum(observed, expected) == SquaredDifferenceSum(expected, observed)
  {
    if |observed| > 0 {
      var n := |observed| - 1;
      SquaredDifferenceSumSymmetric(observed[..n], expected[..n]);
    }
  }

  /** Swapping the two vectors does not change the loss. */
  lemma NetworkErrorSymmetric(observed: seq<real>, expected: seq<real>)
    requires |observed| == |expected|
    ensures NetworkError(observed, expected) == NetworkError(expected, observed)
  {
    SquaredDifferenceSumSymmetric(observed, expected);
  }

  /** One output off by one costs 0.5. */
  lemma NetworkErrorExample()
    ensures NetworkError([1.0], [0.0]) == 0.5
  {
  }
}
