/**
 * Combination of the user streams of the transmit path: every user's sample
 * stream is multiplied by that user's complex weight, and the weighted streams
 * are either summed element-wise (sum mode) or one of them is selected.
 * Complex numbers are pairs of exact reals.
 */
module Combiner {

  datatype Complex = Complex(re: real, im: real)

  const Zero: Complex := Complex(0.0, 0.0)

  function Add(a: Complex, b: Complex): Complex
  {
    Complex(a.re + b.re, a.im + b.im)
  }

  function Mul(a: Complex, b: Complex): Complex
  {
    Complex(a.re * b.re - a.im * b.im, a.re * b.im + a.im * b.re)
  }

  type Stream = seq<Complex>

  datatype Option<T> = None | Some(value: T)

  datatype CombineError =
    | NoUsers          // `reduce` of an empty list of streams
    | LengthMismatch   // sum of streams of different lengths
    | IndexOutOfRange  // `user_select_index` is not a valid list index

  datatype Result<T> = Ok(value: T) | Err(error: CombineError)

  /** `user_sum_mode == 1` sums the users; every other value selects one. */
  const SumMode: int := 1

  /** The weight every user starts with: `1+0j`. */
  const UnitWeight: Complex := Complex(1.0, 0.0)

  /**
   * A stream multiplied sample by sample by a weight. It keeps the stream's
   * length, and the unit weight leaves the stream unchanged.
   */
  function Scale(s: Stream, w: Complex): (r: Stream)
    ensures |r| == |s|
    ensures w == UnitWeight ==> r == s
  {
    seq(|s|, t requires 0 <= t < |s| => Mul(s[t], w))
  }

  /** Every user's stream multiplied by the user's weight. */
  function Weighted(inputs: seq<Stream>, weights: seq<Complex>): (r: seq<Stream>)
    requires |inputs| == |weights|
    ensures |r| == |inputs|
    ensures forall i :: 0 <= i < |r| ==> |r[i]| == |inputs[i]|
  {
    seq(|inputs|, i requires 0 <= i < |inputs| => Scale(inputs[i], weights[i]))
  }

  predicate SameLengths(streams: seq<Stream>)
  {
    forall i :: 0 <= i < |streams| ==> |streams[i]| == |streams[0]|
  }

  /** Reference: the weighted sum over the first `n` users of their sample `t`. */
  function WeightedSumAt(inputs: seq<Stream>, weights: seq<Complex>, n: nat, t: nat): Complex
    requires n <= |inputs| == |weights|
    requires forall i :: 0 <= i < n ==> t < |inputs[i]|
  {
    if n == 0 then Zero
    else Add(WeightedSumAt(inputs, weights, n - 1, t), Mul(inputs[n - 1][t], weights[n - 1]))
  }

  /** Element-wise sum of two streams of one length; adding an all-zero stream changes nothing. */
  function AddStreams(a: Stream, b: Stream): (r: Stream)
    requires |a| == |b|
    ensures |r| == |a|
    ensures (forall t :: 0 <= t < |b| ==> b[t] == Zero) ==> r == a
  {
    seq(|a|, t requires 0 <= t < |a| => Add(a[t], b[t]))
  }

  /**
   * `reduce(lambda prev, next: prev + next, streams[..n])`: a left fold of
   * element-wise addition that starts from the first stream.
   */
  function ReducePrefix(streams: seq<Stream>, n: nat): (r: Stream)
    requires 1 <= n <= |streams| && SameLengths(streams)
    ensures |r| == |streams[0]|
  {
    if n == 1 then streams[0] else AddStreams(ReducePrefix(streams, n - 1), streams[n - 1])
  }

  /** Reducing the weighted streams gives, at every sample, the weighted sum over the users. */
  lemma {:induction false} ReduceIsWeightedSum(inputs: seq<Stream>, weights: seq<Complex>, n: nat)
    requires |inputs| == |weights| && 1 <= n <= |inputs| && SameLengths(inputs)
    ensures SameLengths(Weighted(inputs, weights))
    ensures forall t :: 0 <= t < |inputs[0]| ==>
      ReducePrefix(Weighted(inputs, weights), n)[t] == WeightedSumAt(inputs, weights, n, t)
  {
    var ws := Weighted(inputs, weights);
    assert SameLengths(ws);
    if n > 1 {
      ReduceIsWeightedSum(inputs, weights, n - 1);
    }
    forall t | 0 <= t < |inputs[0]|
      ensures ReducePrefix(ws, n)[t] == WeightedSumAt(inputs, weights, n, t)
    {
      if n == 1 {
        assert WeightedSumAt(inputs, weights, 0, t) == Zero;
      }
    }
  }

  /** Python list indexing: `-n <= k < 0` counts from the end, anything else outside `[0, n)` fails. */
  function ListIndex(k: int, n: nat): (r: Option<nat>)
    ensures r.Some? <==> -(n as int) <= k < n
    ensures r.Some? ==> r.value < n && r.value % n == k % n
  {
    if 0 <= k < n then Some(k) else if -(n as int) <= k < 0 then Some(n + k) else None
  }

  /**
   * The combination step of the transmit path: weight every user's stream,
   * then sum them all (sum mode) or pick the stream of `selectIndex`.
   */
  function CombineUsers(inputs: seq<Stream>, weights: seq<Complex>, sumMode: int, selectIndex: int)
    : (r: Result<Stream>)
    requires |inputs| == |weights|
    // sum mode: defined exactly when there is a user and all streams have one length
    ensures sumMode == SumMode ==> (r.Ok? <==> |inputs| > 0 && SameLengths(inputs))
    ensures sumMode == SumMode && |inputs| == 0 ==> r == Err(NoUsers)
    ensures sumMode == SumMode && |inputs| > 0 && !SameLengths(inputs) ==> r == Err(LengthMismatch)
    ensures sumMode == SumMode && r.Ok? ==>
      |r.value| == |inputs[0]| &&
      forall t :: 0 <= t < |inputs[0]| ==> r.value[t] == WeightedSumAt(inputs, weights, |inputs|, t)
    // select mode: defined exactly when the index is a valid list index
    ensures sumMode != SumMode ==> (r.Ok? <==> -(|inputs| as int) <= selectIndex < |inputs|)
    ensures sumMode != SumMode && !r.Ok? ==> r == Err(IndexOutOfRange)
    ensures sumMode != SumMode && r.Ok? ==>
      var k := ListIndex(selectIndex, |inputs|).value;
      |r.value| == |inputs[k]| &&
      forall t :: 0 <= t < |inputs[k]| ==> r.value[t] == Mul(inputs[k][t], weights[k])
  {
    var weighted := Weighted(inputs, weights);
    if sumMode == SumMode then
      if |weighted| == 0 then Err(NoUsers)
      else if !SameLengths(inputs) then Err(LengthMismatch)
      else
        ReduceIsWeightedSum(inputs, weights, |inputs|);
        Ok(ReducePrefix(weighted, |weighted|))
    else
      match ListIndex(selectIndex, |weighted|)
      case None => Err(IndexOutOfRange)
      case Some(k) => Ok(weighted[k])
  }

  /** In select mode the result does not depend on the other users' streams or weights. */
  lemma SelectIgnoresOthers(inputs1: seq<Stream>, weights1: seq<Complex>,
                            inputs2: seq<Stream>, weights2: seq<Complex>,
                            sumMode: int, selectIndex: int, k: nat)
    requires |inputs1| == |weights1| == |inputs2| == |weights2|
    requires sumMode != SumMode && ListIndex(selectIndex, |inputs1|) == Some(k)
    requires inputs1[k] == inputs2[k] && weights1[k] == weights2[k]
    ensures CombineUsers(inputs1, weights1, sumMode, selectIndex) == CombineUsers(inputs2, weights2, sumMode, selectIndex)
  {
  }

  /**
   * In select mode the other users' streams need not have the selected
   * stream's length. The lengths 2 and 3 do not broadcast in numpy either, so
   * sum mode rejects the same input.
   */
  lemma SelectAllowsRaggedStreams()
    ensures CombineUsers([[Complex(1.0, 0.0), Complex(1.0, 0.0)], [Zero, Zero, Zero]],
                         [UnitWeight, UnitWeight], 0, 0)
         == Ok([Complex(1.0, 0.0), Complex(1.0, 0.0)])
    ensures CombineUsers([[Complex(1.0, 0.0), Complex(1.0, 0.0)], [Zero, Zero, Zero]],
                         [UnitWeight, UnitWeight], 1, 0)
         == Err(LengthMismatch)
  {
    var one := Complex(1.0, 0.0);
    var inputs: seq<Stream> := [[one, one], [Zero, Zero, Zero]];
    var weights := [UnitWeight, UnitWeight];
    var r := CombineUsers(inputs, weights, 0, 0);
    assert ListIndex(0, 2) == Some(0);
    assert r.Ok? && |r.value| == 2;
    assert r.value[0] == Mul(one, UnitWeight) == one;
    assert r.value[1] == Mul(one, UnitWeight) == one;
    assert r.value == [one, one];
    assert !SameLengths(inputs) by {
      assert |inputs[1]| != |inputs[0]|;
    }
  }
}
