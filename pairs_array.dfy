/**
 * `PairsArray` (src/params/pairs_array.rs): a fixed-size array of (key, value)
 * pairs whose values go through the fallible dynamic-value encoder on their
 * way into `Params`. Its conversion runs the same loop as that of `PairsIter`.
 */
module PairsArray {
  import opened Wrappers
  import opened DynamicValue
  import opened Params

  /** The wrapped array `[(K, V); N]`: its elements in literal order, N being their number. */
  datatype PairsArray<K, V> = PairsArray(elements: seq<(K, V)>)

  /**
   * `TryFrom<PairsArray<K, V, N>> for Params`: converts every element in
   * array order, key by `toStr`, value by `encode`, and stops at the first
   * value that does not encode, returning its error and no container.
   * `encoded` is the values handed to the encoder, in order.
   */
  method TryFrom<K, V, E>(pairsArray: PairsArray<K, V>, toStr: K -> string, encode: V -> Result<Value, E>)
    returns (r: Result<Params, E>, ghost encoded: seq<V>)
    ensures r.Success? ==> fresh(r.value) && Collect(pairsArray.elements, toStr, encode) == Success(r.value.pairs)
    ensures r.Failure? ==> Collect(pairsArray.elements, toStr, encode) == Failure(r.error)
    ensures r.Success? <==> forall i :: 0 <= i < |pairsArray.elements| ==> encode(pairsArray.elements[i].1).Success?
    ensures r.Success? ==> |r.value.pairs| == |pairsArray.elements|
    ensures |encoded| <= |pairsArray.elements|
    ensures forall i :: 0 <= i < |encoded| ==> encoded[i] == pairsArray.elements[i].1
    ensures r.Success? ==> |encoded| == |pairsArray.elements|
    ensures r.Failure? ==> 0 < |encoded| && encode(encoded[|encoded| - 1]) == Failure(r.error)
                           && forall i :: 0 <= i < |encoded| - 1 ==> encode(encoded[i]).Success?
  {
    var elements := pairsArray.elements;
    CollectSucceedsIff(elements, toStr, encode);
    if Collect(elements, toStr, encode).Success? {
      CollectSuccess(elements, toStr, encode);
    }
    var vector: seq<Pair> := [];
    encoded := [];
    var i := 0;
    while i < |elements|
      invariant 0 <= i <= |elements|
      invariant Collect(elements[..i], toStr, encode) == Success(vector)
      invariant |encoded| == i
      invariant forall j :: 0 <= j < i ==> encoded[j] == elements[j].1 && encode(encoded[j]).Success?
    {
      var (k, v) := elements[i];
      CollectStep(elements, i, toStr, encode);
      encoded := encoded + [v];
      var value :- encode(v);
      vector := vector + [(toStr(k), value)];
      i := i + 1;
    }
    assert elements[..i] == elements;
    var params := new Params.FromVec(vector);
    r := Success(params);
  }

  /**
   * The doc example: `PairsArray([("user_id", 1)])` converts to
   * `[("user_id", 1)]`, given an encoder that maps 1 to the number 1.
   */
  method DocExample<V, E>(one: V, toStr: string -> string, encode: V -> Result<Value, E>)
    returns (r: Result<Params, E>)
    requires toStr("user_id") == "user_id" && encode(one) == Success(Number(1))
    ensures r.Success? && r.value.pairs == [("user_id", Number(1))]
  {
    ghost var encoded;
    r, encoded := TryFrom(PairsArray([("user_id", one)]), toStr, encode);
    CollectSingle("user_id", one, toStr, encode);
  }
}
