/**
 * `PairsIter` (src/params/pairs_iter.rs): a sized iterator of (key, value)
 * pairs whose values go through the fallible dynamic-value encoder on their
 * way into `Params`.
 */
module PairsIter {
  import opened Wrappers
  import opened DynamicValue
  import opened Params

  /**
   * The wrapped `ExactSizeIterator`: the elements it yields, in order. Its
   * reported `len()` is the length of `elements`.
   */
  datatype PairsIter<K, V> = PairsIter(elements: seq<(K, V)>)

  /**
   * `TryFrom<PairsIter<K, V, I>> for Params`: converts every element in
   * iteration order, key by `toStr`, value by `encode`, and stops at the first
   * value that does not encode, returning its error and no container.
   * `encoded` is the values handed to the encoder, in order.
   */
  method TryFrom<K, V, E>(pairsIter: PairsIter<K, V>, toStr: K -> string, encode: V -> Result<Value, E>)
    returns (r: Result<Params, E>, ghost encoded: seq<V>)
    ensures r.Success? ==> fresh(r.value) && Collect(pairsIter.elements, toStr, encode) == Success(r.value.pairs)
    ensures r.Failure? ==> Collect(pairsIter.elements, toStr, encode) == Failure(r.error)
    ensures r.Success? <==> forall i :: 0 <= i < |pairsIter.elements| ==> encode(pairsIter.elements[i].1).Success?
    ensures r.Success? ==> |r.value.pairs| == |pairsIter.elements|
    ensures |encoded| <= |pairsIter.elements|
    ensures forall i :: 0 <= i < |encoded| ==> encoded[i] == pairsIter.elements[i].1
    ensures r.Success? ==> |encoded| == |pairsIter.elements|
    ensures r.Failure? ==> 0 < |encoded| && encode(encoded[|encoded| - 1]) == Failure(r.error)
                           && forall i :: 0 <= i < |encoded| - 1 ==> encode(encoded[i]).Success?
  {
    var elements := pairsIter.elements;
    CollectSucceedsIff(elements, toStr, encode);
    if Collect(elements, toStr, encode).Success? {
      CollectSuccess(elements, toStr, encode);
    }
    var vector: seq<Pair> := [];
    encoded := [];
    var i := 0;
    while i < |elements|
      invariant 0 <= i <= |elements|
      invariant Collect(elements[..i], toStr, encode) == Success(vector)
      invariant |encoded| == i
      invariant forall j :: 0 <= j < i ==> encoded[j] == elements[j].1 && encode(encoded[j]).Success?
    {
      var (k, v) := elements[i];
      CollectStep(elements, i, toStr, encode);
      encoded := encoded + [v];
      var value :- encode(v);
      vector := vector + [(toStr(k), value)];
      i := i + 1;
    }
    assert elements[..i] == elements;
    var params := new Params.FromVec(vector);
    r := Success(params);
  }

  /**
   * The doc example: `PairsIter(vec![("user_id", 1)].into_iter())` converts to
   * the single pair `("user_id", 1)`, given an encoder that maps 1 so.
   */
  method DocExample<V, E>(one: V, toStr: string -> string, encode: V -> Result<Value, E>)
    returns (r: Result<Params, E>)
    requires toStr("user_id") == "user_id" && encode(one) == Success(Number(1))
    ensures r.Success? && r.value.pairs == [("user_id", Number(1))]
  {
    ghost var encoded;
    r, encoded := TryFrom(PairsIter([("user_id", one)]), toStr, encode);
    CollectSingle("user_id", one, toStr, encode);
  }

  /**
   * The unit test `from_string_pairs_iter`: `[("user_ids", "1,2,3,4,5")]`
   * converts to the single pair holding that string, given an encoder that
   * maps a string to the string value.
   */
  method StringPairsExample<E>(toStr: string -> string, encode: string -> Result<Value, E>)
    returns (r: Result<Params, E>)
    requires toStr("user_ids") == "user_ids" && encode("1,2,3,4,5") == Success(Str("1,2,3,4,5"))
    ensures r.Success? && r.value.pairs == [("user_ids", Str("1,2,3,4,5"))]
  {
    ghost var encoded;
    r, encoded := TryFrom(PairsIter([("user_ids", "1,2,3,4,5")]), toStr, encode);
    CollectSingle("user_ids", "1,2,3,4,5", toStr, encode);
  }
}
