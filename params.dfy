/**
 * The ordered parameter container `Params` (src/params.rs): a sequence of
 * (name, dynamic value) pairs kept in insertion order, never sorted and never
 * deduplicated; its iteration, its serialisation as a map, and the two
 * infallible conversions into it.
 *
 * The generic `ToString`, `Into<IValue>` and `Serialize` capabilities of the
 * Rust code are function parameters here (`toStr`, `into`, `encode`).
 */
module Params {
  import opened Wrappers
  import opened DynamicValue

  /** One parameter: its name and its value. */
  type Pair = (string, Value)

  // ---------------------------------------------------------------------------
  // Iteration
  // ---------------------------------------------------------------------------

  /**
   * An iterator over stored pairs (`std::vec::IntoIter` for the owned form,
   * `slice::Iter` for the shared one): the pairs and the position of the next
   * one to yield.
   */
  datatype PairIter = PairIter(items: seq<Pair>, pos: nat) {

    /** `Iterator::next`: the pair at the position and the advanced iterator. */
    function Next(): Option<(Pair, PairIter)> {
      if pos < |items| then Some((items[pos], PairIter(items, pos + 1))) else None
    }
  }

  /** Everything an iterator yields when `next` is called until it returns `None`. */
  function Drain(it: PairIter): seq<Pair>
    decreases |it.items| - it.pos
  {
    match it.Next()
    case None => []
    case Some((p, rest)) => [p] + Drain(rest)
  }

  /** Draining an iterator yields exactly the pairs from its position on, in order. */
  lemma {:induction false} DrainYieldsSuffix(it: PairIter)
    requires it.pos <= |it.items|
    ensures Drain(it) == it.items[it.pos..]
    decreases |it.items| - it.pos
  {
    if it.pos < |it.items| {
      var rest := PairIter(it.items, it.pos + 1);
      DrainYieldsSuffix(rest);
      assert it.items[it.pos..] == [it.items[it.pos]] + it.items[it.pos + 1..];
    }
  }

  // ---------------------------------------------------------------------------
  // Serialisation
  // ---------------------------------------------------------------------------

  /** A call `Params::serialize` makes on its serializer. */
  datatype Call =
    | SerializeMap(len: nat)                        // serializer.serialize_map(Some(len))
    | SerializeEntry(key: string, value: Value)     // map.serialize_entry(key, value)
    | EndMap                                        // map.end()

  /**
   * A serializer, seen only through its answers. A serializer is stateful, so
   * whether it accepts a call is a function of every call made so far, the
   * call in question being the last one; `finish` gives what `end` returns.
   */
  datatype Sink<O, E> = Sink(accept: seq<Call> -> Outcome<E>, finish: seq<Call> -> Result<O, E>)

  /** The calls of a serialisation that no call refuses. */
  function MapCalls(ps: seq<Pair>): seq<Call> {
    [SerializeMap(|ps|)]
    + seq(|ps|, i requires 0 <= i < |ps| => SerializeEntry(ps[i].0, ps[i].1))
    + [EndMap]
  }

  /** The entries a consumer of the calls receives, in the order received. */
  function Entries(calls: seq<Call>): seq<Pair> {
    if calls == [] then []
    else
      (match calls[0]
       case SerializeEntry(k, v) => [(k, v)]
       case _ => [])
      + Entries(calls[1..])
  }

  /** The map size the calls declare, if they open a map. */
  function DeclaredLen(calls: seq<Call>): Option<nat> {
    if calls != [] && calls[0].SerializeMap? then Some(calls[0].len) else None
  }

  lemma {:induction false} EntriesAppend(a: seq<Call>, b: seq<Call>)
    ensures Entries(a + b) == Entries(a) + Entries(b)
  {
    if a == [] {
      assert a + b == b;
    } else {
      assert (a + b)[1..] == a[1..] + b;
      EntriesAppend(a[1..], b);
    }
  }

  lemma {:induction false} EntriesOfEntryCalls(ps: seq<Pair>)
    ensures Entries(seq(|ps|, i requires 0 <= i < |ps| => SerializeEntry(ps[i].0, ps[i].1))) == ps
  {
    var calls := seq(|ps|, i requires 0 <= i < |ps| => SerializeEntry(ps[i].0, ps[i].1));
    if ps != [] {
      var tail := seq(|ps[1..]|, i requires 0 <= i < |ps[1..]| => SerializeEntry(ps[1..][i].0, ps[1..][i].1));
      assert calls[1..] == tail;
      EntriesOfEntryCalls(ps[1..]);
      assert ps == [ps[0]] + ps[1..];
    }
  }

  /**
   * What a serializer that refuses nothing receives: a map declared with the
   * container's length, then exactly the container's pairs as entries, in
   * container order, duplicates included.
   */
  lemma {:induction false} SerializedEntriesArePairs(ps: seq<Pair>)
    ensures DeclaredLen(MapCalls(ps)) == Some(|ps|)
    ensures Entries(MapCalls(ps)) == ps
  {
    var entries := seq(|ps|, i requires 0 <= i < |ps| => SerializeEntry(ps[i].0, ps[i].1));
    EntriesAppend([SerializeMap(|ps|)] + entries, [EndMap]);
    EntriesAppend([SerializeMap(|ps|)], entries);
    EntriesOfEntryCalls(ps);
    assert Entries([SerializeMap(|ps|)]) == [] by {
      assert [SerializeMap(|ps|)][1..] == [];
    }
    assert Entries([EndMap]) == [] by {
      assert [EndMap][1..] == [];
    }
  }

  /**
   * A serialisation stopped by a refusal has handed over a prefix of the
   * pairs, in order: the entries before the refused call and, when the
   * refused call is an entry, that entry.
   */
  lemma {:induction false} StoppedEntriesArePrefix(ps: seq<Pair>, n: nat)
    requires 1 <= n <= |ps| + 1
    ensures Entries(MapCalls(ps)[..n]) == ps[..n - 1]
  {
    var entries := seq(|ps|, i requires 0 <= i < |ps| => SerializeEntry(ps[i].0, ps[i].1));
    var sub := ps[..n - 1];
    var subEntries := seq(|sub|, i requires 0 <= i < |sub| => SerializeEntry(sub[i].0, sub[i].1));
    assert MapCalls(ps)[..n] == [SerializeMap(|ps|)] + subEntries;
    EntriesAppend([SerializeMap(|ps|)], subEntries);
    EntriesOfEntryCalls(sub);
    assert Entries([SerializeMap(|ps|)]) == [] by {
      assert [SerializeMap(|ps|)][1..] == [];
    }
  }

  // ---------------------------------------------------------------------------
  // The fallible collection loop shared by `PairsIter` and `PairsArray`
  // ---------------------------------------------------------------------------

  /**
   * Reference definition of the loop `for (k, v) in elements { vector.push((k.to_string(),
   * encode(v)?)) }`: the pairs in element order, or the error of the first
   * element whose value does not encode.
   */
  function Collect<K, V, E>(items: seq<(K, V)>, toStr: K -> string, encode: V -> Result<Value, E>)
    : (r: Result<seq<Pair>, E>)
    ensures r.Success? ==> |r.value| == |items|
  {
    if items == [] then Success([])
    else
      match encode(items[0].1)
      case Failure(e) => Failure(e)
      case Success(v) =>
        match Collect(items[1..], toStr, encode)
        case Failure(e) => Failure(e)
        case Success(rest) => Success([(toStr(items[0].0), v)] + rest)
  }

  /** Collecting succeeds exactly when every element's value encodes. */
  lemma {:induction false} CollectSucceedsIff<K, V, E>(items: seq<(K, V)>, toStr: K -> string, encode: V -> Result<Value, E>)
    ensures Collect(items, toStr, encode).Success?
        <==> forall i :: 0 <= i < |items| ==> encode(items[i].1).Success?
  {
    if items != [] {
      CollectSucceedsIff(items[1..], toStr, encode);
      assert forall i :: 1 <= i < |items| ==> items[1..][i - 1] == items[i];
    }
  }

  /**
   * On success there is one pair per element, in element order: the key's
   * string form and the encoded value.
   */
  lemma {:induction false} CollectSuccess<K, V, E>(items: seq<(K, V)>, toStr: K -> string, encode: V -> Result<Value, E>)
    requires Collect(items, toStr, encode).Success?
    ensures |Collect(items, toStr, encode).value| == |items|
    ensures forall i :: 0 <= i < |items| ==>
      encode(items[i].1).Success? && Collect(items, toStr, encode).value[i] == (toStr(items[i].0), encode(items[i].1).value)
  {
    if items != [] {
      CollectSuccess(items[1..], toStr, encode);
      assert forall i :: 1 <= i < |items| ==> items[1..][i - 1] == items[i];
    }
  }

  /** On failure the error is that of an element all of whose predecessors encode. */
  lemma {:induction false} CollectFailure<K, V, E>(items: seq<(K, V)>, toStr: K -> string, encode: V -> Result<Value, E>)
    requires Collect(items, toStr, encode).Failure?
    ensures exists j :: 0 <= j < |items| && encode(items[j].1) == Failure(Collect(items, toStr, encode).error)
                     && forall i :: 0 <= i < j ==> encode(items[i].1).Success?
  {
    if encode(items[0].1).Success? {
      CollectFailure(items[1..], toStr, encode);
      var j :| 0 <= j < |items[1..]| && encode(items[1..][j].1) == Failure(Collect(items[1..], toStr, encode).error)
                && forall i :: 0 <= i < j ==> encode(items[1..][i].1).Success?;
      assert forall i :: 1 <= i < j + 1 ==> items[1..][i - 1] == items[i];
      assert encode(items[j + 1].1) == Failure(Collect(items, toStr, encode).error);
    } else {
      assert encode(items[0].1) == Failure(Collect(items, toStr, encode).error);
    }
  }

  /** Conversely, the first element whose value fails to encode decides the error. */
  lemma {:induction false} CollectFirstFailure<K, V, E>(items: seq<(K, V)>, j: nat, toStr: K -> string, encode: V -> Result<Value, E>)
    requires j < |items| && encode(items[j].1).Failure?
    requires forall i :: 0 <= i < j ==> encode(items[i].1).Success?
    ensures Collect(items, toStr, encode) == Failure(encode(items[j].1).error)
  {
    if j > 0 {
      assert forall i :: 0 <= i < j - 1 ==> items[1..][i] == items[i + 1];
      CollectFirstFailure(items[1..], j - 1, toStr, encode);
      assert encode(items[0].1).Success?;
    }
  }

  /** A failure in a prefix is the failure of the whole: later elements are never consulted. */
  lemma {:induction false} CollectFailureExtends<K, V, E>(a: seq<(K, V)>, b: seq<(K, V)>, toStr: K -> string, encode: V -> Result<Value, E>)
    requires Collect(a, toStr, encode).Failure?
    ensures Collect(a + b, toStr, encode) == Collect(a, toStr, encode)
  {
    assert (a + b)[0] == a[0];
    if encode(a[0].1).Success? {
      assert (a + b)[1..] == a[1..] + b;
      CollectFailureExtends(a[1..], b, toStr, encode);
    }
  }

  /** Collecting one more element: the loop body of the two fallible conversions. */
  lemma {:induction false} CollectSnoc<K, V, E>(items: seq<(K, V)>, x: (K, V), toStr: K -> string, encode: V -> Result<Value, E>)
    requires Collect(items, toStr, encode).Success?
    ensures encode(x.1).Failure? ==> Collect(items + [x], toStr, encode) == Failure(encode(x.1).error)
    ensures encode(x.1).Success? ==>
      Collect(items + [x], toStr, encode) == Success(Collect(items, toStr, encode).value + [(toStr(x.0), encode(x.1).value)])
  {
    if items == [] {
      assert items + [x] == [x];
      assert [x][1..] == [];
      assert Collect([x][1..], toStr, encode) == Success([]);
      if encode(x.1).Success? {
        assert [(toStr(x.0), encode(x.1).value)] + [] == [] + [(toStr(x.0), encode(x.1).value)];
      }
    } else {
      assert (items + [x])[0] == items[0];
      assert (items + [x])[1..] == items[1..] + [x];
      CollectSnoc(items[1..], x, toStr, encode);
      if encode(x.1).Success? {
        var head := (toStr(items[0].0), encode(items[0].1).value);
        var tail := Collect(items[1..], toStr, encode).value;
        assert [head] + (tail + [(toStr(x.0), encode(x.1).value)]) == ([head] + tail) + [(toStr(x.0), encode(x.1).value)];
      }
    }
  }

  /**
   * One step of the loop over `items`, at index `i`, with the prefix already
   * collected: an encoding failure here is the result of the whole loop, and
   * a success extends the collected prefix by one pair.
   */
  lemma CollectStep<K, V, E>(items: seq<(K, V)>, i: nat, toStr: K -> string, encode: V -> Result<Value, E>)
    requires i < |items| && Collect(items[..i], toStr, encode).Success?
    ensures encode(items[i].1).Failure? ==> Collect(items, toStr, encode) == Failure(encode(items[i].1).error)
    ensures encode(items[i].1).Success? ==>
      Collect(items[..i + 1], toStr, encode)
      == Success(Collect(items[..i], toStr, encode).value + [(toStr(items[i].0), encode(items[i].1).value)])
  {
    assert items[..i + 1] == items[..i] + [items[i]];
    CollectSnoc(items[..i], items[i], toStr, encode);
    if encode(items[i].1).Failure? {
      CollectFailureExtends(items[..i + 1], items[i + 1..], toStr, encode);
      assert items[..i + 1] + items[i + 1..] == items;
    }
  }

  /**
   * With values that are already dynamic values, the conversion cannot fail:
   * the infallible `From<[(K, IValue); N]>` is this loop with an encoder that
   * returns its argument.
   */
  lemma CollectInfallible<K, E>(items: seq<(K, Value)>, toStr: K -> string, encode: Value -> Result<Value, E>)
    requires forall v :: encode(v) == Success(v)
    ensures Collect(items, toStr, encode)
         == Success(seq(|items|, i requires 0 <= i < |items| => (toStr(items[i].0), items[i].1)))
  {
    CollectSucceedsIff(items, toStr, encode);
    CollectSuccess(items, toStr, encode);
    assert Collect(items, toStr, encode).value
        == seq(|items|, i requires 0 <= i < |items| => (toStr(items[i].0), items[i].1));
  }

  /** A one-element source whose value encodes becomes one pair. */
  lemma CollectSingle<K, V, E>(key: K, value: V, toStr: K -> string, encode: V -> Result<Value, E>)
    requires encode(value).Success?
    ensures Collect([(key, value)], toStr, encode) == Success([(toStr(key), encode(value).value)])
  {
    var items := [(key, value)];
    assert items[1..] == [];
    assert Collect(items[1..], toStr, encode) == Success([]);
    assert [(toStr(key), encode(value).value)] + [] == [(toStr(key), encode(value).value)];
  }

  // ---------------------------------------------------------------------------
  // Conversion from an unordered string map
  // ---------------------------------------------------------------------------

  /** The pairs the entries of `m` with keys in `keys` become: the value as a string value. */
  ghost function MapEntries(m: map<string, string>, keys: set<string>): set<Pair>
    requires keys <= m.Keys
  {
    set k | k in keys :: (k, Str(m[k]))
  }

  lemma MapEntriesAdd(m: map<string, string>, keys: set<string>, k: string)
    requires keys <= m.Keys && k in m && k !in keys
    ensures (k, Str(m[k])) !in MapEntries(m, keys)
    ensures MapEntries(m, keys + {k}) == MapEntries(m, keys) + {(k, Str(m[k]))}
  {
  }

  lemma {:induction false} MapEntriesCard(m: map<string, string>, keys: set<string>)
    requires keys <= m.Keys
    ensures |MapEntries(m, keys)| == |keys|
    decreases keys
  {
    if keys != {} {
      var k :| k in keys;
      var others := keys - {k};
      MapEntriesCard(m, others);
      MapEntriesAdd(m, others, k);
      assert others + {k} == keys;
    }
  }

  lemma TwoPositions<T>(s: seq<T>, i: nat, j: nat)
    requires i < j < |s| && s[i] == s[j]
    ensures multiset(s)[s[i]] >= 2
  {
    assert s == s[..j] + s[j..];
    assert s[i] in s[..j];
    assert s[j..][0] == s[j];
  }

  /**
   * Whatever order the map hands its entries out in, a sequence holding one
   * copy of each converted entry has one pair per entry: as many pairs as the
   * map has entries, every pair a key of the map with its value as a string
   * value, every key at exactly one position, nothing invented.
   */
  lemma MapConversionIsOneToOne(m: map<string, string>, ps: seq<Pair>)
    requires multiset(ps) == multiset(MapEntries(m, m.Keys))
    ensures |ps| == |m|
    ensures forall i :: 0 <= i < |ps| ==> ps[i].0 in m && ps[i].1 == Str(m[ps[i].0])
    ensures forall k :: k in m ==> exists i :: 0 <= i < |ps| && ps[i] == (k, Str(m[k]))
    ensures forall i, j :: 0 <= i < j < |ps| ==> ps[i].0 != ps[j].0
  {
    var entries := MapEntries(m, m.Keys);
    MapEntriesCard(m, m.Keys);
    assert |ps| == |multiset(ps)| == |multiset(entries)| == |entries|;
    forall i | 0 <= i < |ps|
      ensures ps[i].0 in m && ps[i].1 == Str(m[ps[i].0])
    {
      assert ps[i] in multiset(ps);
      assert ps[i] in entries;
    }
    forall k | k in m
      ensures exists i :: 0 <= i < |ps| && ps[i] == (k, Str(m[k]))
    {
      assert (k, Str(m[k])) in entries;
      assert (k, Str(m[k])) in multiset(ps);
      assert (k, Str(m[k])) in ps;
    }
    forall i, j | 0 <= i < j < |ps|
      ensures ps[i].0 != ps[j].0
    {
      if ps[i].0 == ps[j].0 {
        assert ps[i] == ps[j];
        TwoPositions(ps, i, j);
        assert false;
      }
    }
  }

  /** The unit test `from_hashmap`: `{"user_id": "1"}` becomes `[("user_id", "1")]`. */
  lemma FromHashMapExample(ps: seq<Pair>)
    requires multiset(ps) == multiset(MapEntries(map["user_id" := "1"], map["user_id" := "1"].Keys))
    ensures ps == [("user_id", Str("1"))]
  {
    var m := map["user_id" := "1"];
    assert m.Keys == {"user_id"};
    MapConversionIsOneToOne(m, ps);
  }

  // ---------------------------------------------------------------------------
  // The container
  // ---------------------------------------------------------------------------

  /** `Params(pub Vec<Pair>)`: the pairs, in the order they were supplied. */
  class Params {
    var pairs: seq<Pair>

    /** `Params::new`: no pairs. */
    constructor ()
      ensures pairs == [] && Len() == 0
    {
      pairs := [];
    }

    /** The tuple constructor `Params(vector)`. */
    constructor FromVec(vector: seq<Pair>)
      ensures pairs == vector
    {
      pairs := vector;
    }

    /** `Params::len`. */
    function Len(): (n: nat)
      reads this
      ensures n == |pairs|
    {
      |pairs|
    }

    /**
     * `Params::insert`: pushes `(key.to_string(), value.into())` at the end,
     * whether or not the key is already present.
     */
    method Insert<K, V>(key: K, value: V, toStr: K -> string, into: V -> Value)
      modifies this
      ensures pairs == old(pairs) + [(toStr(key), into(value))]
      ensures Len() == old(Len()) + 1
      ensures pairs[..old(Len())] == old(pairs)
      ensures pairs[Len() - 1] == (toStr(key), into(value))
    {
      pairs := pairs + [(toStr(key), into(value))];
    }

    /**
     * `into_iter` of `Params` and of `&Params`: an iterator that yields the
     * stored pairs in stored order.
     */
    function Iter(): (it: PairIter)
      reads this
      ensures Drain(it) == pairs
    {
      DrainYieldsSuffix(PairIter(pairs, 0));
      PairIter(pairs, 0)
    }

    /**
     * `into_iter` of `&mut Params`, consumed by a traversal that rewrites each
     * pair through its mutable reference. The traversal visits the pairs in
     * stored order; `visit` sees the pairs visited before (a stateful visitor
     * is a function of what it has seen) and the current pair.
     */
    method IterMut(visit: (seq<Pair>, Pair) -> Pair)
      modifies this
      ensures |pairs| == |old(pairs)|
      ensures forall i :: 0 <= i < |pairs| ==> pairs[i] == visit(old(pairs)[..i], old(pairs)[i])
    {
      var i := 0;
      var seen := [];
      while i < |pairs|
        invariant |pairs| == |old(pairs)| && 0 <= i <= |pairs|
        invariant seen == old(pairs)[..i]
        invariant forall j :: 0 <= j < i ==> pairs[j] == visit(old(pairs)[..j], old(pairs)[j])
        invariant pairs[i..] == old(pairs)[i..]
      {
        var current := pairs[i];
        assert current == pairs[i..][0] == old(pairs)[i];
        pairs := pairs[i := visit(seen, current)];
        seen := seen + [current];
        i := i + 1;
      }
    }

    /**
     * `Serialize::serialize`: opens a map of size `len()`, emits one entry per
     * pair while iterating in stored order, then ends the map. The first call
     * the serializer refuses stops it, and that error is the result.
     * `trace` is the calls made, in order.
     */
    method Serialize<O, E>(sink: Sink<O, E>) returns (trace: seq<Call>, r: Result<O, E>)
      ensures 1 <= |trace| <= |pairs| + 2 && trace == MapCalls(pairs)[..|trace|]
      ensures forall j :: 1 <= j < |trace| && j <= |pairs| + 1 ==> sink.accept(trace[..j]).Pass?
      ensures |trace| <= |pairs| + 1 ==> sink.accept(trace).Fail? && r == Failure(sink.accept(trace).error)
      ensures |trace| == |pairs| + 2 ==> r == sink.finish(trace)
    {
      trace := [SerializeMap(Len())];
      var started := sink.accept(trace);
      if started.Fail? {
        return trace, Failure(started.error);
      }
      var it := Iter();
      var next := it.Next();
      while next.Some?
        invariant it.items == pairs && it.pos <= |pairs|
        invariant next == it.Next()
        invariant trace == MapCalls(pairs)[..it.pos + 1]
        invariant forall j :: 1 <= j <= it.pos + 1 ==> sink.accept(MapCalls(pairs)[..j]).Pass?
        decreases |pairs| - it.pos
      {
        var (pair, rest) := next.value;
        assert MapCalls(pairs)[it.pos + 1] == SerializeEntry(pair.0, pair.1);
        assert MapCalls(pairs)[..it.pos + 2] == MapCalls(pairs)[..it.pos + 1] + [SerializeEntry(pair.0, pair.1)];
        trace := trace + [SerializeEntry(pair.0, pair.1)];
        var entered := sink.accept(trace);
        if entered.Fail? {
          assert forall j :: 1 <= j < |trace| ==> trace[..j] == MapCalls(pairs)[..j];
          return trace, Failure(entered.error);
        }
        it := rest;
        next := it.Next();
      }
      assert MapCalls(pairs) == MapCalls(pairs)[..|pairs| + 1] + [EndMap];
      trace := trace + [EndMap];
      assert forall j :: 1 <= j < |trace| ==> trace[..j] == MapCalls(pairs)[..j];
      r := sink.finish(trace);
    }
  }

  // ---------------------------------------------------------------------------
  // Infallible conversions into `Params`
  // ---------------------------------------------------------------------------

  /**
   * `From<HashMap<String, String>>`: one pair per entry, the value as a
   * string value. The map's iteration order is unspecified, so the loop takes
   * the remaining keys in an arbitrary order.
   */
  method FromHashMap(m: map<string, string>) returns (p: Params)
    ensures fresh(p)
    ensures |p.pairs| == |m|
    ensures multiset(p.pairs) == multiset(MapEntries(m, m.Keys))
  {
    var vector: seq<Pair> := [];
    var remaining := m.Keys;
    while remaining != {}
      invariant remaining <= m.Keys
      invariant |vector| + |remaining| == |m.Keys|
      invariant multiset(vector) == multiset(MapEntries(m, m.Keys - remaining))
      decreases remaining
    {
      var k :| k in remaining;
      MapEntriesAdd(m, m.Keys - remaining, k);
      assert m.Keys - (remaining - {k}) == (m.Keys - remaining) + {k};
      vector := vector + [(k, Str(m[k]))];
      remaining := remaining - {k};
    }
    assert m.Keys - remaining == m.Keys;
    p := new Params.FromVec(vector);
  }

  /**
   * `From<[(K, IValue); N]>`: one pair per array element, in array order, the
   * key in its string form and the value unchanged.
   */
  method FromArray<K>(elements: seq<(K, Value)>, toStr: K -> string) returns (p: Params)
    ensures fresh(p)
    ensures |p.pairs| == |elements|
    ensures forall i :: 0 <= i < |elements| ==> p.pairs[i] == (toStr(elements[i].0), elements[i].1)
  {
    var vector: seq<Pair> := [];
    for i := 0 to |elements|
      invariant |vector| == i
      invariant forall j :: 0 <= j < i ==> vector[j] == (toStr(elements[j].0), elements[j].1)
    {
      var (key, value) := elements[i];
      vector := vector + [(toStr(key), value)];
    }
    p := new Params.FromVec(vector);
  }
}
