# Params: an ordered parameter container, in Dafny

This project models the parameter container of the `vk_method` Rust crate:
`Params`, an ordered sequence of (name, dynamic value) pairs used as the
parameters of a remote API call, and the routines that build it. Pairs stay in
the order they were inserted or supplied. They are never sorted and never
deduplicated.

- `params.dfy` (module `Params`, from `src/params.rs`) holds the class `Params`
  with its field `pairs: seq<Pair>`. Its operations are `new`, `insert`, `len`,
  the three iteration forms and `serialize`. The module also holds the two
  infallible conversions (from a `HashMap<String, String>` and from an array
  of `(K, IValue)`) and `Collect`, the reference definition of the loop that
  the two fallible conversions share.
- `pairs_iter.dfy` (module `PairsIter`, from `src/params/pairs_iter.rs`) and
  `pairs_array.dfy` (module `PairsArray`, from `src/params/pairs_array.rs`)
  hold the two fallible conversions. Each runs an imperative loop that returns
  at the first value that fails to encode, through `:-` (Rust's `?`).
- `dynamic_value.dfy` has `Value`, standing in for ijson's `IValue`.
  `wrappers.dfy` has `Result`, `Option` and `Outcome`.

The code passes external capabilities in as function parameters:

- `toStr: K -> string` is `ToString`.
- `into: V -> Value` is `Into<IValue>`.
- `encode: V -> Result<Value, E>` is `ijson::to_value`.

A serializer is a `Sink`. It decides whether to accept each call, given every
call made so far, so any stateful serializer can be described this way.
`finish` gives the result of `end`.

A Rust fixed array `[(K, V); N]` and an `ExactSizeIterator` are both modelled
as their sequence of elements. N is the length of that sequence.

- `From<[(K, IValue); N]>` cannot fail, since its values are already dynamic
  values. The fallible array conversion is `PairsArray`.
- `PairsIter`'s test (src/params/pairs_iter.rs:51-60) sends `&str` values
  through the fallible encoder.

## Model

| member | source | states |
|---|---|---|
| Params.Params.constructor | src/params.rs:19-21 | `new` gives a container with no pairs, whose `Len()` is 0 |
| Params.Params.FromVec | src/params.rs:16 | wrapping a vector gives a container that holds exactly that vector's pairs |
| Params.Params.Insert | src/params.rs:23-29 | appends exactly `(toStr(key), into(value))` at the end, whether or not the key is present; `Len()` grows by one and every earlier pair stays at its position |
| Params.Params.Len | src/params.rs:31-33 | the number of stored pairs |
| Params.Params.Iter | src/params.rs:36-52 | calling `next` until it returns `None` yields exactly the stored pairs, in stored order |
| Params.DrainYieldsSuffix | src/params.rs:36-52 | an iterator at position `pos` yields exactly the pairs from `pos` on, in order, and then stops |
| Params.Params.IterMut | src/params.rs:54-61 | mutable iteration visits every pair once, in stored order; the length is unchanged and pair i is replaced by what the visitor makes of it, having seen pairs 0..i-1 |
| Params.Params.Serialize | src/params.rs:90-103 | the calls are a prefix of: open a map of size `len()`, one entry per pair in container order, end. Every call before the last was accepted. Stopping early means the last call was refused and its error is the result; otherwise the result is what `end` returns |
| Params.SerializedEntriesArePairs | src/params.rs:90-103 | a complete serialisation declares size `len()` and hands over exactly the container's pairs as entries: same order, same count, duplicates kept |
| Params.StoppedEntriesArePrefix | src/params.rs:95-99 | a serialisation stopped by a refusal has handed over an in-order prefix of the pairs |
| Params.FromHashMap | src/params.rs:63-73 | gives `|m|` pairs whose multiset is the map's entries with each value as a string value; entries are taken in an unspecified order |
| Params.MapConversionIsOneToOne | src/params.rs:63-73 | any sequence with that multiset has `|m|` pairs. Every pair is a key of the map with its value as a string value, every key of the map appears at exactly one position, and nothing is invented |
| Params.FromHashMapExample | src/params.rs:110-121 | `{"user_id": "1"}` becomes exactly `[("user_id", "1")]` |
| Params.FromArray | src/params.rs:75-88 | gives N pairs, pair i being `(toStr(key_i), value_i)` with the value unchanged, in array order |
| Params.CollectInfallible | src/params.rs:75-88 | with values that are already dynamic values the shared loop cannot fail, and its result is `FromArray`'s pair sequence |
| Params.Collect | src/params/pairs_iter.rs:39-41 | the pairs in element order, or the error of the first element whose value does not encode; on success exactly one pair per element |
| Params.CollectSucceedsIff | src/params/pairs_iter.rs:39-43 | the conversion loop succeeds if and only if every element's value encodes |
| Params.CollectSuccess | src/params/pairs_iter.rs:39-43 | on success there is one pair per element, and pair i is `(toStr(k_i), encode(v_i))`, in element order |
| Params.CollectFailure | src/params/pairs_iter.rs:40 | on failure the error is the encoder's error for some element, every element before which encodes |
| Params.CollectFirstFailure | src/params/pairs_iter.rs:39-41 | conversely, the first element whose value fails to encode determines the error |
| Params.CollectFailureExtends | src/params/pairs_iter.rs:39-41 | once a prefix fails, the elements after it have no effect on the result |
| PairsIter.TryFrom | src/params/pairs_iter.rs:36-43 | the result is `Collect` of the elements: a fresh container of `len()` pairs exactly when every value encodes, otherwise the first failing element's error. The encoder is given the values in order, up to and including the first failing one, and never a later one |
| PairsIter.DocExample | src/params/pairs_iter.rs:13-20 | `PairsIter.TryFrom` on `[("user_id", 1)]` succeeds with the single pair `("user_id", 1)` |
| PairsIter.StringPairsExample | src/params/pairs_iter.rs:51-60 | `PairsIter.TryFrom` on `[("user_ids", "1,2,3,4,5")]` succeeds with the single pair holding that string |
| PairsArray.TryFrom | src/params/pairs_array.rs:34-42 | the same contract as `PairsIter.TryFrom`, over the array's elements in literal order. Both are specified by `Collect`, so the same elements in the same order give the same container or the same error |
| PairsArray.DocExample | src/params/pairs_array.rs:13-20 | `PairsArray.TryFrom` on `[("user_id", 1)]` succeeds with `[("user_id", 1)]` |

## Left out

- The encoding rules of `ijson::to_value` and of `IValue`: `encode` is a function parameter. Numbers are integers in `Value`; floating point is not modelled.
- The serde `Serializer`/`SerializeMap` internals and the JSON output: only the order, count and content of the calls, and the serializer's answers, are modelled.
- `Vec::with_capacity`: a capacity hint with no effect on the result.
- HashMap iteration order: it is unspecified, so `FromHashMap` takes keys in an arbitrary order (`:|`) and is specified up to permutation.
- Ownership, moves and borrowing: the owned `into_iter` consumes the container in Rust. Here it is the same iterator as the shared form (`Params.Params.Iter`), and the container stays readable afterwards.
- Params.Params.IterMut: `iter_mut` hands out mutable references, which Dafny cannot express. The model is a traversal that writes back one pair per reference, with a visitor function of the pairs already seen. It does not model a caller that keeps references after the traversal.
- `usize` width: lengths are unbounded naturals, so the panic on a vector growing past the address space is not modelled.
- The `Debug` and `PartialEq` derives: container equality is sequence equality of `pairs`.
- The `Method` struct in `src/lib.rs`: it only stores a name and a `Params`, with no logic.
- An `ExactSizeIterator` whose `len()` misreports its number of elements: not modelled. `len()` is used only as a capacity hint (src/params/pairs_iter.rs:37), so a wrong value would change only the capacity, not the result.
