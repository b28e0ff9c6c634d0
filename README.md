# stdx core, modelled in Dafny

This project models the generic data-structure and functional-helper packages of the Go
library `stdx`, and proves properties of the model:

- `cmap`: a sharded concurrent hash map. Keys are routed to a power-of-two number of
  shards by a seeded 32-bit hash.
- `hash`: the seeded per-type hashers and the reflection-driven struct hasher behind
  `cmap`.
- `deque`: a growable ring-buffer double-ended queue.
- `omap`: an insertion-ordered map.
- `mmap`: a multimap from keys to sets of values.
- `set`: a hash set.
- `optional`, `either`, `result`, `tuple`: small value types with their combinators.
- `stream`: an eager stream over a slice with intermediate and terminal operations.
- `collectors`: the reduction strategies streams collect into.
- `lazy`: a value computed at most once.

Each Go package is one Dafny module in one file:

- `cmap.dfy`, `hash.dfy`, `deque.dfy`, `omap.dfy`, `mmap.dfy`, `set.dfy`, `optional.dfy`,
  `either.dfy`, `result.dfy`, `tuple.dfy`, `stream.dfy`, `collectors.dfy`, `lazy.dfy`.
- `gotypes.dfy` holds the Go notions the packages share: nil-able pointers, `error`,
  64-bit wrap-around, powers of two, and slices without repeats.
- `bits.dfy` holds bitwise arithmetic on naturals.
- `seqs.dfy` holds reference definitions on sequences used as specifications: left fold,
  filtering, longest prefix, min/max scan positions, and key sets.

How the Go code is modelled:

- Types whose methods mutate state through a pointer are classes whose methods carry
  `modifies` clauses. These are `ConcurrentMap`, `Deque`, `OrderedMap`, `Multimap`, `Set`
  and `Lazy`.
- Value types (`Option`, `Either`, `Result`, `Tuple2`, `Stream`, `Collector`) are
  datatypes with functions.
- Loops in the Go code are methods with loop invariants. Each is proved against a
  specification function.
- Go's zero value of a type parameter is an explicit `zero` parameter.
- `maphash` is an uninterpreted digest function passed in as a parameter.
- A Go map is a Dafny `map` or `set`. Go's map iteration order is unspecified, so it is
  modelled by nondeterministic choice (`:|`).

## Model

| member | source | states |
|---|---|---|
| CMap.NextPowerOf2 | cmap/concurrentmap.go:95-107 | corrected rounding: 1 for n <= 0; for 1 <= n <= 2^62 the least power of two >= n; above 2^62 the 64-bit wrap to MinInt64 |
| CMap.NextPowerOf2AsWritten | cmap/concurrentmap.go:95-107 | nextPowerOf2 exactly as written (five smearing steps, then the 64-bit n++): 1 for n <= 0 and always an int64; AsWrittenBelow32 and AsWrittenCounterexample say what it returns above 0 |
| CMap.Smear | cmap/concurrentmap.go:95-107 | the bit-smearing loop sets every bit below the highest set bit (64-bit smear) |
| CMap.AsWrittenValue | cmap/concurrentmap.go:95-107 | the 32-bit smear as written is correct for 1 <= n <= 2^32: it yields 2^BitLength(n-1) |
| CMap.CorrectedAgreesBelow32 | cmap/concurrentmap.go:95-107 | for 1 <= n <= 2^32 the least power of two >= n is what nextPowerOf2 as written returns, so WithShards allocates the source's shard count there |
| CMap.AsWrittenBelow32 | cmap/concurrentmap.go:95-107 | for 1 <= n <= 2^32 the written function returns a power of two that is >= n, < 2n, and the least such |
| CMap.AsWrittenCounterexample | cmap/concurrentmap.go:95-107 | for n = 2^32+1 the written function returns 0x1_FFFF_FFFF, which is not a power of two |
| CMap.PowerOfTwoFixed | cmap/concurrentmap.go:66-92 | a power of two is the only power of two r with n <= r < 2n, so WithShards keeps a count that is already a power of two |
| CMap.LastHashWins | cmap/concurrentmap.go:42-47 | among several options, the last WithHash decides the hash function |
| CMap.DefaultHash | cmap/concurrentmap.go:42-47 | with no WithHash option the default hasher stays |
| CMap.LastSeedWins | cmap/concurrentmap.go:50-55 | the last WithSeed decides the seed |
| CMap.DefaultSeed | cmap/concurrentmap.go:50-55 | with no WithSeed option the generated seed stays |
| CMap.MergeKey | cmap/concurrentmap.go:110-114 | when every key lives in the shard its hash routes it to, a key is in the merged map iff it is in its own shard, with the same value |
| CMap.MergeSet | cmap/concurrentmap.go:117-122 | writing a key into its own shard writes it into the merged map and keeps the routing invariant |
| CMap.MergeRemove | cmap/concurrentmap.go:135-140 | deleting a key from its own shard removes it from the merged map and keeps the routing invariant |
| CMap.MergeEmpty | cmap/concurrentmap.go:215-221 | all-empty shards merge to the empty map |
| CMap.MergeSize | cmap/concurrentmap.go:204-212 | the sum of the shard sizes is the size of the merged map |
| CMap.MaskedIndex | cmap/concurrentmap.go:110-114 | hash AND (2^k - 1) is a valid index among 2^k shards |
| CMap.ConcurrentMap.ShardInRange | cmap/concurrentmap.go:110-114 | getShard always picks an existing shard |
| CMap.ConcurrentMap.Lookup | cmap/concurrentmap.go:110-114 | the same key always maps to the same shard, and the map's contents at a key are that shard's contents |
| CMap.ConcurrentMap.WithShards | cmap/concurrentmap.go:66-92 | empty map; shard count SHARD_COUNT for n <= 0, else the least power of two >= n (the corrected rounding, which for n <= 2^32 is the count the source allocates); the options applied in order to the defaults |
| CMap.ConcurrentMap.NormalisedCount | cmap/concurrentmap.go:67-71 | the normalised count is a power of two: SHARD_COUNT for n <= 0, else the least power of two >= n |
| CMap.ConcurrentMap.EmptyShards | cmap/concurrentmap.go:73-78 | a fresh array of the requested number of empty shards |
| CMap.ConcurrentMap.ApplyAll | cmap/concurrentmap.go:87-89 | the options are applied left to right |
| CMap.ConcurrentMap.New | cmap/concurrentmap.go:59-61 | New is WithShards(SHARD_COUNT): 32 empty shards with mask 31 |
| CMap.ConcurrentMap.Set | cmap/concurrentmap.go:117-122 | contents become old[key := value]; invariant kept |
| CMap.ConcurrentMap.Get | cmap/concurrentmap.go:126-132 | present iff the key is in the map, with its value; otherwise None |
| CMap.ConcurrentMap.Delete | cmap/concurrentmap.go:135-140 | contents become old minus the key |
| CMap.ConcurrentMap.Has | cmap/concurrentmap.go:143-145 | true iff the key is in the map |
| CMap.ConcurrentMap.GetOrSet | cmap/concurrentmap.go:149-159 | loaded iff the key was present; then the existing value is returned and nothing changes, otherwise the given value is stored and returned |
| CMap.ConcurrentMap.SetIfAbsent | cmap/concurrentmap.go:163-173 | stores iff the key was absent, and reports whether it stored |
| CMap.ConcurrentMap.Remove | cmap/concurrentmap.go:177-187 | removes the key and returns its old value, or None when it was absent |
| CMap.ConcurrentMap.Compute | cmap/concurrentmap.go:192-201 | stores and returns fn(old value as an Option) at the key |
| CMap.ConcurrentMap.Len | cmap/concurrentmap.go:204-212 | the sum of the shard sizes, which equals the number of keys |
| CMap.ConcurrentMap.Clear | cmap/concurrentmap.go:215-221 | every shard is empty afterwards |
| CMap.ConcurrentMap.RangeShard | cmap/concurrentmap.go:226-237 | within one shard: distinct entries of the shard, all accepted but possibly the last; stops iff fn rejects the last; covers the shard when not stopped |
| CMap.ConcurrentMap.Range | cmap/concurrentmap.go:226-237 | visits distinct entries of the map shard by shard; every one but the last was accepted; if all are accepted every key is visited |
| CMap.ConcurrentMap.Items | cmap/concurrentmap.go:263-270 | a snapshot with each entry exactly once |
| CMap.ConcurrentMap.Keys | cmap/concurrentmap.go:241-248 | each key exactly once |
| CMap.ConcurrentMap.Values | cmap/concurrentmap.go:252-259 | one value per key, in the order of a key list that holds each key once |
| CMap.ConcurrentMap.Clone | cmap/concurrentmap.go:275-282 | a fresh map with the same shard count, mask, hasher, seed and contents |
| CMap.ConcurrentMap.CopyItems | cmap/concurrentmap.go:275-282 | Setting every item of a snapshot into an empty map reproduces the source contents |
| CMap.CopyStep | cmap/concurrentmap.go:275-282 | one Set step of the clone loop keeps the copied-prefix invariant |
| CMap.CopyDone | cmap/concurrentmap.go:275-282 | after the whole snapshot the copy equals the source |
| Hash.Pow256Values | hash/hash.go:26-96 | the byte widths 1, 2, 4, 8 give ranges 2^8, 2^16, 2^32, 2^64 |
| Hash.DecodeEncodeUnsigned | hash/hash.go:59-96 | decoding the little-endian encoding of v < 256^w gives back v |
| Hash.EncodeDecodeUnsigned | hash/hash.go:59-96 | encoding the decoded value of a byte slice gives back the slice |
| Hash.EncodingUnique | hash/hash.go:26-96 | every in-range number has exactly one little-endian encoding of its width, signed or unsigned |
| Hash.SignedUnique | hash/hash.go:33-56 | the two's-complement encoding of a signed number is its only encoding |
| Hash.SignedAsUnsigned | hash/hash.go:33-56 | a signed value is encoded as its residue mod 256^w |
| Hash.HashNumber | hash/hash.go:26-96 | a number hashes to the digest of its (unique) little-endian bytes |
| Hash.IntHasher | hash/hash.go:26-30 | int hashes its 8 little-endian two's-complement bytes |
| Hash.Int8Hasher | hash/hash.go:33-35 | int8 hashes its one byte |
| Hash.Int16Hasher | hash/hash.go:38-42 | int16 hashes its 2 little-endian bytes |
| Hash.Int32Hasher | hash/hash.go:45-49 | int32 hashes its 4 little-endian bytes |
| Hash.Int64Hasher | hash/hash.go:52-56 | int64 hashes its 8 little-endian bytes |
| Hash.UintHasher | hash/hash.go:59-63 | uint hashes its 8 little-endian bytes |
| Hash.Uint8Hasher | hash/hash.go:66-68 | uint8 hashes its one byte |
| Hash.Uint16Hasher | hash/hash.go:71-75 | uint16 hashes its 2 little-endian bytes |
| Hash.Uint32Hasher | hash/hash.go:78-82 | uint32 hashes its 4 little-endian bytes |
| Hash.Uint64Hasher | hash/hash.go:85-89 | uint64 hashes its 8 little-endian bytes |
| Hash.UintptrHasher | hash/hash.go:92-96 | uintptr hashes its 8 little-endian bytes |
| Hash.Float32Hasher | hash/hash.go:99-103 | float32 hashes the 4 little-endian bytes of its IEEE bit pattern |
| Hash.Float64Hasher | hash/hash.go:106-110 | float64 hashes the 8 little-endian bytes of its IEEE bit pattern |
| Hash.BoolHasher | hash/hash.go:113-119 | true hashes the byte 1 and false the byte 0 |
| Hash.IntHashesAsInt64 | hash/hash.go:26-56 | int and int64 hash every value alike |
| Hash.SignedHashesAsUnsigned | hash/hash.go:33-89 | a signed value hashes like its unsigned residue of the same width |
| Hash.Int8MinusOneIsUint8Max | hash/hash.go:33-68 | int8(-1) and uint8(255) collide |
| Hash.Width | hash/hash.go:26-110 | each numeric kind is hashed through 1, 2, 4 or 8 bytes |
| Hash.KindHash | hash/hash.go:229-258 | a struct field hashes by its kind: numbers by their bytes, strings by their bytes, bools as one byte, non-scalar kinds as 0 |
| Hash.NumberHash | hash/hash.go:229-258 | a numeric field hashes like the numeric hasher of its width and signedness |
| Hash.FlattenStruct | hash/hash.go:266-286 | the flattening loop equals the recursive specification Flatten |
| Hash.FlattenScalars | hash/hash.go:266-286 | every flattened field has a scalar kind |
| Hash.FlattenShift | hash/hash.go:266-286 | flattening at base offset b gives the base-0 layout with every offset shifted by b |
| Hash.FlattenFlat | hash/hash.go:266-286 | a struct of named scalar fields flattens to exactly its fields, in order, at base+offset |
| Hash.FlattenNothing | hash/hash.go:266-286 | a struct whose fields are all blank or non-scalar, non-struct flattens to nothing |
| Hash.MixAllStep | hash/hash.go:260 | the mixed hash of one more field is one more application of the golden-ratio mix |
| Hash.FieldHashes | hash/hash.go:229-258 | one hash per flattened field, by that field's kind and value |
| Hash.StructHasher | hash/hash.go:215-264 | the struct hasher loop computes the mixed hash of the field hashes |
| Hash.StructHashDeterminedByFields | hash/hash.go:215-264 | two keys that agree on every flattened field hash alike; padding and skipped fields do not matter |
| Hash.EmptyStructHashesZero | hash/hash.go:215-264 | a struct with no hashable fields hashes to 0 |
| Hash.GetHashFunc | hash/hash.go:123-206 | interface types panic; predeclared basic types get their own hasher; structs get the struct hasher; otherwise Hashable, then Stringer, then seed only |
| Hash.HashKey | hash/hash.go:123-206 | the closure GetHashFunc returns, applied to a seed and a key; StructIgnoresMethods, StringerHashesItsString and FallbackIgnoresKey state what it computes |
| Hash.StructIgnoresMethods | hash/hash.go:186-190 | a struct type's keys hash by their fields alone, even when the type implements Hashable or Stringer |
| Hash.StringerHashesItsString | hash/hash.go:192-201 | a Stringer key hashes like the string it returns |
| Hash.FallbackIgnoresKey | hash/hash.go:192-203 | a type with none of the above writes nothing, so every key of it hashes alike |
| Deque.SlotIsMasked | deque/deque.go:57-140 | the slot arithmetic is (head + k) AND mask, a valid index |
| Deque.SixteenIsPowerOfTwo | deque/deque.go:8 | MinCapacity is a power of two, so mask arithmetic is valid |
| Deque.InitialCapacity | deque/deque.go:29-43 | for an int64 initialCap up to 2^62, the least power of two >= max(initialCap, MinCapacity), itself an int64 |
| Deque.Copy | deque/deque.go:157-173 | Go's copy: copies min(room, count) elements and leaves the rest of dst alone |
| Deque.RingEmpty | deque/deque.go:29-43 | a zeroed buffer holds the empty ring |
| Deque.RingPushBack | deque/deque.go:57-65 | writing at head+len appends to the ring |
| Deque.RingPushFront | deque/deque.go:69-77 | writing one slot before head prepends to the ring |
| Deque.RingPopFront | deque/deque.go:81-98 | the head slot holds the first element; clearing it and advancing head drops it |
| Deque.RingPopBack | deque/deque.go:102-119 | the slot at head+len-1 holds the last element; clearing it drops it |
| Deque.RingFromStart | deque/deque.go:157-173 | contents copied to the front of a zeroed buffer form a ring at head 0 |
| Deque.Deque.constructor | deque/deque.go:29-43 | for an int64 initialCap up to 2^62, an empty deque of capacity >= max(initialCap, MinCapacity), less than twice it |
| Deque.Deque.Len | deque/deque.go:46-48 | the number of elements |
| Deque.Deque.Cap | deque/deque.go:51-53 | the buffer length, a power of two at least MinCapacity and at least Len |
| Deque.Deque.Unwrapped | deque/deque.go:157-173 | a fresh buffer holding the elements in order from index 0, zero after them |
| Deque.Deque.Resize | deque/deque.go:157-173 | same contents in a fresh buffer of the new capacity, head 0 |
| Deque.Deque.Grow | deque/deque.go:143-146 | same contents, capacity doubled |
| Deque.Deque.Shrink | deque/deque.go:150-154 | same contents; capacity halves exactly when above MinCapacity and at most a quarter full |
| Deque.Deque.PutBack | deque/deque.go:57-65 | with room, appends in place |
| Deque.Deque.PushBack | deque/deque.go:57-65 | contents become old + [val]; the buffer doubles exactly when it was full |
| Deque.Deque.PutFront | deque/deque.go:69-77 | with room, prepends in place |
| Deque.Deque.PushFront | deque/deque.go:69-77 | contents become [val] + old; the buffer doubles exactly when it was full |
| Deque.Deque.TakeFront | deque/deque.go:81-98 | removes and returns the first element in place |
| Deque.Deque.PopFront | deque/deque.go:81-98 | ok iff non-empty; then returns the first element and drops it, shrinking by the quarter rule; otherwise zero and nothing changes |
| Deque.Deque.TakeBack | deque/deque.go:102-119 | removes and returns the last element in place |
| Deque.Deque.PopBack | deque/deque.go:102-119 | ok iff non-empty; then returns the last element and drops it, shrinking by the quarter rule; otherwise zero and nothing changes |
| Deque.Deque.Front | deque/deque.go:123-129 | the first element, or zero and false when empty |
| Deque.Deque.Back | deque/deque.go:133-140 | the last element, or zero and false when empty |
| Deque.Deque.Clear | deque/deque.go:177-190 | empty; the buffer is zeroed, and reset to MinCapacity when larger |
| Either.IsLeft | either/either.go:36-39 | true exactly when the value is not a Right |
| Either.IsRight | either/either.go:41-44 | true exactly for a Right, so exactly one of IsLeft and IsRight holds |
| Either.LeftValue | either/either.go:49-51 | the left value, or L's zero value for a Right |
| Either.RightValue | either/either.go:56-58 | the right value, or R's zero value for a Left |
| Either.LeftOr | either/either.go:61-66 | the left value, or the fallback for a Right |
| Either.RightOr | either/either.go:69-74 | the right value, or the fallback for a Left |
| Either.GetLeft | either/either.go:77-79 | (left, true) for a Left, (zero, false) otherwise |
| Either.GetRight | either/either.go:82-84 | (right, true) for a Right, (zero, false) otherwise |
| Either.Swap | either/either.go:87-92 | exchanges the sides, keeping the value |
| Either.MapLeft | either/either.go:95-100 | applies fn to a Left and leaves a Right unchanged |
| Either.MapRight | either/either.go:103-108 | applies fn to a Right and leaves a Left unchanged |
| Either.Map | either/either.go:111-113 | Map is MapRight |
| Either.MapBothLeft | either/either.go:116-121 | changes the left type, mapping a Left and carrying a Right over |
| Either.MapBothRight | either/either.go:124-129 | changes the right type, mapping a Right and carrying a Left over |
| Either.MapBoth | either/either.go:132-137 | maps whichever side is present with its own function |
| Either.Fold | either/either.go:141-146 | applies leftFn to a Left and rightFn to a Right |
| Either.FlatMap | either/either.go:150-155 | a Left short-circuits; a Right becomes fn(right) |
| Either.OrElse | either/either.go:158-163 | a Right is kept; a Left is replaced by the alternative |
| Either.SwapInvolution | either/either.go:87-92 | swapping twice is the identity |
| Either.SwapMapLeft | either/either.go:87-108 | swapping turns MapLeft into MapRight |
| Either.MapBothIsFold | either/either.go:132-146 | MapBoth is a Fold that rebuilds the same side |
| Either.MapBothIdentity | either/either.go:95-137 | MapBoth with the identity on the right is MapLeft |
| Either.FlatMapRightUnit | either/either.go:150-155 | FlatMap with Right is the identity |
| Either.FoldSwap | either/either.go:87-146 | folding the swapped value with swapped functions gives the same result |
| Result.Ok | result/result.go:16-18 | an Ok result carries the value and a nil error |
| Result.Err | result/result.go:21-23 | an Err result carries the error and the zero value; it is Ok iff the error is nil |
| Result.From | result/result.go:26-31 | a nil error gives Ok(value), any other error gives Err |
| Result.IsOk | result/result.go:33-37 | Ok exactly when not Err |
| Result.IsErr | result/result.go:38-42 | Err exactly when the error field holds an error value |
| Result.Unwrap | result/result.go:44-49 | defined on Ok results only and returns the value |
| Result.UnwrapOr | result/result.go:52-57 | the value when Ok, the default otherwise |
| Result.UnwrapOrElse | result/result.go:60-65 | the value when Ok, fn() otherwise |
| Result.ToPair | result/result.go:79-81 | the (value, error) pair, with a nil error exactly when Ok |
| Result.Ptr | result/result.go:92-97 | a pointer to the value when Ok, nil otherwise |
| Result.Or | result/result.go:123-128 | the first Ok of the two; Ok iff either is |
| Result.OrElseResult | result/result.go:131-136 | the result when Ok, fn() otherwise |
| Result.Filter | result/result.go:140-148 | an Err stays; an Ok stays when the predicate holds and becomes Err(ifFalseErr) otherwise |
| Result.ToOption | result/result.go:152-157 | Some(value) iff Ok, None otherwise |
| Result.Recover | result/result.go:160-165 | the value when Ok, fn(err) otherwise |
| Result.OkVoid | result/result.go:174-176 | a void result with a nil error |
| Result.ErrVoid | result/result.go:179-181 | a void result carrying the error |
| Result.ToResult | result/result.go:199-204 | a void result becomes a unit Result with the same error |
| Result.FromToPair | result/result.go:26-81 | From after ToPair gives back the result |
| Result.ToPairFrom | result/result.go:26-81 | ToPair after From with a nil error gives back (value, nil) |
| Result.ErrNilIsOk | result/result.go:21-49 | Err(nil) is an Ok result holding the zero value |
| Result.UnwrapOrIsOptionOrElse | result/result.go:52-157 | UnwrapOr agrees with the Option conversion followed by OrElse |
| Result.OrAssociative | result/result.go:123-128 | Or is associative |
| Result.FilterIdempotent | result/result.go:140-148 | filtering twice by the same predicate is filtering once, for every error and zero value |
| Optional.FromPtr | optional/optional.go:54-59 | Some(*p) for a non-nil pointer, None for nil |
| Optional.FromZero | optional/optional.go:62-68 | None exactly when the value equals the zero value, else Some(value) |
| Optional.FromPair | optional/optional.go:72-77 | Some(value) when ok, None otherwise |
| Optional.IsPresent | optional/optional.go:79-82 | true exactly in the present state (state number 1) |
| Optional.IsAbsent | optional/optional.go:84-87 | as written: true exactly when the state is not the absent state 0, so for Some and Nil |
| Optional.IsAbsentIntended | optional/optional.go:84-87 | as documented: exactly the complement of IsPresent |
| Optional.IsZero | optional/optional.go:165-168 | true exactly in the absent state 0, which is never present |
| Optional.Get | optional/optional.go:91-93 | the stored value, which is the zero value unless present |
| Optional.MustGet | optional/optional.go:96-101 | defined only when present; returns the value |
| Optional.GetErr | optional/optional.go:104-113 | (value, nil) when present; the zero value with "value is nil" for Nil and "value is absent" for None |
| Optional.OrElse | optional/optional.go:116-121 | the value when present, the fallback otherwise |
| Optional.OrElseGet | optional/optional.go:124-129 | the value when present, supplier() otherwise |
| Optional.OrElseErr | optional/optional.go:132-138 | (value, nil) when present, (zero, supplier()) otherwise |
| Optional.OrEmpty | optional/optional.go:141-147 | OrElse with the zero value |
| Optional.OrPanic | optional/optional.go:150-155 | defined only when present; returns the value |
| Optional.Ptr | optional/optional.go:158-163 | a pointer to the value iff present |
| Optional.Filter | optional/optional.go:189-197 | a present value is kept iff the predicate holds, else None; an absent one is returned as is |
| Optional.Map | optional/optional.go:201-206 | Some(mapper(v)) for Some(v), None otherwise |
| Optional.FlatMap | optional/optional.go:210-215 | mapper(v) for Some(v), None otherwise |
| Optional.TryMap | optional/optional.go:302-311 | present iff the input is present and the mapper returns a nil error, with the mapped value |
| Optional.And | optional/optional.go:218-223 | other when present, None otherwise |
| Optional.Or | optional/optional.go:226-231 | as written: an absent option is returned as is and a present one is replaced by other |
| Optional.OrElseOption | optional/optional.go:235-240 | as written: an absent option is returned as is and a present one is replaced by supplier() |
| Optional.OrIntended | optional/optional.go:226-231 | as documented: keeps a present option, else other; present iff either is |
| Optional.OrElseOptionIntended | optional/optional.go:235-240 | as documented: keeps a present option, else supplier() |
| Optional.Xor | optional/optional.go:243-251 | present iff exactly one is present, and then it is that one; None otherwise |
| Optional.Equal | optional/optional.go:254-259 | false when the states differ; eq of the values when both are Some; eq of the zero values when both are None or both Nil |
| Optional.StateOf | optional/optional.go:12-16 | the state number, 1 exactly for present |
| Optional.IsAbsentInverted | optional/optional.go:85-87 | as written, IsAbsent is true for Some and Nil and false for None |
| Optional.IsAbsentIntendedComplement | optional/optional.go:85-87 | the corrected IsAbsent is exactly not IsPresent |
| Optional.OrInverted | optional/optional.go:226-231 | as written, Some(a).Or(Some(b)) is Some(b) and None.Or(Some(b)) is None; the corrected Or gives Some(a) and Some(b) |
| Optional.FromPairRoundTrip | optional/optional.go:72-93 | FromPair(Get, IsPresent) rebuilds any non-Nil option |
| Optional.MapIdentity | optional/optional.go:201-206 | mapping by the identity keeps a non-Nil option |
| Optional.MapCompose | optional/optional.go:201-206 | mapping by f then g is mapping by their composition |
| Optional.FlatMapUnit | optional/optional.go:201-215 | FlatMap with Some is Map with the identity |
| Optional.FlatMapAssociative | optional/optional.go:210-215 | FlatMap is associative |
| Optional.XorLaws | optional/optional.go:243-251 | Xor is symmetric in presence, and Xor(a, a) is None |
| Optional.FilterIdempotent | optional/optional.go:189-197 | filtering twice by the same predicate is filtering once |
| Optional.EqualReflexive | optional/optional.go:254-259 | with a reflexive eq, every option equals itself |
| Tuple.Swap | tuple/tuple.go:34-39 | exchanges the components |
| Tuple.MapFirst | tuple/tuple.go:42-47 | maps the first component, keeps the second |
| Tuple.MapSecond | tuple/tuple.go:50-55 | maps the second component, keeps the first |
| Tuple.Map | tuple/tuple.go:58-64 | the components become fn's two results |
| Tuple.MapBoth | tuple/tuple.go:67-72 | maps each component with its own function |
| Tuple.MapFirst3 | tuple/tuple.go:131-137 | maps the first of three, keeps the others |
| Tuple.MapSecond3 | tuple/tuple.go:140-146 | maps the second of three, keeps the others |
| Tuple.MapThird3 | tuple/tuple.go:149-155 | maps the third of three, keeps the others |
| Tuple.Map3 | tuple/tuple.go:158-165 | the components become fn's three results |
| Tuple.ZipOf | tuple/tuple.go:325-335 | the zip has the length of the shorter input and pairs equal positions |
| Tuple.Zip3Of | tuple/tuple.go:350-363 | the triple zip has the length of the shortest input and groups equal positions |
| Tuple.Zip | tuple/tuple.go:325-335 | the zipping loop computes ZipOf |
| Tuple.Unzip | tuple/tuple.go:338-346 | the unzipping loop returns the first and second components in order |
| Tuple.Zip3 | tuple/tuple.go:350-363 | the triple zipping loop computes Zip3Of |
| Tuple.Unzip3 | tuple/tuple.go:366-376 | three slices of the input's length, whose positions rebuild each triple |
| Tuple.SwapInvolution | tuple/tuple.go:34-39 | swapping twice is the identity |
| Tuple.UnzipZip | tuple/tuple.go:325-346 | unzipping a zip gives both inputs cut to the shorter length |
| Tuple.ZipUnzip | tuple/tuple.go:325-346 | zipping an unzip gives back the tuples |
| Tuple.Unzip3Zip3 | tuple/tuple.go:350-376 | unzipping a triple zip gives the three inputs cut to the shortest length |
| Tuple.Equal | tuple/tuple.go:75-77 | both components equal under the given equalities; EqualIsEquality states that with == it is tuple equality |
| Tuple.EqualIsEquality | tuple/tuple.go:75-77 | Equal with == on both components is tuple equality |
| Tuple.MapOfComponents | tuple/tuple.go:42-72 | Map of a componentwise function is MapBoth, and MapFirst and MapSecond commute |
| Set.Set.constructor | set/set.go:12-16 | a new set is empty |
| Set.Set.FromSlice | set/set.go:19-25 | the set of the slice's elements |
| Set.Set.Add | set/set.go:29-35 | adds the item; true iff it was absent |
| Set.Set.AddAll | set/set.go:39-47 | adds every item and returns how many were new |
| Set.Set.Remove | set/set.go:51-57 | removes the item; true iff it was present |
| Set.Set.Contains | set/set.go:58-62 | true exactly for an element of the set, and then the set is not empty |
| Set.Set.Size | set/set.go:66-68 | the number of elements, 0 exactly for the empty set |
| Set.Set.IsEmpty | set/set.go:81-83 | true iff no element is present |
| Set.Set.Clear | set/set.go:86-90 | the set is empty afterwards |
| Set.Set.ToSlice | set/set.go:94-100 | every element exactly once |
| Set.Set.Range | set/set.go:104-110 | visits distinct elements; every one but the last was accepted, and it stops early only after a rejection |
| Set.Set.Union | set/set.go:113-122 | a fresh set holding the union |
| Set.Set.Intersection | set/set.go:125-133 | a fresh set holding the intersection |
| Set.Set.Difference | set/set.go:136-144 | a fresh set holding this minus other |
| Set.Set.SymmetricDifference | set/set.go:147-160 | a fresh set holding the elements in exactly one |
| Set.Set.IsSubset | set/set.go:163-170 | true iff every element is in other |
| Set.Set.IsSuperset | set/set.go:173-175 | true iff other is a subset |
| Set.Set.Equal | set/set.go:178-188 | true iff the two sets have the same elements |
| Set.Set.Clone | set/set.go:192-198 | a fresh set with the same elements |
| MMap.PairsInsert | mmap/multimap.go:25-37 | adding a value at a key adds exactly that pair |
| MMap.PairsRemove | mmap/multimap.go:81-99 | removing a value at a key removes exactly that pair |
| MMap.KeyPairsSize | mmap/multimap.go:136-141 | a key contributes as many pairs as it has values |
| MMap.RemoveKeyPairs | mmap/multimap.go:103-112 | dropping a key removes its pairs, and their number is its value count |
| MMap.InPairs | mmap/multimap.go:115-122 | a pair is present iff its key is present with that value |
| MMap.CoversAll | mmap/multimap.go:175-183 | an enumeration that covered every key lists exactly the pairs |
| MMap.Multimap.constructor | mmap/multimap.go:17-21 | a new multimap is empty with size 0 |
| MMap.Multimap.Put | mmap/multimap.go:25-37 | adds the pair; true iff it was new; size grows by one exactly then |
| MMap.Multimap.PutAll | mmap/multimap.go:41-49 | adds every value at the key and returns how many pairs were new |
| MMap.Multimap.PutMore | mmap/multimap.go:41-49 | one step of PutAll keeps the accumulated-pairs invariant |
| MMap.Multimap.Get | mmap/multimap.go:53-64 | the key's values each once, empty for a missing key |
| MMap.Multimap.GetSet | mmap/multimap.go:68-77 | a copy of the key's value set, empty for a missing key |
| MMap.Multimap.Delete | mmap/multimap.go:81-99 | removes the pair; true iff it was present; a key left with no values is dropped; other keys unchanged |
| MMap.Multimap.DeleteAll | mmap/multimap.go:103-112 | drops the key; true iff it existed; size falls by its value count |
| MMap.Multimap.Contains | mmap/multimap.go:115-122 | true iff the pair is present |
| MMap.Multimap.ContainsKey | mmap/multimap.go:125-128 | true iff the key has at least one value |
| MMap.Multimap.Size | mmap/multimap.go:131-133 | the number of pairs: the size field equals the sum of the per-key set sizes |
| MMap.Multimap.KeySize | mmap/multimap.go:136-141 | the number of values at the key, 0 iff the key is missing (no key maps to an empty set) |
| MMap.Multimap.Len | mmap/multimap.go:144-146 | the number of keys |
| MMap.Multimap.Clear | mmap/multimap.go:149-152 | empty afterwards |
| MMap.Multimap.Keys | mmap/multimap.go:155-161 | every key exactly once |
| MMap.Multimap.Values | mmap/multimap.go:164-172 | one value per pair, in the order of an enumeration of every pair once |
| MMap.Multimap.Entries | mmap/multimap.go:175-183 | every pair exactly once |
| MMap.Multimap.Range | mmap/multimap.go:187-195 | visits distinct pairs; every one but the last was accepted; it visits all iff it did not stop early |
| MMap.Multimap.VisitedPart | mmap/multimap.go:187-195 | a partial enumeration holds at most the pairs, and all of them iff it has Size entries |
| MMap.Multimap.ForEachKey | mmap/multimap.go:199-206 | visits distinct keys, each with a list of its values; every one but the last was accepted; it visits all iff it did not stop early |
| MMap.Multimap.KeysVisited | mmap/multimap.go:199-206 | distinct visited keys number at most the key count, and equal it iff all were visited |
| MMap.PutAllSkipsDuplicates | mmap/multimap.go:41-49 | PutAll(k, 1, 2, 3, 1) on an empty multimap returns 3: the repeated value is not counted again |
| OMap.RemoveKey | omap/orderedmap.go:222-237 | the removed key is gone and only items of the input remain; RemoveKeyAt and RemoveAbsentKey state that the rest keep their order |
| OMap.RemoveAbsentKey | omap/orderedmap.go:222-237 | removing a key no item has leaves the items unchanged |
| OMap.RemoveKeyAt | omap/orderedmap.go:222-237 | removing a present key cuts out exactly its position |
| OMap.RemoveKeyKeys | omap/orderedmap.go:222-237 | the keys after removal are exactly the old keys minus the removed one |
| OMap.RemoveKeyDistinct | omap/orderedmap.go:222-237 | removing a key keeps the keys distinct and removes exactly that key |
| OMap.SetItemProperties | omap/orderedmap.go:35-49 | Set on an existing key moves it to the back with the new value; on a new key appends it; keys stay distinct |
| OMap.RangeVisitShape | omap/orderedmap.go:123-129 | Range visits a prefix of the items; all but the last were accepted, and it stops short only after a rejection |
| OMap.RangeVisitStep | omap/orderedmap.go:123-129 | one accepted step extends the visited prefix |
| OMap.RangeVisitFrom | omap/orderedmap.go:123-129 | the loop's visit from position i continues the visit so far |
| OMap.Unlinked | omap/orderedmap.go:222-237 | taking a key's entry out of the list shortens it by one exactly when the key was on it, and adds no key |
| OMap.UnlinkedAt | omap/orderedmap.go:222-237 | taking out the entry found at position i closes exactly the gap at i |
| OMap.RemoveAlong | omap/orderedmap.go:63-73 | deleting position i from the list and its key from the map drops exactly item i, keeping the invariant |
| OMap.AppendAlong | omap/orderedmap.go:35-49 | appending a new key to the list with its value in the map appends its item, keeping the invariant |
| OMap.MoveAlong | omap/orderedmap.go:35-49 | moving an existing key to the back with a new value moves its item to the end with that value |
| OMap.PrefixSet | omap/orderedmap.go:188-194 | Setting the items of a map one by one, in order, rebuilds its prefix, so Clone keeps the order |
| OMap.OrderedMap.ContentsKeys | omap/orderedmap.go:35-49 | the item keys are the insertion order, without repeats |
| OMap.OrderedMap.constructor | omap/orderedmap.go:27-31 | a new map is empty |
| OMap.OrderedMap.AddToBack | omap/orderedmap.go:197-207 | appends the key at the back of the list |
| OMap.OrderedMap.RemoveEntry | omap/orderedmap.go:222-237 | unlinks the key's node, keeping the rest in order |
| OMap.OrderedMap.MoveToBack | omap/orderedmap.go:211-218 | moves the key's node to the back |
| OMap.OrderedMap.Set | omap/orderedmap.go:35-49 | contents become SetItem(old, key, value): updated and moved to the back, or appended; length grows iff the key is new |
| OMap.OrderedMap.Get | omap/orderedmap.go:53-59 | ok iff the key is present, with its value; zero otherwise |
| OMap.OrderedMap.Delete | omap/orderedmap.go:63-73 | removes the key keeping the others in order; true iff it was present |
| OMap.OrderedMap.Unlink | omap/orderedmap.go:63-73 | removing the entry at position i cuts out exactly that item |
| OMap.OrderedMap.Has | omap/orderedmap.go:76-79 | true iff the key is present |
| OMap.OrderedMap.Len | omap/orderedmap.go:82-84 | the number of items |
| OMap.OrderedMap.Clear | omap/orderedmap.go:87-92 | empty afterwards |
| OMap.OrderedMap.Items | omap/orderedmap.go:113-119 | the items in insertion order |
| OMap.OrderedMap.Keys | omap/orderedmap.go:95-101 | the keys in insertion order |
| OMap.OrderedMap.Values | omap/orderedmap.go:104-110 | the values in insertion order |
| OMap.OrderedMap.Range | omap/orderedmap.go:123-129 | visits items in order until fn rejects one (RangeVisit) |
| OMap.OrderedMap.First | omap/orderedmap.go:133-140 | the oldest item, or zero values and false when empty |
| OMap.OrderedMap.Last | omap/orderedmap.go:144-151 | the newest item, or zero values and false when empty |
| OMap.OrderedMap.PopFirst | omap/orderedmap.go:155-167 | removes and returns the oldest item; false and no change when empty |
| OMap.OrderedMap.PopLast | omap/orderedmap.go:171-183 | removes and returns the newest item; false and no change when empty |
| OMap.OrderedMap.Clone | omap/orderedmap.go:188-194 | a fresh map with the same items in the same order |
| Stream.From | stream/stream.go:24-36 | the stream yields the slice's elements, in order |
| Stream.Of | stream/stream.go:63-66 | the same stream as From of the arguments |
| Stream.Empty | stream/stream.go:68-73 | a stream with no elements, the same as From of an empty slice |
| Stream.Range | stream/stream.go:76-86 | start, start+1, ..., end-1; empty when end <= start |
| Stream.Filter | stream/stream.go:122-134 | the elements satisfying the predicate, in order |
| Stream.MapTo | stream/stream.go:150-160 | same length, element i mapped |
| Stream.Map | stream/stream.go:137-147 | same length, element i mapped, element type kept |
| Stream.FlatMappedAppend | stream/stream.go:163-190 | flat-mapping distributes over concatenation |
| Stream.FlatMappedSingletons | stream/stream.go:163-190 | flat-mapping to one-element streams is mapping |
| Stream.FlatMapTo | stream/stream.go:178-190 | the concatenation of the mapped streams, in order |
| Stream.FlatMap | stream/stream.go:163-175 | the concatenation of the mapped streams, in order |
| Stream.FirstByKeyDistinct | stream/stream.go:211-226 | the kept elements come from the input, have pairwise distinct keys, and cover every key of the input |
| Stream.FirstByKeyKeepsFirst | stream/stream.go:211-226 | each kept element is the first input element with its key |
| Stream.DistinctBy | stream/stream.go:211-226 | the loop with its seen-set keeps the first element of every key |
| Stream.Distinct | stream/stream.go:194-208 | DistinctBy with the identity key: first occurrences, no duplicates |
| Stream.Clamp | stream/stream.go:280-313 | n clamped into [0, len] |
| Stream.Limit | stream/stream.go:280-295 | the first min(max(n, 0), len) elements |
| Stream.Skip | stream/stream.go:298-313 | all but the first min(max(n, 0), len) elements |
| Stream.TakeWhile | stream/stream.go:316-329 | the longest prefix satisfying the predicate |
| Stream.DropWhile | stream/stream.go:332-347 | what follows that longest prefix |
| Stream.TakeWhileDropWhile | stream/stream.go:316-347 | TakeWhile followed by DropWhile rebuilds the stream; the first dropped element fails the predicate |
| Stream.Concat | stream/stream.go:350-365 | this stream's elements followed by the other's |
| Stream.Reverse | stream/stream.go:369-380 | element i is input element len-1-i |
| Stream.ToSlice | stream/stream.go:411-417 | the elements in order |
| Stream.ToSliceFrom | stream/stream.go:24-36 | collecting a stream built by From gives back the slice |
| Stream.Collect | stream/stream.go:392-408 | the finisher applied to the left fold of the accumulator from the supplier |
| Stream.Reduce | stream/stream.go:420-426 | the left fold from the identity |
| Stream.ReduceOptional | stream/stream.go:430-445 | None iff empty; else the left fold of the tail from the first element |
| Stream.ReduceOptionalIsReduce | stream/stream.go:420-445 | with an identity e of the accumulator, ReduceOptional of a non-empty stream is Reduce from e |
| Stream.Count | stream/stream.go:448-454 | the number of elements |
| Stream.AnyMatch | stream/stream.go:457-464 | true iff some element satisfies the predicate |
| Stream.AllMatch | stream/stream.go:467-474 | true iff every element satisfies the predicate |
| Stream.NoneMatch | stream/stream.go:477-484 | true iff no element satisfies the predicate |
| Stream.FindFirst | stream/stream.go:488-493 | the first element, None when empty |
| Stream.FindAny | stream/stream.go:497-499 | FindFirst |
| Stream.Min | stream/stream.go:502-515 | None iff empty; else the element at MinIndex, the position the replace-when-less scan settles on (a least element, by Seqs.MinIndexIsLeastAndEarliest) |
| Stream.Max | stream/stream.go:518-531 | None iff empty; else the element at MaxIndex, the position the replace-when-greater scan settles on (a greatest element, by Seqs.MaxIndexIsGreatestAndEarliest) |
| Stream.PartitionBy | stream/stream.go:563-574 | the matching and the non-matching elements, each in order |
| Seqs.FoldLeftSnoc | collectors/collectors.go:12-16 | folding one more element applies the accumulator once more |
| Seqs.Filtered | stream/stream.go:122-134 | the filtered elements come from the input, satisfy the predicate, and include every input element that does |
| Seqs.FilteredAppend | stream/stream.go:122-134 | filtering distributes over concatenation, so it keeps order |
| Seqs.FilteredSplit | stream/stream.go:563-574 | filtering by p and by not-p splits the input: lengths add up and the multisets add up |
| Seqs.PrefixLengthIs | stream/stream.go:316-347 | PrefixLength is the unique k where the prefix satisfies p and element k does not |
| Seqs.MinIndexIsLeastAndEarliest | stream/stream.go:502-515 | under a strict weak order the min scan finds a least element, and no earlier element is equivalent |
| Seqs.MaxIndexIsGreatestAndEarliest | stream/stream.go:518-531 | under a strict weak order the max scan finds a greatest element, and no earlier element is equivalent |
| Seqs.KeySetWitness | stream/stream.go:211-226 | every key in the key set comes from an element |
| Collectors.ToSlice | collectors/collectors.go:18-35 | the collector value: empty slice, append, identity; CollectToSlice states what it collects |
| Collectors.ToSet | collectors/collectors.go:37-55 | the collector value: empty set, add, identity; CollectToSet states what it collects |
| Collectors.Counting | collectors/collectors.go:96-113 | the collector value: 0, add one, identity; CollectCounting states what it collects |
| Collectors.Summing | collectors/collectors.go:115-140 | the collector value: 0, int64-wrapping add of the mapped value, identity; CollectSumming states what it collects |
| Collectors.JoiningWith | collectors/collectors.go:57-95 | the collector value: empty builder, separator only after text, prefix and suffix; JoiningWithFinisher and CollectJoining state what it collects |
| Collectors.Joining | collectors/collectors.go:86-89 | JoiningWith with empty prefix and suffix; CollectJoining states what it collects |
| Collectors.MinBy | collectors/collectors.go:173-198 | the collector as written, on the inverted IsAbsent; MinByAsWrittenStaysNone and MinByAsWrittenMissesMinimum state what it collects |
| Collectors.MaxBy | collectors/collectors.go:200-225 | the collector as written, on the inverted IsAbsent; MaxByAsWrittenKeepsLast states what it collects |
| Collectors.MinByIntended | collectors/collectors.go:173-198 | the collector with the absence test corrected; CollectMinByIntended states what it collects |
| Collectors.MaxByIntended | collectors/collectors.go:200-225 | the collector with the absence test corrected; CollectMaxByIntended states what it collects |
| Collectors.GroupingBy | collectors/collectors.go:227-248 | the collector value: empty map, append under the key; CollectGroupingBy states what it collects |
| Collectors.PartitioningBy | collectors/collectors.go:250-285 | the collector value: two lists, finished as the map {true, false}; CollectPartitioningBy states what it collects |
| Collectors.ToMap | collectors/collectors.go:314-317 | the toMap collector with no merger; CollectToMapLastWins states what it collects |
| Collectors.ToMapWith | collectors/collectors.go:319-322 | the toMap collector with a merger; CollectToMapWithMerges states what it collects |
| Collectors.AccumulateSnoc | collectors/collectors.go:12-16 | accumulating one more element is one more accumulator call |
| Collectors.CollectToSlice | collectors/collectors.go:18-35 | ToSlice collects the elements in order |
| Collectors.CollectToSet | collectors/collectors.go:37-55 | ToSet collects exactly the set of elements |
| Collectors.CollectCounting | collectors/collectors.go:96-113 | Counting collects the number of elements |
| Collectors.CollectSumming | collectors/collectors.go:115-140 | Summing collects the int64 wrap of the sum of the mapped values, which is the sum itself when it fits |
| Collectors.JoiningWithFinisher | collectors/collectors.go:75-84 | the finisher wraps the joined text in prefix and suffix |
| Collectors.CollectJoining | collectors/collectors.go:57-94 | Joining skips leading empty strings and joins the rest with the separator |
| Collectors.JoiningLeadingEmpty | collectors/collectors.go:67-73 | joining ["", "a"] with ", " gives "a", not ", a" |
| Collectors.CollectMinByIntended | collectors/collectors.go:173-198 | corrected MinBy: None for no elements, else the element the replace-when-less scan settles on |
| Collectors.CollectMaxByIntended | collectors/collectors.go:200-225 | corrected MaxBy: None for no elements, else the element the replace-when-greater scan settles on |
| Collectors.MinByAsWrittenStaysNone | collectors/collectors.go:181-189 | as written, MinBy(<) over any list of non-negative ints collects None: the inverted absence test never lets the first element in |
| Collectors.MinByAsWrittenMissesMinimum | collectors/collectors.go:181-189 | as written, MinBy over [5, 2, 8, 1, 9] collects None; corrected, Some(1) |
| Collectors.MaxByAsWrittenKeepsLast | collectors/collectors.go:208-216 | as written, MaxBy over [9, 5] collects Some(5); corrected, Some(9) |
| Collectors.CollectGroupingBy | collectors/collectors.go:227-248 | the groups' keys are the elements' keys; each group is the elements with that key, in order |
| Collectors.CollectPartitioningBy | collectors/collectors.go:250-285 | keys true and false, holding the matching and non-matching elements in order; together they hold every element |
| Collectors.CollectToMapLastWins | collectors/collectors.go:287-322 | without a merger the keys are the elements' keys and each value comes from the last element with that key |
| Collectors.CollectToMapWithMerges | collectors/collectors.go:297-308 | with a merger each key's value is the left fold of the merger over that key's values in order |
| Collectors.MergedSnoc | collectors/collectors.go:297-308 | merging one more value extends the fold |
| Collectors.WrapCongruent | collectors/collectors.go:115-140 | int64 wrap-around depends only on the value mod 2^64, so wrapping each step equals wrapping once |
| Lazy.Lazy.New | lazy/lazy.go:19-23 | not yet computed, with the given supplier and the zero value |
| Lazy.Lazy.Of | lazy/lazy.go:27-32 | already computed, no supplier, and it forces to the value |
| Lazy.Lazy.Force | lazy/lazy.go:37-45 | the once block: the first run stores the supplier's value (if any) and marks it computed; later runs change nothing |
| Lazy.Lazy.Get | lazy/lazy.go:37-45 | returns the forced value; after the first call it changes nothing and never calls the supplier again |
| Lazy.Lazy.IsComputed | lazy/lazy.go:49-59 | as written: forces the value and always returns true |
| Lazy.Lazy.IsComputedIntended | lazy/lazy.go:49-59 | as documented: true iff the value was computed, without forcing it |
| Lazy.FreshLazyReportsComputed | lazy/lazy.go:49-59 | on a Lazy nobody has read, IsComputed as written says true and the documented answer is false |
| Lazy.Map | lazy/lazy.go:63-67 | a fresh unforced Lazy whose forced value is fn of l's |
| Lazy.FlatMap | lazy/lazy.go:71-76 | a fresh unforced Lazy whose forced value is that of fn(l's value) |
| Lazy.Filter | lazy/lazy.go:80-89 | a fresh unforced Lazy forcing to l's value when it passes, else the zero value |
| Lazy.OrElse | lazy/lazy.go:93-101 | a fresh unforced Lazy forcing to l's value when it passes, else the alternative's |
| Lazy.GetTwice | lazy/lazy.go:37-45 | two Gets return the same value and the supplier runs at most once |

## Left out

- Locks (`sync.RWMutex`, `sync.Once`) and concurrency are not modelled. Every operation is
  sequential, and `Once` is a `fired` flag.
- `maphash` is not modelled. The digest of (seed, bytes) is an uninterpreted function
  parameter, and a seed is a value passed in rather than drawn at random.
- `reflect` and `unsafe` are modelled by a datatype of Go kinds and an offset-to-value
  memory function. Pointer-kind struct fields hash their address, which is a value of that
  memory.
- Float32Hasher, Float64Hasher: take the IEEE bit pattern as a parameter. Floating point
  is not modelled.
- JSON, `String()` and `fmt` methods of every package are not modelled. They are output
  formatting.
- `Tuple4` and `Tuple5`, and the tuple constructors and `Values` accessors, are not
  modelled. They are trivial record construction and reading.
- Either `Left()`/`Right()` raw accessors are modelled as `LeftValue`/`RightValue`.
- Result `Value`, `Err`, `IfOk`, `IfErr` and `IfOkOrElse` are not modelled. They are field
  reads and side-effect callbacks.
- Optional `IfPresent` and `IfPresentOrElse` are not modelled. They are side-effect
  callbacks.
- Set `AsMap` and `Seq`, and the map iterator functions of the other containers, are not
  modelled. They hand out the internal map or a Go iterator.
- Stream `Generate`, `Iterate`, `FromChannel`, `FromSeq`, `Seq`, `FromStreamer`, `Sorted`,
  `SortedWith`, `Peek`, `ForEach`, `ToMap`, `ToMapBy` and `GroupBy` are not modelled. They involve
  channels, infinite sources, callbacks or sorting, which lie outside the core.
- Stream is modelled eagerly as a sequence of elements. The laziness of the Go pull
  pipeline and its early stopping cannot be observed in the results and are not modelled.
- Stream.Count: does not model wrap-around of the int64 counter. No slice can reach 2^63
  elements.
- Lazy.Map: forcing the derived Lazy does not mark the source Lazy computed. The model
  captures the source's value when the derived Lazy is built, which is equal because
  suppliers are pure. Lazy.Filter and Lazy.OrElse do the same.
- Lazy.FlatMap: resolves fn's inner Lazy when the derived Lazy is built, not when it is
  forced. With pure suppliers the forced values agree.
- Collectors `Averaging` and `Summarizing` are not modelled. They are floating point.
- Collectors.CollectSumming: covers `Summing` instantiated at int64 only. Float `Number`
  types are floating point, and narrower integer types wrap at their own width.
- Deque: modelled as a Dafny array with explicit head, tail, length and mask fields. Go's
  slice aliasing is not modelled.
- OrderedMap: its doubly linked list of entry pointers is modelled as the sequence of keys
  from head to tail. The entry values live in the map. Entry pointers and their prev/next
  links are not modelled.
- Deque.InitialCapacity: requires an initial capacity of at most 2^62. Above that, Go's
  64-bit `cap <<= 1` overflows to MinInt64 and then to 0, so the doubling loop in `New`
  never ends; the model does not capture that non-termination.
- Deque.Deque.constructor: requires an initial capacity of at most 2^62, for the same
  non-terminating doubling loop as Deque.InitialCapacity.
- CMap.ConcurrentMap.WithShards: the shard count is rounded by the corrected NextPowerOf2.
  For a count above 2^32 the source allocates NextPowerOf2AsWritten(n) shards, which need
  not be a power of two (2^32 + 1 gives 2^33 - 1 shards with mask 2^32 - 2, so odd shards
  are never used); the model does not capture that layout. Counts above 2^62 are excluded by a
  precondition; there Go would ask `make` for more than 2^62 shards.
- CMap.ConcurrentMap.NormalisedCount: uses the corrected rounding; it equals the source's
  nextPowerOf2 only for counts up to 2^32, as CMap.CorrectedAgreesBelow32 states.
- Optional.MustGet: the panic on a value that is not present is a precondition; the panic
  message is not modelled.
- Optional.OrPanic: the panic on a value that is not present is a precondition; the panic
  message is not modelled.
- Result.Unwrap: the panic on an Err result is a precondition; the panic message is not
  modelled.
- internal/hash, blockingdeque, blockingqueue, scheduler, log and xlog are not part of this
  model.

## Findings

| source | as written | input that shows it | evidently intended | confidence | as-written member | corrected member |
|---|---|---|---|---|---|---|
| optional/optional.go:85-87 | `IsAbsent` returns `state != stateAbsent` | `Some(1).IsAbsent()` is true and `None().IsAbsent()` is false | IsAbsent is the negation of IsPresent | high, not executed | Optional.IsAbsentInverted | Optional.IsAbsentIntendedComplement |
| optional/optional.go:226-240 | `Or`/`OrElseOption` return the receiver when it is NOT present | `Some(a).Or(Some(b))` gives `Some(b)`; `None().Or(Some(b))` gives None | keep a present receiver, otherwise use the alternative | high, not executed | Optional.OrInverted | Optional.OrIntended |
| collectors/collectors.go:181-189 | MinBy's accumulator tests `acc.IsAbsent()`, which is inverted | MinBy(<) over [5, 2, 8, 1, 9] collects None | Some(1), the least element | high, not executed | Collectors.MinByAsWrittenMissesMinimum | Collectors.CollectMinByIntended |
| collectors/collectors.go:208-216 | MaxBy's accumulator uses the inverted `IsAbsent` | MaxBy(<) over [9, 5] collects Some(5) | Some(9), the greatest element | high, not executed | Collectors.MaxByAsWrittenKeepsLast | Collectors.CollectMaxByIntended |
| lazy/lazy.go:49-59 | `IsComputed` runs the once block itself, so it forces the value and returns true | a fresh `New(func() int { return 42 })` reports IsComputed() == true | report whether the value was computed, without forcing it | high, not executed | Lazy.FreshLazyReportsComputed | Lazy.Lazy.IsComputedIntended |
| cmap/concurrentmap.go:95-107 | `nextPowerOf2` smears bits only up to a shift of 16, which covers 32 bits | n = 2^32 + 1 gives 0x1_FFFF_FFFF, not a power of two | the least power of two >= n for every int64 shard count | medium, not executed | CMap.AsWrittenCounterexample | CMap.NextPowerOf2 |
