/** Package stream: a Stream wraps an iterator.  Over a finite source the iterator yields a
    finite sequence of elements, which is what this model keeps.  Each operator builds the
    derived stream by running the loop its Go closure runs when the derived stream is
    consumed to the end; each terminal operation runs its loop over the elements. */
module Stream {
  import opened Seqs
  import Optional
  import Collectors

  /** The elements a stream's iterator yields, in order. */
  datatype Stream<T> = Stream(elements: seq<T>)

  // ---------------------------------------------------------------- sources

  /** From: the slice's elements in order. */
  function From<T>(slice: seq<T>): (r: Stream<T>)
    ensures r.elements == slice
  {
    Stream(slice)
  }

  /** Of: the variadic arguments, as From. */
  function Of<T>(values: seq<T>): (r: Stream<T>)
    ensures r == From(values) && r.elements == values
  {
    From(values)
  }

  /** Empty: a stream that yields nothing. */
  function Empty<T>(): (r: Stream<T>)
    ensures r.elements == [] && r == From([])
  {
    Stream([])
  }

  /** Range: start, start + 1, ..., end - 1; nothing when start >= end. */
  method Range(start: int, end: int) returns (r: Stream<int>)
    ensures |r.elements| == if start < end then end - start else 0
    ensures forall k :: 0 <= k < |r.elements| ==> r.elements[k] == start + k
  {
    var out := [];
    var i := start;
    while i < end
      invariant start <= i && (start < end ==> i <= end) && (end <= start ==> i == start)
      invariant |out| == i - start
      invariant forall k :: 0 <= k < |out| ==> out[k] == start + k
      decreases end - i
    {
      out := out + [i];
      i := i + 1;
    }
    return Stream(out);
  }

  // ---------------------------------------------------------------- element-wise operators

  /** Filter: exactly the elements satisfying the predicate, in order. */
  method Filter<T>(s: Stream<T>, pred: T -> bool) returns (r: Stream<T>)
    ensures r.elements == Filtered(s.elements, pred)
  {
    var xs := s.elements;
    var out := [];
    var i := 0;
    while i < |xs|
      invariant 0 <= i <= |xs|
      invariant out == Filtered(xs[..i], pred)
    {
      FilteredAppend(xs[..i], [xs[i]], pred);
      assert xs[..i + 1] == xs[..i] + [xs[i]];
      if pred(xs[i]) {
        out := out + [xs[i]];
      }
      i := i + 1;
    }
    assert xs[..i] == xs;
    return Stream(out);
  }

  /** MapTo: one mapped element per input element, in order. */
  method MapTo<T, U>(s: Stream<T>, mapper: T -> U) returns (r: Stream<U>)
    ensures |r.elements| == |s.elements|
    ensures forall i :: 0 <= i < |s.elements| ==> r.elements[i] == mapper(s.elements[i])
  {
    var xs := s.elements;
    var out := [];
    var i := 0;
    while i < |xs|
      invariant 0 <= i <= |xs|
      invariant |out| == i
      invariant forall j :: 0 <= j < i ==> out[j] == mapper(xs[j])
    {
      out := out + [mapper(xs[i])];
      i := i + 1;
    }
    return Stream(out);
  }

  /** Map: MapTo with a mapper that keeps the element type. */
  method Map<T>(s: Stream<T>, mapper: T -> T) returns (r: Stream<T>)
    ensures |r.elements| == |s.elements|
    ensures forall i :: 0 <= i < |s.elements| ==> r.elements[i] == mapper(s.elements[i])
  {
    r := MapTo(s, mapper);
  }

  /** The concatenation of the streams the mapper gives for each element, in order. */
  function FlatMapped<T, U>(xs: seq<T>, mapper: T -> Stream<U>): seq<U>
    decreases |xs|
  {
    if xs == [] then [] else mapper(xs[0]).elements + FlatMapped(xs[1..], mapper)
  }

  /** FlatMapped distributes over concatenation of the input. */
  lemma {:induction false} FlatMappedAppend<T, U>(xs: seq<T>, ys: seq<T>, mapper: T -> Stream<U>)
    ensures FlatMapped(xs + ys, mapper) == FlatMapped(xs, mapper) + FlatMapped(ys, mapper)
    decreases |xs|
  {
    if xs == [] {
      assert xs + ys == ys;
    } else {
      assert (xs + ys)[1..] == xs[1..] + ys;
      FlatMappedAppend(xs[1..], ys, mapper);
    }
  }

  /** A mapper that yields one element per input makes FlatMap an element-wise map. */
  lemma {:induction false} FlatMappedSingletons<T, U>(xs: seq<T>, f: T -> U)
    ensures |FlatMapped(xs, x => Stream([f(x)]))| == |xs|
    ensures forall i :: 0 <= i < |xs| ==> FlatMapped(xs, x => Stream([f(x)]))[i] == f(xs[i])
    decreases |xs|
  {
    if xs != [] {
      FlatMappedSingletons(xs[1..], f);
      var rest := FlatMapped(xs[1..], x => Stream([f(x)]));
      assert FlatMapped(xs, x => Stream([f(x)])) == [f(xs[0])] + rest;
      forall i | 1 <= i < |xs| ensures ([f(xs[0])] + rest)[i] == f(xs[i]) {
        assert rest[i - 1] == f(xs[1..][i - 1]);
      }
    }
  }

  /** FlatMapTo: each element's stream in turn, flattened. */
  method FlatMapTo<T, U>(s: Stream<T>, mapper: T -> Stream<U>) returns (r: Stream<U>)
    ensures r.elements == FlatMapped(s.elements, mapper)
  {
    var xs := s.elements;
    var out := [];
    var i := 0;
    while i < |xs|
      invariant 0 <= i <= |xs|
      invariant out == FlatMapped(xs[..i], mapper)
    {
      FlatMappedAppend(xs[..i], [xs[i]], mapper);
      assert xs[..i + 1] == xs[..i] + [xs[i]];
      assert FlatMapped([xs[i]], mapper) == mapper(xs[i]).elements + FlatMapped([], mapper);
      out := out + mapper(xs[i]).elements;
      i := i + 1;
    }
    assert xs[..i] == xs;
    return Stream(out);
  }

  /** FlatMap: FlatMapTo with a mapper that keeps the element type. */
  method FlatMap<T>(s: Stream<T>, mapper: T -> Stream<T>) returns (r: Stream<T>)
    ensures r.elements == FlatMapped(s.elements, mapper)
  {
    r := FlatMapTo(s, mapper);
  }

  // ---------------------------------------------------------------- Distinct

  /** The elements whose key has not been seen earlier in xs, in order. */
  function FirstByKey<T, K(==)>(xs: seq<T>, key: T -> K): seq<T>
    decreases |xs|
  {
    if xs == [] then []
    else
      var init, last := xs[..|xs| - 1], xs[|xs| - 1];
      if key(last) in KeySet(init, key) then FirstByKey(init, key)
      else FirstByKey(init, key) + [last]
  }

  /** FirstByKey keeps exactly one element per key: every key of the input appears, each
      kept element comes from the input, and no two kept elements share a key. */
  lemma {:induction false} FirstByKeyDistinct<T, K>(xs: seq<T>, key: T -> K)
    ensures KeySet(FirstByKey(xs, key), key) == KeySet(xs, key)
    ensures forall i :: 0 <= i < |FirstByKey(xs, key)| ==> FirstByKey(xs, key)[i] in xs
    ensures forall i, j :: 0 <= i < j < |FirstByKey(xs, key)| ==>
              key(FirstByKey(xs, key)[i]) != key(FirstByKey(xs, key)[j])
    decreases |xs|
  {
    if xs != [] {
      var init, last := xs[..|xs| - 1], xs[|xs| - 1];
      FirstByKeyDistinct(init, key);
      var r0 := FirstByKey(init, key);
      if key(last) !in KeySet(init, key) {
        var r := r0 + [last];
        assert r[..|r| - 1] == r0;
        forall i | 0 <= i < |r0|
          ensures key(r[i]) != key(last)
        {
          assert key(r0[i]) in KeySet(r0, key);
        }
      }
    }
  }

  /** FirstByKey keeps the first element of each key: nothing before it in the input has
      the same key. */
  lemma {:induction false} FirstByKeyKeepsFirst<T, K>(xs: seq<T>, key: T -> K, i: nat)
    requires i < |FirstByKey(xs, key)|
    ensures exists j :: 0 <= j < |xs| && xs[j] == FirstByKey(xs, key)[i] &&
              forall m :: 0 <= m < j ==> key(xs[m]) != key(xs[j])
    decreases |xs|
  {
    var init, last := xs[..|xs| - 1], xs[|xs| - 1];
    var r0 := FirstByKey(init, key);
    if i < |r0| {
      FirstByKeyKeepsFirst(init, key, i);
      var j :| 0 <= j < |init| && init[j] == r0[i] && forall m :: 0 <= m < j ==> key(init[m]) != key(init[j]);
      assert xs[j] == init[j];
      assert forall m :: 0 <= m < j ==> xs[m] == init[m];
    } else {
      assert FirstByKey(xs, key) == r0 + [last];
      assert forall m :: 0 <= m < |init| ==> key(init[m]) in KeySet(init, key);
      assert forall m :: 0 <= m < |xs| - 1 ==> xs[m] == init[m];
    }
  }

  /** DistinctBy: the first element of each key, in order. */
  method DistinctBy<T, K(==)>(s: Stream<T>, keyFn: T -> K) returns (r: Stream<T>)
    ensures r.elements == FirstByKey(s.elements, keyFn)
  {
    var xs := s.elements;
    var seen: set<K> := {};
    var out := [];
    var i := 0;
    while i < |xs|
      invariant 0 <= i <= |xs|
      invariant seen == KeySet(xs[..i], keyFn)
      invariant out == FirstByKey(xs[..i], keyFn)
    {
      var key := keyFn(xs[i]);
      assert xs[..i + 1][..i] == xs[..i];
      if key !in seen {
        seen := seen + {key};
        out := out + [xs[i]];
      }
      i := i + 1;
    }
    assert xs[..i] == xs;
    return Stream(out);
  }

  /** Distinct: DistinctBy with the element as its own key, so the first occurrence of each
      value in order, with no duplicates (see FirstByKeyDistinct). */
  method Distinct<T(==)>(s: Stream<T>) returns (r: Stream<T>)
    ensures r.elements == FirstByKey(s.elements, x => x)
  {
    r := DistinctBy(s, x => x);
  }

  // ---------------------------------------------------------------- Limit, Skip

  /** n clamped to 0 <= n <= len: how many elements Limit keeps and Skip drops. */
  function Clamp(n: int, len: nat): (c: nat)
    ensures c <= len
    ensures n <= 0 ==> c == 0
    ensures 0 <= n <= len ==> c == n
    ensures len <= n ==> c == len
  {
    if n <= 0 then 0 else if n < len then n else len
  }

  /** Limit: the first min(max(n, 0), len) elements. */
  method Limit<T>(s: Stream<T>, n: int) returns (r: Stream<T>)
    ensures r.elements == s.elements[..Clamp(n, |s.elements|)]
  {
    var xs := s.elements;
    var out := [];
    var count := 0;
    while count < |xs|
      invariant 0 <= count <= |xs|
      invariant count == 0 || count <= n
      invariant out == xs[..count]
    {
      if count >= n {
        break;
      }
      out := out + [xs[count]];
      assert xs[..count + 1] == xs[..count] + [xs[count]];
      count := count + 1;
    }
    return Stream(out);
  }

  /** Skip: everything after the first max(n, 0) elements. */
  method Skip<T>(s: Stream<T>, n: int) returns (r: Stream<T>)
    ensures r.elements == s.elements[Clamp(n, |s.elements|)..]
  {
    var xs := s.elements;
    var out := [];
    var count := 0;
    var i := 0;
    while i < |xs|
      invariant 0 <= i <= |xs|
      invariant count == Clamp(n, i)
      invariant out == xs[count..i]
    {
      if count < n {
        count := count + 1;
      } else {
        out := out + [xs[i]];
      }
      i := i + 1;
    }
    return Stream(out);
  }

  // ---------------------------------------------------------------- TakeWhile, DropWhile

  /** TakeWhile: the longest prefix whose elements all satisfy the predicate. */
  method TakeWhile<T>(s: Stream<T>, pred: T -> bool) returns (r: Stream<T>)
    ensures r.elements == s.elements[..PrefixLength(s.elements, pred)]
  {
    var xs := s.elements;
    var out := [];
    var i := 0;
    while i < |xs|
      invariant 0 <= i <= |xs|
      invariant forall j :: 0 <= j < i ==> pred(xs[j])
      invariant out == xs[..i]
    {
      if !pred(xs[i]) {
        break;
      }
      out := out + [xs[i]];
      assert xs[..i + 1] == xs[..i] + [xs[i]];
      i := i + 1;
    }
    PrefixLengthIs(xs, pred, i);
    return Stream(out);
  }

  /** DropWhile: everything from the first element that fails the predicate on, including
      later elements that satisfy it. */
  method DropWhile<T>(s: Stream<T>, pred: T -> bool) returns (r: Stream<T>)
    ensures r.elements == s.elements[PrefixLength(s.elements, pred)..]
  {
    var xs := s.elements;
    var out := [];
    var dropping := true;
    var i := 0;
    ghost var k := PrefixLength(xs, pred);
    while i < |xs|
      invariant 0 <= i <= |xs|
      invariant dropping ==> (forall j :: 0 <= j < i ==> pred(xs[j])) && out == []
      invariant !dropping ==> k < i && out == xs[k..i]
    {
      if dropping && pred(xs[i]) {
        i := i + 1;
        continue;
      }
      if dropping {
        PrefixLengthIs(xs, pred, i);
        assert k == i && xs[k..i] == [];
      }
      assert k <= i && out == xs[k..i];
      dropping := false;
      out := out + [xs[i]];
      assert xs[k..i + 1] == xs[k..i] + [xs[i]];
      i := i + 1;
    }
    if dropping {
      PrefixLengthIs(xs, pred, |xs|);
      assert xs[|xs|..] == [];
    }
    return Stream(out);
  }

  /** What TakeWhile and DropWhile yield together is the input, and the split is at the
      first element that fails the predicate. */
  lemma TakeWhileDropWhile<T>(xs: seq<T>, pred: T -> bool)
    ensures xs[..PrefixLength(xs, pred)] + xs[PrefixLength(xs, pred)..] == xs
    ensures forall i :: 0 <= i < PrefixLength(xs, pred) ==> pred(xs[i])
    ensures PrefixLength(xs, pred) < |xs| ==> !pred(xs[PrefixLength(xs, pred)])
  {
    PrefixLengthIs(xs, pred, PrefixLength(xs, pred));
  }

  // ---------------------------------------------------------------- Concat, Reverse

  /** Concat: s's elements, then other's. */
  method Concat<T>(s: Stream<T>, other: Stream<T>) returns (r: Stream<T>)
    ensures r.elements == s.elements + other.elements
  {
    var out := [];
    var i := 0;
    while i < |s.elements|
      invariant 0 <= i <= |s.elements|
      invariant out == s.elements[..i]
    {
      out := out + [s.elements[i]];
      assert s.elements[..i + 1] == s.elements[..i] + [s.elements[i]];
      i := i + 1;
    }
    assert out == s.elements;
    var j := 0;
    while j < |other.elements|
      invariant 0 <= j <= |other.elements|
      invariant out == s.elements + other.elements[..j]
    {
      out := out + [other.elements[j]];
      assert other.elements[..j + 1] == other.elements[..j] + [other.elements[j]];
      j := j + 1;
    }
    assert other.elements[..j] == other.elements;
    return Stream(out);
  }

  /** Reverse: materialises the elements, then yields them from last to first. */
  method Reverse<T>(s: Stream<T>) returns (r: Stream<T>)
    ensures |r.elements| == |s.elements|
    ensures forall i :: 0 <= i < |s.elements| ==> r.elements[i] == s.elements[|s.elements| - 1 - i]
  {
    var slice := ToSlice(s);
    var out := [];
    var i := |slice| - 1;
    while i >= 0
      invariant -1 <= i < |slice|
      invariant |out| == |slice| - 1 - i
      invariant forall j :: 0 <= j < |out| ==> out[j] == slice[|slice| - 1 - j]
    {
      out := out + [slice[i]];
      i := i - 1;
    }
    return Stream(out);
  }

  // ---------------------------------------------------------------- terminal operations

  /** ToSlice: every element, in order (ToSliceFrom: the slice a stream came from). */
  method ToSlice<T>(s: Stream<T>) returns (result: seq<T>)
    ensures result == s.elements
  {
    result := [];
    var i := 0;
    while i < |s.elements|
      invariant 0 <= i <= |s.elements|
      invariant result == s.elements[..i]
    {
      result := result + [s.elements[i]];
      assert s.elements[..i + 1] == s.elements[..i] + [s.elements[i]];
      i := i + 1;
    }
  }

  /** A stream built from a slice gives the slice back. */
  method ToSliceFrom<T>(slice: seq<T>) returns (result: seq<T>)
    ensures result == slice
  {
    result := ToSlice(From(slice));
  }

  /** CollectTo (and Collect, its untyped twin): run the collector's supplier, accumulator
      and finisher over the elements; see the Collectors lemmas for what each collector
      yields. */
  method Collect<T, A, R>(s: Stream<T>, collector: Collectors.Collector<T, A, R>) returns (result: R)
    ensures result == Collectors.Collected(collector, s.elements)
  {
    var xs := s.elements;
    var acc := collector.supplier();
    var i := 0;
    while i < |xs|
      invariant 0 <= i <= |xs|
      invariant FoldLeft(collector.accumulator, acc, xs[i..])
             == FoldLeft(collector.accumulator, collector.supplier(), xs)
    {
      assert xs[i..][1..] == xs[i + 1..];
      acc := collector.accumulator(acc, xs[i]);
      i := i + 1;
    }
    result := collector.finisher(acc);
  }

  /** Reduce: the left fold of the accumulator over the elements, starting from identity. */
  method Reduce<T>(s: Stream<T>, identity: T, accumulator: (T, T) -> T) returns (result: T)
    ensures result == FoldLeft(accumulator, identity, s.elements)
  {
    var xs := s.elements;
    result := identity;
    var i := 0;
    while i < |xs|
      invariant 0 <= i <= |xs|
      invariant result == FoldLeft(accumulator, identity, xs[..i])
    {
      FoldLeftSnoc(accumulator, identity, xs[..i], xs[i]);
      assert xs[..i + 1] == xs[..i] + [xs[i]];
      result := accumulator(result, xs[i]);
      i := i + 1;
    }
    assert xs[..i] == xs;
  }

  /** ReduceOptional: None exactly for an empty stream, otherwise the fold that starts from
      the first element. */
  method ReduceOptional<T>(s: Stream<T>, accumulator: (T, T) -> T) returns (r: Optional.Option<T>)
    ensures s.elements == [] <==> r == Optional.None
    ensures s.elements != [] ==> r == Optional.Some(FoldLeft(accumulator, s.elements[0], s.elements[1..]))
  {
    var xs := s.elements;
    if xs == [] {
      return Optional.None;
    }
    var result := xs[0];
    var i := 1;
    while i < |xs|
      invariant 1 <= i <= |xs|
      invariant result == FoldLeft(accumulator, xs[0], xs[1..i])
    {
      FoldLeftSnoc(accumulator, xs[0], xs[1..i], xs[i]);
      assert xs[1..i + 1] == xs[1..i] + [xs[i]];
      result := accumulator(result, xs[i]);
      i := i + 1;
    }
    assert xs[1..i] == xs[1..];
    return Optional.Some(result);
  }

  /** With an identity element, ReduceOptional of a non-empty stream is Reduce. */
  lemma ReduceOptionalIsReduce<T>(xs: seq<T>, identity: T, accumulator: (T, T) -> T)
    requires xs != []
    requires forall x :: accumulator(identity, x) == x
    ensures FoldLeft(accumulator, identity, xs) == FoldLeft(accumulator, xs[0], xs[1..])
  {
  }

  /** Count: the number of elements. */
  method Count<T>(s: Stream<T>) returns (count: int)
    ensures count == |s.elements|
  {
    count := 0;
    var i := 0;
    while i < |s.elements|
      invariant 0 <= i <= |s.elements|
      invariant count == i
    {
      count := count + 1;
      i := i + 1;
    }
  }

  /** AnyMatch: some element satisfies the predicate; stops at the first that does. */
  method AnyMatch<T>(s: Stream<T>, pred: T -> bool) returns (b: bool)
    ensures b <==> exists i :: 0 <= i < |s.elements| && pred(s.elements[i])
  {
    var i := 0;
    while i < |s.elements|
      invariant 0 <= i <= |s.elements|
      invariant forall j :: 0 <= j < i ==> !pred(s.elements[j])
    {
      if pred(s.elements[i]) {
        return true;
      }
      i := i + 1;
    }
    return false;
  }

  /** AllMatch: every element satisfies the predicate (true for an empty stream). */
  method AllMatch<T>(s: Stream<T>, pred: T -> bool) returns (b: bool)
    ensures b <==> forall i :: 0 <= i < |s.elements| ==> pred(s.elements[i])
  {
    var i := 0;
    while i < |s.elements|
      invariant 0 <= i <= |s.elements|
      invariant forall j :: 0 <= j < i ==> pred(s.elements[j])
    {
      if !pred(s.elements[i]) {
        return false;
      }
      i := i + 1;
    }
    return true;
  }

  /** NoneMatch: no element satisfies the predicate, the negation of AnyMatch. */
  method NoneMatch<T>(s: Stream<T>, pred: T -> bool) returns (b: bool)
    ensures b <==> !exists i :: 0 <= i < |s.elements| && pred(s.elements[i])
  {
    var i := 0;
    while i < |s.elements|
      invariant 0 <= i <= |s.elements|
      invariant forall j :: 0 <= j < i ==> !pred(s.elements[j])
    {
      if pred(s.elements[i]) {
        return false;
      }
      i := i + 1;
    }
    return true;
  }

  /** FindFirst: None exactly for an empty stream, otherwise the first element. */
  method FindFirst<T>(s: Stream<T>) returns (r: Optional.Option<T>)
    ensures s.elements == [] <==> r == Optional.None
    ensures s.elements != [] ==> r == Optional.Some(s.elements[0])
  {
    if |s.elements| > 0 {
      return Optional.Some(s.elements[0]);
    }
    return Optional.None;
  }

  /** FindAny: on a sequential stream, FindFirst. */
  method FindAny<T>(s: Stream<T>) returns (r: Optional.Option<T>)
    ensures s.elements == [] <==> r == Optional.None
    ensures s.elements != [] ==> r == Optional.Some(s.elements[0])
  {
    r := FindFirst(s);
  }

  /** Min: None for an empty stream; otherwise the candidate is replaced only by a strictly
      smaller element, which under a strict weak order is the earliest least element
      (Seqs.MinIndexIsLeastAndEarliest).  zero is the Go zero value min starts as. */
  method Min<T>(s: Stream<T>, less: (T, T) -> bool, zero: T) returns (r: Optional.Option<T>)
    ensures s.elements == [] <==> r == Optional.None
    ensures s.elements != [] ==> r == Optional.Some(s.elements[MinIndex(less, s.elements)])
  {
    var xs := s.elements;
    var min := zero;
    var first := true;
    var i := 0;
    while i < |xs|
      invariant 0 <= i <= |xs|
      invariant first <==> i == 0
      invariant i > 0 ==> min == xs[MinIndex(less, xs[..i])]
    {
      assert xs[..i + 1][..i] == xs[..i];
      if first || less(xs[i], min) {
        min := xs[i];
        first := false;
      }
      i := i + 1;
    }
    if first {
      return Optional.None;
    }
    assert xs[..i] == xs;
    return Optional.Some(min);
  }

  /** Max: None for an empty stream; otherwise the candidate is replaced only by a strictly
      greater element, so the earliest greatest element (Seqs.MaxIndexIsGreatestAndEarliest). */
  method Max<T>(s: Stream<T>, less: (T, T) -> bool, zero: T) returns (r: Optional.Option<T>)
    ensures s.elements == [] <==> r == Optional.None
    ensures s.elements != [] ==> r == Optional.Some(s.elements[MaxIndex(less, s.elements)])
  {
    var xs := s.elements;
    var max := zero;
    var first := true;
    var i := 0;
    while i < |xs|
      invariant 0 <= i <= |xs|
      invariant first <==> i == 0
      invariant i > 0 ==> max == xs[MaxIndex(less, xs[..i])]
    {
      assert xs[..i + 1][..i] == xs[..i];
      if first || less(max, xs[i]) {
        max := xs[i];
        first := false;
      }
      i := i + 1;
    }
    if first {
      return Optional.None;
    }
    assert xs[..i] == xs;
    return Optional.Some(max);
  }

  /** PartitionBy: the matching and the non-matching elements, each in input order; their
      lengths add up to the input's (Seqs.FilteredSplit). */
  method PartitionBy<T>(s: Stream<T>, pred: T -> bool) returns (matching: seq<T>, notMatching: seq<T>)
    ensures matching == Filtered(s.elements, pred)
    ensures notMatching == Filtered(s.elements, x => !pred(x))
  {
    var xs := s.elements;
    ghost var fails := x => !pred(x);
    matching, notMatching := [], [];
    var i := 0;
    while i < |xs|
      invariant 0 <= i <= |xs|
      invariant matching == Filtered(xs[..i], pred)
      invariant notMatching == Filtered(xs[..i], fails)
    {
      var x := xs[i];
      assert xs[..i + 1] == xs[..i] + [x];
      FilteredSnoc(xs[..i], x, pred);
      FilteredSnoc(xs[..i], x, fails);
      if pred(x) {
        assert !fails(x);
        matching := matching + [x];
      } else {
        assert fails(x);
        notMatching := notMatching + [x];
      }
      i := i + 1;
    }
    assert xs[..i] == xs;
  }
}
