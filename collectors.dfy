/** Package collectors: a Collector is the triple Supplier / Accumulator / Finisher that a
    stream's Collect threads one accumulator through.  The accumulators that mutate in place
    in Go (append to a slice, Add to a set, assignment into a map, WriteString on a builder)
    are modelled as returning the updated accumulator: Collect holds the only reference to
    it, so the two agree. */
module Collectors {
  import opened GoTypes
  import opened Seqs
  import Optional

  /** The Collector interface as a value: its three methods. */
  datatype Collector<!T, !A, R> = Collector(supplier: () -> A, accumulator: (A, T) -> A, finisher: A -> R)

  /** What collecting xs yields: start from the supplier, accumulate left to right, finish. */
  function Collected<T, A, R>(c: Collector<T, A, R>, xs: seq<T>): R {
    c.finisher(FoldLeft(c.accumulator, c.supplier(), xs))
  }

  /** The accumulator after xs + [x] is the accumulator after xs with x accumulated. */
  lemma AccumulateSnoc<T, A, R>(c: Collector<T, A, R>, xs: seq<T>, x: T)
    ensures FoldLeft(c.accumulator, c.supplier(), xs + [x])
         == c.accumulator(FoldLeft(c.accumulator, c.supplier(), xs), x)
  {
    FoldLeftSnoc(c.accumulator, c.supplier(), xs, x);
  }

  // ---------------------------------------------------------------- ToSlice, ToSet, Counting

  /** ToSlice: start from an empty slice and append. */
  function ToSlice<T>(): Collector<T, seq<T>, seq<T>> {
    Collector(() => [], (acc: seq<T>, elem: T) => acc + [elem], (acc: seq<T>) => acc)
  }

  /** Collecting into a slice gives back the input. */
  lemma {:induction false} CollectToSlice<T>(xs: seq<T>)
    ensures Collected(ToSlice<T>(), xs) == xs
    decreases |xs|
  {
    if xs != [] {
      var init := xs[..|xs| - 1];
      CollectToSlice(init);
      AccumulateSnoc(ToSlice<T>(), init, xs[|xs| - 1]);
      assert init + [xs[|xs| - 1]] == xs;
    }
  }

  /** ToSet: start from an empty set and Add.  The set package's Set is the set of its
      items; here it is that set directly. */
  function ToSet<T(==)>(): Collector<T, set<T>, set<T>> {
    Collector(() => {}, (acc: set<T>, elem: T) => acc + {elem}, (acc: set<T>) => acc)
  }

  /** Collecting into a set gives exactly the distinct elements of the input. */
  lemma {:induction false} CollectToSet<T>(xs: seq<T>)
    ensures Collected(ToSet<T>(), xs) == set i | 0 <= i < |xs| :: xs[i]
    decreases |xs|
  {
    if xs != [] {
      var init, last := xs[..|xs| - 1], xs[|xs| - 1];
      CollectToSet(init);
      AccumulateSnoc(ToSet<T>(), init, last);
      assert init + [last] == xs;
      var r := set i | 0 <= i < |xs| :: xs[i];
      var q := set i | 0 <= i < |init| :: init[i];
      assert r == q + {last} by {
        forall y | y in r ensures y in q + {last} {
          var i :| 0 <= i < |xs| && xs[i] == y;
          if i < |init| { assert init[i] == y; }
        }
        forall y | y in q ensures y in r {
          var i :| 0 <= i < |init| && init[i] == y;
          assert xs[i] == y;
        }
        assert xs[|xs| - 1] == last;
      }
    }
  }

  /** Counting: start from 0 and add one per element. */
  function Counting<T>(): Collector<T, int, int> {
    Collector(() => 0, (acc: int, elem: T) => acc + 1, (acc: int) => acc)
  }

  /** Counting gives the number of elements. */
  lemma {:induction false} CollectCounting<T>(xs: seq<T>)
    ensures Collected(Counting<T>(), xs) == |xs|
    decreases |xs|
  {
    if xs != [] {
      var init := xs[..|xs| - 1];
      CollectCounting(init);
      AccumulateSnoc(Counting<T>(), init, xs[|xs| - 1]);
      assert init + [xs[|xs| - 1]] == xs;
    }
  }

  // ---------------------------------------------------------------- Summing

  /** Summing over Go's 64-bit int: start from 0 and add mapper(elem), wrapping around. */
  function Summing<T>(mapper: T -> int): Collector<T, int, int> {
    Collector(() => 0, (acc: int, elem: T) => WrapInt64(acc + mapper(elem)), (acc: int) => acc)
  }

  /** The mathematical sum of the mapped values. */
  function SumOf<T>(xs: seq<T>, mapper: T -> int): int
    decreases |xs|
  {
    if xs == [] then 0 else SumOf(xs[..|xs| - 1], mapper) + mapper(xs[|xs| - 1])
  }

  /** Two integers that differ by a multiple of 2^64 wrap to the same int64. */
  lemma WrapCongruent(a: int, b: int)
    requires (a - b) % 0x1_0000_0000_0000_0000 == 0
    ensures WrapInt64(a) == WrapInt64(b)
  {
    var q, d, r := (a - b) / 0x1_0000_0000_0000_0000, b / 0x1_0000_0000_0000_0000, b % 0x1_0000_0000_0000_0000;
    assert a - b == q * 0x1_0000_0000_0000_0000;
    assert b == d * 0x1_0000_0000_0000_0000 + r;
    assert a == (d + q) * 0x1_0000_0000_0000_0000 + r;
    assert a % 0x1_0000_0000_0000_0000 == r;
  }

  /** Summing yields the true sum reduced into int64, so exactly the sum whenever that sum
      fits in an int64. */
  lemma {:induction false} CollectSumming<T>(xs: seq<T>, mapper: T -> int)
    ensures Collected(Summing(mapper), xs) == WrapInt64(SumOf(xs, mapper))
    ensures IsInt64(SumOf(xs, mapper)) ==> Collected(Summing(mapper), xs) == SumOf(xs, mapper)
    decreases |xs|
  {
    if xs != [] {
      var init, last := xs[..|xs| - 1], xs[|xs| - 1];
      CollectSumming(init, mapper);
      AccumulateSnoc(Summing(mapper), init, last);
      assert init + [last] == xs;
      var before := Collected(Summing(mapper), init);
      WrapCongruent(before + mapper(last), SumOf(init, mapper) + mapper(last));
    }
  }

  // ---------------------------------------------------------------- Joining

  /** The separator is written before an element only when the builder already holds text. */
  function JoinStep(separator: string): (string, string) -> string {
    (acc: string, elem: string) => if |acc| > 0 then acc + separator + elem else acc + elem
  }

  /** JoiningWith: the builder contents between prefix and suffix; with both empty the
      contents are returned as they are. */
  function JoiningWith(separator: string, prefix: string, suffix: string): Collector<string, string, string> {
    Collector(() => "", JoinStep(separator),
              (acc: string) => if prefix == "" && suffix == "" then acc else prefix + acc + suffix)
  }

  /** Joining: JoiningWith with empty prefix and suffix. */
  function Joining(separator: string): Collector<string, string, string> {
    JoiningWith(separator, "", "")
  }

  /** The usual join: the strings with the separator between each adjacent pair. */
  function Join(xs: seq<string>, separator: string): string
    decreases |xs|
  {
    if xs == [] then ""
    else if |xs| == 1 then xs[0]
    else Join(xs[..|xs| - 1], separator) + separator + xs[|xs| - 1]
  }

  predicate IsEmptyString(s: string) { s == "" }

  /** JoiningWith's finisher always yields prefix + joined + suffix: the shortcut for an
      empty prefix and suffix changes nothing. */
  lemma JoiningWithFinisher(separator: string, prefix: string, suffix: string, joined: string)
    ensures JoiningWith(separator, prefix, suffix).finisher(joined) == prefix + joined + suffix
  {
    if prefix == "" && suffix == "" {
      assert prefix + joined + suffix == joined;
    }
  }

  /** The builder contents after accumulating xs. */
  function Built(xs: seq<string>, separator: string): string {
    FoldLeft(JoinStep(separator), "", xs)
  }

  /** Joining drops the leading empty strings and joins the rest with the separator: a
      leading "" never produces a separator, every later element does. */
  lemma {:induction false} CollectJoining(xs: seq<string>, separator: string)
    ensures Collected(Joining(separator), xs) == Join(xs[PrefixLength(xs, IsEmptyString)..], separator)
    decreases |xs|
  {
    if xs != [] {
      var init, last := xs[..|xs| - 1], xs[|xs| - 1];
      CollectJoining(init, separator);
      FoldLeftSnoc(JoinStep(separator), "", init, last);
      assert init + [last] == xs;
      var before := Built(init, separator);
      var k := PrefixLength(init, IsEmptyString);
      PrefixLengthIs(init, IsEmptyString, k);
      if k == |init| {
        assert init[k..] == [];
        JoiningAfterEmpties(xs, separator, Built(xs, separator));
      } else {
        JoiningAfterText(xs, separator, k, before, Built(xs, separator));
      }
    }
  }

  /** When everything before the last string is empty, the builder holds just that string. */
  lemma JoiningAfterEmpties(xs: seq<string>, separator: string, built: string)
    requires xs != []
    requires forall i :: 0 <= i < |xs| - 1 ==> IsEmptyString(xs[i])
    requires built == JoinStep(separator)("", xs[|xs| - 1])
    ensures built == Join(xs[PrefixLength(xs, IsEmptyString)..], separator)
  {
    var last := xs[|xs| - 1];
    if last == "" {
      PrefixLengthIs(xs, IsEmptyString, |xs|);
      assert xs[|xs|..] == [];
    } else {
      PrefixLengthIs(xs, IsEmptyString, |xs| - 1);
      assert xs[|xs| - 1..] == [last];
    }
  }

  /** Once the builder holds text, the next string is appended after a separator. */
  lemma JoiningAfterText(xs: seq<string>, separator: string, k: nat, before: string, built: string)
    requires k < |xs| - 1
    requires forall i :: 0 <= i < k ==> IsEmptyString(xs[i])
    requires !IsEmptyString(xs[k])
    requires before == Join(xs[k..|xs| - 1], separator)
    requires built == JoinStep(separator)(before, xs[|xs| - 1])
    ensures built == Join(xs[PrefixLength(xs, IsEmptyString)..], separator)
  {
    var last := xs[|xs| - 1];
    var rest := xs[k..|xs| - 1];
    PrefixLengthAt(xs, k);
    assert rest[0] == xs[k];
    JoinNonEmpty(rest, separator);
    assert |before| > 0;
    assert built == before + separator + last;
    JoinSnoc(rest, last, separator);
    assert xs[k..] == rest + [last];
  }

  /** The leading empty strings end at the first non-empty one. */
  lemma PrefixLengthAt(xs: seq<string>, k: nat)
    requires k < |xs|
    requires forall i :: 0 <= i < k ==> IsEmptyString(xs[i])
    requires !IsEmptyString(xs[k])
    ensures PrefixLength(xs, IsEmptyString) == k
  {
    PrefixLengthIs(xs, IsEmptyString, k);
  }

  /** Joining one more string after a non-empty list puts a separator before it. */
  lemma JoinSnoc(xs: seq<string>, last: string, separator: string)
    requires xs != []
    ensures Join(xs + [last], separator) == Join(xs, separator) + separator + last
  {
    var t := xs + [last];
    assert t[..|t| - 1] == xs;
  }

  /** A join whose first string is non-empty is non-empty. */
  lemma {:induction false} JoinNonEmpty(xs: seq<string>, separator: string)
    requires xs != [] && xs[0] != ""
    ensures |Join(xs, separator)| > 0
    decreases |xs|
  {
    if |xs| > 1 {
      JoinNonEmpty(xs[..|xs| - 1], separator);
    }
  }

  /** ["", "a"] joins to "a", with no separator. */
  lemma JoiningLeadingEmpty()
    ensures Collected(Joining(", "), ["", "a"]) == "a"
  {
    CollectJoining(["", "a"], ", ");
    PrefixLengthIs(["", "a"], IsEmptyString, 1);
    assert ["", "a"][1..] == ["a"];
  }

  // ---------------------------------------------------------------- MinBy, MaxBy

  /** MinBy AS WRITTEN: the accumulator tests `acc.IsAbsent()`, which is true for a present
      Option, and otherwise compares elem with `acc.Get()`, the zero value for None.  So the
      first element is kept only when less(elem, zero), and once anything is kept every
      later element replaces it. */
  function MinBy<T>(less: (T, T) -> bool, zero: T): Collector<T, Optional.Option<T>, Optional.Option<T>> {
    Collector(() => Optional.None,
              (acc: Optional.Option<T>, elem: T) =>
                if Optional.IsAbsent(acc) then Optional.Some(elem)
                else if less(elem, Optional.Get(acc, zero)) then Optional.Some(elem)
                else acc,
              (acc: Optional.Option<T>) => acc)
  }

  /** MaxBy AS WRITTEN: the same inverted test, with less(acc.Get(), elem). */
  function MaxBy<T>(less: (T, T) -> bool, zero: T): Collector<T, Optional.Option<T>, Optional.Option<T>> {
    Collector(() => Optional.None,
              (acc: Optional.Option<T>, elem: T) =>
                if Optional.IsAbsent(acc) then Optional.Some(elem)
                else if less(Optional.Get(acc, zero), elem) then Optional.Some(elem)
                else acc,
              (acc: Optional.Option<T>) => acc)
  }

  /** MinBy as its doc comment and tests describe it: an absent accumulator takes the element,
      otherwise the element replaces it only when strictly less. */
  function MinByIntended<T>(less: (T, T) -> bool): Collector<T, Optional.Option<T>, Optional.Option<T>> {
    Collector(() => Optional.None,
              (acc: Optional.Option<T>, elem: T) =>
                if Optional.IsAbsentIntended(acc) then Optional.Some(elem)
                else if less(elem, acc.value) then Optional.Some(elem)
                else acc,
              (acc: Optional.Option<T>) => acc)
  }

  /** MaxBy as its doc comment and tests describe it. */
  function MaxByIntended<T>(less: (T, T) -> bool): Collector<T, Optional.Option<T>, Optional.Option<T>> {
    Collector(() => Optional.None,
              (acc: Optional.Option<T>, elem: T) =>
                if Optional.IsAbsentIntended(acc) then Optional.Some(elem)
                else if less(acc.value, elem) then Optional.Some(elem)
                else acc,
              (acc: Optional.Option<T>) => acc)
  }

  /** The intended MinBy is None on empty input and otherwise the element the scan settles
      on: a least element, the earliest among equals (see Seqs.MinIndexIsLeastAndEarliest). */
  lemma {:induction false} CollectMinByIntended<T>(less: (T, T) -> bool, xs: seq<T>)
    ensures xs == [] ==> Collected(MinByIntended(less), xs) == Optional.None
    ensures xs != [] ==> Collected(MinByIntended(less), xs) == Optional.Some(xs[MinIndex(less, xs)])
    decreases |xs|
  {
    if xs != [] {
      var c := MinByIntended(less);
      var init, last := xs[..|xs| - 1], xs[|xs| - 1];
      CollectMinByIntended(less, init);
      AccumulateSnoc(c, init, last);
      assert init + [last] == xs;
      var acc := FoldLeft(c.accumulator, c.supplier(), init);
      if init == [] {
        assert acc == Optional.None;
        assert Optional.IsAbsentIntended<T>(Optional.None);
        assert c.accumulator(Optional.None, last) == Optional.Some(last);
        assert MinIndex(less, xs) == 0;
      } else {
        var k := MinIndex(less, init);
        assert acc == Optional.Some(init[k]);
        assert !Optional.IsAbsentIntended(Optional.Some(init[k]));
        assert c.accumulator(Optional.Some(init[k]), last)
            == if less(last, init[k]) then Optional.Some(last) else Optional.Some(init[k]);
        assert xs[k] == init[k];
      }
    }
  }

  /** The intended MaxBy is None on empty input and otherwise a greatest element, the
      earliest among equals. */
  lemma {:induction false} CollectMaxByIntended<T>(less: (T, T) -> bool, xs: seq<T>)
    ensures xs == [] ==> Collected(MaxByIntended(less), xs) == Optional.None
    ensures xs != [] ==> Collected(MaxByIntended(less), xs) == Optional.Some(xs[MaxIndex(less, xs)])
    decreases |xs|
  {
    if xs != [] {
      var c := MaxByIntended(less);
      var init, last := xs[..|xs| - 1], xs[|xs| - 1];
      CollectMaxByIntended(less, init);
      AccumulateSnoc(c, init, last);
      assert init + [last] == xs;
      var acc := FoldLeft(c.accumulator, c.supplier(), init);
      if init == [] {
        assert acc == Optional.None;
        assert Optional.IsAbsentIntended<T>(Optional.None);
        assert c.accumulator(Optional.None, last) == Optional.Some(last);
        assert MaxIndex(less, xs) == 0;
      } else {
        var k := MaxIndex(less, init);
        assert acc == Optional.Some(init[k]);
        assert !Optional.IsAbsentIntended(Optional.Some(init[k]));
        assert c.accumulator(Optional.Some(init[k]), last)
            == if less(init[k], last) then Optional.Some(last) else Optional.Some(init[k]);
        assert xs[k] == init[k];
      }
    }
  }

  function IntLess(a: int, b: int): bool { a < b }

  /** MinBy as written over `<` on ints never leaves None when no element is negative: the
      inverted IsAbsent sends None to the comparison with the zero value 0, which fails. */
  lemma {:induction false} MinByAsWrittenStaysNone(xs: seq<int>)
    requires forall i :: 0 <= i < |xs| ==> xs[i] >= 0
    ensures Collected(MinBy(IntLess, 0), xs) == Optional.None
    decreases |xs|
  {
    if xs != [] {
      var init, last := xs[..|xs| - 1], xs[|xs| - 1];
      MinByAsWrittenStaysNone(init);
      AccumulateSnoc(MinBy(IntLess, 0), init, last);
      assert init + [last] == xs;
      var none: Optional.Option<int> := Optional.None;
      assert !Optional.IsAbsent(none) && Optional.Get(none, 0) == 0;
      assert !IntLess(last, 0);
    }
  }

  /** MinBy as written on [5, 2, 8, 1, 9] with `<` stays None (no element is below the zero
      value 0), where the intended MinBy gives Some(1). */
  lemma MinByAsWrittenMissesMinimum()
    ensures Collected(MinBy(IntLess, 0), [5, 2, 8, 1, 9]) == Optional.None
    ensures Collected(MinByIntended(IntLess), [5, 2, 8, 1, 9]) == Optional.Some(1)
  {
    var xs := [5, 2, 8, 1, 9];
    MinByAsWrittenStaysNone(xs);
    CollectMinByIntended(IntLess, xs);
    assert xs[..|xs| - 1] == [5, 2, 8, 1];
    assert [5, 2, 8, 1][..3] == [5, 2, 8] && [5, 2, 8][..2] == [5, 2] && [5, 2][..1] == [5];
    assert MinIndex(IntLess, [5]) == 0;
    assert MinIndex(IntLess, [5, 2]) == 1;
    assert MinIndex(IntLess, [5, 2, 8]) == 1;
    assert MinIndex(IntLess, [5, 2, 8, 1]) == 3;
    assert MinIndex(IntLess, xs) == 3;
  }

  /** MaxBy as written on [9, 5] gives Some(5): the first element is kept (0 < 9), then the
      inverted test lets 5 replace it.  The intended MaxBy gives Some(9). */
  lemma MaxByAsWrittenKeepsLast()
    ensures Collected(MaxBy(IntLess, 0), [9, 5]) == Optional.Some(5)
    ensures Collected(MaxByIntended(IntLess), [9, 5]) == Optional.Some(9)
  {
    var f := MaxBy(IntLess, 0).accumulator;
    var none: Optional.Option<int> := Optional.None;
    assert !Optional.IsAbsent(none) && Optional.Get(none, 0) == 0;
    assert Optional.IsAbsent(Optional.Some(9));
    assert f(none, 9) == Optional.Some(9);
    assert f(Optional.Some(9), 5) == Optional.Some(5);
    assert [5][1..] == [] && [9, 5][1..] == [5];
    assert FoldLeft(f, Optional.Some(9), [5]) == Optional.Some(5);
    assert FoldLeft(f, none, [9, 5]) == Optional.Some(5);
    var xs := [9, 5];
    CollectMaxByIntended(IntLess, xs);
    assert xs[..1] == [9];
    assert MaxIndex(IntLess, xs) == 0;
  }

  // ---------------------------------------------------------------- GroupingBy, PartitioningBy

  /** GroupingBy: append each element to the list under its key (a missing key's list is
      Go's nil slice, the empty list). */
  function GroupingBy<T, K(==)>(keyFn: T -> K): Collector<T, map<K, seq<T>>, map<K, seq<T>>> {
    Collector(() => map[],
              (acc: map<K, seq<T>>, elem: T) =>
                var key := keyFn(elem);
                acc[key := (if key in acc then acc[key] else []) + [elem]],
              (acc: map<K, seq<T>>) => acc)
  }

  /** The elements of xs whose key is k. */
  function WithKey<T, K(==)>(keyFn: T -> K, k: K): T -> bool {
    (x: T) => keyFn(x) == k
  }

  /** GroupingBy has a key exactly for each key that occurs, and lists each key's elements
      in input order. */
  lemma {:induction false} CollectGroupingBy<T, K>(keyFn: T -> K, xs: seq<T>)
    ensures Collected(GroupingBy(keyFn), xs).Keys == KeySet(xs, keyFn)
    ensures forall k :: k in Collected(GroupingBy(keyFn), xs) ==>
              Collected(GroupingBy(keyFn), xs)[k] == Filtered(xs, WithKey(keyFn, k))
    decreases |xs|
  {
    if xs != [] {
      var init, last := xs[..|xs| - 1], xs[|xs| - 1];
      var c := GroupingBy(keyFn);
      CollectGroupingBy(keyFn, init);
      var before := Collected(c, init);
      AccumulateSnoc(c, init, last);
      assert init + [last] == xs;
      var after := c.accumulator(before, last);
      assert Collected(c, xs) == after;
      assert after.Keys == before.Keys + {keyFn(last)};
      forall k | k in after
        ensures after[k] == Filtered(xs, WithKey(keyFn, k))
      {
        GroupStep(keyFn, init, last, before, k);
      }
    }
  }

  /** One accumulator step keeps the group of every key equal to the filtered input. */
  lemma GroupStep<T, K>(keyFn: T -> K, init: seq<T>, last: T, before: map<K, seq<T>>, k: K)
    requires before.Keys == KeySet(init, keyFn)
    requires forall k :: k in before ==> before[k] == Filtered(init, WithKey(keyFn, k))
    requires k in before || k == keyFn(last)
    ensures var after := GroupingBy(keyFn).accumulator(before, last);
              k in after && after[k] == Filtered(init + [last], WithKey(keyFn, k))
  {
    FilteredAppend(init, [last], WithKey(keyFn, k));
    assert [last][1..] == [];
    if k !in before {
      FilteredNone(init, WithKey(keyFn, k));
    }
  }

  /** The accumulator of PartitioningBy: the two lists. */
  datatype PartitionState<T> = PartitionState(trueList: seq<T>, falseList: seq<T>)

  /** PartitioningBy: append each element to the list its predicate value selects; finish
      with the map {true: trueList, false: falseList}. */
  function PartitioningBy<T>(pred: T -> bool): Collector<T, PartitionState<T>, map<bool, seq<T>>> {
    Collector(() => PartitionState([], []),
              (acc: PartitionState<T>, elem: T) =>
                if pred(elem) then acc.(trueList := acc.trueList + [elem])
                else acc.(falseList := acc.falseList + [elem]),
              (acc: PartitionState<T>) => map[true := acc.trueList, false := acc.falseList])
  }

  /** Both keys are always present; the lists are the matching and non-matching elements in
      input order, and together they are the input. */
  lemma {:induction false} CollectPartitioningBy<T>(pred: T -> bool, xs: seq<T>)
    ensures Collected(PartitioningBy(pred), xs).Keys == {true, false}
    ensures Collected(PartitioningBy(pred), xs)[true] == Filtered(xs, pred)
    ensures Collected(PartitioningBy(pred), xs)[false] == Filtered(xs, x => !pred(x))
    ensures |Collected(PartitioningBy(pred), xs)[true]|
          + |Collected(PartitioningBy(pred), xs)[false]| == |xs|
  {
    PartitionLists(pred, xs);
    FilteredSplit(xs, pred);
  }

  lemma {:induction false} PartitionLists<T>(pred: T -> bool, xs: seq<T>)
    ensures var c := PartitioningBy(pred);
            FoldLeft(c.accumulator, c.supplier(), xs)
              == PartitionState(Filtered(xs, pred), Filtered(xs, x => !pred(x)))
    decreases |xs|
  {
    if xs != [] {
      var init, last := xs[..|xs| - 1], xs[|xs| - 1];
      var c := PartitioningBy(pred);
      ghost var fails := x => !pred(x);
      PartitionLists(pred, init);
      var before := FoldLeft(c.accumulator, c.supplier(), init);
      AccumulateSnoc(c, init, last);
      assert init + [last] == xs;
      FilteredSnoc(init, last, pred);
      FilteredSnoc(init, last, fails);
      if pred(last) {
        assert !fails(last);
        assert c.accumulator(before, last) == before.(trueList := before.trueList + [last]);
      } else {
        assert fails(last);
        assert c.accumulator(before, last) == before.(falseList := before.falseList + [last]);
      }
    }
  }

  // ---------------------------------------------------------------- ToMap, ToMapWith

  /** The toMap collector; merger is a Go func value, which may be nil. */
  function ToMapCollector<T, K(==), V>(keyFn: T -> K, valueFn: T -> V, merger: Pointer<(V, V) -> V>)
    : Collector<T, map<K, V>, map<K, V>>
  {
    Collector(() => map[],
              (acc: map<K, V>, elem: T) =>
                var key, value := keyFn(elem), valueFn(elem);
                if merger.PointerTo? && key in acc then acc[key := merger.target(acc[key], value)]
                else acc[key := value],
              (acc: map<K, V>) => acc)
  }

  /** ToMap: no merger, so a later element with the same key overwrites. */
  function ToMap<T, K(==), V>(keyFn: T -> K, valueFn: T -> V): Collector<T, map<K, V>, map<K, V>> {
    ToMapCollector(keyFn, valueFn, NilPointer)
  }

  /** ToMapWith: a duplicate key stores merger(existing, new). */
  function ToMapWith<T, K(==), V>(keyFn: T -> K, valueFn: T -> V, merger: Pointer<(V, V) -> V>)
    : Collector<T, map<K, V>, map<K, V>>
  {
    ToMapCollector(keyFn, valueFn, merger)
  }

  /** The values of the elements, in order. */
  function ValuesOf<T, V>(xs: seq<T>, valueFn: T -> V): (vs: seq<V>)
    ensures |vs| == |xs|
    ensures forall i :: 0 <= i < |xs| ==> vs[i] == valueFn(xs[i])
  {
    seq(|xs|, i requires 0 <= i < |xs| => valueFn(xs[i]))
  }

  /** ToMap has a key exactly for each key that occurs, and under it the value of the LAST
      element with that key. */
  lemma {:induction false} CollectToMapLastWins<T, K, V>(keyFn: T -> K, valueFn: T -> V, xs: seq<T>)
    ensures Collected(ToMap(keyFn, valueFn), xs).Keys == KeySet(xs, keyFn)
    ensures forall k :: k in Collected(ToMap(keyFn, valueFn), xs) ==>
              exists i :: 0 <= i < |xs| && keyFn(xs[i]) == k
                && Collected(ToMap(keyFn, valueFn), xs)[k] == valueFn(xs[i])
                && forall j :: i < j < |xs| ==> keyFn(xs[j]) != k
    decreases |xs|
  {
    if xs != [] {
      var init, last := xs[..|xs| - 1], xs[|xs| - 1];
      var c := ToMap(keyFn, valueFn);
      CollectToMapLastWins(keyFn, valueFn, init);
      AccumulateSnoc(c, init, last);
      assert init + [last] == xs;
      var r := Collected(c, xs);
      forall k | k in r
        ensures exists i :: 0 <= i < |xs| && keyFn(xs[i]) == k && r[k] == valueFn(xs[i])
                  && forall j :: i < j < |xs| ==> keyFn(xs[j]) != k
      {
        if k == keyFn(last) {
          assert keyFn(xs[|xs| - 1]) == k && r[k] == valueFn(xs[|xs| - 1]);
        } else {
          var i :| 0 <= i < |init| && keyFn(init[i]) == k && Collected(c, init)[k] == valueFn(init[i])
                   && forall j :: i < j < |init| ==> keyFn(init[j]) != k;
          assert xs[i] == init[i];
          assert forall j :: i < j < |xs| ==> keyFn(xs[j]) != k by {
            forall j | i < j < |xs| ensures keyFn(xs[j]) != k {
              if j < |init| { assert xs[j] == init[j]; }
            }
          }
        }
      }
    }
  }

  /** With or without a merger, the map has a key exactly for each key that occurs. */
  lemma {:induction false} ToMapKeys<T, K, V>(keyFn: T -> K, valueFn: T -> V, merger: Pointer<(V, V) -> V>, xs: seq<T>)
    ensures Collected(ToMapCollector(keyFn, valueFn, merger), xs).Keys == KeySet(xs, keyFn)
    decreases |xs|
  {
    if xs != [] {
      var init, last := xs[..|xs| - 1], xs[|xs| - 1];
      var c := ToMapCollector(keyFn, valueFn, merger);
      ToMapKeys(keyFn, valueFn, merger, init);
      AccumulateSnoc(c, init, last);
      assert init + [last] == xs;
    }
  }

  /** ToMapWith stores, under each key that occurs, the left fold of merger over that key's
      values in input order, starting from the first of them. */
  lemma {:induction false} CollectToMapWithMerges<T, K, V>(keyFn: T -> K, valueFn: T -> V, merger: (V, V) -> V, xs: seq<T>, k: K)
    requires k in KeySet(xs, keyFn)
    ensures k in Collected(ToMapWith(keyFn, valueFn, PointerTo(merger)), xs)
    ensures Merged(Collected(ToMapWith(keyFn, valueFn, PointerTo(merger)), xs)[k],
                   ValuesOf(Filtered(xs, WithKey(keyFn, k)), valueFn), merger)
    decreases |xs|
  {
    ToMapKeys(keyFn, valueFn, PointerTo(merger), xs);
    var init, last := xs[..|xs| - 1], xs[|xs| - 1];
    var c := ToMapWith(keyFn, valueFn, PointerTo(merger));
    ToMapKeys(keyFn, valueFn, PointerTo(merger), init);
    if k in KeySet(init, keyFn) {
      CollectToMapWithMerges(keyFn, valueFn, merger, init, k);
    }
    AccumulateSnoc(c, init, last);
    assert init + [last] == xs;
    MergeStep(keyFn, valueFn, merger, init, last, Collected(c, init), k);
  }

  /** One accumulation step of ToMapWith keeps the merged value of key k right. */
  lemma MergeStep<T, K, V>(keyFn: T -> K, valueFn: T -> V, merger: (V, V) -> V,
                           init: seq<T>, last: T, before: map<K, V>, k: K)
    requires before.Keys == KeySet(init, keyFn)
    requires k in before ==> Merged(before[k], ValuesOf(Filtered(init, WithKey(keyFn, k)), valueFn), merger)
    requires k in before || k == keyFn(last)
    ensures var r := ToMapWith(keyFn, valueFn, PointerTo(merger)).accumulator(before, last);
            k in r && Merged(r[k], ValuesOf(Filtered(init + [last], WithKey(keyFn, k)), valueFn), merger)
  {
    var r := ToMapWith(keyFn, valueFn, PointerTo(merger)).accumulator(before, last);
    var fi := Filtered(init, WithKey(keyFn, k));
    FilteredAppend(init, [last], WithKey(keyFn, k));
    if k != keyFn(last) {
      assert r[k] == before[k];
      assert Filtered([last], WithKey(keyFn, k)) == [];
      assert Filtered(init + [last], WithKey(keyFn, k)) == fi;
    } else if k in before {
      assert r[k] == merger(before[k], valueFn(last));
      assert Filtered([last], WithKey(keyFn, k)) == [last];
      MergedSnoc(before[k], ValuesOf(fi, valueFn), merger, valueFn(last));
      assert ValuesOf(fi + [last], valueFn) == ValuesOf(fi, valueFn) + [valueFn(last)];
    } else {
      assert r[k] == valueFn(last);
      FilteredNone(init, WithKey(keyFn, k));
      assert Filtered([last], WithKey(keyFn, k)) == [last];
      assert Filtered(init + [last], WithKey(keyFn, k)) == [last];
      assert ValuesOf([last], valueFn)[1..] == [];
    }
  }

  /** v is the left fold of merger over the non-empty vs, starting from vs[0]. */
  ghost predicate Merged<V>(v: V, vs: seq<V>, merger: (V, V) -> V) {
    |vs| > 0 && v == FoldLeft(merger, vs[0], vs[1..])
  }

  lemma MergedSnoc<V>(v: V, vs: seq<V>, merger: (V, V) -> V, x: V)
    requires Merged(v, vs, merger)
    ensures Merged(merger(v, x), vs + [x], merger)
  {
    assert (vs + [x])[1..] == vs[1..] + [x];
    FoldLeftSnoc(merger, vs[0], vs[1..], x);
  }
}
