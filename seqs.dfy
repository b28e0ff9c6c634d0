/** Reference definitions on finite sequences shared by the stream and collector packages:
    the left fold every terminal operation performs, order-preserving filtering, the length
    of the longest prefix that satisfies a predicate, and the position an order-based
    minimum or maximum search settles on. */
module Seqs {

  // ---------------------------------------------------------------- left fold

  /** The left fold f(...f(f(acc, xs[0]), xs[1])..., xs[n-1]). */
  function FoldLeft<A, T>(f: (A, T) -> A, acc: A, xs: seq<T>): A
    decreases |xs|
  {
    if xs == [] then acc else FoldLeft(f, f(acc, xs[0]), xs[1..])
  }

  /** Folding one more element at the end applies f once more to the folded prefix. */
  lemma {:induction false} FoldLeftSnoc<A, T>(f: (A, T) -> A, acc: A, xs: seq<T>, x: T)
    ensures FoldLeft(f, acc, xs + [x]) == f(FoldLeft(f, acc, xs), x)
    decreases |xs|
  {
    if xs == [] {
      assert [x][1..] == [];
    } else {
      assert (xs + [x])[1..] == xs[1..] + [x];
      FoldLeftSnoc(f, f(acc, xs[0]), xs[1..], x);
    }
  }

  // ---------------------------------------------------------------- filtering

  /** The elements of xs that satisfy p, in their original order. */
  function Filtered<T>(xs: seq<T>, p: T -> bool): (r: seq<T>)
    ensures |r| <= |xs|
    ensures forall i :: 0 <= i < |r| ==> r[i] in xs && p(r[i])
    ensures forall i :: 0 <= i < |xs| && p(xs[i]) ==> xs[i] in r
    decreases |xs|
  {
    if xs == [] then []
    else if p(xs[0]) then [xs[0]] + Filtered(xs[1..], p)
    else Filtered(xs[1..], p)
  }

  /** Filtering distributes over concatenation, so it keeps relative order. */
  lemma {:induction false} FilteredAppend<T>(xs: seq<T>, ys: seq<T>, p: T -> bool)
    ensures Filtered(xs + ys, p) == Filtered(xs, p) + Filtered(ys, p)
    decreases |xs|
  {
    if xs == [] {
      assert xs + ys == ys;
    } else {
      assert (xs + ys)[1..] == xs[1..] + ys;
      FilteredAppend(xs[1..], ys, p);
    }
  }

  /** Filtering one more element keeps it exactly when it satisfies p. */
  lemma FilteredSnoc<T>(xs: seq<T>, x: T, p: T -> bool)
    ensures Filtered(xs + [x], p) == Filtered(xs, p) + (if p(x) then [x] else [])
  {
    FilteredAppend(xs, [x], p);
    assert [x][1..] == [];
  }

  /** Nothing survives a filter that every element fails. */
  lemma {:induction false} FilteredNone<T>(xs: seq<T>, p: T -> bool)
    requires forall i :: 0 <= i < |xs| ==> !p(xs[i])
    ensures Filtered(xs, p) == []
    decreases |xs|
  {
    if xs != [] {
      assert forall i :: 0 <= i < |xs| - 1 ==> xs[1..][i] == xs[i + 1];
      FilteredNone(xs[1..], p);
    }
  }

  /** Filtering by p and by its negation splits xs: the two parts' lengths add up to |xs|
      and together they hold exactly the elements of xs. */
  lemma {:induction false} FilteredSplit<T>(xs: seq<T>, p: T -> bool)
    ensures |Filtered(xs, p)| + |Filtered(xs, x => !p(x))| == |xs|
    ensures multiset(Filtered(xs, p)) + multiset(Filtered(xs, x => !p(x))) == multiset(xs)
    decreases |xs|
  {
    if xs != [] {
      FilteredSplit(xs[1..], p);
      assert xs == [xs[0]] + xs[1..];
    }
  }

  // ---------------------------------------------------------------- longest prefix

  /** The length of the longest prefix of xs whose every element satisfies p. */
  function PrefixLength<T>(xs: seq<T>, p: T -> bool): (k: nat)
    ensures k <= |xs|
    decreases |xs|
  {
    if xs == [] || !p(xs[0]) then 0 else 1 + PrefixLength(xs[1..], p)
  }

  /** PrefixLength is the one k at which the prefix xs[..k] satisfies p throughout and the
      next element, if any, does not. */
  lemma {:induction false} PrefixLengthIs<T>(xs: seq<T>, p: T -> bool, k: nat)
    requires k <= |xs|
    ensures PrefixLength(xs, p) == k <==>
              (forall i :: 0 <= i < k ==> p(xs[i])) && (k < |xs| ==> !p(xs[k]))
    decreases |xs|
  {
    if xs != [] && p(xs[0]) {
      if k == 0 {
      } else {
        PrefixLengthIs(xs[1..], p, k - 1);
        assert forall i :: 0 <= i < k - 1 ==> xs[1..][i] == xs[i + 1];
        if (forall i :: 0 <= i < k - 1 ==> p(xs[1..][i])) {
          forall i | 0 <= i < k
            ensures p(xs[i])
          {
            if i > 0 {
              assert xs[1..][i - 1] == xs[i];
            }
          }
        }
      }
    }
  }

  // ---------------------------------------------------------------- order-based search

  /** A strict weak order: irreflexive, transitive, and incomparability is transitive
      (expressed as: a < c implies a < b or b < c). */
  ghost predicate StrictWeakOrder<T(!new)>(less: (T, T) -> bool) {
    (forall a :: !less(a, a)) &&
    (forall a, b, c :: less(a, b) && less(b, c) ==> less(a, c)) &&
    (forall a, b, c :: less(a, c) ==> less(a, b) || less(b, c))
  }

  /** The position a left-to-right scan settles on when it starts with the first element and
      replaces its candidate m by x exactly when less(x, m). */
  function MinIndex<T>(less: (T, T) -> bool, xs: seq<T>): (k: nat)
    requires |xs| > 0
    ensures k < |xs|
    decreases |xs|
  {
    if |xs| == 1 then 0
    else
      var k := MinIndex(less, xs[..|xs| - 1]);
      if less(xs[|xs| - 1], xs[k]) then |xs| - 1 else k
  }

  /** The position a left-to-right scan settles on when it starts with the first element and
      replaces its candidate m by x exactly when less(m, x). */
  function MaxIndex<T>(less: (T, T) -> bool, xs: seq<T>): (k: nat)
    requires |xs| > 0
    ensures k < |xs|
    decreases |xs|
  {
    if |xs| == 1 then 0
    else
      var k := MaxIndex(less, xs[..|xs| - 1]);
      if less(xs[k], xs[|xs| - 1]) then |xs| - 1 else k
  }

  /** Under a strict weak order the scan finds a least element, and the earliest one among
      equals: everything before it is strictly greater. */
  lemma {:induction false} MinIndexIsLeastAndEarliest<T(!new)>(less: (T, T) -> bool, xs: seq<T>)
    requires |xs| > 0
    requires StrictWeakOrder(less)
    ensures forall j :: 0 <= j < |xs| ==> !less(xs[j], xs[MinIndex(less, xs)])
    ensures forall j :: 0 <= j < MinIndex(less, xs) ==> less(xs[MinIndex(less, xs)], xs[j])
    decreases |xs|
  {
    if |xs| > 1 {
      var init := xs[..|xs| - 1];
      MinIndexIsLeastAndEarliest(less, init);
      var k := MinIndex(less, init);
      assert forall j :: 0 <= j < |init| ==> init[j] == xs[j];
    }
  }

  /** Under a strict weak order the scan finds a greatest element, and the earliest one
      among equals: everything before it is strictly smaller. */
  lemma {:induction false} MaxIndexIsGreatestAndEarliest<T(!new)>(less: (T, T) -> bool, xs: seq<T>)
    requires |xs| > 0
    requires StrictWeakOrder(less)
    ensures forall j :: 0 <= j < |xs| ==> !less(xs[MaxIndex(less, xs)], xs[j])
    ensures forall j :: 0 <= j < MaxIndex(less, xs) ==> less(xs[j], xs[MaxIndex(less, xs)])
    decreases |xs|
  {
    if |xs| > 1 {
      var init := xs[..|xs| - 1];
      MaxIndexIsGreatestAndEarliest(less, init);
      var k := MaxIndex(less, init);
      assert forall j :: 0 <= j < |init| ==> init[j] == xs[j];
    }
  }

  // ---------------------------------------------------------------- keys

  /** The keys of the elements of xs. */
  function KeySet<T, K>(xs: seq<T>, key: T -> K): (ks: set<K>)
    ensures forall i :: 0 <= i < |xs| ==> key(xs[i]) in ks
    decreases |xs|
  {
    if xs == [] then {} else KeySet(xs[..|xs| - 1], key) + {key(xs[|xs| - 1])}
  }

  /** Every key in KeySet comes from some element. */
  lemma {:induction false} KeySetWitness<T, K>(xs: seq<T>, key: T -> K, k: K)
    requires k in KeySet(xs, key)
    ensures exists i :: 0 <= i < |xs| && key(xs[i]) == k
    decreases |xs|
  {
    var init := xs[..|xs| - 1];
    if k != key(xs[|xs| - 1]) {
      KeySetWitness(init, key, k);
      var i :| 0 <= i < |init| && key(init[i]) == k;
      assert key(xs[i]) == k;
    }
  }
}
