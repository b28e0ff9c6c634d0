/** Package tuple: fixed-size heterogeneous tuples and the slice helpers Zip / Unzip. */
module Tuple {

  datatype Tuple2<T, U> = Tuple2(first: T, second: U)

  datatype Tuple3<T, U, V> = Tuple3(first: T, second: U, third: V)

  function Min(a: nat, b: nat): (m: nat)
    ensures m <= a && m <= b && (m == a || m == b)
  {
    if a <= b then a else b
  }

  // ---------------------------------------------------------------- Tuple2

  /** Swap: the pair with its components exchanged. */
  function Swap<T, U>(t: Tuple2<T, U>): (s: Tuple2<U, T>)
    ensures s.first == t.second && s.second == t.first
  {
    Tuple2(t.second, t.first)
  }

  /** MapFirst: only the first component changes. */
  function MapFirst<T, U>(t: Tuple2<T, U>, fn: T -> T): (s: Tuple2<T, U>)
    ensures s.first == fn(t.first) && s.second == t.second
  {
    t.(first := fn(t.first))
  }

  /** MapSecond: only the second component changes. */
  function MapSecond<T, U>(t: Tuple2<T, U>, fn: U -> U): (s: Tuple2<T, U>)
    ensures s.first == t.first && s.second == fn(t.second)
  {
    t.(second := fn(t.second))
  }

  /** Map: both components are replaced by what fn returns for the pair. */
  function Map<T, U>(t: Tuple2<T, U>, fn: (T, U) -> (T, U)): (s: Tuple2<T, U>)
    ensures (s.first, s.second) == fn(t.first, t.second)
  {
    var (a, b) := fn(t.first, t.second);
    Tuple2(a, b)
  }

  /** MapBoth: each component through its own function. */
  function MapBoth<T, U, V, W>(t: Tuple2<T, U>, fnFirst: T -> V, fnSecond: U -> W): (s: Tuple2<V, W>)
    ensures s.first == fnFirst(t.first) && s.second == fnSecond(t.second)
  {
    Tuple2(fnFirst(t.first), fnSecond(t.second))
  }

  /** Equal: both components equal under the given equalities. */
  predicate Equal<T, U>(t: Tuple2<T, U>, other: Tuple2<T, U>, eqT: (T, T) -> bool, eqU: (U, U) -> bool) {
    eqT(t.first, other.first) && eqU(t.second, other.second)
  }

  // ---------------------------------------------------------------- Tuple3

  function MapFirst3<T, U, V>(t: Tuple3<T, U, V>, fn: T -> T): (s: Tuple3<T, U, V>)
    ensures s.first == fn(t.first) && s.second == t.second && s.third == t.third
  {
    t.(first := fn(t.first))
  }

  function MapSecond3<T, U, V>(t: Tuple3<T, U, V>, fn: U -> U): (s: Tuple3<T, U, V>)
    ensures s.first == t.first && s.second == fn(t.second) && s.third == t.third
  {
    t.(second := fn(t.second))
  }

  function MapThird3<T, U, V>(t: Tuple3<T, U, V>, fn: V -> V): (s: Tuple3<T, U, V>)
    ensures s.first == t.first && s.second == t.second && s.third == fn(t.third)
  {
    t.(third := fn(t.third))
  }

  function Map3<T, U, V>(t: Tuple3<T, U, V>, fn: (T, U, V) -> (T, U, V)): (s: Tuple3<T, U, V>)
    ensures (s.first, s.second, s.third) == fn(t.first, t.second, t.third)
  {
    var (a, b, c) := fn(t.first, t.second, t.third);
    Tuple3(a, b, c)
  }

  // ---------------------------------------------------------------- zipping, specified

  /** The zip of two sequences, defined by recursion on both. */
  function ZipOf<T, U>(a: seq<T>, b: seq<U>): (r: seq<Tuple2<T, U>>)
    ensures |r| == Min(|a|, |b|)
    ensures forall i :: 0 <= i < |r| ==> r[i] == Tuple2(a[i], b[i])
  {
    if |a| == 0 || |b| == 0 then [] else [Tuple2(a[0], b[0])] + ZipOf(a[1..], b[1..])
  }

  function Zip3Of<T, U, V>(a: seq<T>, b: seq<U>, c: seq<V>): (r: seq<Tuple3<T, U, V>>)
    ensures |r| == Min(Min(|a|, |b|), |c|)
    ensures forall i :: 0 <= i < |r| ==> r[i] == Tuple3(a[i], b[i], c[i])
  {
    if |a| == 0 || |b| == 0 || |c| == 0 then []
    else [Tuple3(a[0], b[0], c[0])] + Zip3Of(a[1..], b[1..], c[1..])
  }

  function Firsts<T, U>(ts: seq<Tuple2<T, U>>): (r: seq<T>)
    ensures |r| == |ts|
    ensures forall i :: 0 <= i < |r| ==> r[i] == ts[i].first
  {
    if |ts| == 0 then [] else [ts[0].first] + Firsts(ts[1..])
  }

  function Seconds<T, U>(ts: seq<Tuple2<T, U>>): (r: seq<U>)
    ensures |r| == |ts|
    ensures forall i :: 0 <= i < |r| ==> r[i] == ts[i].second
  {
    if |ts| == 0 then [] else [ts[0].second] + Seconds(ts[1..])
  }

  // ---------------------------------------------------------------- zipping, as the loops

  /** Zip: a slice of length min(|first|, |second|) filled index by index. */
  method Zip<T, U>(first: seq<T>, second: seq<U>) returns (result: seq<Tuple2<T, U>>)
    ensures result == ZipOf(first, second)
  {
    var minLen := |first|;
    if |second| < minLen {
      minLen := |second|;
    }
    result := [];
    var i := 0;
    while i < minLen
      invariant 0 <= i <= minLen == Min(|first|, |second|)
      invariant |result| == i
      invariant forall j :: 0 <= j < i ==> result[j] == Tuple2(first[j], second[j])
    {
      result := result + [Tuple2(first[i], second[i])];
      i := i + 1;
    }
    assert result == ZipOf(first, second);
  }

  /** Unzip: the component slices of a slice of pairs. */
  method Unzip<T, U>(tuples: seq<Tuple2<T, U>>) returns (first: seq<T>, second: seq<U>)
    ensures first == Firsts(tuples) && second == Seconds(tuples)
  {
    first, second := [], [];
    var i := 0;
    while i < |tuples|
      invariant 0 <= i <= |tuples|
      invariant |first| == |second| == i
      invariant forall j :: 0 <= j < i ==> first[j] == tuples[j].first && second[j] == tuples[j].second
    {
      first := first + [tuples[i].first];
      second := second + [tuples[i].second];
      i := i + 1;
    }
    assert first == Firsts(tuples);
    assert second == Seconds(tuples);
  }

  /** Zip3: a slice of length of the shortest input. */
  method Zip3<T, U, V>(first: seq<T>, second: seq<U>, third: seq<V>) returns (result: seq<Tuple3<T, U, V>>)
    ensures result == Zip3Of(first, second, third)
  {
    var minLen := |first|;
    if |second| < minLen {
      minLen := |second|;
    }
    if |third| < minLen {
      minLen := |third|;
    }
    result := [];
    var i := 0;
    while i < minLen
      invariant 0 <= i <= minLen == Min(Min(|first|, |second|), |third|)
      invariant |result| == i
      invariant forall j :: 0 <= j < i ==> result[j] == Tuple3(first[j], second[j], third[j])
    {
      result := result + [Tuple3(first[i], second[i], third[i])];
      i := i + 1;
    }
    assert result == Zip3Of(first, second, third);
  }

  /** Unzip3: the three component slices. */
  method Unzip3<T, U, V>(tuples: seq<Tuple3<T, U, V>>) returns (first: seq<T>, second: seq<U>, third: seq<V>)
    ensures |first| == |second| == |third| == |tuples|
    ensures forall i :: 0 <= i < |tuples| ==> tuples[i] == Tuple3(first[i], second[i], third[i])
  {
    first, second, third := [], [], [];
    var i := 0;
    while i < |tuples|
      invariant 0 <= i <= |tuples|
      invariant |first| == |second| == |third| == i
      invariant forall j :: 0 <= j < i ==> tuples[j] == Tuple3(first[j], second[j], third[j])
    {
      first := first + [tuples[i].first];
      second := second + [tuples[i].second];
      third := third + [tuples[i].third];
      i := i + 1;
    }
  }

  // ---------------------------------------------------------------- laws

  /** Swap is an involution. */
  lemma {:induction false} SwapInvolution<T, U>(t: Tuple2<T, U>)
    ensures Swap(Swap(t)) == t
  {
  }

  /** Unzip after Zip gives back both inputs cut to the shorter length. */
  lemma {:induction false} UnzipZip<T, U>(a: seq<T>, b: seq<U>)
    ensures Firsts(ZipOf(a, b)) == a[..Min(|a|, |b|)]
    ensures Seconds(ZipOf(a, b)) == b[..Min(|a|, |b|)]
  {
    var z, m := ZipOf(a, b), Min(|a|, |b|);
    forall i | 0 <= i < m
      ensures Firsts(z)[i] == a[i] && Seconds(z)[i] == b[i]
    {
      assert z[i] == Tuple2(a[i], b[i]);
    }
  }

  /** Zip after Unzip gives back the pairs. */
  lemma {:induction false} ZipUnzip<T, U>(ts: seq<Tuple2<T, U>>)
    ensures ZipOf(Firsts(ts), Seconds(ts)) == ts
  {
    if |ts| != 0 {
      ZipUnzip(ts[1..]);
      assert Firsts(ts)[1..] == Firsts(ts[1..]);
      assert Seconds(ts)[1..] == Seconds(ts[1..]);
    }
  }

  /** The three-way round trip: the components of Zip3 are the inputs cut to the shortest. */
  lemma {:induction false} Unzip3Zip3<T, U, V>(a: seq<T>, b: seq<U>, c: seq<V>, x: seq<T>, y: seq<U>, z: seq<V>, m: nat)
    requires m == Min(Min(|a|, |b|), |c|)
    requires |x| == |y| == |z| == m
    requires forall i :: 0 <= i < m ==> Zip3Of(a, b, c)[i] == Tuple3(x[i], y[i], z[i])
    ensures x == a[..m] && y == b[..m] && z == c[..m]
  {
    var r := Zip3Of(a, b, c);
    forall i | 0 <= i < m
      ensures x[i] == a[i] && y[i] == b[i] && z[i] == c[i]
    {
      assert r[i] == Tuple3(x[i], y[i], z[i]);
    }
    assert x == a[..m];
    assert y == b[..m];
    assert z == c[..m];
  }

  /** Equal with the built-in equalities is equality; Map with a componentwise function is
      MapBoth. */
  lemma {:induction false} EqualIsEquality<T, U>(t: Tuple2<T, U>, o: Tuple2<T, U>)
    ensures Equal(t, o, (x: T, y: T) => x == y, (x: U, y: U) => x == y) <==> t == o
  {
  }

  lemma {:induction false} MapOfComponents<T, U>(t: Tuple2<T, U>, f: T -> T, g: U -> U)
    ensures Map(t, (x: T, y: U) => (f(x), g(y))) == MapBoth(t, f, g)
    ensures MapFirst(MapSecond(t, g), f) == MapSecond(MapFirst(t, f), g)
  {
  }
}
