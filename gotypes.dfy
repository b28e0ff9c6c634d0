/** Small vocabulary shared by every package of the model: Go's `error` interface value,
    nil-able pointers, Go's 64-bit `int` range and powers of two. */
module GoTypes {

  /** A Go `error` value: either the nil interface or an error carrying its message. */
  datatype Error = NilError | Error(message: string)

  /** A Go pointer `*T`: nil, or the address of a value (the model keeps only the value). */
  datatype Pointer<T> = NilPointer | PointerTo(target: T)

  const MinInt64: int := -0x8000_0000_0000_0000
  const MaxInt64: int := 0x7FFF_FFFF_FFFF_FFFF

  /** The values of Go's `int` and `int64` on a 64-bit platform. */
  predicate IsInt64(n: int) { MinInt64 <= n <= MaxInt64 }

  /** Go's fixed-width unsigned integers. */
  type Byte = x: int | 0 <= x < 0x100
  type Uint32 = x: int | 0 <= x < 0x1_0000_0000
  type Uint64 = x: int | 0 <= x < 0x1_0000_0000_0000_0000

  /** An integer result reduced into Go's 64-bit `int` by two's-complement wrap-around. */
  function WrapInt64(v: int): (r: int)
    ensures IsInt64(r)
    ensures (r - v) % 0x1_0000_0000_0000_0000 == 0
    ensures IsInt64(v) ==> r == v
  {
    var u := v % 0x1_0000_0000_0000_0000;
    if u <= MaxInt64 then u else u - 0x1_0000_0000_0000_0000
  }

  /** 2^k. */
  function Pow2(k: nat): (r: nat)
    ensures r >= 1
  {
    if k == 0 then 1 else 2 * Pow2(k - 1)
  }

  /** n is one of 1, 2, 4, 8, ... */
  predicate IsPowerOfTwo(n: int)
    decreases if n < 1 then 0 else n
  {
    n == 1 || (n > 1 && n % 2 == 0 && IsPowerOfTwo(n / 2))
  }

  lemma {:induction false} Pow2IsPowerOfTwo(k: nat)
    ensures IsPowerOfTwo(Pow2(k))
  {
    if k > 0 {
      Pow2IsPowerOfTwo(k - 1);
      assert Pow2(k) / 2 == Pow2(k - 1);
    }
  }

  /** The exponent of a power of two. */
  function Log2(n: int): (k: nat)
    requires IsPowerOfTwo(n)
    ensures Pow2(k) == n
    decreases if n < 1 then 0 else n
  {
    if n == 1 then 0 else 1 + Log2(n / 2)
  }

  /** Doubling and halving stay within the powers of two. */
  lemma {:induction false} DoublePowerOfTwo(n: int)
    requires IsPowerOfTwo(n)
    ensures IsPowerOfTwo(2 * n)
  {
    assert (2 * n) / 2 == n;
  }

  /** Powers of two are at least a factor of two apart. */
  lemma {:induction false} PowerOfTwoGap(n: int, m: int)
    requires IsPowerOfTwo(n) && IsPowerOfTwo(m) && n > m
    ensures n >= 2 * m
    decreases m
  {
    if m > 1 {
      PowerOfTwoGap(n / 2, m / 2);
    }
  }

  lemma {:induction false} HalvePowerOfTwo(n: int)
    requires IsPowerOfTwo(n) && n > 1
    ensures IsPowerOfTwo(n / 2) && n / 2 * 2 == n
  {
  }

  /** No element of the slice occurs twice. */
  ghost predicate Distinct<T>(s: seq<T>) {
    forall i, j {:trigger Differ(s, i, j)} :: 0 <= i < j < |s| ==> Differ(s, i, j)
  }

  /** Positions i and j of the slice hold different elements. */
  ghost predicate Differ<T>(s: seq<T>, i: int, j: int)
    requires 0 <= i < |s| && 0 <= j < |s|
  {
    s[i] != s[j]
  }

  /** Distinct, spelled out pair by pair. */
  lemma {:induction false} DistinctPairs<T>(s: seq<T>)
    ensures Distinct(s) <==> forall i, j :: 0 <= i < j < |s| ==> s[i] != s[j]
  {
    if Distinct(s) {
      forall i, j | 0 <= i < j < |s| ensures s[i] != s[j] {
        assert Differ(s, i, j);
      }
    }
  }

  /** Two different positions of a slice without repeats hold different elements. */
  lemma {:induction false} DistinctAt<T>(s: seq<T>, i: int, j: int)
    requires Distinct(s) && 0 <= i < |s| && 0 <= j < |s| && i != j
    ensures s[i] != s[j]
  {
    if i < j {
      assert Differ(s, i, j);
    } else {
      assert Differ(s, j, i);
    }
  }

  /** A slice of a slice without repeats has none either. */
  lemma {:induction false} DistinctSlice<T>(s: seq<T>, lo: int, hi: int)
    requires Distinct(s) && 0 <= lo <= hi <= |s|
    ensures Distinct(s[lo..hi])
  {
    var t := s[lo..hi];
    forall i, j | 0 <= i < j < |t| ensures Differ(t, i, j) {
      DistinctAt(s, lo + i, lo + j);
    }
  }

  /** The tail of a slice without repeats has none and does not hold the head. */
  lemma {:induction false} DistinctTail<T>(s: seq<T>)
    requires Distinct(s) && |s| > 0
    ensures Distinct(s[1..]) && s[0] !in s[1..]
  {
    DistinctSlice(s, 1, |s|);
    assert s[1..|s|] == s[1..];
    forall j | 0 <= j < |s| - 1 ensures s[1..][j] != s[0] {
      DistinctAt(s, 0, j + 1);
    }
  }

  /** Putting a new element in front of a slice without repeats keeps it without repeats. */
  lemma {:induction false} DistinctCons<T>(x: T, s: seq<T>)
    requires Distinct(s) && x !in s
    ensures Distinct([x] + s)
  {
    var t := [x] + s;
    forall i, j | 0 <= i < j < |t| ensures Differ(t, i, j) {
      if i > 0 {
        DistinctAt(s, i - 1, j - 1);
      }
    }
  }

  /** Appending a new element to a slice without repeats keeps it without repeats. */
  lemma {:induction false} DistinctAppend<T>(s: seq<T>, x: T)
    requires Distinct(s) && x !in s
    ensures Distinct(s + [x])
  {
    var t := s + [x];
    forall i, j | 0 <= i < j < |t| ensures Differ(t, i, j) {
      if j < |s| {
        DistinctAt(s, i, j);
      }
    }
  }

  /** The elements of a slice as a set. */
  function Elements<T>(s: seq<T>): (r: set<T>)
    ensures forall i :: 0 <= i < |s| ==> s[i] in r
  {
    set x | x in s
  }

  /** A slice has at least as many entries as distinct elements, and exactly as many when
      no element repeats. */
  lemma {:induction false} ElementsSize<T>(s: seq<T>)
    ensures |Elements(s)| <= |s|
    ensures Distinct(s) ==> |Elements(s)| == |s|
  {
    if |s| != 0 {
      ElementsSize(s[1..]);
      assert Elements(s) == {s[0]} + Elements(s[1..]);
      if Distinct(s) {
        DistinctSlice(s, 1, |s|);
        assert s[1..|s|] == s[1..];
        forall j | 0 <= j < |s| - 1 ensures s[1..][j] != s[0] {
          DistinctAt(s, 0, j + 1);
        }
        assert s[0] !in Elements(s[1..]);
      }
    }
  }

  /** Two finite sets with the same size, one inside the other, are equal. */
  lemma {:induction false} SubsetSameSize<T>(a: set<T>, b: set<T>)
    requires a <= b && |a| == |b|
    ensures a == b
  {
    if a != b {
      var x :| x in b && x !in a;
      assert a <= b - {x};
      SubsetSize(a, b - {x});
    }
  }

  lemma {:induction false} SubsetSize<T>(a: set<T>, b: set<T>)
    requires a <= b
    ensures |a| <= |b|
    decreases b
  {
    if a != {} {
      var x :| x in a;
      SubsetSize(a - {x}, b - {x});
    }
  }

  /** Appending one element adds it to the elements, and keeps the slice free of repeats
      when the element is new. */
  lemma {:induction false} ElementsAppend<T>(s: seq<T>, x: T)
    ensures Elements(s + [x]) == Elements(s) + {x}
    ensures Distinct(s) && x !in Elements(s) ==> Distinct(s + [x])
  {
    assert forall y :: y in s + [x] <==> y in s || y == x;
    if Distinct(s) && x !in Elements(s) {
      DistinctAppend(s, x);
    }
  }

  /** Extending a prefix by one index adds that element to its elements. */
  lemma {:induction false} PrefixElements<T>(s: seq<T>, i: int)
    requires 0 <= i < |s|
    ensures Elements(s[..i + 1]) == Elements(s[..i]) + {s[i]}
  {
    assert s[..i + 1] == s[..i] + [s[i]];
    ElementsAppend(s[..i], s[i]);
  }

  /** Dropping one element keeps a slice's elements distinct. */
  lemma {:induction false} DistinctRemove<T>(s: seq<T>, i: int)
    requires Distinct(s) && 0 <= i < |s|
    ensures Distinct(s[..i] + s[i + 1..])
  {
    var r := s[..i] + s[i + 1..];
    forall a, b | 0 <= a < b < |r| ensures Differ(r, a, b) {
      var a', b' := if a < i then a else a + 1, if b < i then b else b + 1;
      assert r[a] == s[a'] && r[b] == s[b'];
      DistinctAt(s, a', b');
    }
  }

  /** Maps with the same keys and the same value at each key are equal. */
  lemma MapEqual<K, V>(a: map<K, V>, b: map<K, V>)
    requires forall k :: k in a <==> k in b
    requires forall k :: k in a ==> a[k] == b[k]
    ensures a == b
  {
  }
}
