/** Package cmap: a map split into a power-of-two number of shards, each an ordinary Go map
    behind its own lock.  A key lives in the shard its 32-bit hash selects through the shard
    mask.  The model drops the locks and runs every operation as one atomic step; what is
    left is an array of finite maps with a fixed routing function. */
module CMap {
  import opened GoTypes
  import opened Bits
  import opened Optional
  import opened Hash

  /** SHARD_COUNT, the default number of shards. */
  const ShardCount: int := 32

  // ---------------------------------------------------------------- nextPowerOf2

  /** The smearing steps nextPowerOf2 performs as written: by 1, 2, 4, 8 and 16 bits. */
  function Smear32(x: nat): nat
  {
    Step(Step(Step(Step(Step(x, 1), 2), 4), 8), 16)
  }

  /** nextPowerOf2 as written.  Go's `>>` on a signed int is arithmetic, but n - 1 is never
      negative here, so it agrees with the logical shift on naturals. */
  function NextPowerOf2AsWritten(n: int): (r: int)
    requires IsInt64(n)
    ensures IsInt64(r)
    ensures n <= 0 ==> r == 1
  {
    if n <= 0 then 1 else WrapInt64(Smear32(n - 1) + 1)
  }

  /** The steps by 1, 2, 4, ... fill the top bits of x: after the step by 2^(k-1) the top
      min(2^k, L) bits of the L-bit value are ones. */
  lemma {:induction false} Smear32Fills(x: nat)
    ensures TopOnes(Smear32(x), BitLength(x), Min(32, BitLength(x)))
  {
    var L := BitLength(x);
    if x == 0 {
      StepZero(1);
      StepZero(2);
      StepZero(4);
      StepZero(8);
      StepZero(16);
    } else {
      TopBit(x, L);
      var y1 := Step(x, 1);
      StepDoubles(x, L, 1);
      var y2 := Step(y1, 2);
      StepDoubles(y1, L, 2);
      var y3 := Step(y2, 4);
      StepDoubles(y2, L, 4);
      var y4 := Step(y3, 8);
      StepDoubles(y3, L, 8);
      StepDoubles(y4, L, 16);
    }
  }

  /** L ones plus one is the power of two just above x, when x has L bits. */
  lemma {:induction false} NextAbove(x: nat)
    ensures Ones(BitLength(x)) + 1 == Pow2(BitLength(x))
    ensures x + 1 <= Pow2(BitLength(x)) < 2 * (x + 1)
  {
    OnesPow2(BitLength(x));
  }

  /** The bit length of a value below 2^63 is at most 63, and at most 62 below 2^62. */
  lemma {:induction false} BitLengthBelow(x: nat, k: nat)
    requires x < Pow2(k)
    ensures BitLength(x) <= k
  {
    if BitLength(x) > k {
      Pow2Monotone(k, BitLength(x) - 1);
    }
  }

  /** A power of two at least n and below 2n is the least power of two at least n. */
  lemma {:induction false} LeastPowerOfTwo(n: int, r: int)
    requires IsPowerOfTwo(r) && n <= r < 2 * n
    ensures forall p :: IsPowerOfTwo(p) && n <= p ==> r <= p
  {
    forall p | IsPowerOfTwo(p) && n <= p ensures r <= p {
      if p < r {
        PowerOfTwoGap(r, p);
      }
    }
  }

  /** The smearing steps with the missing step by 32 bits added. */
  function Smear64(x: nat): nat
  {
    Step(Smear32(x), 32)
  }

  /** Six steps fill every bit below the top bit of a value below 2^63, which makes one more
      than the result the power of two just above x. */
  lemma {:induction false} Smear64Fills(x: nat)
    requires x < Pow2(63)
    ensures Smear64(x) + 1 == Pow2(BitLength(x))
  {
    var L := BitLength(x);
    BitLengthBelow(x, 63);
    Smear32Fills(x);
    StepDoubles(Smear32(x), L, 32);
    TopAll(Smear64(x), L);
    NextAbove(x);
  }

  /** For 1 <= n <= 2^62 the power of two just above n - 1 is the least power of two at
      least n, and it fits in an int. */
  lemma {:induction false} PowerAbove(n: int)
    requires 1 <= n <= 0x4000_0000_0000_0000
    ensures var p := Pow2(BitLength(n - 1));
      IsPowerOfTwo(p) && n <= p < 2 * n && p <= MaxInt64
      && forall q :: IsPowerOfTwo(q) && n <= q ==> p <= q
  {
    var L := BitLength(n - 1);
    Pow2Values();
    BitLengthBelow(n - 1, 62);
    Pow2Monotone(L, 62);
    NextAbove(n - 1);
    Pow2IsPowerOfTwo(L);
    LeastPowerOfTwo(n, Pow2(L));
  }

  /** Above 2^62 that power of two is 2^63, one past the largest int. */
  lemma {:induction false} PowerAboveTop(n: int)
    requires 0x4000_0000_0000_0000 < n <= MaxInt64
    ensures Pow2(BitLength(n - 1)) == 0x8000_0000_0000_0000
  {
    Pow2Values();
    BitLengthUnique(n - 1, 63);
  }

  /** The `n |= n >> s` lines of nextPowerOf2, with s = 1, 2, 4, 8, 16 and 32. */
  method Smear(n: nat) returns (x: nat)
    ensures x == Smear64(n)
  {
    x := n;
    x := Step(x, 1);
    x := Step(x, 2);
    x := Step(x, 4);
    x := Step(x, 8);
    x := Step(x, 16);
    x := Step(x, 32);
  }

  /** The least power of two at least n is at most any power of two at least n. */
  lemma {:induction false} LeastAtMost(n: int, r: int, k: nat)
    requires forall p :: IsPowerOfTwo(p) && n <= p ==> r <= p
    requires n <= Pow2(k)
    ensures r <= Pow2(k)
  {
    Pow2IsPowerOfTwo(k);
  }

  /** nextPowerOf2 with the smearing completed by a step of 32 bits, so that it covers all of
      Go's 64-bit int.  Each assignment is one `n |= n >> s` line; the final n++ wraps. */
  method NextPowerOf2(n: int) returns (r: int)
    requires IsInt64(n)
    ensures n <= 0 ==> r == 1
    ensures 1 <= n <= 0x4000_0000_0000_0000 ==>
      IsPowerOfTwo(r) && n <= r < 2 * n && forall p :: IsPowerOfTwo(p) && n <= p ==> r <= p
    ensures n > 0x4000_0000_0000_0000 ==> r == MinInt64
  {
    if n <= 0 {
      return 1;
    }
    var x := Smear(n - 1);
    Pow2Values();
    Smear64Fills(n - 1);
    if n <= 0x4000_0000_0000_0000 {
      PowerAbove(n);
      r := WrapInt64(x + 1);
    } else {
      PowerAboveTop(n);
      WrapTop();
      r := WrapInt64(x + 1);
    }
  }

  /** n++ on the largest power of two below 2^64 overflows to the least int. */
  lemma WrapTop()
    ensures WrapInt64(0x8000_0000_0000_0000) == MinInt64
  {
  }

  /** For n up to 2^32 the five steps as written fill all the bits n - 1 has. */
  lemma {:induction false} AsWrittenValue(n: int)
    requires 1 <= n <= 0x1_0000_0000
    ensures NextPowerOf2AsWritten(n) == Pow2(BitLength(n - 1))
  {
    var L := BitLength(n - 1);
    Pow2At32();
    BitLengthBelow(n - 1, 32);
    var F := Smear32(n - 1);
    Smear32Fills(n - 1);
    assert Min(32, L) == L;
    TopAll(F, L);
    NextAbove(n - 1);
    Pow2Monotone(L, 32);
    assert F + 1 == Pow2(L) <= MaxInt64;
    AsWrittenNoWrap(n, F);
  }

  /** Without wrap-around the code as written returns the smeared value plus one. */
  lemma {:induction false} AsWrittenNoWrap(n: int, F: nat)
    requires 1 <= n <= MaxInt64 && F == Smear32(n - 1) && F + 1 <= MaxInt64
    ensures NextPowerOf2AsWritten(n) == F + 1
  {
  }

  /** So for n up to 2^32 the code as written is right. */
  lemma {:induction false} AsWrittenBelow32(n: int)
    requires 1 <= n <= 0x1_0000_0000
    ensures var r := NextPowerOf2AsWritten(n);
      IsPowerOfTwo(r) && n <= r < 2 * n && forall p :: IsPowerOfTwo(p) && n <= p ==> r <= p
  {
    AsWrittenValue(n);
    PowerAbove(n);
  }

  /** Up to 2^32 the corrected rounding and the code as written agree: a least power of two
      at least n is what nextPowerOf2 as written returns. */
  lemma {:induction false} CorrectedAgreesBelow32(n: int, r: int)
    requires 1 <= n <= 0x1_0000_0000
    requires IsPowerOfTwo(r) && n <= r
    requires forall p :: IsPowerOfTwo(p) && n <= p ==> r <= p
    ensures r == NextPowerOf2AsWritten(n)
  {
    AsWrittenBelow32(n);
    var written := NextPowerOf2AsWritten(n);
    assert r <= written && written <= r;
  }

  /** The five steps turn 2^32 into 2^33 - 2: the top thirty-two of its thirty-three bits are
      filled and bit 0 stays clear. */
  lemma {:induction false} Smear32OfPow32(x: nat)
    requires x == 0x1_0000_0000
    ensures Smear32(x) == 0x1_FFFF_FFFE
  {
    Pow2Values();
    BitLengthUnique(x, 33);
    Smear32Fills(x);
    var y1 := Step(x, 1);
    var y2 := Step(y1, 2);
    var y3 := Step(y2, 4);
    var y4 := Step(y3, 8);
    var F := Step(y4, 16);
    LowPow2(32);
    StepLowZero(x, 1, 31);
    StepLowZero(y1, 2, 29);
    StepLowZero(y2, 4, 25);
    StepLowZero(y3, 8, 17);
    StepLowZero(y4, 16, 1);
    Split(F, 1);
    OnesPow2(32);
  }

  /** Above 2^32 the code as written leaves low bits unfilled: for n = 2^32 + 1 the result is
      2^33 - 1, which is odd. */
  lemma {:induction false} AsWrittenCounterexample(n: int)
    requires n == 0x1_0000_0001
    ensures NextPowerOf2AsWritten(n) == 0x1_FFFF_FFFF
    ensures !IsPowerOfTwo(NextPowerOf2AsWritten(n))
  {
    Smear32OfPow32(n - 1);
    assert WrapInt64(0x1_FFFF_FFFF) == 0x1_FFFF_FFFF;
  }

  // ---------------------------------------------------------------- options

  /** The Option functions the package provides: each overrides one field of the map. */
  datatype MapOption<!K> = WithHash(f: Hasher<K>) | WithSeed(s: Seed)

  /** The two fields an Option can set. */
  datatype Config<!K> = Config(hashFunc: Hasher<K>, seed: Seed)

  /** `m = opt(m)` for one option. */
  function ApplyOption<K>(c: Config<K>, opt: MapOption<K>): Config<K>
  {
    match opt
    case WithHash(f) => c.(hashFunc := f)
    case WithSeed(s) => c.(seed := s)
  }

  /** The options applied in order. */
  function ApplyOptions<K>(c: Config<K>, opts: seq<MapOption<K>>): Config<K>
  {
    if opts == [] then c else ApplyOption(ApplyOptions(c, opts[..|opts| - 1]), opts[|opts| - 1])
  }

  /** The hash function is the one named by the last WithHash option, and the default when
      there is none; options setting the seed do not touch it. */
  lemma {:induction false} LastHashWins<K>(c: Config<K>, opts: seq<MapOption<K>>, j: int)
    requires 0 <= j < |opts| && opts[j].WithHash?
    requires forall t :: j < t < |opts| ==> !opts[t].WithHash?
    ensures ApplyOptions(c, opts).hashFunc == opts[j].f
  {
    var last := |opts| - 1;
    if j < last {
      LastHashWins(c, opts[..last], j);
    }
  }

  lemma {:induction false} DefaultHash<K>(c: Config<K>, opts: seq<MapOption<K>>)
    requires forall t :: 0 <= t < |opts| ==> !opts[t].WithHash?
    ensures ApplyOptions(c, opts).hashFunc == c.hashFunc
  {
    if opts != [] {
      DefaultHash(c, opts[..|opts| - 1]);
    }
  }

  /** Likewise the seed is the last WithSeed option's, or the default. */
  lemma {:induction false} LastSeedWins<K>(c: Config<K>, opts: seq<MapOption<K>>, j: int)
    requires 0 <= j < |opts| && opts[j].WithSeed?
    requires forall t :: j < t < |opts| ==> !opts[t].WithSeed?
    ensures ApplyOptions(c, opts).seed == opts[j].s
  {
    var last := |opts| - 1;
    if j < last {
      LastSeedWins(c, opts[..last], j);
    }
  }

  lemma {:induction false} DefaultSeed<K>(c: Config<K>, opts: seq<MapOption<K>>)
    requires forall t :: 0 <= t < |opts| ==> !opts[t].WithSeed?
    ensures ApplyOptions(c, opts).seed == c.seed
  {
    if opts != [] {
      DefaultSeed(c, opts[..|opts| - 1]);
    }
  }

  // ---------------------------------------------------------------- shards

  /** The Item struct: one key with its value. */
  datatype Item<K, V> = Item(key: K, value: V)

  /** The keys of a sequence of items, in order. */
  function KeysOf<K, V>(s: seq<Item<K, V>>): (keys: seq<K>)
    ensures |keys| == |s|
    ensures forall a :: 0 <= a < |s| ==> keys[a] == s[a].key
  {
    if s == [] then [] else KeysOf(s[..|s| - 1]) + [s[|s| - 1].key]
  }

  /** The values of a sequence of items, in order. */
  function ValuesOf<K, V>(s: seq<Item<K, V>>): (values: seq<V>)
    ensures |values| == |s|
    ensures forall a :: 0 <= a < |s| ==> values[a] == s[a].value
  {
    if s == [] then [] else ValuesOf(s[..|s| - 1]) + [s[|s| - 1].value]
  }

  /** The map the shard tables hold together: their union. */
  ghost function Merge<K, V>(s: seq<map<K, V>>): map<K, V>
  {
    if |s| == 0 then map[] else Merge(s[..|s| - 1]) + s[|s| - 1]
  }

  /** Every key in table i routes to i. */
  ghost predicate Routed<K, V>(s: seq<map<K, V>>, route: K -> nat)
  {
    forall i, k :: 0 <= i < |s| && k in s[i] ==> route(k) == i
  }

  /** The number of entries of all tables together. */
  function SumSizes<K, V>(s: seq<map<K, V>>): nat
  {
    if |s| == 0 then 0 else SumSizes(s[..|s| - 1]) + |s[|s| - 1]|
  }

  /** With keys routed to their tables, a key is in the union exactly when its own table
      holds it, with that table's value. */
  lemma {:induction false} MergeKey<K, V>(s: seq<map<K, V>>, route: K -> nat, k: K)
    requires Routed(s, route)
    ensures k in Merge(s) <==> route(k) < |s| && k in s[route(k)]
    ensures k in Merge(s) ==> Merge(s)[k] == s[route(k)][k]
  {
    if |s| > 0 {
      var t := s[..|s| - 1];
      assert Routed(t, route) by {
        forall i, k' | 0 <= i < |t| && k' in t[i] ensures route(k') == i {
          assert t[i] == s[i];
        }
      }
      MergeKey(t, route, k);
      if route(k) < |t| {
        assert t[route(k)] == s[route(k)];
      }
    }
  }

  /** Storing a key in its own table stores it in the union. */
  lemma {:induction false} MergeSet<K, V>(s: seq<map<K, V>>, route: K -> nat, key: K, value: V)
    requires Routed(s, route) && route(key) < |s|
    ensures var s' := s[route(key) := s[route(key)][key := value]];
      Routed(s', route) && Merge(s') == Merge(s)[key := value]
  {
    var i := route(key);
    var s' := s[i := s[i][key := value]];
    assert Routed(s', route) by {
      forall j, k | 0 <= j < |s'| && k in s'[j] ensures route(k) == j {
        if j != i || k != key {
          assert k in s[j];
        }
      }
    }
    var m, m' := Merge(s), Merge(s');
    var u := m[key := value];
    forall k ensures k in m' <==> k in u {
      MergeKey(s, route, k);
      MergeKey(s', route, k);
    }
    forall k | k in m' ensures k in u && m'[k] == u[k] {
      MergeKey(s, route, k);
      MergeKey(s', route, k);
      if k != key && route(k) == i {
        assert s'[i][k] == s[i][k];
      }
    }
    MapEqual(m', u);
  }

  /** Deleting a key from its own table deletes it from the union. */
  lemma {:induction false} MergeRemove<K, V>(s: seq<map<K, V>>, route: K -> nat, key: K)
    requires Routed(s, route) && route(key) < |s|
    ensures var s' := s[route(key) := s[route(key)] - {key}];
      Routed(s', route) && Merge(s') == Merge(s) - {key}
  {
    var i := route(key);
    var s' := s[i := s[i] - {key}];
    assert Routed(s', route) by {
      forall j, k | 0 <= j < |s'| && k in s'[j] ensures route(k) == j {
        assert k in s[j];
      }
    }
    var m, m' := Merge(s), Merge(s');
    var u := m - {key};
    forall k ensures k in m' <==> k in u {
      MergeKey(s, route, k);
      MergeKey(s', route, k);
    }
    forall k | k in m' ensures k in u && m'[k] == u[k] {
      MergeKey(s, route, k);
      MergeKey(s', route, k);
      if route(k) == i {
        assert s'[i][k] == s[i][k];
      }
    }
    MapEqual(m', u);
  }

  /** Empty tables hold nothing. */
  lemma {:induction false} MergeEmpty<K, V>(s: seq<map<K, V>>)
    requires forall i :: 0 <= i < |s| ==> s[i] == map[]
    ensures Merge(s) == map[]
  {
    if |s| > 0 {
      MergeEmpty(s[..|s| - 1]);
    }
  }

  /** Empty tables route every key they hold. */
  lemma EmptyRouted<K, V>(s: seq<map<K, V>>, route: K -> nat)
    requires forall i :: 0 <= i < |s| ==> s[i] == map[]
    ensures Routed(s, route)
  {
  }

  /** The tables have no key in common, so the union has as many entries as they have
      together: the sum Len computes is the number of keys. */
  lemma {:induction false} MergeSize<K, V>(s: seq<map<K, V>>, route: K -> nat)
    requires Routed(s, route)
    ensures |Merge(s)| == SumSizes(s)
  {
    if |s| > 0 {
      var t, last := s[..|s| - 1], s[|s| - 1];
      assert Routed(t, route) by {
        forall i, k | 0 <= i < |t| && k in t[i] ensures route(k) == i {
          assert t[i] == s[i];
        }
      }
      MergeSize(t, route);
      var a := Merge(t);
      forall k | k in a ensures k !in last {
        MergeKey(t, route, k);
      }
      assert a.Keys * last.Keys == {};
      assert (a + last).Keys == a.Keys + last.Keys;
    }
  }

  /** The mask keeps the low bits of the hash that index the shards: the shard index is below
      the shard count, and below 2^32 since the mask is a uint32.  Up to 2^32 shards the mask
      is the shard count minus one. */
  lemma {:induction false} MaskedIndex(h: Uint32, log: nat)
    ensures Bits.And(h, Low(Pow2(log) - 1, 32)) < Pow2(log)
    ensures log <= 32 ==> Low(Pow2(log) - 1, 32) == Pow2(log) - 1
  {
    Pow2Values();
    OnesPow2(log);
    if log <= 32 {
      Pow2Monotone(log, 32);
      LowSmall(Ones(log), 32);
      AndOnes(h, log);
      Split(h, log);
    } else {
      LowOnes(log, 32);
      AndOnes(h, 32);
      LowSmall(h, 32);
      Pow2Monotone(32, log);
    }
  }

  // ---------------------------------------------------------------- the map

  /** ConcurrentMap.  The shard pointers never change after construction, so `shards` is a
      constant array whose elements are the shards' `items` tables; the mask, hash function
      and seed are constants too. */
  class ConcurrentMap<K(==), V> {
    const shards: array<map<K, V>>
    const shardMask: Uint32
    const hashFunc: Hasher<K>
    const seed: Seed
    /** The zero value of V, which a Go map lookup yields for a missing key. */
    const zeroValue: V

    /** getShard: the index `hashFunc(seed, key) & shardMask`. */
    function ShardOf(key: K): nat
    {
      Bits.And(hashFunc(seed, key), shardMask)
    }

    /** The shard count is a power of two that WithShards can allocate, and the mask is the
        count minus one cut to 32 bits. */
    ghost predicate Shape()
    {
      IsPowerOfTwo(shards.Length) && shards.Length <= 0x4000_0000_0000_0000
      && shardMask == Low(shards.Length - 1, 32)
    }

    /** Every key sits in the shard it routes to. */
    ghost predicate Valid()
      reads this, shards
    {
      Shape() && Routed(shards[..], ShardOf)
    }

    /** The key/value pairs of the whole map. */
    ghost function Contents(): map<K, V>
      reads this, shards
    {
      Merge(shards[..])
    }

    /** Every key routes to an existing shard. */
    lemma ShardInRange(key: K)
      requires Shape()
      ensures ShardOf(key) < shards.Length
    {
      MaskedIndex(hashFunc(seed, key), Log2(shards.Length));
    }

    /** A key of the map is in its shard's table, with the same value. */
    lemma Lookup(key: K)
      requires Valid()
      ensures ShardOf(key) < shards.Length
      ensures key in Contents() <==> key in shards[ShardOf(key)]
      ensures key in Contents() ==> Contents()[key] == shards[ShardOf(key)][key]
    {
      ShardInRange(key);
      MergeKey(shards[..], ShardOf, key);
    }

    /** WithShards: the count is normalised (32 for a count <= 0, otherwise the next power of
        two, by the corrected rounding of NormalisedCount), every shard starts empty, and the options are applied in order to the default
        hash function and seed.  GetHashFunc[K]() and maphash.MakeSeed() are not modelled
        here: their results come in as defaultHash and madeSeed. */
    constructor WithShards(shardCount: int, opts: seq<MapOption<K>>, defaultHash: Hasher<K>, madeSeed: Seed, zero: V)
      requires IsInt64(shardCount) && shardCount <= 0x4000_0000_0000_0000
      ensures Valid() && Contents() == map[] && fresh(shards)
      ensures forall i :: 0 <= i < shards.Length ==> shards[i] == map[]
      ensures shardCount <= 0 ==> shards.Length == ShardCount
      ensures shardCount > 0 ==> shardCount <= shards.Length < 2 * shardCount
      ensures shardCount > 0 ==> forall p :: IsPowerOfTwo(p) && shardCount <= p ==> shards.Length <= p
      ensures Config(hashFunc, seed) == ApplyOptions(Config(defaultHash, madeSeed), opts)
      ensures zeroValue == zero
    {
      var count := ConcurrentMap<K, V>.NormalisedCount(shardCount);
      var a := ConcurrentMap<K, V>.EmptyShards(count);
      shards := a;
      Low32(count - 1);
      shardMask := Low(count - 1, 32);
      var c := ConcurrentMap<K, V>.ApplyAll(Config(defaultHash, madeSeed), opts);
      hashFunc := c.hashFunc;
      seed := c.seed;
      zeroValue := zero;
      new;
      assert forall i :: 0 <= i < shards.Length ==> shards[..][i] == map[];
      MergeEmpty(shards[..]);
      EmptyRouted(shards[..], ShardOf);
    }

    /** The first lines of WithShards: a count <= 0 becomes SHARD_COUNT, and the count is
        rounded up to a power of two.  The rounding is the corrected NextPowerOf2; up to 2^32
        it agrees with nextPowerOf2 as written (CorrectedAgreesBelow32). */
    static method NormalisedCount(shardCount: int) returns (count: int)
      requires IsInt64(shardCount) && shardCount <= 0x4000_0000_0000_0000
      ensures IsPowerOfTwo(count) && count <= 0x4000_0000_0000_0000
      ensures shardCount <= 0 ==> count == ShardCount
      ensures shardCount > 0 ==> shardCount <= count < 2 * shardCount
      ensures shardCount > 0 ==> forall p :: IsPowerOfTwo(p) && shardCount <= p ==> count <= p
    {
      count := shardCount;
      if count <= 0 {
        count := ShardCount;
      }
      ghost var n := count;
      count := NextPowerOf2(count);
      Pow2Values();
      LeastAtMost(n, count, 62);
      if n == 32 {
        LeastAtMost(n, count, 5);
      }
    }

    /** The loop of WithShards that gives each shard an empty table. */
    static method EmptyShards(count: nat) returns (a: array<map<K, V>>)
      ensures fresh(a) && a.Length == count
      ensures forall j :: 0 <= j < count ==> a[j] == map[]
    {
      a := new map<K, V>[count];
      for i := 0 to count
        invariant forall j :: 0 <= j < i ==> a[j] == map[]
      {
        a[i] := map[];
      }
    }

    /** The loop of WithShards that applies the options, `m = opt(m)`, in order. */
    static method ApplyAll(c0: Config<K>, opts: seq<MapOption<K>>) returns (c: Config<K>)
      ensures c == ApplyOptions(c0, opts)
    {
      c := c0;
      for j := 0 to |opts|
        invariant c == ApplyOptions(c0, opts[..j])
      {
        assert opts[..j + 1][..j] == opts[..j];
        c := ApplyOption(c, opts[j]);
      }
      assert opts[..|opts|] == opts;
    }

    /** New: WithShards with SHARD_COUNT shards. */
    static method New(opts: seq<MapOption<K>>, defaultHash: Hasher<K>, madeSeed: Seed, zero: V) returns (m: ConcurrentMap<K, V>)
      ensures fresh(m) && fresh(m.shards) && m.Valid() && m.Contents() == map[]
      ensures m.shards.Length == ShardCount && m.shardMask == ShardCount - 1
      ensures Config(m.hashFunc, m.seed) == ApplyOptions(Config(defaultHash, madeSeed), opts)
      ensures m.zeroValue == zero
    {
      m := new ConcurrentMap.WithShards(0, opts, defaultHash, madeSeed, zero);
      Pow2Values();
      LowSmall(31, 32);
    }

    /** Set: stores the pair in the key's shard. */
    method Set(key: K, value: V)
      requires Valid()
      modifies shards
      ensures Valid() && Contents() == old(Contents())[key := value]
    {
      ShardInRange(key);
      var i := ShardOf(key);
      MergeSet(shards[..], ShardOf, key, value);
      shards[i] := shards[i][key := value];
      assert shards[..] == old(shards[..])[i := old(shards[i])[key := value]];
    }

    /** Get: the lookup in the key's shard, as FromPair(val, ok). */
    method Get(key: K) returns (o: Option<V>)
      requires Valid()
      ensures IsPresent(o) <==> key in Contents()
      ensures IsPresent(o) ==> o.value == Contents()[key]
      ensures !IsPresent(o) ==> o == None
    {
      Lookup(key);
      var i := ShardOf(key);
      var ok := key in shards[i];
      var val := if ok then shards[i][key] else zeroValue;
      o := FromPair(val, ok);
    }

    /** Delete: removes the key from its shard. */
    method Delete(key: K)
      requires Valid()
      modifies shards
      ensures Valid() && Contents() == old(Contents()) - {key}
    {
      ShardInRange(key);
      var i := ShardOf(key);
      MergeRemove(shards[..], ShardOf, key);
      shards[i] := shards[i] - {key};
      assert shards[..] == old(shards[..])[i := old(shards[i]) - {key}];
    }

    /** Has: whether Get finds a value. */
    method Has(key: K) returns (b: bool)
      requires Valid()
      ensures b <==> key in Contents()
    {
      var o := Get(key);
      b := IsPresent(o);
    }

    /** GetOrSet: the stored value and true when the key is present, which changes nothing;
        otherwise stores value and returns it with false. */
    method GetOrSet(key: K, value: V) returns (actual: V, loaded: bool)
      requires Valid()
      modifies shards
      ensures Valid()
      ensures loaded <==> key in old(Contents())
      ensures loaded ==> actual == old(Contents())[key] && Contents() == old(Contents())
      ensures !loaded ==> actual == value && Contents() == old(Contents())[key := value]
    {
      Lookup(key);
      var i := ShardOf(key);
      if key in shards[i] {
        return shards[i][key], true;
      }
      MergeSet(shards[..], ShardOf, key, value);
      shards[i] := shards[i][key := value];
      assert shards[..] == old(shards[..])[i := old(shards[i])[key := value]];
      return value, false;
    }

    /** SetIfAbsent: stores the pair only when the key is absent, and says whether it did. */
    method SetIfAbsent(key: K, value: V) returns (stored: bool)
      requires Valid()
      modifies shards
      ensures Valid()
      ensures stored <==> key !in old(Contents())
      ensures stored ==> Contents() == old(Contents())[key := value]
      ensures !stored ==> Contents() == old(Contents())
    {
      Lookup(key);
      var i := ShardOf(key);
      if key in shards[i] {
        return false;
      }
      MergeSet(shards[..], ShardOf, key, value);
      shards[i] := shards[i][key := value];
      assert shards[..] == old(shards[..])[i := old(shards[i])[key := value]];
      return true;
    }

    /** Remove: takes the key out and returns its old value as an Option. */
    method Remove(key: K) returns (o: Option<V>)
      requires Valid()
      modifies shards
      ensures Valid() && Contents() == old(Contents()) - {key}
      ensures IsPresent(o) <==> key in old(Contents())
      ensures IsPresent(o) ==> o.value == old(Contents())[key]
      ensures !IsPresent(o) ==> o == None
    {
      Lookup(key);
      var i := ShardOf(key);
      var ok := key in shards[i];
      var val := if ok then shards[i][key] else zeroValue;
      MergeRemove(shards[..], ShardOf, key);
      if ok {
        shards[i] := shards[i] - {key};
        assert shards[..] == old(shards[..])[i := old(shards[i]) - {key}];
      } else {
        assert old(shards[i]) - {key} == old(shards[i]);
        assert shards[..] == old(shards[..])[i := old(shards[i]) - {key}];
      }
      o := FromPair(val, ok);
    }

    /** Compute: stores and returns fn applied to the current value as an Option. */
    method Compute(key: K, fn: Option<V> -> V) returns (newValue: V)
      requires Valid()
      modifies shards
      ensures Valid()
      ensures newValue == fn(if key in old(Contents()) then Some(old(Contents())[key]) else None)
      ensures Contents() == old(Contents())[key := newValue]
    {
      Lookup(key);
      var i := ShardOf(key);
      var exists_ := key in shards[i];
      var oldValue := if exists_ then shards[i][key] else zeroValue;
      newValue := fn(FromPair(oldValue, exists_));
      MergeSet(shards[..], ShardOf, key, newValue);
      shards[i] := shards[i][key := newValue];
      assert shards[..] == old(shards[..])[i := old(shards[i])[key := newValue]];
    }

    /** Len: the shard sizes added up, which is the number of keys. */
    method Len() returns (count: int)
      requires Valid()
      ensures count == SumSizes(shards[..]) && count == |Contents()|
    {
      count := 0;
      for i := 0 to shards.Length
        invariant count == SumSizes(shards[..i])
      {
        assert shards[..i + 1][..i] == shards[..i];
        count := count + |shards[i]|;
      }
      assert shards[..shards.Length] == shards[..];
      MergeSize(shards[..], ShardOf);
    }

    /** Clear: gives every shard a fresh empty table. */
    method Clear()
      requires Valid()
      modifies shards
      ensures Valid() && Contents() == map[]
      ensures forall i :: 0 <= i < shards.Length ==> shards[i] == map[]
    {
      for i := 0 to shards.Length
        invariant forall j :: 0 <= j < i ==> shards[j] == map[]
      {
        shards[i] := map[];
      }
      MergeEmpty(shards[..]);
    }
  
    /** The inner loop of Range over one shard, in whatever order Go's map iteration picks:
        every key of the shard once, until the visitor returns false. */
    method RangeShard(i: nat, fn: (K, V) -> bool) returns (part: seq<Item<K, V>>, stopped: bool)
      requires i < shards.Length
      ensures Distinct(KeysOf(part))
      ensures forall a :: 0 <= a < |part| ==> part[a].key in shards[i] && shards[i][part[a].key] == part[a].value
      ensures forall a :: 0 <= a < |part| - 1 ==> fn(part[a].key, part[a].value)
      ensures stopped <==> |part| > 0 && !fn(part[|part| - 1].key, part[|part| - 1].value)
      ensures !stopped ==> forall k :: k in shards[i] ==> k in KeysOf(part)
      ensures !stopped ==> Accepted(part, fn)
    {
      part, stopped := [], false;
      var table := shards[i];
      var remaining := table.Keys;
      while remaining != {}
        invariant remaining <= table.Keys
        invariant Distinct(KeysOf(part))
        invariant forall a :: 0 <= a < |part| ==> part[a].key in table && part[a].key !in remaining && table[part[a].key] == part[a].value
        invariant forall a :: 0 <= a < |part| ==> fn(part[a].key, part[a].value)
        invariant forall k :: k in table && k !in remaining ==> k in KeysOf(part)
        decreases remaining
      {
        var k :| k in remaining;
        var v := table[k];
        DistinctAppend(KeysOf(part), k);
        assert KeysOf(part + [Item(k, v)]) == KeysOf(part) + [k];
        part := part + [Item(k, v)];
        remaining := remaining - {k};
        if !fn(k, v) {
          stopped := true;
          return;
        }
      }
    }

    /** Range: the shards in order, each shard's pairs in map order, stopping at the first
        pair the visitor rejects.  The pairs visited come back as a sequence. */
    method Range(fn: (K, V) -> bool) returns (visited: seq<Item<K, V>>)
      requires Valid()
      ensures Distinct(KeysOf(visited))
      ensures forall a :: 0 <= a < |visited| ==>
        visited[a].key in Contents() && Contents()[visited[a].key] == visited[a].value
      ensures forall a :: 0 <= a < |visited| - 1 ==> fn(visited[a].key, visited[a].value)
      ensures (forall a :: 0 <= a < |visited| ==> fn(visited[a].key, visited[a].value)) ==>
        forall k :: k in Contents() ==> k in KeysOf(visited)
      ensures forall a, b :: 0 <= a < b < |visited| ==> ShardOf(visited[a].key) <= ShardOf(visited[b].key)
    {
      visited := [];
      var i := 0;
      while i < shards.Length
        invariant 0 <= i <= shards.Length
        invariant Walked(visited, i)
        invariant Accepted(visited, fn)
        invariant Covered(visited, i)
      {
        var part, stopped := RangeShard(i, fn);
        WalkOn(visited, i, part);
        if !stopped {
          CoverOn(visited, i, part);
          AcceptedConcat(visited, part, fn);
        }
        visited := visited + part;
        if stopped {
          WalkedInContents(visited, i + 1);
          return;
        }
        i := i + 1;
      }
      WalkedInContents(visited, i);
      CoveredAll(visited);
    }

    /** Covering every shard covers the map. */
    lemma CoveredAll(visited: seq<Item<K, V>>)
      requires Valid() && Covered(visited, shards.Length)
      ensures forall k :: k in Contents() ==> k in KeysOf(visited)
    {
      forall k | k in Contents() ensures k in KeysOf(visited) {
        Lookup(k);
        assert k in shards[ShardOf(k)];
      }
    }

    /** Every key of the first i shards has been visited. */
    ghost predicate Covered(visited: seq<Item<K, V>>, i: int)
      reads this, shards
    {
      forall j, k :: 0 <= j < i && j < shards.Length && k in shards[j] ==> k in KeysOf(visited)
    }

    /** A shard walked to the end extends the coverage by one shard. */
    lemma CoverOn(visited: seq<Item<K, V>>, i: nat, part: seq<Item<K, V>>)
      requires Covered(visited, i)
      requires i < shards.Length && forall k :: k in shards[i] ==> k in KeysOf(part)
      ensures Covered(visited + part, i + 1)
    {
      KeysConcat(visited, part);
      forall j, k | 0 <= j < i + 1 && j < shards.Length && k in shards[j]
        ensures k in KeysOf(visited + part)
      {
        if j < i {
          assert k in KeysOf(visited);
        } else {
          assert k in KeysOf(part);
        }
      }
    }

    /** What Range has visited after the first i shards: distinct keys of those shards with
        their values, in shard order. */
    ghost predicate Walked(visited: seq<Item<K, V>>, i: int)
      reads this, shards
    {
      Distinct(KeysOf(visited))
      && (forall a :: 0 <= a < |visited| ==> ShardOf(visited[a].key) < i && InShard(visited[a]))
      && (forall a, b :: 0 <= a < b < |visited| ==> ShardOf(visited[a].key) <= ShardOf(visited[b].key))
    }

    /** The pair is stored in the shard its key routes to. */
    ghost predicate InShard(x: Item<K, V>)
      reads this, shards
    {
      ShardOf(x.key) < shards.Length && x.key in shards[ShardOf(x.key)]
      && shards[ShardOf(x.key)][x.key] == x.value
    }

    /** Appending one shard's pairs keeps the walk in order and free of repeats. */
    lemma WalkOn(visited: seq<Item<K, V>>, i: nat, part: seq<Item<K, V>>)
      requires Valid() && i < shards.Length && Walked(visited, i)
      requires Distinct(KeysOf(part))
      requires forall a :: 0 <= a < |part| ==> part[a].key in shards[i] && shards[i][part[a].key] == part[a].value
      ensures Walked(visited + part, i + 1)
      ensures KeysOf(visited + part) == KeysOf(visited) + KeysOf(part)
    {
      forall a | 0 <= a < |part| ensures ShardOf(part[a].key) == i && InShard(part[a]) {
        assert part[a].key in shards[..][i];
      }
      KeysConcat(visited, part);
      RoutedConcat(visited, part, i, ShardOf);
      forall a | 0 <= a < |visited + part| ensures InShard((visited + part)[a]) {
        if a >= |visited| {
          assert (visited + part)[a] == part[a - |visited|];
        }
      }
    }

    /** The pairs of a walk are pairs of the map. */
    lemma WalkedInContents(visited: seq<Item<K, V>>, i: int)
      requires Valid() && Walked(visited, i)
      ensures forall a :: 0 <= a < |visited| ==>
        visited[a].key in Contents() && Contents()[visited[a].key] == visited[a].value
    {
      forall a | 0 <= a < |visited|
        ensures visited[a].key in Contents() && Contents()[visited[a].key] == visited[a].value
      {
        Lookup(visited[a].key);
      }
    }

    /** Items: every pair, through Range with a visitor that always continues. */
    method Items() returns (items: seq<Item<K, V>>)
      requires Valid()
      ensures Distinct(KeysOf(items)) && |items| == |Contents()|
      ensures forall a :: 0 <= a < |items| ==>
        items[a].key in Contents() && Contents()[items[a].key] == items[a].value
      ensures forall k :: k in Contents() ==> k in KeysOf(items)
    {
      items := Range((k: K, v: V) => true);
      SnapshotSize(items);
    }

    /** A snapshot of distinct keys that covers the map has one entry per key. */
    lemma SnapshotSize(items: seq<Item<K, V>>)
      requires Distinct(KeysOf(items))
      requires forall a :: 0 <= a < |items| ==> items[a].key in Contents()
      requires forall k :: k in Contents() ==> k in KeysOf(items)
      ensures |items| == |Contents()|
    {
      ElementsSize(KeysOf(items));
      assert Elements(KeysOf(items)) == Contents().Keys;
    }

    /** Keys: the keys of a full Range. */
    method Keys() returns (keys: seq<K>)
      requires Valid()
      ensures Distinct(keys) && |keys| == |Contents()|
      ensures Elements(keys) == Contents().Keys
    {
      var items := Range((k: K, v: V) => true);
      SnapshotSize(items);
      keys := KeysOf(items);
    }

    /** Values: the values of a full Range; keys is the order in which they were visited. */
    method Values() returns (values: seq<V>, ghost keys: seq<K>)
      requires Valid()
      ensures Distinct(keys) && |keys| == |Contents()| && Elements(keys) == Contents().Keys
      ensures |values| == |keys|
      ensures forall a :: 0 <= a < |values| ==> values[a] == Contents()[keys[a]]
    {
      var items := Range((k: K, v: V) => true);
      SnapshotSize(items);
      keys := KeysOf(items);
      values := ValuesOf(items);
    }

    /** Clone: a map with as many shards, the same hash function and seed, filled through Set
        with every pair of this one.  Its shard array is new, so later changes to either map
        leave the other alone. */
    method Clone() returns (clone: ConcurrentMap<K, V>)
      requires Valid()
      ensures fresh(clone) && fresh(clone.shards) && clone.Valid()
      ensures clone.shards.Length == shards.Length && clone.shardMask == shardMask
      ensures clone.hashFunc == hashFunc && clone.seed == seed && clone.zeroValue == zeroValue
      ensures clone.Contents() == Contents()
    {
      PowerOfTwoFixed(shards.Length);
      clone := new ConcurrentMap.WithShards(shards.Length, [WithHash(hashFunc), WithSeed(seed)], hashFunc, seed, zeroValue);
      assert [WithHash(hashFunc), WithSeed(seed)][..1] == [WithHash(hashFunc)];
      var items := Items();
      CopyItems(clone, items, Contents());
    }

    /** The loop of Clone: Set every pair of a snapshot of source into an empty map. */
    static method CopyItems(target: ConcurrentMap<K, V>, items: seq<Item<K, V>>, ghost source: map<K, V>)
      requires target.Valid() && target.Contents() == map[]
      requires forall a :: 0 <= a < |items| ==> items[a].key in source && source[items[a].key] == items[a].value
      requires forall k :: k in source ==> k in KeysOf(items)
      modifies target.shards
      ensures target.Valid() && target.Contents() == source
    {
      for j := 0 to |items|
        invariant target.Valid()
        invariant Copied(target.Contents(), source, items, j)
      {
        ghost var before := target.Contents();
        target.Set(items[j].key, items[j].value);
        CopyStep(before, source, items, j);
      }
      CopyDone(target.Contents(), source, items);
    }
  }

  /** After copying the first j pairs of a snapshot of source: m holds those keys and agrees
      with source. */
  ghost predicate Copied<K, V>(m: map<K, V>, source: map<K, V>, items: seq<Item<K, V>>, j: int)
  {
    (forall k :: k in m ==> k in source && m[k] == source[k])
    && forall a :: 0 <= a < j && a < |items| ==> items[a].key in m
  }

  lemma {:induction false} CopyStep<K, V>(m: map<K, V>, source: map<K, V>, items: seq<Item<K, V>>, j: nat)
    requires j < |items| && Copied(m, source, items, j)
    requires items[j].key in source && source[items[j].key] == items[j].value
    ensures Copied(m[items[j].key := items[j].value], source, items, j + 1)
  {
    var m' := m[items[j].key := items[j].value];
    forall a | 0 <= a < j + 1 && a < |items| ensures items[a].key in m' {
      if a < j {
        assert items[a].key in m;
      }
    }
  }

  lemma {:induction false} CopyDone<K, V>(m: map<K, V>, source: map<K, V>, items: seq<Item<K, V>>)
    requires Copied(m, source, items, |items|)
    requires forall k :: k in source ==> k in KeysOf(items)
    ensures m == source
  {
    forall k | k in source ensures k in m {
      var a :| 0 <= a < |items| && KeysOf(items)[a] == k;
    }
    forall k ensures k in m <==> k in source {
    }
    forall k | k in m ensures k in source && m[k] == source[k] {
    }
    MapEqual(m, source);
  }

  /** The visitor accepts every pair of the sequence. */
  predicate Accepted<K, V>(s: seq<Item<K, V>>, fn: (K, V) -> bool)
  {
    forall a :: 0 <= a < |s| ==> fn(s[a].key, s[a].value)
  }

  lemma {:induction false} AcceptedConcat<K, V>(s: seq<Item<K, V>>, t: seq<Item<K, V>>, fn: (K, V) -> bool)
    requires Accepted(s, fn) && Accepted(t, fn)
    ensures Accepted(s + t, fn)
  {
    forall a | 0 <= a < |s + t| ensures fn((s + t)[a].key, (s + t)[a].value) {
      if a >= |s| {
        assert (s + t)[a] == t[a - |s|];
      }
    }
  }

  /** A walk over routes below i followed by pairs routed to i keeps its keys distinct and its
      routes in order. */
  lemma {:induction false} RoutedConcat<K, V>(s: seq<Item<K, V>>, t: seq<Item<K, V>>, i: nat, route: K -> nat)
    requires Distinct(KeysOf(s)) && Distinct(KeysOf(t))
    requires forall a :: 0 <= a < |s| ==> route(s[a].key) < i
    requires forall a, b :: 0 <= a < b < |s| ==> route(s[a].key) <= route(s[b].key)
    requires forall a :: 0 <= a < |t| ==> route(t[a].key) == i
    ensures Distinct(KeysOf(s + t))
    ensures forall a :: 0 <= a < |s + t| ==> route((s + t)[a].key) < i + 1
    ensures forall a, b :: 0 <= a < b < |s + t| ==> route((s + t)[a].key) <= route((s + t)[b].key)
  {
    var w := s + t;
    KeysConcat(s, t);
    var ks := KeysOf(w);
    forall a, b | 0 <= a < b < |ks| ensures Differ(ks, a, b) {
      if b < |s| {
        assert Differ(KeysOf(s), a, b);
      } else if a >= |s| {
        assert Differ(KeysOf(t), a - |s|, b - |s|);
      } else {
        assert route(w[a].key) < i == route(w[b].key);
      }
    }
    forall a | 0 <= a < |w| ensures route(w[a].key) <= i {
      if a >= |s| {
        assert w[a] == t[a - |s|];
      }
    }
    forall a, b | 0 <= a < b < |w| ensures route(w[a].key) <= route(w[b].key) {
      if b >= |s| {
        assert w[b] == t[b - |s|];
      }
    }
  }

  /** The keys of two sequences of items one after the other. */
  lemma {:induction false} KeysConcat<K, V>(s: seq<Item<K, V>>, t: seq<Item<K, V>>)
    ensures KeysOf(s + t) == KeysOf(s) + KeysOf(t)
  {
    assert forall a :: 0 <= a < |s + t| ==> KeysOf(s + t)[a] == (KeysOf(s) + KeysOf(t))[a];
  }

  /** Rounding a power of two up to a power of two leaves it alone, so a clone has as many
      shards as the original. */
  lemma {:induction false} PowerOfTwoFixed(n: int)
    requires IsPowerOfTwo(n)
    ensures forall r :: IsPowerOfTwo(r) && n <= r < 2 * n ==> r == n
  {
    forall r | IsPowerOfTwo(r) && n <= r < 2 * n ensures r == n {
      if r > n {
        PowerOfTwoGap(r, n);
      }
    }
  }
}
