/** Package mmap: a multimap from keys to sets of values, with a counter of the stored
    (key, value) pairs.  The Go map of maps becomes a map from keys to sets of values. */
module MMap {
  import opened GoTypes

  /** The Entry struct: one stored (key, value) pair. */
  datatype Entry<K, V> = Entry(key: K, value: V)

  /** All pairs stored in a map of value sets. */
  ghost function PairsOf<K, V>(items: map<K, set<V>>): set<Entry<K, V>>
  {
    set k, v | k in items && v in items[k] :: Entry(k, v)
  }

  /** The pairs of one key. */
  ghost function KeyPairs<K, V>(key: K, values: set<V>): set<Entry<K, V>>
  {
    set v | v in values :: Entry(key, v)
  }

  /** The value set of key, empty for a missing key. */
  function ValuesOf<K, V>(items: map<K, set<V>>, key: K): set<V>
  {
    if key in items then items[key] else {}
  }

  /** Adding a value to the set of key adds exactly that pair. */
  lemma {:induction false} PairsInsert<K, V>(items: map<K, set<V>>, key: K, value: V)
    ensures PairsOf(items[key := ValuesOf(items, key) + {value}]) == PairsOf(items) + {Entry(key, value)}
  {
    var after := items[key := ValuesOf(items, key) + {value}];
    forall e | e in PairsOf(after)
      ensures e in PairsOf(items) + {Entry(key, value)}
    {
      if e != Entry(key, value) {
        assert e.key in items && e.value in items[e.key];
      }
    }
    forall e | e in PairsOf(items) + {Entry(key, value)}
      ensures e in PairsOf(after)
    {
      assert e.key in after && e.value in after[e.key];
    }
  }

  /** Removing a value other than the last one of key removes exactly that pair. */
  lemma {:induction false} PairsRemove<K, V>(items: map<K, set<V>>, key: K, value: V)
    requires key in items
    ensures PairsOf(items[key := items[key] - {value}]) == PairsOf(items) - {Entry(key, value)}
  {
    var after := items[key := items[key] - {value}];
    forall e | e in PairsOf(after)
      ensures e in PairsOf(items) - {Entry(key, value)}
    {
      assert e.key in items && e.value in items[e.key];
    }
    forall e | e in PairsOf(items) - {Entry(key, value)}
      ensures e in PairsOf(after)
    {
      assert e.key in after && e.value in after[e.key];
    }
  }

  /** A key with n values contributes exactly n pairs. */
  lemma {:induction false} KeyPairsSize<K, V>(key: K, values: set<V>)
    ensures |KeyPairs(key, values)| == |values|
    decreases values
  {
    if values != {} {
      var v :| v in values;
      KeyPairsSize(key, values - {v});
      assert KeyPairs(key, values) == KeyPairs(key, values - {v}) + {Entry(key, v)};
    }
  }

  /** One more value of key is one more pair: once the pairs of done were added to
      before, adding (key, v) as well adds the pairs of done + {v}. */
  lemma {:induction false} KeyPairsInsert<K, V>(before: set<Entry<K, V>>, mid: set<Entry<K, V>>, after: set<Entry<K, V>>,
                             key: K, done: set<V>, v: V)
    requires mid == before + KeyPairs(key, done)
    requires after == mid + {Entry(key, v)}
    ensures after == before + KeyPairs(key, done + {v})
  {
    assert KeyPairs(key, done + {v}) == KeyPairs(key, done) + {Entry(key, v)};
  }

  /** Removing a key removes exactly its pairs. */
  lemma {:induction false} RemoveKeyPairs<K, V>(items: map<K, set<V>>, key: K)
    requires key in items
    ensures PairsOf(items) == PairsOf(items - {key}) + KeyPairs(key, items[key])
    ensures PairsOf(items - {key}) !! KeyPairs(key, items[key])
    ensures |PairsOf(items)| == |PairsOf(items - {key})| + |items[key]|
  {
    KeyPairsSize(key, items[key]);
  }

  /** Membership in the stored pairs. */
  lemma {:induction false} InPairs<K, V>(items: map<K, set<V>>, e: Entry<K, V>)
    ensures e in PairsOf(items) <==> e.key in items && e.value in items[e.key]
  {
    if e.key in items && e.value in items[e.key] {
      assert Entry(e.key, e.value) == e;
    }
  }

  /** A walk over the map that has listed exactly the pairs of the keys no longer
      remaining. */
  ghost predicate Covers<K, V>(entries: seq<Entry<K, V>>, items: map<K, set<V>>, remaining: set<K>)
  {
    && (forall i :: 0 <= i < |entries| ==>
          entries[i].key in items && entries[i].key !in remaining && entries[i].value in items[entries[i].key])
    && (forall k, v :: k in items && k !in remaining && v in items[k] ==> Entry(k, v) in entries)
  }

  /** Part way through key k: listed are the pairs of the finished keys and those pairs of
      k whose values are no longer in rest. */
  ghost predicate CoversPart<K, V>(entries: seq<Entry<K, V>>, items: map<K, set<V>>, remaining: set<K>, k: K, rest: set<V>)
  {
    && (forall i :: 0 <= i < |entries| ==>
          entries[i].key in items && entries[i].value in items[entries[i].key]
          && (entries[i].key !in remaining || (entries[i].key == k && entries[i].value !in rest)))
    && (forall k', v :: k' in items && k' !in remaining && v in items[k'] ==> Entry(k', v) in entries)
    && (forall v :: k in items && v in items[k] && v !in rest ==> Entry(k, v) in entries)
  }

  /** Starting on key k, none of its pairs is listed yet. */
  lemma {:induction false} CoversStartKey<K, V>(entries: seq<Entry<K, V>>, items: map<K, set<V>>, remaining: set<K>, k: K)
    requires Covers(entries, items, remaining) && k in remaining && k in items
    ensures CoversPart(entries, items, remaining, k, items[k])
  {
  }

  /** Listing (k, v) for a value still in rest lists a new pair. */
  lemma {:induction false} CoversStep<K, V>(entries: seq<Entry<K, V>>, items: map<K, set<V>>, remaining: set<K>, k: K, rest: set<V>, v: V)
    requires CoversPart(entries, items, remaining, k, rest) && k in remaining && k in items
    requires v in rest && rest <= items[k]
    ensures Entry(k, v) !in entries
    ensures CoversPart(entries + [Entry(k, v)], items, remaining, k, rest - {v})
  {
    assert forall e :: e in entries + [Entry(k, v)] <==> e in entries || e == Entry(k, v);
  }

  /** Once rest is empty, key k is finished. */
  lemma {:induction false} CoversEndKey<K, V>(entries: seq<Entry<K, V>>, items: map<K, set<V>>, remaining: set<K>, k: K)
    requires CoversPart(entries, items, remaining, k, {}) && k in remaining
    ensures Covers(entries, items, remaining - {k})
  {
  }

  /** When no key remains, the listed pairs are all the stored pairs. */
  lemma {:induction false} CoversAll<K, V>(entries: seq<Entry<K, V>>, items: map<K, set<V>>)
    requires Covers(entries, items, {})
    ensures Elements(entries) == PairsOf(items)
  {
    forall e ensures e in Elements(entries) <==> e in PairsOf(items) {
      InPairs(items, e);
    }
  }

  class Multimap<K(==), V(==)> {
    var items: map<K, set<V>>
    var size: int

    /** The counter equals the number of stored pairs (the sum of the per-key set sizes),
        and no key maps to an empty set. */
    ghost predicate Valid()
      reads this
    {
      && size == |PairsOf(items)|
      && forall k :: k in items ==> items[k] != {}
    }

    ghost function Pairs(): set<Entry<K, V>>
      reads this
    {
      PairsOf(items)
    }

    /** New: no keys and size 0. */
    constructor ()
      ensures Valid() && items == map[] && size == 0
    {
      items := map[];
      size := 0;
    }

    /** Put: false exactly when the pair is already stored; size grows only on true. */
    method Put(key: K, value: V) returns (added: bool)
      requires Valid()
      modifies this
      ensures Valid()
      ensures added <==> Entry(key, value) !in old(Pairs())
      ensures items == old(items)[key := ValuesOf(old(items), key) + {value}]
      ensures Pairs() == old(Pairs()) + {Entry(key, value)}
      ensures size == old(size) + (if added then 1 else 0)
    {
      var set_ := if key in items then items[key] else {};
      if value in set_ {
        assert key in items && ValuesOf(items, key) + {value} == items[key];
        assert items == items[key := ValuesOf(items, key) + {value}];
        return false;
      }
      PairsInsert(items, key, value);
      items := items[key := set_ + {value}];
      size := size + 1;
      return true;
    }

    /** PutAll: puts every value under key and returns how many pairs were new, which is
        how much the size grew. */
    method PutAll(key: K, values: seq<V>) returns (count: int)
      requires Valid()
      modifies this
      ensures Valid()
      ensures Pairs() == old(Pairs()) + KeyPairs(key, Elements(values))
      ensures count == size - old(size)
    {
      count := 0;
      var i := 0;
      ghost var done: set<V> := {};
      while i < |values|
        invariant 0 <= i <= |values|
        invariant Valid()
        invariant done == Elements(values[..i])
        invariant Pairs() == old(Pairs()) + KeyPairs(key, done)
        invariant count == size - old(size)
      {
        var added := PutMore(key, values[i], old(Pairs()), done);
        if added {
          count := count + 1;
        }
        PrefixElements(values, i);
        done := done + {values[i]};
        i := i + 1;
      }
      assert values[..i] == values;
    }

    /** One step of PutAll: Put, seen as adding one more value to those already put. */
    method PutMore(key: K, value: V, ghost before: set<Entry<K, V>>, ghost done: set<V>) returns (added: bool)
      requires Valid() && Pairs() == before + KeyPairs(key, done)
      modifies this
      ensures Valid() && Pairs() == before + KeyPairs(key, done + {value})
      ensures size == old(size) + (if added then 1 else 0)
    {
      ghost var mid := Pairs();
      added := Put(key, value);
      KeyPairsInsert(before, mid, Pairs(), key, done, value);
    }

    /** Get: the values of key, each once, in no particular order; empty for a missing key. */
    method Get(key: K) returns (values: seq<V>)
      requires Valid()
      ensures Distinct(values)
      ensures Elements(values) == (if key in items then items[key] else {})
      ensures |values| == KeySize(key)
    {
      if key !in items {
        ElementsSize<V>([]);
        return [];
      }
      var set_ := items[key];
      values := [];
      var remaining := set_;
      while remaining != {}
        invariant remaining <= set_
        invariant Distinct(values)
        invariant Elements(values) == set_ - remaining
        decreases remaining
      {
        var v :| v in remaining;
        ElementsAppend(values, v);
        values := values + [v];
        remaining := remaining - {v};
      }
      ElementsSize(values);
    }

    /** GetSet: a copy of the value set of key; empty for a missing key. */
    method GetSet(key: K) returns (result: set<V>)
      requires Valid()
      ensures result == (if key in items then items[key] else {})
    {
      if key in items {
        var set_ := items[key];
        result := {};
        var remaining := set_;
        while remaining != {}
          invariant remaining <= set_
          invariant result == set_ - remaining
          decreases remaining
        {
          var v :| v in remaining;
          result := result + {v};
          remaining := remaining - {v};
        }
        return result;
      }
      return {};
    }

    /** Delete: true exactly when the pair was stored; removes only that pair and drops the
        key once its set becomes empty. */
    method Delete(key: K, value: V) returns (removed: bool)
      requires Valid()
      modifies this
      ensures Valid()
      ensures removed <==> Entry(key, value) in old(Pairs())
      ensures Pairs() == old(Pairs()) - {Entry(key, value)}
      ensures size == old(size) - (if removed then 1 else 0)
      ensures forall k :: k != key ==> (k in items <==> k in old(items)) && (k in items ==> items[k] == old(items)[k])
      ensures key in items <==> key in old(items) && old(items)[key] - {value} != {}
    {
      if key !in items {
        return false;
      }
      var set_ := items[key];
      if value !in set_ {
        return false;
      }
      ghost var before := items;
      set_ := set_ - {value};
      size := size - 1;
      if set_ == {} {
        RemoveKeyPairs(before, key);
        assert KeyPairs(key, before[key]) == {Entry(key, value)};
        items := items - {key};
      } else {
        PairsRemove(before, key, value);
        items := items[key := set_];
      }
      return true;
    }

    /** DeleteAll: removes key and its values, reducing size by their count; true exactly
        when the key existed. */
    method DeleteAll(key: K) returns (existed: bool)
      requires Valid()
      modifies this
      ensures Valid()
      ensures existed <==> key in old(items)
      ensures items == old(items) - {key}
      ensures size == old(size) - (if existed then |old(items)[key]| else 0)
    {
      if key !in items {
        assert items - {key} == items;
        return false;
      }
      RemoveKeyPairs(items, key);
      size := size - |items[key]|;
      items := items - {key};
      return true;
    }

    /** Contains: the pair is stored. */
    function Contains(key: K, value: V): (b: bool)
      reads this
      ensures b <==> Entry(key, value) in Pairs()
    {
      key in items && value in items[key]
    }

    /** ContainsKey: the key has at least one value. */
    function ContainsKey(key: K): (b: bool)
      reads this
      requires Valid()
      ensures b <==> KeySize(key) != 0
    {
      key in items
    }

    /** Size: the number of stored pairs. */
    function Size(): (n: int)
      reads this
      requires Valid()
      ensures n == |Pairs()|
    {
      size
    }

    /** KeySize: the number of values of key, 0 for a missing key. */
    function KeySize(key: K): (n: int)
      reads this
      requires Valid()
      ensures n == |KeyPairs(key, if key in items then items[key] else {})|
      ensures n == 0 <==> key !in items
    {
      KeyPairsSize(key, if key in items then items[key] else {});
      if key in items then |items[key]| else 0
    }

    /** Len: the number of distinct keys. */
    function Len(): (n: int)
      reads this
      ensures n == |items.Keys|
    {
      |items|
    }

    /** Clear: no keys and size 0. */
    method Clear()
      modifies this
      ensures Valid() && items == map[] && Pairs() == {}
    {
      items := map[];
      size := 0;
    }

    /** Keys: every key once, in no particular order. */
    method Keys() returns (keys: seq<K>)
      ensures Distinct(keys) && Elements(keys) == items.Keys && |keys| == |items|
    {
      keys := [];
      var remaining := items.Keys;
      while remaining != {}
        invariant remaining <= items.Keys
        invariant Distinct(keys)
        invariant Elements(keys) == items.Keys - remaining
        decreases remaining
      {
        var k :| k in remaining;
        ElementsAppend(keys, k);
        keys := keys + [k];
        remaining := remaining - {k};
      }
      ElementsSize(keys);
    }

    /** Entries: every stored pair once, key by key; there are Size() of them. */
    method Entries() returns (entries: seq<Entry<K, V>>)
      requires Valid()
      ensures Distinct(entries) && Elements(entries) == Pairs()
      ensures |entries| == Size()
    {
      entries := [];
      var remaining := items.Keys;
      while remaining != {}
        invariant remaining <= items.Keys
        invariant Distinct(entries) && Covers(entries, items, remaining)
        decreases remaining
      {
        var k :| k in remaining;
        var set_ := items[k];
        CoversStartKey(entries, items, remaining, k);
        var rest := set_;
        while rest != {}
          invariant rest <= set_
          invariant Distinct(entries) && CoversPart(entries, items, remaining, k, rest)
          decreases rest
        {
          var v :| v in rest;
          CoversStep(entries, items, remaining, k, rest, v);
          ElementsAppend(entries, Entry(k, v));
          entries := entries + [Entry(k, v)];
          rest := rest - {v};
        }
        CoversEndKey(entries, items, remaining, k);
        remaining := remaining - {k};
      }
      CoversAll(entries, items);
      ElementsSize(entries);
    }

    /** Values: the value of every stored pair, key by key: the values of an enumeration of
        the pairs, each pair once, so there are Size() of them. */
    method Values() returns (values: seq<V>, ghost entries: seq<Entry<K, V>>)
      requires Valid()
      ensures Distinct(entries) && Elements(entries) == Pairs() && |entries| == Size()
      ensures |values| == |entries|
      ensures forall i :: 0 <= i < |values| ==> values[i] == entries[i].value
    {
      values, entries := [], [];
      var remaining := items.Keys;
      while remaining != {}
        invariant remaining <= items.Keys
        invariant Distinct(entries) && Covers(entries, items, remaining)
        invariant |values| == |entries| && forall i :: 0 <= i < |values| ==> values[i] == entries[i].value
        decreases remaining
      {
        var k :| k in remaining;
        var set_ := items[k];
        CoversStartKey(entries, items, remaining, k);
        var rest := set_;
        while rest != {}
          invariant rest <= set_
          invariant Distinct(entries) && CoversPart(entries, items, remaining, k, rest)
          invariant |values| == |entries| && forall i :: 0 <= i < |values| ==> values[i] == entries[i].value
          decreases rest
        {
          var v :| v in rest;
          CoversStep(entries, items, remaining, k, rest, v);
          ElementsAppend(entries, Entry(k, v));
          values, entries := values + [v], entries + [Entry(k, v)];
          rest := rest - {v};
        }
        CoversEndKey(entries, items, remaining, k);
        remaining := remaining - {k};
      }
      CoversAll(entries, items);
      ElementsSize(entries);
    }

    /** Range: calls fn on the stored pairs, key by key, until it returns false.  The result
        is the pairs fn was called on: distinct stored pairs, all accepted but the last, and
        either all of them or a last one fn rejected. */
    method Range(fn: (K, V) -> bool) returns (visited: seq<Entry<K, V>>)
      requires Valid()
      ensures Distinct(visited) && Elements(visited) <= Pairs()
      ensures forall i :: 0 <= i < |visited| - 1 ==> fn(visited[i].key, visited[i].value)
      ensures |visited| < Size() ==> |visited| > 0 && !fn(visited[|visited| - 1].key, visited[|visited| - 1].value)
      ensures |visited| == Size() <==> Elements(visited) == Pairs()
    {
      visited := [];
      var remaining := items.Keys;
      while remaining != {}
        invariant remaining <= items.Keys
        invariant Distinct(visited) && Covers(visited, items, remaining)
        invariant forall i :: 0 <= i < |visited| ==> fn(visited[i].key, visited[i].value)
        decreases remaining
      {
        var k :| k in remaining;
        var set_ := items[k];
        CoversStartKey(visited, items, remaining, k);
        var rest := set_;
        while rest != {}
          invariant rest <= set_
          invariant Distinct(visited) && CoversPart(visited, items, remaining, k, rest)
          invariant forall i :: 0 <= i < |visited| ==> fn(visited[i].key, visited[i].value)
          decreases rest
        {
          var v :| v in rest;
          CoversStep(visited, items, remaining, k, rest, v);
          ElementsAppend(visited, Entry(k, v));
          visited := visited + [Entry(k, v)];
          rest := rest - {v};
          if !fn(k, v) {
            VisitedPart(visited, items, remaining, k, rest);
            return;
          }
        }
        CoversEndKey(visited, items, remaining, k);
        remaining := remaining - {k};
      }
      CoversAll(visited, items);
      ElementsSize(visited);
    }

    /** A walk stopped part way has listed distinct stored pairs, and no more than Size()
        of them. */
    lemma {:induction false} VisitedPart(visited: seq<Entry<K, V>>, items: map<K, set<V>>, remaining: set<K>, k: K, rest: set<V>)
      requires Valid() && this.items == items
      requires Distinct(visited) && CoversPart(visited, items, remaining, k, rest)
      ensures Elements(visited) <= Pairs()
      ensures |visited| <= Size()
      ensures |visited| == Size() <==> Elements(visited) == Pairs()
    {
      forall e | e in Elements(visited) ensures e in Pairs() {
        InPairs(items, e);
      }
      ElementsSize(visited);
      if |visited| == Size() {
        SubsetSameSize(Elements(visited), Pairs());
      }
      SubsetSize(Elements(visited), Pairs());
    }

    /** ForEachKey: calls fn on each key with its values (as Get returns them) until it
        returns false.  The results are the keys fn was called on, distinct stored keys,
        and the value slices passed with them; fn accepted all but the last, and either
        every key was visited or fn rejected the last one. */
    method ForEachKey(fn: (K, seq<V>) -> bool) returns (keys: seq<K>, lists: seq<seq<V>>)
      requires Valid()
      ensures |keys| == |lists| && Distinct(keys) && Elements(keys) <= items.Keys
      ensures forall i :: 0 <= i < |keys| ==> Distinct(lists[i]) && Elements(lists[i]) == items[keys[i]]
      ensures forall i :: 0 <= i < |keys| - 1 ==> fn(keys[i], lists[i])
      ensures |keys| < |items| ==> |keys| > 0 && !fn(keys[|keys| - 1], lists[|keys| - 1])
      ensures |keys| == |items| <==> Elements(keys) == items.Keys
    {
      keys, lists := [], [];
      var remaining := items.Keys;
      while remaining != {}
        invariant remaining <= items.Keys
        invariant Distinct(keys) && Elements(keys) == items.Keys - remaining
        invariant |keys| == |lists|
        invariant forall i :: 0 <= i < |keys| ==> Distinct(lists[i]) && Elements(lists[i]) == items[keys[i]]
        invariant forall i :: 0 <= i < |keys| ==> fn(keys[i], lists[i])
        decreases remaining
      {
        var k :| k in remaining;
        var values := Get(k);
        ElementsAppend(keys, k);
        keys, lists := keys + [k], lists + [values];
        remaining := remaining - {k};
        if !fn(k, values) {
          KeysVisited(keys);
          return;
        }
      }
      KeysVisited(keys);
    }

    /** Distinct stored keys are at most all of them, and exactly all when as many. */
    lemma {:induction false} KeysVisited(keys: seq<K>)
      requires Distinct(keys) && Elements(keys) <= items.Keys
      ensures |keys| <= |items|
      ensures |keys| == |items| <==> Elements(keys) == items.Keys
    {
      ElementsSize(keys);
      assert |items| == |items.Keys|;
      if |keys| == |items| {
        SubsetSameSize(Elements(keys), items.Keys);
      }
      SubsetSize(Elements(keys), items.Keys);
    }
  }

  /** Putting 1, 2, 3, 1 under one key of a new multimap adds three pairs: the repeated 1
      is not counted. */
  method PutAllSkipsDuplicates() returns (count: int)
    ensures count == 3
  {
    var m := new Multimap<int, int>();
    count := m.PutAll(1, [1, 2, 3, 1]);
    assert Elements([1, 2, 3, 1]) == {1, 2, 3};
    assert m.Pairs() == KeyPairs(1, {1, 2, 3});
    KeyPairsSize(1, {1, 2, 3});
  }
}
