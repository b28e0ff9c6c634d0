/** Package omap: a map that remembers the order in which keys were last set.  A Go map
    gives lookup; a doubly linked list of entries runs from the least to the most recently
    set key.  The model keeps the map as a map from keys to values and the list as the
    sequence of its keys from head to tail. */
module OMap {
  import opened GoTypes

  /** The Item struct: one key with its value. */
  datatype Item<K, V> = Item(key: K, value: V)

  /** The keys of a sequence of items, in order. */
  function KeysOf<K, V>(s: seq<Item<K, V>>): (keys: seq<K>)
    ensures |keys| == |s|
    ensures forall i :: 0 <= i < |s| ==> keys[i] == s[i].key
  {
    if s == [] then [] else [s[0].key] + KeysOf(s[1..])
  }

  /** The values of a sequence of items, in order. */
  function ValuesOf<K, V>(s: seq<Item<K, V>>): (values: seq<V>)
    ensures |values| == |s|
    ensures forall i :: 0 <= i < |s| ==> values[i] == s[i].value
  {
    if s == [] then [] else [s[0].value] + ValuesOf(s[1..])
  }

  /** The items whose key is not key, in their original order. */
  function RemoveKey<K(==), V>(s: seq<Item<K, V>>, key: K): (r: seq<Item<K, V>>)
    ensures key !in KeysOf(r)
    ensures forall x :: x in r ==> x in s
    ensures |r| <= |s|
  {
    if s == [] then []
    else if s[0].key == key then RemoveKey(s[1..], key)
    else [s[0]] + RemoveKey(s[1..], key)
  }

  /** The abstract effect of Set: key moves to the end with its new value. */
  function SetItem<K(==), V>(s: seq<Item<K, V>>, key: K, value: V): seq<Item<K, V>>
  {
    RemoveKey(s, key) + [Item(key, value)]
  }

  /** The keys of an extended sequence are extended by the new key. */
  lemma {:induction false} KeysOfAppend<K, V>(s: seq<Item<K, V>>, x: Item<K, V>)
    ensures KeysOf(s + [x]) == KeysOf(s) + [x.key]
  {
  }

  /** Removing a key no item has changes nothing. */
  lemma {:induction false} RemoveMissingKey<K, V>(s: seq<Item<K, V>>, key: K)
    requires forall j :: 0 <= j < |s| ==> s[j].key != key
    ensures RemoveKey(s, key) == s
  {
    if s != [] {
      RemoveMissingKey(s[1..], key);
    }
  }

  /** Removing a key the items do not have changes nothing. */
  lemma {:induction false} RemoveAbsentKey<K, V>(s: seq<Item<K, V>>, key: K)
    requires key !in KeysOf(s)
    ensures RemoveKey(s, key) == s
  {
    forall j | 0 <= j < |s| ensures s[j].key != key {
      assert KeysOf(s)[j] == s[j].key;
    }
    RemoveMissingKey(s, key);
  }

  /** Removing a key that only item i has removes exactly that item. */
  lemma {:induction false} RemoveOnlyKey<K, V>(s: seq<Item<K, V>>, key: K, i: int)
    requires 0 <= i < |s| && s[i].key == key
    requires forall j :: 0 <= j < |s| && j != i ==> s[j].key != key
    ensures RemoveKey(s, key) == s[..i] + s[i + 1..]
  {
    if i == 0 {
      RemoveMissingKey(s[1..], key);
      assert s[..i] + s[i + 1..] == s[1..];
    } else {
      RemoveOnlyKey(s[1..], key, i - 1);
      assert s[..i] + s[i + 1..] == [s[0]] + (s[1..][..i - 1] + s[1..][i..]);
    }
  }

  /** With distinct keys, removing the key found at index i removes exactly that item. */
  lemma {:induction false} RemoveKeyAt<K, V>(s: seq<Item<K, V>>, key: K, i: int)
    requires Distinct(KeysOf(s)) && 0 <= i < |s| && s[i].key == key
    ensures RemoveKey(s, key) == s[..i] + s[i + 1..]
  {
    forall j | 0 <= j < |s| && j != i ensures s[j].key != key {
      DistinctAt(KeysOf(s), j, i);
    }
    RemoveOnlyKey(s, key, i);
  }

  /** Removing a key removes exactly that key from the keys. */
  lemma {:induction false} RemoveKeyKeys<K, V>(s: seq<Item<K, V>>, key: K)
    ensures Elements(KeysOf(RemoveKey(s, key))) == Elements(KeysOf(s)) - {key}
    decreases |s|
  {
    if s != [] {
      RemoveKeyKeys(s[1..], key);
      var rest := RemoveKey(s[1..], key);
      assert KeysOf(s) == [s[0].key] + KeysOf(s[1..]);
      assert Elements(KeysOf(s)) == {s[0].key} + Elements(KeysOf(s[1..]));
      if s[0].key != key {
        assert KeysOf([s[0]] + rest) == [s[0].key] + KeysOf(rest);
        assert Elements([s[0].key] + KeysOf(rest)) == {s[0].key} + Elements(KeysOf(rest));
      }
    }
  }

  /** Removing a key keeps the keys distinct, and removes exactly that key. */
  lemma {:induction false} RemoveKeyDistinct<K, V>(s: seq<Item<K, V>>, key: K)
    requires Distinct(KeysOf(s))
    ensures Distinct(KeysOf(RemoveKey(s, key)))
    ensures Elements(KeysOf(RemoveKey(s, key))) == Elements(KeysOf(s)) - {key}
  {
    RemoveKeyKeys(s, key);
    if s != [] {
      assert KeysOf(s[1..]) == KeysOf(s)[1..];
      DistinctTail(KeysOf(s));
      RemoveKeyDistinct(s[1..], key);
      if s[0].key != key {
        var r := RemoveKey(s[1..], key);
        forall j | 0 <= j < |r|
          ensures KeysOf(r)[j] != s[0].key
        {
          assert r[j] in s[1..];
          var m :| 0 <= m < |s| - 1 && s[1..][m] == r[j];
          assert KeysOf(s[1..])[m] == r[j].key;
        }
        DistinctCons(s[0].key, KeysOf(r));
        assert KeysOf([s[0]] + r) == [s[0].key] + KeysOf(r);
      }
    }
  }

  /** After Set the key is last with its new value, the keys stay distinct, and every other
      key keeps its value and its place relative to the other keys. */
  lemma {:induction false} SetItemProperties<K, V>(s: seq<Item<K, V>>, key: K, value: V)
    requires Distinct(KeysOf(s))
    ensures Distinct(KeysOf(SetItem(s, key, value)))
    ensures SetItem(s, key, value)[|SetItem(s, key, value)| - 1] == Item(key, value)
    ensures |SetItem(s, key, value)| == if key in KeysOf(s) then |s| else |s| + 1
  {
    RemoveKeyDistinct(s, key);
    var r := RemoveKey(s, key);
    KeysOfAppend(r, Item(key, value));
    ElementsAppend(KeysOf(r), key);
    if key in KeysOf(s) {
      var i :| 0 <= i < |s| && KeysOf(s)[i] == key;
      RemoveKeyAt(s, key, i);
    } else {
      RemoveAbsentKey(s, key);
    }
  }

  /** The items the Range callback sees: all of them, up to and including the first for
      which fn returns false. */
  function RangeVisit<K, V>(s: seq<Item<K, V>>, fn: (K, V) -> bool): seq<Item<K, V>>
  {
    if s == [] then []
    else if !fn(s[0].key, s[0].value) then [s[0]]
    else [s[0]] + RangeVisit(s[1..], fn)
  }

  /** The visit is a prefix of the items; fn accepted every visited item but the last, and
      the visit stops short of the end only at an item fn rejected. */
  lemma {:induction false} RangeVisitShape<K, V>(s: seq<Item<K, V>>, fn: (K, V) -> bool)
    ensures var r := RangeVisit(s, fn);
      && |r| <= |s| && r == s[..|r|]
      && (forall i :: 0 <= i < |r| - 1 ==> fn(r[i].key, r[i].value))
      && (|r| < |s| ==> |r| > 0 && !fn(r[|r| - 1].key, r[|r| - 1].value))
  {
    if s != [] && fn(s[0].key, s[0].value) {
      RangeVisitShape(s[1..], fn);
      var t := RangeVisit(s[1..], fn);
      assert RangeVisit(s, fn) == [s[0]] + t;
      assert [s[0]] + s[1..][..|t|] == s[..|t| + 1];
    }
  }

  /** When fn accepts the first item, the visit is that item followed by the visit of the rest. */
  lemma {:induction false} RangeVisitStep<K, V>(s: seq<Item<K, V>>, fn: (K, V) -> bool)
    requires |s| > 0 && fn(s[0].key, s[0].value)
    ensures RangeVisit(s, fn) == [s[0]] + RangeVisit(s[1..], fn)
  {
  }

  /** The items fn is called on when every earlier one returned true. */
  lemma {:induction false} RangeVisitFrom<K, V>(s: seq<Item<K, V>>, fn: (K, V) -> bool, i: int)
    requires 0 <= i <= |s|
    requires forall j :: 0 <= j < i ==> fn(s[j].key, s[j].value)
    ensures RangeVisit(s, fn) == s[..i] + RangeVisit(s[i..], fn)
    decreases i
  {
    if i > 0 {
      var t := s[1..];
      RangeVisitStep(s, fn);
      RangeVisitFrom(t, fn, i - 1);
      assert t[i - 1..] == s[i..];
      assert [s[0]] + t[..i - 1] == s[..i];
    }
  }

  /** The entry list with the entry of key taken out (removeEntry on the list).  It removes
      the first occurrence, which is the only one when keys are distinct. */
  function Unlinked<K(==)>(order: seq<K>, key: K): (r: seq<K>)
    ensures |r| == if key in order then |order| - 1 else |order|
    ensures forall k :: k in r ==> k in order
  {
    if order == [] then []
    else if order[0] == key then order[1..]
    else [order[0]] + Unlinked(order[1..], key)
  }

  /** Taking out the key found at i, with no earlier occurrence, closes the gap at i. */
  lemma {:induction false} UnlinkedAt<K>(order: seq<K>, key: K, i: int)
    requires 0 <= i < |order| && order[i] == key
    requires forall j :: 0 <= j < i ==> order[j] != key
    ensures Unlinked(order, key) == order[..i] + order[i + 1..]
  {
    if i > 0 {
      UnlinkedAt(order[1..], key, i - 1);
      assert order[..i] + order[i + 1..] == [order[0]] + (order[1..][..i - 1] + order[1..][i..]);
    }
  }

  /** The items along a key order, each key with its value in m. */
  ghost function ItemsAlong<K, V>(order: seq<K>, m: map<K, V>): (c: seq<Item<K, V>>)
    requires forall i :: 0 <= i < |order| ==> order[i] in m
    ensures |c| == |order|
  {
    if order == [] then [] else [Item(order[0], m[order[0]])] + ItemsAlong(order[1..], m)
  }

  /** Item i along an order is key i with its value. */
  lemma {:induction false} ItemsAlongAt<K, V>(order: seq<K>, m: map<K, V>, i: int)
    requires forall i :: 0 <= i < |order| ==> order[i] in m
    requires 0 <= i < |order|
    ensures ItemsAlong(order, m)[i] == Item(order[i], m[order[i]])
  {
    if i > 0 {
      ItemsAlongAt(order[1..], m, i - 1);
    }
  }

  /** Every item along an order is its key with its value. */
  lemma {:induction false} ItemsAlongAll<K, V>(order: seq<K>, m: map<K, V>)
    requires forall i :: 0 <= i < |order| ==> order[i] in m
    ensures forall i :: 0 <= i < |order| ==> ItemsAlong(order, m)[i] == Item(order[i], m[order[i]])
  {
    forall i | 0 <= i < |order| {
      ItemsAlongAt(order, m, i);
    }
  }

  /** Dropping position i from a key order without repeats keeps it without repeats and
      drops exactly the key at i from its elements. */
  lemma {:induction false} RemoveOrder<K>(ks: seq<K>, i: int, ks': seq<K>)
    requires Distinct(ks) && 0 <= i < |ks| && ks' == ks[..i] + ks[i + 1..]
    ensures Distinct(ks') && Elements(ks') == Elements(ks) - {ks[i]}
  {
    DistinctRemove(ks, i);
    assert forall j {:trigger ks'[j]} :: 0 <= j < |ks'| ==> ks'[j] == if j < i then ks[j] else ks[j + 1];
    forall j | 0 <= j < |ks'| ensures ks'[j] != ks[i] {
      DistinctAt(ks, if j < i then j else j + 1, i);
    }
    forall k | k in Elements(ks) && k != ks[i] ensures k in Elements(ks') {
      var j :| 0 <= j < |ks| && ks[j] == k;
      if j < i {
        assert ks'[j] == k;
      } else {
        assert ks'[j - 1] == k;
      }
    }
  }

  /** Dropping position i from a key order without repeats, and its key from the map, drops
      item i from the items along the order. */
  lemma {:induction false} RemoveAlong<K, V>(ks: seq<K>, m: map<K, V>, i: int, ks': seq<K>, m': map<K, V>)
    requires Distinct(ks) && m.Keys == Elements(ks) && 0 <= i < |ks|
    requires ks' == ks[..i] + ks[i + 1..] && m' == m - {ks[i]}
    ensures Distinct(ks') && m'.Keys == Elements(ks')
    ensures ItemsAlong(ks', m') == ItemsAlong(ks, m)[..i] + ItemsAlong(ks, m)[i + 1..]
  {
    RemoveOrder(ks, i, ks');
    var c, c' := ItemsAlong(ks, m), ItemsAlong(ks', m');
    var d := c[..i] + c[i + 1..];
    ItemsAlongAll(ks, m);
    ItemsAlongAll(ks', m');
    forall j | 0 <= j < |c'| ensures c'[j] == d[j] {
      if j < i {
        assert ks'[j] == ks[j];
      } else {
        assert ks'[j] == ks[j + 1];
      }
    }
  }

  /** Appending a new key to the order, with its value in the map, appends its item. */
  lemma {:induction false} AppendAlong<K, V>(ks: seq<K>, m: map<K, V>, key: K, value: V, ks': seq<K>, m': map<K, V>)
    requires Distinct(ks) && m.Keys == Elements(ks) && key !in m
    requires ks' == ks + [key] && m' == m[key := value]
    ensures Distinct(ks') && m'.Keys == Elements(ks')
    ensures ItemsAlong(ks', m') == ItemsAlong(ks, m) + [Item(key, value)]
  {
    ElementsAppend(ks, key);
    var c, c' := ItemsAlong(ks, m), ItemsAlong(ks', m');
    ItemsAlongAll(ks, m);
    ItemsAlongAll(ks', m');
    forall j | 0 <= j < |ks| ensures c'[j] == c[j] {
      assert ks[j] != key;
    }
  }

  /** Moving position i of the order to the end, with a new value for its key, moves its
      item to the end with the new value. */
  lemma {:induction false} MoveAlong<K, V>(ks: seq<K>, m: map<K, V>, i: int, value: V, ks': seq<K>, m': map<K, V>)
    requires Distinct(ks) && m.Keys == Elements(ks) && 0 <= i < |ks|
    requires ks' == ks[..i] + ks[i + 1..] + [ks[i]] && m' == m[ks[i] := value]
    ensures Distinct(ks') && m'.Keys == Elements(ks')
    ensures ItemsAlong(ks', m') == ItemsAlong(ks, m)[..i] + ItemsAlong(ks, m)[i + 1..] + [Item(ks[i], value)]
  {
    var r, mr := ks[..i] + ks[i + 1..], m - {ks[i]};
    RemoveAlong(ks, m, i, r, mr);
    AppendAlong(r, mr, ks[i], value, ks', m');
    assert mr[ks[i] := value] == m';
  }

  /** With distinct keys, key i is not among the keys before it, and setting it on the
      items before it gives the items up to it. */
  lemma {:induction false} PrefixSet<K, V>(c: seq<Item<K, V>>, ks: seq<K>, i: int)
    requires KeysOf(c) == ks && Distinct(ks) && 0 <= i < |ks|
    ensures SetItem(c[..i], ks[i], c[i].value) == c[..i + 1]
  {
    var p := c[..i];
    forall j | 0 <= j < i ensures KeysOf(p)[j] != ks[i] {
      DistinctAt(ks, j, i);
      assert KeysOf(p)[j] == c[j].key == KeysOf(c)[j];
    }
    RemoveAbsentKey(p, ks[i]);
    assert Item(ks[i], c[i].value) == c[i] by {
      assert KeysOf(c)[i] == c[i].key;
    }
    assert c[..i + 1] == p + [c[i]];
  }

  class OrderedMap<K(==), V> {
    const zeroKey: K
    const zeroValue: V
    /** The Go map, from each key to the value of its entry. */
    var items: map<K, V>
    /** The keys of the entry list from head to tail. */
    var order: seq<K>
    var len: int

    /** Every key of the map is on the list exactly once, the list has no other keys, and
        len counts them. */
    ghost predicate Valid()
      reads this
    {
      && Distinct(order)
      && items.Keys == Elements(order)
      && len == |order|
    }

    /** The items from head to tail. */
    ghost function Contents(): seq<Item<K, V>>
      reads this
      requires Valid()
    {
      ItemsAlong(order, items)
    }

    /** The keys of Contents are the list, so they are distinct. */
    lemma {:induction false} ContentsKeys()
      requires Valid()
      ensures KeysOf(Contents()) == order && Distinct(KeysOf(Contents()))
    {
      ItemsAlongAll(order, items);
      assert KeysOf(Contents()) == order;
    }

    /** New: an empty map. */
    constructor (zeroKey: K, zeroValue: V)
      ensures Valid() && Contents() == []
    {
      this.zeroKey := zeroKey;
      this.zeroValue := zeroValue;
      items := map[];
      order := [];
      len := 0;
    }

    /** addToBack: links a key that is not on the list after the tail. */
    method AddToBack(key: K)
      requires key !in order
      modifies this
      ensures order == old(order) + [key]
      ensures items == old(items) && len == old(len)
    {
      order := order + [key];
    }

    /** removeEntry: unlinks the entry at position i; the map is not touched. */
    method RemoveEntry(key: K, ghost i: int)
      requires Distinct(order) && 0 <= i < |order| && order[i] == key
      modifies this
      ensures order == old(order[..i] + order[i + 1..])
      ensures items == old(items) && len == old(len)
    {
      forall j | 0 <= j < i ensures order[j] != key {
        DistinctAt(order, j, i);
      }
      UnlinkedAt(order, key, i);
      order := Unlinked(order, key);
    }

    /** moveToBack: moves the entry at position i to the end, unless it is the tail. */
    method MoveToBack(key: K, ghost i: int)
      requires Distinct(order) && 0 <= i < |order| && order[i] == key
      modifies this
      ensures order == old(order[..i] + order[i + 1..]) + [key]
      ensures items == old(items) && len == old(len)
    {
      if order[|order| - 1] == key {
        if i != |order| - 1 {
          DistinctAt(order, i, |order| - 1);
        }
        assert order == order[..i] + order[i + 1..] + [key];
        return;
      }
      ghost var ks := order;
      forall j | 0 <= j < |ks| && j != i ensures ks[j] != key {
        DistinctAt(ks, j, i);
      }
      RemoveEntry(key, i);
      assert forall j {:trigger order[j]} :: 0 <= j < |order| ==> order[j] == if j < i then ks[j] else ks[j + 1];
      AddToBack(key);
    }

    /** Set: an existing key gets the new value and moves to the end with len unchanged;
        a new key is appended at the end and len grows by one. */
    method Set(key: K, value: V)
      requires Valid()
      modifies this
      ensures Valid()
      ensures Contents() == SetItem(old(Contents()), key, value)
      ensures len == old(len) + (if key in KeysOf(old(Contents())) then 0 else 1)
    {
      ContentsKeys();
      ghost var cs, ks, m := Contents(), order, items;
      if key in items {
        ghost var i :| 0 <= i < |order| && order[i] == key;
        items := items[key := value];
        MoveToBack(key, i);
        MoveAlong(ks, m, i, value, order, items);
        RemoveKeyAt(cs, key, i);
      } else {
        items := items[key := value];
        AddToBack(key);
        len := len + 1;
        AppendAlong(ks, m, key, value, order, items);
        RemoveAbsentKey(cs, key);
      }
    }

    /** Get: the value of key and true, or the zero value and false. */
    method Get(key: K) returns (value: V, ok: bool)
      requires Valid()
      ensures ok <==> key in KeysOf(Contents())
      ensures ok ==> Item(key, value) in Contents()
      ensures !ok ==> value == zeroValue
    {
      ContentsKeys();
      if key in items {
        ghost var i :| 0 <= i < |order| && order[i] == key;
        ItemsAlongAt(order, items, i);
        return items[key], true;
      }
      return zeroValue, false;
    }

    /** Delete: true exactly when the key was present; the key is gone and the other keys
        keep their order. */
    method Delete(key: K) returns (removed: bool)
      requires Valid()
      modifies this
      ensures Valid()
      ensures removed <==> key in KeysOf(old(Contents()))
      ensures Contents() == RemoveKey(old(Contents()), key)
      ensures len == old(len) - (if removed then 1 else 0)
    {
      ContentsKeys();
      if key !in items {
        RemoveAbsentKey(Contents(), key);
        return false;
      }
      ghost var i :| 0 <= i < |order| && order[i] == key;
      RemoveKeyAt(Contents(), key, i);
      Unlink(key, i);
      return true;
    }

    /** Deletes the key at position i from the map and the list (the shared tail of Delete,
        PopFirst and PopLast). */
    method Unlink(key: K, ghost i: int)
      requires Valid() && 0 <= i < |order| && order[i] == key
      modifies this
      ensures Valid()
      ensures Contents() == old(Contents()[..i] + Contents()[i + 1..])
      ensures len == old(len) - 1
    {
      ghost var ks, m := order, items;
      items := items - {key};
      RemoveEntry(key, i);
      len := len - 1;
      RemoveAlong(ks, m, i, order, items);
    }

    /** Has: the key is present. */
    function Has(key: K): (b: bool)
      reads this
      requires Valid()
      ensures b <==> key in KeysOf(Contents())
    {
      ContentsKeys();
      key in items
    }

    /** Len: the number of keys. */
    function Len(): (n: int)
      reads this
      requires Valid()
      ensures n == |Contents()|
    {
      len
    }

    /** Clear: no keys. */
    method Clear()
      modifies this
      ensures Valid() && Contents() == []
    {
      items := map[];
      order := [];
      len := 0;
    }

    /** Items: the key/value pairs from head to tail. */
    method Items() returns (result: seq<Item<K, V>>)
      requires Valid()
      ensures result == Contents()
    {
      result := [];
      var i := 0;
      ItemsAlongAll(order, items);
      while i < |order|
        invariant 0 <= i <= |order|
        invariant result == Contents()[..i]
      {
        result := result + [Item(order[i], items[order[i]])];
        i := i + 1;
      }
    }

    /** Keys: the keys from head to tail. */
    method Keys() returns (keys: seq<K>)
      requires Valid()
      ensures keys == KeysOf(Contents())
    {
      keys := [];
      var i := 0;
      while i < |order|
        invariant 0 <= i <= |order|
        invariant keys == order[..i]
      {
        keys := keys + [order[i]];
        i := i + 1;
      }
      ContentsKeys();
    }

    /** Values: the values from head to tail. */
    method Values() returns (values: seq<V>)
      requires Valid()
      ensures values == ValuesOf(Contents())
    {
      values := [];
      var i := 0;
      ItemsAlongAll(order, items);
      while i < |order|
        invariant 0 <= i <= |order|
        invariant |values| == i && forall j :: 0 <= j < i ==> values[j] == Contents()[j].value
      {
        values := values + [items[order[i]]];
        i := i + 1;
      }
      assert values == ValuesOf(Contents());
    }

    /** Range: calls fn on the items from head to tail until it returns false; the result
        is the items fn was called on. */
    method Range(fn: (K, V) -> bool) returns (visited: seq<Item<K, V>>)
      requires Valid()
      ensures visited == RangeVisit(Contents(), fn)
    {
      visited := [];
      var i := 0;
      ItemsAlongAll(order, items);
      while i < |order|
        invariant 0 <= i <= |order|
        invariant visited == Contents()[..i]
        invariant forall j :: 0 <= j < i ==> fn(Contents()[j].key, Contents()[j].value)
      {
        var key, value := order[i], items[order[i]];
        visited := visited + [Item(key, value)];
        if !fn(key, value) {
          RangeVisitFrom(Contents(), fn, i);
          return;
        }
        i := i + 1;
      }
      RangeVisitFrom(Contents(), fn, i);
    }

    /** First: the head item and true, or zero values and false on an empty map. */
    method First() returns (key: K, value: V, ok: bool)
      requires Valid()
      ensures ok <==> Contents() != []
      ensures ok ==> Item(key, value) == Contents()[0]
      ensures !ok ==> key == zeroKey && value == zeroValue
    {
      if order == [] {
        return zeroKey, zeroValue, false;
      }
      ItemsAlongAt(order, items, 0);
      return order[0], items[order[0]], true;
    }

    /** Last: the tail item and true, or zero values and false on an empty map. */
    method Last() returns (key: K, value: V, ok: bool)
      requires Valid()
      ensures ok <==> Contents() != []
      ensures ok ==> Item(key, value) == Contents()[|Contents()| - 1]
      ensures !ok ==> key == zeroKey && value == zeroValue
    {
      if order == [] {
        return zeroKey, zeroValue, false;
      }
      var k := order[|order| - 1];
      ItemsAlongAt(order, items, |order| - 1);
      return k, items[k], true;
    }

    /** PopFirst: removes and returns the head item; zero values, false and no change on
        an empty map. */
    method PopFirst() returns (key: K, value: V, ok: bool)
      requires Valid()
      modifies this
      ensures Valid()
      ensures ok <==> old(Contents()) != []
      ensures ok ==> Item(key, value) == old(Contents())[0] && Contents() == old(Contents())[1..]
      ensures !ok ==> key == zeroKey && value == zeroValue && Contents() == old(Contents())
      ensures len == |Contents()|
    {
      if order == [] {
        return zeroKey, zeroValue, false;
      }
      key := order[0];
      value := items[key];
      ItemsAlongAt(order, items, 0);
      Unlink(key, 0);
      return key, value, true;
    }

    /** PopLast: removes and returns the tail item; zero values, false and no change on an
        empty map. */
    method PopLast() returns (key: K, value: V, ok: bool)
      requires Valid()
      modifies this
      ensures Valid()
      ensures ok <==> old(Contents()) != []
      ensures ok ==> Item(key, value) == old(Contents())[|old(Contents())| - 1]
      ensures ok ==> Contents() == old(Contents())[..|old(Contents())| - 1]
      ensures !ok ==> key == zeroKey && value == zeroValue && Contents() == old(Contents())
      ensures len == |Contents()|
    {
      if order == [] {
        return zeroKey, zeroValue, false;
      }
      key := order[|order| - 1];
      value := items[key];
      ItemsAlongAt(order, items, |order| - 1);
      Unlink(key, |order| - 1);
      return key, value, true;
    }

    /** Clone: a new, independent map with the same items in the same order, built by
        setting each item in turn. */
    method Clone() returns (clone: OrderedMap<K, V>)
      requires Valid()
      ensures fresh(clone) && clone.Valid()
      ensures clone.Contents() == Contents()
    {
      clone := new OrderedMap(zeroKey, zeroValue);
      ContentsKeys();
      var i := 0;
      while i < |order|
        invariant 0 <= i <= |order|
        invariant fresh(clone) && clone.Valid()
        invariant clone.Contents() == Contents()[..i]
      {
        var key := order[i];
        ItemsAlongAt(order, items, i);
        PrefixSet(Contents(), order, i);
        clone.Set(key, items[key]);
        i := i + 1;
      }
    }
  }
}
