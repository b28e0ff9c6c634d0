/** Package set: a mutable set backed by a Go map with empty-struct values.  The map is a
    reference, so a Set is a class whose one field is the set of its keys. */
module Set {

  import opened GoTypes

  class Set<T(==)> {
    var items: set<T>

    /** New: an empty set. */
    constructor ()
      ensures items == {}
    {
      items := {};
    }

    /** FromSlice: the set of the slice's elements, built by adding them one by one. */
    static method FromSlice(slice: seq<T>) returns (s: Set<T>)
      ensures fresh(s) && s.items == Elements(slice)
    {
      s := new Set();
      var i := 0;
      while i < |slice|
        invariant 0 <= i <= |slice|
        invariant s.items == Elements(slice[..i])
      {
        var _ := s.Add(slice[i]);
        assert slice[..i + 1] == slice[..i] + [slice[i]];
        i := i + 1;
      }
      assert slice[..i] == slice;
    }

    /** Add: true exactly when the item was absent; afterwards it is present. */
    method Add(item: T) returns (added: bool)
      modifies this
      ensures added <==> item !in old(items)
      ensures items == old(items) + {item}
    {
      if item in items {
        return false;
      }
      items := items + {item};
      return true;
    }

    /** AddAll: adds every item and returns how many were not already present. */
    method AddAll(xs: seq<T>) returns (count: int)
      modifies this
      ensures items == old(items) + Elements(xs)
      ensures count == |items - old(items)|
    {
      count := 0;
      var i := 0;
      while i < |xs|
        invariant 0 <= i <= |xs|
        invariant items == old(items) + Elements(xs[..i])
        invariant count == |items - old(items)|
      {
        ghost var before := items;
        var added := Add(xs[i]);
        if added {
          assert items - old(items) == (before - old(items)) + {xs[i]};
          count := count + 1;
        } else {
          assert items == before;
        }
        assert xs[..i + 1] == xs[..i] + [xs[i]];
        i := i + 1;
      }
      assert xs[..i] == xs;
    }

    /** Remove: true exactly when the item was present; afterwards it is absent. */
    method Remove(item: T) returns (removed: bool)
      modifies this
      ensures removed <==> item in old(items)
      ensures items == old(items) - {item}
    {
      if item !in items {
        return false;
      }
      items := items - {item};
      return true;
    }

    /** Contains: membership; a set that contains something is not empty. */
    function Contains(item: T): (b: bool)
      reads this
      ensures b <==> item in items
      ensures b ==> !IsEmpty()
    {
      item in items
    }

    /** Size: the number of distinct elements. */
    function Size(): (n: int)
      reads this
      ensures n >= 0
      ensures n == 0 <==> items == {}
    {
      |items|
    }

    /** IsEmpty: no elements. */
    predicate IsEmpty()
      reads this
      ensures IsEmpty() <==> forall x :: x !in items
    {
      Size() == 0
    }

    /** Clear: deletes the elements one at a time until none is left. */
    method Clear()
      modifies this
      ensures items == {}
    {
      while items != {}
        decreases items
      {
        var item :| item in items;
        items := items - {item};
      }
    }

    /** ToSlice: every element exactly once, in no particular order. */
    method ToSlice() returns (slice: seq<T>)
      ensures Distinct(slice) && Elements(slice) == items && |slice| == |items|
    {
      slice := [];
      var remaining := items;
      while remaining != {}
        invariant remaining <= items
        invariant Distinct(slice) && Elements(slice) == items - remaining
        decreases remaining
      {
        var item :| item in remaining;
        ElementsAppend(slice, item);
        slice := slice + [item];
        remaining := remaining - {item};
      }
      ElementsSize(slice);
    }

    /** Range: visits elements in no particular order, each at most once, and stops after
        the first element fn rejects; the visited elements are returned in visiting order. */
    method Range(fn: T -> bool) returns (visited: seq<T>)
      ensures Distinct(visited) && Elements(visited) <= items
      ensures forall i :: 0 <= i < |visited| - 1 ==> fn(visited[i])
      ensures Elements(visited) != items ==> |visited| > 0 && !fn(visited[|visited| - 1])
    {
      visited := [];
      var remaining := items;
      while remaining != {}
        invariant remaining <= items
        invariant Distinct(visited) && Elements(visited) == items - remaining
        invariant forall i :: 0 <= i < |visited| ==> fn(visited[i])
        decreases remaining
      {
        var item :| item in remaining;
        ElementsAppend(visited, item);
        visited := visited + [item];
        remaining := remaining - {item};
        if !fn(item) {
          return;
        }
      }
    }

    /** Union: a new set with the elements of both; neither input changes. */
    method Union(other: Set<T>) returns (result: Set<T>)
      ensures fresh(result) && result.items == items + other.items
    {
      result := new Set();
      var remaining := items;
      while remaining != {}
        invariant remaining <= items
        invariant result.items == items - remaining
        decreases remaining
      {
        var item :| item in remaining;
        var _ := result.Add(item);
        remaining := remaining - {item};
      }
      remaining := other.items;
      while remaining != {}
        invariant remaining <= other.items
        invariant result.items == items + (other.items - remaining)
        decreases remaining
      {
        var item :| item in remaining;
        var _ := result.Add(item);
        remaining := remaining - {item};
      }
    }

    /** Intersection: a new set with the elements present in both. */
    method Intersection(other: Set<T>) returns (result: Set<T>)
      ensures fresh(result) && result.items == items * other.items
    {
      result := new Set();
      var remaining := items;
      while remaining != {}
        invariant remaining <= items
        invariant result.items == (items - remaining) * other.items
        decreases remaining
      {
        var item :| item in remaining;
        if other.Contains(item) {
          var _ := result.Add(item);
        }
        remaining := remaining - {item};
      }
    }

    /** Difference: a new set with the elements of this set that are not in other. */
    method Difference(other: Set<T>) returns (result: Set<T>)
      ensures fresh(result) && result.items == items - other.items
    {
      result := new Set();
      var remaining := items;
      while remaining != {}
        invariant remaining <= items
        invariant result.items == (items - remaining) - other.items
        decreases remaining
      {
        var item :| item in remaining;
        if !other.Contains(item) {
          var _ := result.Add(item);
        }
        remaining := remaining - {item};
      }
    }

    /** SymmetricDifference: a new set with the elements in exactly one of the two. */
    method SymmetricDifference(other: Set<T>) returns (result: Set<T>)
      ensures fresh(result) && result.items == (items - other.items) + (other.items - items)
    {
      result := new Set();
      var remaining := items;
      while remaining != {}
        invariant remaining <= items
        invariant result.items == (items - remaining) - other.items
        decreases remaining
      {
        var item :| item in remaining;
        if !other.Contains(item) {
          var _ := result.Add(item);
        }
        remaining := remaining - {item};
      }
      remaining := other.items;
      while remaining != {}
        invariant remaining <= other.items
        invariant result.items == (items - other.items) + ((other.items - remaining) - items)
        decreases remaining
      {
        var item :| item in remaining;
        if !Contains(item) {
          var _ := result.Add(item);
        }
        remaining := remaining - {item};
      }
    }

    /** IsSubset: every element of this set is in other; stops at the first that is not. */
    method IsSubset(other: Set<T>) returns (b: bool)
      ensures b <==> items <= other.items
    {
      var remaining := items;
      while remaining != {}
        invariant remaining <= items
        invariant items - remaining <= other.items
        decreases remaining
      {
        var item :| item in remaining;
        if !other.Contains(item) {
          return false;
        }
        remaining := remaining - {item};
      }
      return true;
    }

    /** IsSuperset: other is a subset of this set. */
    method IsSuperset(other: Set<T>) returns (b: bool)
      ensures b <==> other.items <= items
    {
      b := other.IsSubset(this);
    }

    /** Equal: the sizes agree and every element of this set is in other, which is the
        same as having the same elements. */
    method Equal(other: Set<T>) returns (b: bool)
      ensures b <==> items == other.items
    {
      if Size() != other.Size() {
        return false;
      }
      var remaining := items;
      while remaining != {}
        invariant remaining <= items
        invariant items - remaining <= other.items
        decreases remaining
      {
        var item :| item in remaining;
        if !other.Contains(item) {
          return false;
        }
        remaining := remaining - {item};
      }
      SubsetSameSize(items, other.items);
      return true;
    }

    /** Clone: a new, independent set with the same elements. */
    method Clone() returns (clone: Set<T>)
      ensures fresh(clone) && clone.items == items
    {
      clone := new Set();
      var remaining := items;
      while remaining != {}
        invariant remaining <= items
        invariant clone.items == items - remaining
        decreases remaining
      {
        var item :| item in remaining;
        var _ := clone.Add(item);
        remaining := remaining - {item};
      }
    }
  }
}
