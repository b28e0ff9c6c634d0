/** Package deque: a double-ended queue over a ring buffer whose capacity is a power of two,
    at least MinCapacity, doubled when full and halved when at most a quarter full.

    Go computes ring positions as `x & mask` with `mask == len(buf) - 1`.  For a capacity
    that is a power of two this is `x` modulo the capacity, also for x == -1 (two's
    complement), so the model writes `x % (mask + 1)` with Dafny's Euclidean `%`. */
module Deque {
  import opened GoTypes

  const MinCapacity: int := 16

  /** The buffer position of the k-th element of a ring that starts at head in a buffer of
      capacity c (for 0 <= head < c and 0 <= k <= c). */
  function Slot(head: int, k: int, c: int): int
  {
    if head + k < c then head + k else head + k - c
  }

  /** Position i of a buffer of capacity c holds one of the n elements of a ring starting
      at head. */
  predicate InRing(head: int, n: int, c: int, i: int)
  {
    if head + n <= c then head <= i < head + n else head <= i || i < head + n - c
  }

  /** Euclidean remainder on the range the ring arithmetic produces. */
  lemma {:induction false} ModOfRange(x: int, c: int)
    requires c > 0 && -c <= x < 2 * c
    ensures x % c == if x < 0 then x + c else if x < c then x else x - c
  {
    if x < 0 {
      assert x == c * (-1) + (x + c);
    } else if x < c {
      assert x == c * 0 + x;
    } else {
      assert x == c * 1 + (x - c);
    }
  }

  /** Slot is the ring position (head + k) & mask of Go. */
  lemma {:induction false} SlotIsMasked(head: int, k: int, c: int)
    requires 0 <= head < c && 0 <= k <= c
    ensures Slot(head, k, c) == (head + k) % c
    ensures 0 <= Slot(head, k, c) < c
  {
    ModOfRange(head + k, c);
  }

  lemma {:induction false} SixteenIsPowerOfTwo()
    ensures IsPowerOfTwo(MinCapacity)
  {
    assert IsPowerOfTwo(2) && IsPowerOfTwo(4) && IsPowerOfTwo(8);
  }

  /** The capacity New allocates: the smallest power of two that is at least initialCap
      and at least MinCapacity, found by doubling from 1.  Above 2^62 the 64-bit doubling
      overflows to 0 and never stops, so such capacities are excluded. */
  method InitialCapacity(initialCap: int) returns (cap: int)
    requires IsInt64(initialCap) && initialCap <= 0x4000_0000_0000_0000
    ensures IsPowerOfTwo(cap) && cap >= MinCapacity && cap >= initialCap && IsInt64(cap)
    ensures cap / 2 < (if initialCap < MinCapacity then MinCapacity else initialCap)
  {
    var want := initialCap;
    if want < MinCapacity {
      want := MinCapacity;
    }
    cap := 1;
    while cap < want
      invariant IsPowerOfTwo(cap) && cap >= 1
      invariant cap / 2 < want
    {
      DoublePowerOfTwo(cap);
      cap := cap * 2;
    }
  }

  /** Go's built-in copy(dst[at:], src[from:to]): copies as many elements as fit and
      returns their number; no other element of dst changes. */
  method Copy<T>(dst: array<T>, at: int, src: array<T>, from: int, to: int) returns (n: int)
    requires dst != src
    requires 0 <= at <= dst.Length && 0 <= from <= to <= src.Length
    modifies dst
    ensures n == if dst.Length - at < to - from then dst.Length - at else to - from
    ensures forall k :: 0 <= k < dst.Length ==>
      dst[k] == if at <= k < at + n then src[from + k - at] else old(dst[k])
  {
    n := if dst.Length - at < to - from then dst.Length - at else to - from;
    var i := 0;
    while i < n
      invariant 0 <= i <= n
      invariant forall k :: 0 <= k < dst.Length ==>
        dst[k] == if at <= k < at + i then src[from + k - at] else old(dst[k])
    {
      dst[at + i] := src[from + i];
      i := i + 1;
    }
  }

  /** The ring of a buffer s that starts at head holds contents in order, and every slot
      outside the ring holds the zero value. */
  ghost predicate Ring<T>(s: seq<T>, head: int, contents: seq<T>, zero: T)
  {
    && 0 <= head < |s| && |contents| <= |s|
    && (forall k :: 0 <= k < |contents| ==> contents[k] == s[Slot(head, k, |s|)])
    && (forall i :: 0 <= i < |s| && !InRing(head, |contents|, |s|, i) ==> s[i] == zero)
  }

  /** A buffer of zero values is an empty ring at any position. */
  lemma {:induction false} RingEmpty<T>(s: seq<T>, zero: T)
    requires |s| > 0 && forall i :: 0 <= i < |s| ==> s[i] == zero
    ensures Ring(s, 0, [], zero)
  {
  }

  /** Writing val at the first slot after the ring extends it at the back. */
  lemma {:induction false} RingPushBack<T>(s: seq<T>, head: int, contents: seq<T>, zero: T, val: T)
    requires Ring(s, head, contents, zero) && |contents| < |s|
    ensures Ring(s[Slot(head, |contents|, |s|) := val], head, contents + [val], zero)
  {
    var c, n := |s|, |contents|;
    var t := Slot(head, n, c);
    var s', contents' := s[t := val], contents + [val];
    forall k | 0 <= k < n + 1
      ensures contents'[k] == s'[Slot(head, k, c)]
    {
      if k < n {
        assert Slot(head, k, c) != t;
      }
    }
    forall i | 0 <= i < c && !InRing(head, n + 1, c, i)
      ensures s'[i] == zero
    {
      assert i != t && !InRing(head, n, c, i);
    }
  }

  /** The slot before head, with wrap-around. */
  function Before(head: int, c: int): int
  {
    if head == 0 then c - 1 else head - 1
  }

  /** Writing val at the slot before head extends the ring at the front. */
  lemma {:induction false} RingPushFront<T>(s: seq<T>, head: int, contents: seq<T>, zero: T, val: T)
    requires Ring(s, head, contents, zero) && |contents| < |s|
    ensures Ring(s[Before(head, |s|) := val], Before(head, |s|), [val] + contents, zero)
  {
    var c, n := |s|, |contents|;
    var h := Before(head, c);
    var s', contents' := s[h := val], [val] + contents;
    forall k | 0 <= k < n + 1
      ensures contents'[k] == s'[Slot(h, k, c)]
    {
      if k > 0 {
        assert Slot(h, k, c) == Slot(head, k - 1, c);
        assert Slot(head, k - 1, c) != h;
      }
    }
    forall i | 0 <= i < c && !InRing(h, n + 1, c, i)
      ensures s'[i] == zero
    {
      assert i != h && !InRing(head, n, c, i);
    }
  }

  /** Zeroing the slot at head removes the first element; the ring then starts one later. */
  lemma {:induction false} RingPopFront<T>(s: seq<T>, head: int, contents: seq<T>, zero: T)
    requires Ring(s, head, contents, zero) && |contents| > 0
    ensures contents[0] == s[head]
    ensures Ring(s[head := zero], Slot(head, 1, |s|), contents[1..], zero)
  {
    var c, n := |s|, |contents|;
    var h := Slot(head, 1, c);
    var s', contents' := s[head := zero], contents[1..];
    assert Slot(head, 0, c) == head;
    forall k | 0 <= k < n - 1
      ensures contents'[k] == s'[Slot(h, k, c)]
    {
      assert Slot(h, k, c) == Slot(head, k + 1, c);
    }
    forall i | 0 <= i < c && !InRing(h, n - 1, c, i)
      ensures s'[i] == zero
    {
      if i != head {
        assert !InRing(head, n, c, i);
      }
    }
  }

  /** Zeroing the last slot of the ring removes the last element. */
  lemma {:induction false} RingPopBack<T>(s: seq<T>, head: int, contents: seq<T>, zero: T)
    requires Ring(s, head, contents, zero) && |contents| > 0
    ensures contents[|contents| - 1] == s[Slot(head, |contents| - 1, |s|)]
    ensures Ring(s[Slot(head, |contents| - 1, |s|) := zero], head, contents[..|contents| - 1], zero)
  {
    var c, n := |s|, |contents|;
    var t := Slot(head, n - 1, c);
    var s', contents' := s[t := zero], contents[..n - 1];
    forall k | 0 <= k < n - 1
      ensures contents'[k] == s'[Slot(head, k, c)]
    {
      assert Slot(head, k, c) != t;
    }
    forall i | 0 <= i < c && !InRing(head, n - 1, c, i)
      ensures s'[i] == zero
    {
      if i != t {
        assert !InRing(head, n, c, i);
      }
    }
  }

  /** A buffer holding the elements from position 0, then zeros, is a ring at head 0. */
  lemma {:induction false} RingFromStart<T>(s: seq<T>, contents: seq<T>, zero: T)
    requires 0 < |s| && |contents| <= |s|
    requires forall k :: 0 <= k < |contents| ==> s[k] == contents[k]
    requires forall k :: |contents| <= k < |s| ==> s[k] == zero
    ensures Ring(s, 0, contents, zero)
  {
  }

  class Deque<T> {
    /** The zero value of T, which fills every slot outside the ring. */
    const zero: T
    var buf: array<T>
    var head: int
    var tail: int
    var len: int
    var mask: int
    /** The elements from front to back. */
    ghost var Contents: seq<T>

    /** The ring-buffer invariant: the capacity is a power of two, at least MinCapacity,
        mask is capacity - 1, tail is (head + len) & mask, the ring holds Contents in
        order, and every slot outside it holds the zero value. */
    ghost predicate Valid()
      reads this, buf
    {
      && buf.Length >= MinCapacity && IsPowerOfTwo(buf.Length) && mask == buf.Length - 1
      && 0 <= head < buf.Length && len == |Contents|
      && tail == Slot(head, len, buf.Length)
      && Ring(buf[..], head, Contents, zero)
    }

    /** New: an empty deque with capacity InitialCapacity(initialCap). */
    constructor (initialCap: int, zero: T)
      requires IsInt64(initialCap) && initialCap <= 0x4000_0000_0000_0000
      ensures Valid() && Contents == [] && this.zero == zero
      ensures buf.Length >= MinCapacity && buf.Length >= initialCap
      ensures buf.Length / 2 < (if initialCap < MinCapacity then MinCapacity else initialCap)
    {
      var cap := InitialCapacity(initialCap);
      this.zero := zero;
      buf := new T[cap](_ => zero);
      mask := cap - 1;
      head, tail, len := 0, 0, 0;
      Contents := [];
      new;
      RingEmpty(buf[..], zero);
    }

    /** Len: the number of elements. */
    function Len(): (n: int)
      reads this, buf
      requires Valid()
      ensures n == |Contents|
    {
      len
    }

    /** Cap: the capacity of the buffer, a power of two that leaves room for every
        element. */
    function Cap(): (n: int)
      reads this, buf
      requires Valid()
      ensures n == buf.Length
      ensures IsPowerOfTwo(n) && n >= MinCapacity && n >= Len()
    {
      buf.Length
    }

    /** The copy step of resize: a new buffer of capacity newCap holding the elements in
        order from position 0, with every other slot zero. */
    method Unwrapped(newCap: int) returns (newBuf: array<T>)
      requires Valid() && newCap > len
      ensures fresh(newBuf) && newBuf.Length == newCap
      ensures forall k :: 0 <= k < len ==> newBuf[k] == Contents[k]
      ensures forall k :: len <= k < newCap ==> newBuf[k] == zero
    {
      newBuf := new T[newCap](_ => zero);
      var cap := buf.Length;
      if len > 0 {
        SlotIsMasked(head, len, cap);
        if head < tail {
          var _ := Copy(newBuf, 0, buf, head, tail);
          forall k | 0 <= k < len
            ensures newBuf[k] == Contents[k]
          {
            assert Slot(head, k, cap) == head + k;
          }
        } else {
          var n := Copy(newBuf, 0, buf, head, cap);
          ghost var mid := newBuf[..];
          var m := Copy(newBuf, n, buf, 0, tail);
          assert n == cap - head && n + m == len;
          forall k | 0 <= k < newCap
            ensures k < len ==> newBuf[k] == Contents[k]
            ensures k >= len ==> newBuf[k] == zero
          {
            if k < n {
              assert newBuf[k] == mid[k] == buf[head + k];
              assert Slot(head, k, cap) == head + k;
            } else if k < len {
              assert newBuf[k] == buf[k - n];
              assert Slot(head, k, cap) == k - n;
            } else {
              assert newBuf[k] == mid[k];
            }
          }
        }
      }
    }

    /** resize: moves the elements in order to the front of a new buffer of capacity
        newCap, leaving head = 0 and tail = len. */
    method Resize(newCap: int)
      requires Valid()
      requires IsPowerOfTwo(newCap) && newCap >= MinCapacity && newCap > len
      modifies this
      ensures Valid() && fresh(buf)
      ensures Contents == old(Contents) && buf.Length == newCap
      ensures head == 0 && tail == len && len == old(len)
    {
      var newBuf := Unwrapped(newCap);
      RingFromStart(newBuf[..], Contents, zero);
      buf := newBuf;
      head := 0;
      tail := len;
      mask := newCap - 1;
    }

    /** grow: doubles the capacity. */
    method Grow()
      requires Valid()
      modifies this
      ensures Valid() && fresh(buf)
      ensures Contents == old(Contents) && buf.Length == 2 * old(buf.Length)
    {
      DoublePowerOfTwo(buf.Length);
      Resize(buf.Length * 2);
    }

    /** shrink: halves the capacity when it exceeds MinCapacity and at most a quarter of
        it is in use. */
    method Shrink()
      requires Valid()
      modifies this
      ensures Valid() && Contents == old(Contents)
      ensures buf.Length == if old(buf.Length) > MinCapacity && old(len) * 4 <= old(buf.Length)
                            then old(buf.Length) / 2 else old(buf.Length)
      ensures buf == old(buf) || fresh(buf)
    {
      if buf.Length > MinCapacity && len * 4 <= buf.Length {
        HalvePowerOfTwo(buf.Length);
        var half := buf.Length / 2;
        SixteenIsPowerOfTwo();
        PowerOfTwoGap(buf.Length, MinCapacity);
        assert len < half;
        Resize(half);
      }
    }

    /** The write half of PushBack, on a buffer with room: the value goes into the slot at
        tail and tail advances. */
    method PutBack(val: T)
      requires Valid() && len < buf.Length
      modifies this, buf
      ensures Valid() && buf == old(buf)
      ensures Contents == old(Contents) + [val]
    {
      var cap := buf.Length;
      SlotIsMasked(head, len + 1, cap);
      ModOfRange(tail + 1, cap);
      ghost var s := buf[..];
      RingPushBack(s, head, Contents, zero, val);
      buf[tail] := val;
      assert buf[..] == s[tail := val];
      tail := (tail + 1) % (mask + 1);
      len := len + 1;
      Contents := Contents + [val];
    }

    /** PushBack: appends val; the capacity doubles exactly when the buffer was full. */
    method PushBack(val: T)
      requires Valid()
      modifies this, buf
      ensures Valid()
      ensures Contents == old(Contents) + [val]
      ensures buf.Length == if old(len) == old(buf.Length) then 2 * old(buf.Length) else old(buf.Length)
    {
      if len == buf.Length {
        Grow();
      }
      PutBack(val);
    }

    /** The write half of PushFront, on a buffer with room: head steps back one slot and
        the value goes there. */
    method PutFront(val: T)
      requires Valid() && len < buf.Length
      modifies this, buf
      ensures Valid() && buf == old(buf)
      ensures Contents == [val] + old(Contents)
    {
      var cap := buf.Length;
      ModOfRange(head - 1, cap);
      ghost var s, h := buf[..], Before(head, cap);
      RingPushFront(s, head, Contents, zero, val);
      head := (head - 1) % (mask + 1);
      assert head == h;
      buf[head] := val;
      assert buf[..] == s[head := val];
      len := len + 1;
      Contents := [val] + Contents;
    }

    /** PushFront: prepends val; the capacity doubles exactly when the buffer was full. */
    method PushFront(val: T)
      requires Valid()
      modifies this, buf
      ensures Valid()
      ensures Contents == [val] + old(Contents)
      ensures buf.Length == if old(len) == old(buf.Length) then 2 * old(buf.Length) else old(buf.Length)
    {
      if len == buf.Length {
        Grow();
      }
      PutFront(val);
    }

    /** The read half of PopFront, on a non-empty deque: the element at head is returned,
        its slot zeroed, and head advances. */
    method TakeFront() returns (val: T)
      requires Valid() && len > 0
      modifies this, buf
      ensures Valid() && buf == old(buf)
      ensures val == old(Contents)[0] && Contents == old(Contents)[1..]
    {
      var cap := buf.Length;
      ghost var s := buf[..];
      RingPopFront(s, head, Contents, zero);
      ModOfRange(head + 1, cap);
      var next := (head + 1) % (mask + 1);
      assert next == Slot(head, 1, cap);
      val := buf[head];
      buf[head] := zero;
      assert buf[..] == s[head := zero];
      head, len := next, len - 1;
      Contents := Contents[1..];
    }

    /** PopFront: on an empty deque (zero, false) and no change; otherwise the first
        element and true, with that element removed, its slot zeroed, and the buffer
        shrunk when it becomes at most a quarter full. */
    method PopFront() returns (val: T, ok: bool)
      requires Valid()
      modifies this, buf
      ensures Valid()
      ensures ok <==> old(len) != 0
      ensures !ok ==> val == zero && Contents == old(Contents) && buf == old(buf) && unchanged(buf)
      ensures ok ==> val == old(Contents)[0] && Contents == old(Contents)[1..]
      ensures ok ==> buf.Length == if old(buf.Length) > MinCapacity && (old(len) - 1) * 4 <= old(buf.Length)
                                   then old(buf.Length) / 2 else old(buf.Length)
    {
      if len == 0 {
        return zero, false;
      }
      val := TakeFront();
      Shrink();
      return val, true;
    }

    /** The read half of PopBack, on a non-empty deque: tail steps back one slot, and the
        element there is returned and its slot zeroed. */
    method TakeBack() returns (val: T)
      requires Valid() && len > 0
      modifies this, buf
      ensures Valid() && buf == old(buf)
      ensures val == old(Contents)[old(len) - 1] && Contents == old(Contents)[..old(len) - 1]
    {
      var cap := buf.Length;
      ModOfRange(tail - 1, cap);
      ghost var s := buf[..];
      RingPopBack(s, head, Contents, zero);
      tail := (tail - 1) % (mask + 1);
      assert tail == Slot(head, len - 1, cap);
      val := buf[tail];
      buf[tail] := zero;
      assert buf[..] == s[tail := zero];
      len := len - 1;
      Contents := Contents[..len];
    }

    /** PopBack: on an empty deque (zero, false) and no change; otherwise the last element
        and true, with that element removed, its slot zeroed, and the buffer shrunk when it
        becomes at most a quarter full. */
    method PopBack() returns (val: T, ok: bool)
      requires Valid()
      modifies this, buf
      ensures Valid()
      ensures ok <==> old(len) != 0
      ensures !ok ==> val == zero && Contents == old(Contents) && buf == old(buf) && unchanged(buf)
      ensures ok ==> val == old(Contents)[old(len) - 1] && Contents == old(Contents)[..old(len) - 1]
      ensures ok ==> buf.Length == if old(buf.Length) > MinCapacity && (old(len) - 1) * 4 <= old(buf.Length)
                                   then old(buf.Length) / 2 else old(buf.Length)
    {
      if len == 0 {
        return zero, false;
      }
      val := TakeBack();
      Shrink();
      return val, true;
    }

    /** Front: the first element and true, or (zero, false) when empty; nothing changes. */
    method Front() returns (val: T, ok: bool)
      requires Valid()
      ensures ok <==> |Contents| != 0
      ensures ok ==> val == Contents[0]
      ensures !ok ==> val == zero
    {
      if len == 0 {
        return zero, false;
      }
      assert Slot(head, 0, buf.Length) == head;
      return buf[head], true;
    }

    /** Back: the last element and true, or (zero, false) when empty; nothing changes. */
    method Back() returns (val: T, ok: bool)
      requires Valid()
      ensures ok <==> |Contents| != 0
      ensures ok ==> val == Contents[|Contents| - 1]
      ensures !ok ==> val == zero
    {
      if len == 0 {
        return zero, false;
      }
      var cap := buf.Length;
      ModOfRange(tail - 1, cap);
      var idx := (tail - 1) % (mask + 1);
      assert idx == Slot(head, len - 1, cap);
      return buf[idx], true;
    }

    /** Clear: zeroes every slot, empties the deque, and goes back to MinCapacity when the
        buffer was larger. */
    method Clear()
      requires Valid()
      modifies this, buf
      ensures Valid() && Contents == []
      ensures buf.Length == if old(buf.Length) > MinCapacity then MinCapacity else old(buf.Length)
      ensures forall i :: 0 <= i < buf.Length ==> buf[i] == zero
    {
      var i := 0;
      while i < buf.Length
        invariant 0 <= i <= buf.Length
        invariant buf == old(buf) && mask == old(mask)
        invariant forall j :: 0 <= j < i ==> buf[j] == zero
      {
        buf[i] := zero;
        i := i + 1;
      }
      head, tail, len := 0, 0, 0;
      Contents := [];
      if buf.Length > MinCapacity {
        SixteenIsPowerOfTwo();
        buf := new T[MinCapacity](_ => zero);
        mask := MinCapacity - 1;
      }
      RingEmpty(buf[..], zero);
    }
  }
}
