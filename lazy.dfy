/** Package lazy: a value computed at most once, on first access.  A Lazy is used through a
    pointer and its fields change when it is forced, so it is a class.  The sync.Once is the
    flag `fired`; the supplier is a possibly-nil func value. */
module Lazy {
  import opened GoTypes

  class Lazy<T> {
    /** Whether the sync.Once has run its function. */
    var fired: bool
    var supplier: Pointer<() -> T>
    var value: T
    var computed: bool
    /** How many times the supplier has been called. */
    ghost var supplierCalls: nat

    /** The supplier runs at most once, and only from the once-guarded block; once that
        block has run the value counts as computed. */
    ghost predicate Valid()
      reads this
    {
      supplierCalls <= 1 &&
      (supplierCalls == 1 ==> fired && supplier.PointerTo?) &&
      (fired ==> computed)
    }

    /** The value Get returns, now or later: the stored value once the once-block has run or
        when there is no supplier, otherwise what the supplier will produce. */
    function Forced(): T
      reads this
    {
      if fired || supplier.NilPointer? then value else supplier.target()
    }

    /** A function value that yields Forced() without reading the object again: what a
        derived Lazy captures. */
    function Thunk(): (t: () -> T)
      reads this
      ensures t() == Forced()
    {
      if fired || supplier.NilPointer? then
        var v := value;
        () => v
      else supplier.target
    }

    /** New: not yet computed; the value field holds T's zero value until forced. */
    constructor New(supplier: Pointer<() -> T>, zero: T)
      ensures Valid() && !fired && !computed && supplierCalls == 0
      ensures this.supplier == supplier && value == zero
    {
      this.supplier := supplier;
      value := zero;
      computed := false;
      fired := false;
      supplierCalls := 0;
    }

    /** Of: already computed, no supplier; forcing it leaves the value as it is. */
    constructor Of(value: T)
      ensures Valid() && !fired && computed && supplierCalls == 0
      ensures supplier == NilPointer && this.value == value && Forced() == value
    {
      this.value := value;
      supplier := NilPointer;
      computed := true;
      fired := false;
      supplierCalls := 0;
    }

    /** The once-guarded block of Get and IsComputed: the first time, call the supplier if
        there is one and mark the value computed; every later time, do nothing. */
    method Force()
      requires Valid()
      modifies this
      ensures Valid() && fired && computed
      ensures value == old(Forced()) && Forced() == old(Forced())
      ensures supplier == old(supplier)
      ensures old(fired) ==> value == old(value) && computed == old(computed)
      ensures supplierCalls == if old(fired) || supplier.NilPointer? then old(supplierCalls) else 1
    {
      if !fired {
        fired := true;
        if supplier.PointerTo? {
          value := supplier.target();
          supplierCalls := supplierCalls + 1;
        }
        computed := true;
      }
    }

    /** Get: the forced value; every call returns the same value and the supplier runs at
        most once over all calls (Valid). */
    method Get() returns (v: T)
      requires Valid()
      modifies this
      ensures Valid() && fired && computed
      ensures v == old(Forced()) && Forced() == old(Forced())
      ensures supplier == old(supplier)
      ensures old(fired) ==> value == old(value) && supplierCalls == old(supplierCalls)
    {
      Force();
      v := value;
    }

    /** IsComputed as written: it runs the once-block itself, so it forces the value and
        reports true on every call, even on a Lazy that nobody has read. */
    method IsComputed() returns (b: bool)
      requires Valid()
      modifies this
      ensures b
      ensures Valid() && fired && computed
      ensures Forced() == old(Forced()) && supplier == old(supplier)
    {
      var isComputed := !fired;
      Force();
      b := !isComputed || computed;
    }

    /** IsComputed as documented: reports whether the value has been computed, without
        forcing it; true after any Get, and for a Lazy made by Of. */
    method IsComputedIntended() returns (b: bool)
      requires Valid()
      ensures b <==> computed
      ensures fired ==> b
    {
      b := computed;
    }
  }

  /** A Lazy that has never been read: IsComputed as written reports true where the
      documented answer is false. */
  method FreshLazyReportsComputed() returns (asWritten: bool, intended: bool)
    ensures asWritten && !intended
  {
    var l := new Lazy.New(PointerTo(() => 42), 0);
    intended := l.IsComputedIntended();
    asWritten := l.IsComputed();
  }

  /** Map: a new, unforced Lazy whose value is fn of l's value. */
  method Map<T, U>(l: Lazy<T>, fn: T -> U, zero: U) returns (r: Lazy<U>)
    ensures fresh(r) && r.Valid() && !r.computed
    ensures r.Forced() == fn(l.Forced())
  {
    var t := l.Thunk();
    r := new Lazy.New(PointerTo(() => fn(t())), zero);
  }

  /** FlatMap: a new, unforced Lazy whose value is that of the Lazy fn returns for l's
      value. */
  method FlatMap<T, U>(l: Lazy<T>, fn: T -> Lazy<U>, zero: U) returns (r: Lazy<U>)
    ensures fresh(r) && r.Valid() && !r.computed
    ensures r.Forced() == fn(l.Forced()).Forced()
  {
    var inner := fn(l.Thunk()());
    var t := inner.Thunk();
    r := new Lazy.New(PointerTo(t), zero);
  }

  /** Filter: a new, unforced Lazy whose value is l's value when it satisfies the
      predicate, and T's zero value otherwise. */
  method Filter<T>(l: Lazy<T>, pred: T -> bool, zero: T) returns (r: Lazy<T>)
    ensures fresh(r) && r.Valid() && !r.computed
    ensures pred(l.Forced()) ==> r.Forced() == l.Forced()
    ensures !pred(l.Forced()) ==> r.Forced() == zero
  {
    var t := l.Thunk();
    r := new Lazy.New(PointerTo(() => if pred(t()) then t() else zero), zero);
  }

  /** OrElse: a new, unforced Lazy whose value is l's value when it satisfies the
      predicate, and the alternative's value otherwise. */
  method OrElse<T>(l: Lazy<T>, pred: T -> bool, alternative: Lazy<T>, zero: T) returns (r: Lazy<T>)
    ensures fresh(r) && r.Valid() && !r.computed
    ensures pred(l.Forced()) ==> r.Forced() == l.Forced()
    ensures !pred(l.Forced()) ==> r.Forced() == alternative.Forced()
  {
    var t := l.Thunk();
    var a := alternative.Thunk();
    r := new Lazy.New(PointerTo(() => if pred(t()) then t() else a()), zero);
  }

  /** Get is idempotent: a second Get returns what the first did and does not call the
      supplier again. */
  method GetTwice<T>(l: Lazy<T>) returns (first: T, second: T)
    requires l.Valid()
    modifies l
    ensures first == second == old(l.Forced())
    ensures l.supplierCalls <= 1
  {
    first := l.Get();
    ghost var calls := l.supplierCalls;
    second := l.Get();
    assert l.supplierCalls == calls;
  }
}
