/** Package optional: a container with three states, present (Some), absent (None) and an
    explicit null (Nil).  Go's value receiver methods become functions on the datatype;
    where Go returns the zero value of T, the model takes that zero value as a parameter. */
module Optional {
  import opened GoTypes

  /** The state field of the Go struct together with the value it guards.  A Go Option built
      by the package's constructors only ever carries a non-zero value when it is present. */
  datatype Option<T> = None | Some(value: T) | Nil

  // ---------------------------------------------------------------- constructors

  /** FromPtr: nil gives None, any other pointer gives Some of the pointee. */
  function FromPtr<T>(ptr: Pointer<T>): (o: Option<T>)
    ensures o.Some? <==> ptr.PointerTo?
    ensures o.Some? ==> o.value == ptr.target
    ensures !o.Nil?
  {
    match ptr
    case NilPointer => None
    case PointerTo(v) => Some(v)
  }

  /** FromZero: the zero value of T gives None, any other value gives Some. */
  function FromZero<T(==)>(value: T, zero: T): (o: Option<T>)
    ensures o == None <==> value == zero
    ensures o != None ==> o == Some(value)
  {
    if value == zero then None else Some(value)
  }

  /** FromPair: the comma-ok idiom; Some exactly when ok. */
  function FromPair<T>(value: T, ok: bool): (o: Option<T>)
    ensures IsPresent(o) <==> ok
    ensures ok ==> o.value == value
    ensures !ok ==> o == None
  {
    if !ok then None else Some(value)
  }

  // ---------------------------------------------------------------- queries

  /** IsPresent: only the present state. */
  function IsPresent<T>(o: Option<T>): (b: bool)
    ensures b <==> StateOf(o) == 1
  {
    o.Some?
  }

  /** IsAbsent AS WRITTEN: `state != stateAbsent`, so it holds for Some and Nil and fails for
      None, the opposite of what its doc comment says. */
  function IsAbsent<T>(o: Option<T>): (b: bool)
    ensures b <==> StateOf(o) != 0
  {
    !o.None?
  }

  /** The complement of IsPresent, as IsAbsent's doc comment describes it. */
  function IsAbsentIntended<T>(o: Option<T>): (b: bool)
    ensures b <==> !IsPresent(o)
  {
    !o.Some?
  }

  /** IsZero: the Option equals Go's zero Option, which is the absent state. */
  function IsZero<T>(o: Option<T>): (b: bool)
    ensures b <==> StateOf(o) == 0
    ensures b ==> IsAbsentIntended(o)
  {
    o.None?
  }

  /** Get returns the stored value even when the Option is not present; for None and Nil
      that stored value is the zero value of T. */
  function Get<T>(o: Option<T>, zero: T): (v: T)
    ensures IsPresent(o) ==> v == o.value
    ensures !IsPresent(o) ==> v == zero
  {
    if o.Some? then o.value else zero
  }

  /** MustGet panics unless the Option is present. */
  function MustGet<T>(o: Option<T>): (v: T)
    requires IsPresent(o)
    ensures Some(v) == o
  {
    o.value
  }

  /** GetErr distinguishes the two non-present states by their error message. */
  function GetErr<T>(o: Option<T>, zero: T): (r: (T, Error))
    ensures o.Some? ==> r == (o.value, NilError)
    ensures o.Nil? ==> r == (zero, Error("value is nil"))
    ensures o.None? ==> r == (zero, Error("value is absent"))
  {
    match o
    case Nil => (zero, Error("value is nil"))
    case None => (zero, Error("value is absent"))
    case Some(v) => (v, NilError)
  }

  /** OrElse: the value exactly when present, otherwise the fallback. */
  function OrElse<T>(o: Option<T>, fallback: T): (v: T)
    ensures IsPresent(o) ==> v == o.value
    ensures !IsPresent(o) ==> v == fallback
  {
    if !o.Some? then fallback else o.value
  }

  /** OrElseGet: the value exactly when present, otherwise what the supplier returns. */
  function OrElseGet<T>(o: Option<T>, supplier: () -> T): (v: T)
    ensures IsPresent(o) ==> v == o.value
    ensures !IsPresent(o) ==> v == supplier()
  {
    if !o.Some? then supplier() else o.value
  }

  /** OrElseErr: (value, nil) when present, otherwise (zero, the supplied error). */
  function OrElseErr<T>(o: Option<T>, supplier: () -> Error, zero: T): (r: (T, Error))
    ensures IsPresent(o) ==> r == (o.value, NilError)
    ensures !IsPresent(o) ==> r == (zero, supplier())
  {
    if !o.Some? then (zero, supplier()) else (o.value, NilError)
  }

  /** OrEmpty: the value when present, otherwise the zero value. */
  function OrEmpty<T>(o: Option<T>, zero: T): (v: T)
    ensures v == OrElse(o, zero)
  {
    if !o.Some? then zero else o.value
  }

  /** OrPanic panics (with the given message) unless the Option is present. */
  function OrPanic<T>(o: Option<T>, message: string): (v: T)
    requires IsPresent(o)
    ensures v == o.value
  {
    o.value
  }

  /** Ptr: a pointer to (a copy of) the value when present, otherwise nil. */
  function Ptr<T>(o: Option<T>): (p: Pointer<T>)
    ensures p.PointerTo? <==> IsPresent(o)
    ensures p.PointerTo? ==> p.target == o.value
  {
    if !o.Some? then NilPointer else PointerTo(o.value)
  }

  // ---------------------------------------------------------------- transformations

  /** Filter: a non-present Option is returned unchanged (Nil stays Nil); a present value
      that fails the predicate gives None. */
  function Filter<T>(o: Option<T>, pred: T -> bool): (r: Option<T>)
    ensures !IsPresent(o) ==> r == o
    ensures IsPresent(o) && pred(o.value) ==> r == o
    ensures IsPresent(o) && !pred(o.value) ==> r == None
  {
    if !o.Some? then o
    else if pred(o.value) then o
    else None
  }

  /** Map: Some(mapper(v)) for a present value, None for both None and Nil. */
  function Map<T, U>(o: Option<T>, mapper: T -> U): (r: Option<U>)
    ensures IsPresent(r) <==> IsPresent(o)
    ensures IsPresent(o) ==> r.value == mapper(o.value)
    ensures !IsPresent(o) ==> r == None
  {
    if !o.Some? then None else Some(mapper(o.value))
  }

  /** FlatMap: mapper(v) for a present value, None for both None and Nil. */
  function FlatMap<T, U>(o: Option<T>, mapper: T -> Option<U>): (r: Option<U>)
    ensures IsPresent(o) ==> r == mapper(o.value)
    ensures !IsPresent(o) ==> r == None
  {
    if !o.Some? then None else mapper(o.value)
  }

  /** TryMap: like Map, but a mapper that returns a non-nil error gives None. */
  function TryMap<T, U>(o: Option<T>, mapper: T -> (U, Error)): (r: Option<U>)
    ensures IsPresent(r) <==> IsPresent(o) && mapper(o.value).1 == NilError
    ensures IsPresent(r) ==> r.value == mapper(o.value).0
    ensures !IsPresent(r) ==> r == None
  {
    if !o.Some? then None
    else
      var (result, err) := mapper(o.value);
      if err != NilError then None else Some(result)
  }

  // ---------------------------------------------------------------- combinators

  /** And: None unless o is present, otherwise other. */
  function And<T>(o: Option<T>, other: Option<T>): (r: Option<T>)
    ensures IsPresent(o) ==> r == other
    ensures !IsPresent(o) ==> r == None
  {
    if !o.Some? then None else other
  }

  /** Or AS WRITTEN: returns o when o is NOT present and other when it is, the reverse of
      what its doc comment promises (keep o when it holds a value). */
  function Or<T>(o: Option<T>, other: Option<T>): (r: Option<T>)
    ensures !IsPresent(o) ==> r == o
    ensures IsPresent(o) ==> r == other
  {
    if !o.Some? then o else other
  }

  /** OrElseOption AS WRITTEN: the same inversion as Or, with other supplied lazily. */
  function OrElseOption<T>(o: Option<T>, supplier: () -> Option<T>): (r: Option<T>)
    ensures !IsPresent(o) ==> r == o
    ensures IsPresent(o) ==> r == supplier()
  {
    if !o.Some? then o else supplier()
  }

  /** Or as its doc comment describes it: o if it contains a value, otherwise other. */
  function OrIntended<T>(o: Option<T>, other: Option<T>): (r: Option<T>)
    ensures IsPresent(r) <==> IsPresent(o) || IsPresent(other)
    ensures IsPresent(o) ==> r == o
    ensures !IsPresent(o) ==> r == other
  {
    if o.Some? then o else other
  }

  /** OrElseOption as its doc comment describes it. */
  function OrElseOptionIntended<T>(o: Option<T>, supplier: () -> Option<T>): (r: Option<T>)
    ensures IsPresent(o) ==> r == o
    ensures !IsPresent(o) ==> r == supplier()
  {
    if o.Some? then o else supplier()
  }

  /** Xor: Some exactly when exactly one side is present, and then that side. */
  function Xor<T>(o: Option<T>, other: Option<T>): (r: Option<T>)
    ensures IsPresent(r) <==> (IsPresent(o) != IsPresent(other))
    ensures IsPresent(o) && !IsPresent(other) ==> r == o
    ensures !IsPresent(o) && IsPresent(other) ==> r == other
    ensures !IsPresent(r) ==> r == None
  {
    if o.Some? && !other.Some? then o
    else if !o.Some? && other.Some? then other
    else None
  }

  /** Equal: false when the states differ; otherwise the comparison of the stored values,
      which for two None (or two Nil) compares the zero value with itself. */
  function Equal<T>(o: Option<T>, other: Option<T>, eq: (T, T) -> bool, zero: T): (b: bool)
    ensures StateOf(o) != StateOf(other) ==> !b
    ensures o.Some? && other.Some? ==> (b <==> eq(o.value, other.value))
    ensures !o.Some? && StateOf(o) == StateOf(other) ==> (b <==> eq(zero, zero))
  {
    if StateOf(o) != StateOf(other) then false
    else eq(Get(o, zero), Get(other, zero))
  }

  /** The Go `state` field: 0 absent, 1 present, 2 nil. */
  function StateOf<T>(o: Option<T>): (s: int)
    ensures 0 <= s <= 2
    ensures s == 1 <==> o.Some?
  {
    match o
    case None => 0
    case Some(_) => 1
    case Nil => 2
  }

  // ---------------------------------------------------------------- laws

  /** IsAbsent as written disagrees with its comment on every Option that is not Nil. */
  lemma IsAbsentInverted<T>(v: T)
    ensures IsAbsent(Some(v)) && IsPresent(Some(v))
    ensures !IsAbsent<T>(None) && !IsPresent<T>(None)
    ensures IsAbsent<T>(Nil) && IsAbsentIntended<T>(Nil)
  {
  }

  /** The intended IsAbsent is exactly the negation of IsPresent. */
  lemma IsAbsentIntendedComplement<T>(o: Option<T>)
    ensures IsAbsentIntended(o) <==> !IsPresent(o)
  {
  }

  /** Or as written throws away a present receiver and keeps an absent one. */
  lemma OrInverted(a: int, b: int)
    ensures Or(Some(a), Some(b)) == Some(b)
    ensures Or(None, Some(b)) == None
    ensures OrIntended(Some(a), Some(b)) == Some(a)
    ensures OrIntended(None, Some(b)) == Some(b)
  {
  }

  /** FromPair and the (value, ok) view of an Option are inverse to each other. */
  lemma FromPairRoundTrip<T>(o: Option<T>, zero: T)
    requires !o.Nil?
    ensures FromPair(Get(o, zero), IsPresent(o)) == o
  {
  }

  /** Map respects identity and composition (the functor laws). */
  lemma MapIdentity<T>(o: Option<T>)
    requires !o.Nil?
    ensures Map(o, (x: T) => x) == o
  {
  }

  lemma MapCompose<T, U, W>(o: Option<T>, f: T -> U, g: U -> W)
    ensures Map(Map(o, f), g) == Map(o, (x: T) => g(f(x)))
  {
  }

  /** FlatMap with Some as mapper is Map with the identity, and FlatMap of a composed
      mapper equals two FlatMaps (the monad laws, for present-or-None options). */
  lemma FlatMapUnit<T>(o: Option<T>)
    ensures FlatMap(o, (x: T) => Some(x)) == Map(o, (x: T) => x)
  {
  }

  lemma FlatMapAssociative<T, U, W>(o: Option<T>, f: T -> Option<U>, g: U -> Option<W>)
    ensures FlatMap(FlatMap(o, f), g) == FlatMap(o, (x: T) => FlatMap(f(x), g))
  {
  }

  /** Xor is symmetric in the presence of its result, and x Xor x is never present. */
  lemma XorLaws<T>(a: Option<T>, b: Option<T>)
    ensures IsPresent(Xor(a, b)) == IsPresent(Xor(b, a))
    ensures Xor(a, a) == None
  {
  }

  /** Filter never creates a value: what it returns is o or None. */
  lemma FilterIdempotent<T>(o: Option<T>, p: T -> bool)
    ensures Filter(Filter(o, p), p) == Filter(o, p)
  {
  }

  /** Equal is reflexive whenever eq is. */
  lemma EqualReflexive<T>(o: Option<T>, eq: (T, T) -> bool, zero: T)
    requires forall x :: eq(x, x)
    ensures Equal(o, o, eq, zero)
  {
  }
}
