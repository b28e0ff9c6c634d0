/** Package result: a value paired with a Go `error`; the Result is Ok exactly when the
    error is nil.  The Go struct is kept as it is, so `Err(nil)` is an Ok holding the zero
    value, as in the source. */
module Result {
  import opened GoTypes
  import Optional

  datatype Result<T> = Result(value: T, err: Error)

  /** Ok(v): value v and a nil error. */
  function Ok<T>(value: T): (r: Result<T>)
    ensures IsOk(r) && r.value == value
  {
    Result(value, NilError)
  }

  /** Err(e): the zero value with error e (which may itself be nil). */
  function Err<T>(err: Error, zero: T): (r: Result<T>)
    ensures IsOk(r) <==> err == NilError
    ensures r.value == zero && r.err == err
  {
    Result(zero, err)
  }

  /** From: a (value, error) pair; Ok(value) when the error is nil, otherwise Err(error). */
  function From<T>(value: T, err: Error, zero: T): (r: Result<T>)
    ensures err == NilError ==> r == Ok(value)
    ensures err != NilError ==> r == Err(err, zero) && IsErr(r)
  {
    if err != NilError then Err(err, zero) else Ok(value)
  }

  /** IsOk / IsErr: exactly one holds, and an Err carries an error value. */
  function IsOk<T>(r: Result<T>): (b: bool)
    ensures b <==> !IsErr(r)
  {
    r.err == NilError
  }

  function IsErr<T>(r: Result<T>): (b: bool)
    ensures b <==> r.err.Error?
  {
    r.err != NilError
  }

  /** Unwrap panics on an Err, so the caller must know the Result is Ok. */
  function Unwrap<T>(r: Result<T>): (v: T)
    requires IsOk(r)
    ensures Ok(v) == r
  {
    r.value
  }

  /** UnwrapOr: the value when Ok, otherwise the default. */
  function UnwrapOr<T>(r: Result<T>, defaultVal: T): (v: T)
    ensures IsOk(r) ==> v == r.value
    ensures IsErr(r) ==> v == defaultVal
  {
    if r.err != NilError then defaultVal else r.value
  }

  /** UnwrapOrElse: the value when Ok, otherwise what fn computes. */
  function UnwrapOrElse<T>(r: Result<T>, fn: () -> T): (v: T)
    ensures IsOk(r) ==> v == r.value
    ensures IsErr(r) ==> v == fn()
  {
    if r.err != NilError then fn() else r.value
  }

  /** ToPair: the (value, error) pair that From consumes. */
  function ToPair<T>(r: Result<T>): (p: (T, Error))
    ensures IsOk(r) <==> p.1 == NilError
    ensures p.0 == r.value && p.1 == r.err
  {
    (r.value, r.err)
  }

  /** Ptr: a pointer to the value when Ok, otherwise nil. */
  function Ptr<T>(r: Result<T>): (p: Pointer<T>)
    ensures p.PointerTo? <==> IsOk(r)
    ensures p.PointerTo? ==> p.target == r.value
  {
    if r.err != NilError then NilPointer else PointerTo(r.value)
  }

  /** Or: r when it is Ok, otherwise the other Result. */
  function Or<T>(r: Result<T>, other: Result<T>): (s: Result<T>)
    ensures IsOk(r) ==> s == r
    ensures IsErr(r) ==> s == other
    ensures IsOk(s) <==> IsOk(r) || IsOk(other)
  {
    if r.err == NilError then r else other
  }

  /** OrElseResult: r when it is Ok, otherwise the Result fn computes. */
  function OrElseResult<T>(r: Result<T>, fn: () -> Result<T>): (s: Result<T>)
    ensures IsOk(r) ==> s == r
    ensures IsErr(r) ==> s == fn()
  {
    if r.err == NilError then r else fn()
  }

  /** Filter: an Err is returned unchanged; an Ok whose value fails the predicate becomes
      Err(ifFalseErr); an Ok that passes is returned unchanged. */
  function Filter<T>(r: Result<T>, pred: T -> bool, ifFalseErr: Error, zero: T): (s: Result<T>)
    ensures IsErr(r) ==> s == r
    ensures IsOk(r) && pred(r.value) ==> s == r
    ensures IsOk(r) && !pred(r.value) ==> s == Err(ifFalseErr, zero)
  {
    if r.err != NilError then r
    else if !pred(r.value) then Err(ifFalseErr, zero)
    else r
  }

  /** Option: Some(value) for an Ok, None for an Err (never Nil). */
  function ToOption<T>(r: Result<T>): (o: Optional.Option<T>)
    ensures Optional.IsPresent(o) <==> IsOk(r)
    ensures IsOk(r) ==> o.value == r.value
    ensures IsErr(r) ==> o == Optional.None
  {
    if r.err != NilError then Optional.None else Optional.Some(r.value)
  }

  /** Recover: the value when Ok, otherwise the handler applied to the error. */
  function Recover<T>(r: Result<T>, fn: Error -> T): (v: T)
    ensures IsOk(r) ==> v == r.value
    ensures IsErr(r) ==> v == fn(r.err)
  {
    if r.err != NilError then fn(r.err) else r.value
  }

  /** Void: a Result that carries only an error. */
  datatype Void = Void(err: Error)

  function OkVoid(): (v: Void)
    ensures v.err == NilError
  {
    Void(NilError)
  }

  function ErrVoid(err: Error): (v: Void)
    ensures v.err == err
  {
    Void(err)
  }

  /** Void.ToResult: Ok of the empty struct, or Err with the same error. */
  function ToResult(v: Void): (r: Result<()>)
    ensures IsOk(r) <==> v.err == NilError
    ensures r.err == v.err
  {
    if v.err != NilError then Err(v.err, ()) else Ok(())
  }

  // ---------------------------------------------------------------- laws

  /** From and ToPair are inverse on the pairs Go code produces. */
  lemma FromToPair<T>(r: Result<T>, zero: T)
    requires IsOk(r) || r.value == zero
    ensures From(ToPair(r).0, ToPair(r).1, zero) == r
  {
  }

  lemma ToPairFrom<T>(v: T, zero: T)
    ensures ToPair(From(v, NilError, zero)) == (v, NilError)
  {
  }

  /** Err(nil) is Ok with the zero value. */
  lemma ErrNilIsOk<T>(zero: T)
    ensures IsOk(Err(NilError, zero)) && Unwrap(Err(NilError, zero)) == zero
  {
  }

  /** UnwrapOr is Option().OrElse, and Or is associative. */
  lemma UnwrapOrIsOptionOrElse<T>(r: Result<T>, d: T)
    ensures UnwrapOr(r, d) == Optional.OrElse(ToOption(r), d)
  {
  }

  lemma OrAssociative<T>(a: Result<T>, b: Result<T>, c: Result<T>)
    ensures Or(Or(a, b), c) == Or(a, Or(b, c))
  {
  }

  /** Filtering twice with the same predicate is filtering once. */
  lemma FilterIdempotent<T>(r: Result<T>, p: T -> bool, e: Error, zero: T)
    ensures Filter(Filter(r, p, e, zero), p, e, zero) == Filter(r, p, e, zero)
  {
  }
}
