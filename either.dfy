/** Package either: a disjoint union of a left and a right value.  The Go struct keeps an
    `isLeft` flag and both fields; after construction the field of the inactive side holds
    the zero value, so the model keeps only the active side and takes the zero value as a parameter
    where Go returns the inactive field. */
module Either {

  datatype Either<L, R> = Left(left: L) | Right(right: R)

  /** IsLeft / IsRight: exactly one of the two holds. */
  function IsLeft<L, R>(e: Either<L, R>): (b: bool)
    ensures b <==> !e.Right?
  {
    e.Left?
  }

  function IsRight<L, R>(e: Either<L, R>): (b: bool)
    ensures b <==> e.Right?
  {
    !IsLeft(e)
  }

  /** The Left() accessor: the left field, which is the zero value on a Right. */
  function LeftValue<L, R>(e: Either<L, R>, zero: L): (v: L)
    ensures IsLeft(e) ==> v == e.left
    ensures IsRight(e) ==> v == zero
  {
    if e.Left? then e.left else zero
  }

  /** The Right() accessor: the right field, which is the zero value on a Left. */
  function RightValue<L, R>(e: Either<L, R>, zero: R): (v: R)
    ensures IsRight(e) ==> v == e.right
    ensures IsLeft(e) ==> v == zero
  {
    if e.Right? then e.right else zero
  }

  /** LeftOr: the left value on a Left, otherwise the fallback. */
  function LeftOr<L, R>(e: Either<L, R>, fallback: L): (v: L)
    ensures v == LeftValue(e, fallback)
  {
    if e.Left? then e.left else fallback
  }

  /** RightOr: the right value on a Right, otherwise the fallback. */
  function RightOr<L, R>(e: Either<L, R>, fallback: R): (v: R)
    ensures v == RightValue(e, fallback)
  {
    if !e.Left? then e.right else fallback
  }

  /** GetLeft: the left field together with the flag saying whether it is the active side. */
  function GetLeft<L, R>(e: Either<L, R>, zero: L): (r: (L, bool))
    ensures r.1 <==> IsLeft(e)
    ensures r.1 ==> r.0 == e.left
    ensures !r.1 ==> r.0 == zero
  {
    (LeftValue(e, zero), e.Left?)
  }

  /** GetRight: the right field together with the flag saying whether it is active. */
  function GetRight<L, R>(e: Either<L, R>, zero: R): (r: (R, bool))
    ensures r.1 <==> IsRight(e)
    ensures r.1 ==> r.0 == e.right
    ensures !r.1 ==> r.0 == zero
  {
    (RightValue(e, zero), !e.Left?)
  }

  /** Swap: the other side, carrying the same active value. */
  function Swap<L, R>(e: Either<L, R>): (s: Either<R, L>)
    ensures IsLeft(s) <==> IsRight(e)
    ensures IsLeft(e) ==> s == Right(e.left)
    ensures IsRight(e) ==> s == Left(e.right)
  {
    match e
    case Left(l) => Right(l)
    case Right(r) => Left(r)
  }

  /** MapLeft: applies fn to a left value; a Right is returned unchanged. */
  function MapLeft<L, R>(e: Either<L, R>, fn: L -> L): (r: Either<L, R>)
    ensures IsLeft(r) <==> IsLeft(e)
    ensures IsLeft(e) ==> r.left == fn(e.left)
    ensures IsRight(e) ==> r == e
  {
    if !e.Left? then e else Left(fn(e.left))
  }

  /** MapRight: applies fn to a right value; a Left is returned unchanged. */
  function MapRight<L, R>(e: Either<L, R>, fn: R -> R): (r: Either<L, R>)
    ensures IsLeft(r) <==> IsLeft(e)
    ensures IsRight(e) ==> r.right == fn(e.right)
    ensures IsLeft(e) ==> r == e
  {
    if e.Left? then e else Right(fn(e.right))
  }

  /** Map is an alias of MapRight. */
  function Map<L, R>(e: Either<L, R>, fn: R -> R): (r: Either<L, R>)
    ensures r == MapRight(e, fn)
  {
    MapRight(e, fn)
  }

  /** MapBothLeft: changes the left type; fn runs only on a Left. */
  function MapBothLeft<L, R, L2>(e: Either<L, R>, fn: L -> L2): (r: Either<L2, R>)
    ensures IsLeft(r) <==> IsLeft(e)
    ensures IsLeft(e) ==> r.left == fn(e.left)
    ensures IsRight(e) ==> r.right == e.right
  {
    if e.Left? then Left(fn(e.left)) else Right(e.right)
  }

  /** MapBothRight: changes the right type; fn runs only on a Right. */
  function MapBothRight<L, R, R2>(e: Either<L, R>, fn: R -> R2): (r: Either<L, R2>)
    ensures IsLeft(r) <==> IsLeft(e)
    ensures IsRight(e) ==> r.right == fn(e.right)
    ensures IsLeft(e) ==> r.left == e.left
  {
    if !e.Left? then Right(fn(e.right)) else Left(e.left)
  }

  /** MapBoth: applies leftFn to a Left and rightFn to a Right, never both. */
  function MapBoth<L, R, L2, R2>(e: Either<L, R>, leftFn: L -> L2, rightFn: R -> R2): (r: Either<L2, R2>)
    ensures IsLeft(r) <==> IsLeft(e)
    ensures IsLeft(e) ==> r.left == leftFn(e.left)
    ensures IsRight(e) ==> r.right == rightFn(e.right)
  {
    if e.Left? then Left(leftFn(e.left)) else Right(rightFn(e.right))
  }

  /** Fold: the result of the function for the active side. */
  function Fold<L, R, T>(e: Either<L, R>, leftFn: L -> T, rightFn: R -> T): (t: T)
    ensures IsLeft(e) ==> t == leftFn(e.left)
    ensures IsRight(e) ==> t == rightFn(e.right)
  {
    if e.Left? then leftFn(e.left) else rightFn(e.right)
  }

  /** FlatMap: a Left is propagated with the same value; a Right is replaced by fn's result. */
  function FlatMap<L, R, R2>(e: Either<L, R>, fn: R -> Either<L, R2>): (r: Either<L, R2>)
    ensures IsLeft(e) ==> r == Left(e.left)
    ensures IsRight(e) ==> r == fn(e.right)
  {
    if e.Left? then Left(e.left) else fn(e.right)
  }

  /** OrElse: e itself when it is a Right, otherwise the alternative. */
  function OrElse<L, R>(e: Either<L, R>, alternative: Either<L, R>): (r: Either<L, R>)
    ensures IsRight(e) ==> r == e
    ensures IsLeft(e) ==> r == alternative
    ensures IsRight(r) <==> IsRight(e) || IsRight(alternative)
  {
    if !e.Left? then e else alternative
  }

  // ---------------------------------------------------------------- laws

  /** Swap is an involution. */
  lemma SwapInvolution<L, R>(e: Either<L, R>)
    ensures Swap(Swap(e)) == e
  {
  }

  /** Swapping exchanges the roles of MapLeft and MapRight. */
  lemma SwapMapLeft<L, R>(e: Either<L, R>, fn: L -> L)
    ensures Swap(MapLeft(e, fn)) == MapRight(Swap(e), fn)
  {
  }

  /** MapBoth is Fold into the two constructors, and MapBoth with one identity is the
      one-sided map. */
  lemma MapBothIsFold<L, R, L2, R2>(e: Either<L, R>, f: L -> L2, g: R -> R2)
    ensures MapBoth(e, f, g) == Fold(e, (l: L) => Left(f(l)), (r: R) => Right(g(r)))
  {
  }

  lemma MapBothIdentity<L, R>(e: Either<L, R>, f: L -> L)
    ensures MapBoth(e, f, (r: R) => r) == MapLeft(e, f)
  {
  }

  /** FlatMap with Right as continuation is the identity; folding a Swap swaps the roles. */
  lemma FlatMapRightUnit<L, R>(e: Either<L, R>)
    ensures FlatMap(e, (r: R) => Right(r)) == e
  {
  }

  lemma FoldSwap<L, R, T>(e: Either<L, R>, f: L -> T, g: R -> T)
    ensures Fold(Swap(e), g, f) == Fold(e, f, g)
  {
  }
}
