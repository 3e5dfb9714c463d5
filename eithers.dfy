/** The binary disjoint union `Either` and the members of its two variants,
    `Left` (Left.kt) and `Right` (Right.kt). */
module Eithers {
  import opened Outcomes
  import opened Options

  /** Exactly one side holds a value. */
  datatype Either<L, R> = Left(left: L) | Right(right: R)

  /** Thrown when `right` is read on a `Left`; it carries the held left value. */
  datatype AccessRightOnLeftException<L> = AccessRightOnLeftException(held: L)
  {
    function Message(show: L -> string): string
    {
      "Cannot get `right` on Left(" + show(held) + ")"
    }
  }

  /** Thrown when `left` is read on a `Right`; it carries the held right value. */
  datatype AccessLeftOnRightException<R> = AccessLeftOnRightException(held: R)
  {
    function Message(show: R -> string): string
    {
      "Cannot get `left` on Right(" + show(held) + ")"
    }
  }

  /** `left` (and `component1()`) of a `Left`: the constructor argument. */
  function LeftValue<L, R>(e: Either<L, R>): (x: L)
    requires e.Left?
    ensures e == Left(x)
  {
    e.left
  }

  /** `right` (and `component1()`) of a `Right`: the constructor argument. */
  function RightValue<L, R>(e: Either<L, R>): (y: R)
    requires e.Right?
    ensures e == Right(y)
  {
    e.right
  }

  /** The `left` getter on any either: on a `Right` it throws. */
  function LeftOrFail<L, R>(e: Either<L, R>): (r: Result<L, AccessLeftOnRightException<R>>)
    ensures r.Ok? <==> e.Left?
    ensures r.Ok? ==> e == Left(r.value)
    ensures r.Err? ==> e == Right(r.error.held)
  {
    match e
    case Left(x) => Ok(x)
    case Right(y) => Err(AccessLeftOnRightException(y))
  }

  /** The `right` getter on any either: on a `Left` it throws. */
  function RightOrFail<L, R>(e: Either<L, R>): (r: Result<R, AccessRightOnLeftException<L>>)
    ensures r.Ok? <==> e.Right?
    ensures r.Ok? ==> e == Right(r.value)
    ensures r.Err? ==> e == Left(r.error.held)
  {
    match e
    case Left(x) => Err(AccessRightOnLeftException(x))
    case Right(y) => Ok(y)
  }

  /** `invert()`: swaps the side, keeps the value. */
  function Invert<L, R>(e: Either<L, R>): (r: Either<R, L>)
    ensures r.Left? <==> e.Right?
    ensures e.Left? ==> r.right == e.left
    ensures e.Right? ==> r.left == e.right
  {
    match e
    case Left(x) => Right(x)
    case Right(y) => Left(y)
  }

  /** `leftAsOption()`: `Value(left)` on a `Left`, `Empty` on a `Right`. */
  function LeftAsOption<L, R>(e: Either<L, R>): (o: Option<L>)
    ensures o.Some? <==> e.Left?
    ensures o.Some? ==> e == Left(o.value)
  {
    match e
    case Left(x) => Value(x)
    case Right(_) => Empty()
  }

  /** `rightAsOption()`: `Empty` on a `Left`, `Value(right)` on a `Right`. */
  function RightAsOption<L, R>(e: Either<L, R>): (o: Option<R>)
    ensures o.Some? <==> e.Right?
    ensures o.Some? ==> e == Right(o.value)
  {
    match e
    case Left(_) => Empty()
    case Right(y) => Value(y)
  }

  /** `leftOrNull`: the left value, or `null` on a `Right`. */
  function LeftOrNull<L, R>(e: Either<L, R>): (r: Nullable<L>)
    ensures r.NonNull? <==> e.Left?
    ensures r.NonNull? ==> e == Left(r.get)
  {
    match e
    case Left(x) => NonNull(x)
    case Right(_) => Null
  }

  /** `rightOrNull`: the right value, or `null` on a `Left`. */
  function RightOrNull<L, R>(e: Either<L, R>): (r: Nullable<R>)
    ensures r.NonNull? <==> e.Right?
    ensures r.NonNull? ==> e == Right(r.get)
  {
    match e
    case Left(_) => Null
    case Right(y) => NonNull(y)
  }

  /** `toString`: `Left(<left>)` or `Right(<right>)`. */
  function ShowEither<L, R>(e: Either<L, R>, showL: L -> string, showR: R -> string): (r: string)
    ensures e.Left? ==> |r| == |showL(e.left)| + 6 && r[..5] == "Left(" && r[5..|r| - 1] == showL(e.left) && r[|r| - 1] == ')'
    ensures e.Right? ==> |r| == |showR(e.right)| + 7 && r[..6] == "Right(" && r[6..|r| - 1] == showR(e.right) && r[|r| - 1] == ')'
  {
    match e
    case Left(x) => "Left(" + showL(x) + ")"
    case Right(y) => "Right(" + showR(y) + ")"
  }

  /** `Left.Unit`. */
  function LeftUnit<R>(): (e: Either<(), R>)
    ensures e == Left(())
  {
    Left(())
  }

  /** `Right.Unit`. */
  function RightUnit<L>(): (e: Either<L, ()>)
    ensures e == Right(())
  {
    Right(())
  }

  /** Exactly one side is held: of the two failing getters exactly one succeeds,
      and of the two nullable getters exactly one is non-null. */
  lemma ExactlyOneSide<L, R>(e: Either<L, R>)
    ensures LeftOrFail(e).Ok? != RightOrFail(e).Ok?
    ensures LeftOrNull(e).NonNull? != RightOrNull(e).NonNull?
  {
  }

  /** The message of a wrong-side access names the side asked for and renders the
      either that was actually held, as its `toString` does. */
  lemma AccessMessageShowsHeldValue<L, R>(e: Either<L, R>, showL: L -> string, showR: R -> string)
    ensures e.Left? ==> RightOrFail(e).error.Message(showL) == "Cannot get `right` on " + ShowEither(e, showL, showR)
    ensures e.Right? ==> LeftOrFail(e).error.Message(showR) == "Cannot get `left` on " + ShowEither(e, showL, showR)
  {
  }

  /** `invert` applied twice is the identity, and it swaps the two projections. */
  lemma InvertIsInvolution<L, R>(e: Either<L, R>)
    ensures Invert(Invert(e)) == e
    ensures LeftAsOption(Invert(e)) == RightAsOption(e)
    ensures RightAsOption(Invert(e)) == LeftAsOption(e)
    ensures LeftOrNull(Invert(e)) == RightOrNull(e)
    ensures RightOrNull(Invert(e)) == LeftOrNull(e)
  {
  }

  /** An either is recovered from its two projections. */
  lemma ProjectionsDetermineEither<L, R>(a: Either<L, R>, b: Either<L, R>)
    requires LeftAsOption(a) == LeftAsOption(b) && RightAsOption(a) == RightAsOption(b)
    ensures a == b
  {
  }

  /** `toString` tells eithers apart whenever both sides' `toString` do. */
  lemma ShowEitherIsInjective<L, R>(a: Either<L, R>, b: Either<L, R>, showL: L -> string, showR: R -> string)
    requires forall x, y :: showL(x) == showL(y) ==> x == y
    requires forall x, y :: showR(x) == showR(y) ==> x == y
    requires ShowEither(a, showL, showR) == ShowEither(b, showL, showR)
    ensures a == b
  {
    var s, t := ShowEither(a, showL, showR), ShowEither(b, showL, showR);
    // "Left(" and "Right(" already differ at their fifth character
    assert s[4] == (if a.Left? then '(' else 't') && t[4] == (if b.Left? then '(' else 't');
    if a.Left? && b.Left? {
      assert showL(a.left) == s[5..|s| - 1] == showL(b.left);
    } else if a.Right? && b.Right? {
      assert showR(a.right) == s[6..|s| - 1] == showR(b.right);
    }
  }
}
