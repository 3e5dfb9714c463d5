/** The callback combinators of Either.kt. Blocks are Dafny functions; each
    combinator also reports which block it invoked with which argument. */
module EitherOps {
  import opened Outcomes
  import opened Eithers

  /** An invocation of the block for the left side or of the block for the right side. */
  datatype Call<L, R> = OnLeft(l: L) | OnRight(r: R)

  /** `alsoLeft { }`: invokes its block with the left value on a `Left`, returns the
      receiver. The block returns `Unit`, so its invocation is all it contributes. */
  function AlsoLeft<L, R>(e: Either<L, R>): (r: Run<Either<L, R>, Call<L, R>>)
    ensures r.value == e
    ensures e.Left? ==> r.calls == [OnLeft(e.left)]
    ensures e.Right? ==> r.calls == []
  {
    Run(e, if e.Left? then [OnLeft(e.left)] else [])
  }

  /** `alsoRight { }`: the mirror image of `alsoLeft`. */
  function AlsoRight<L, R>(e: Either<L, R>): (r: Run<Either<L, R>, Call<L, R>>)
    ensures r.value == e
    ensures e.Right? ==> r.calls == [OnRight(e.right)]
    ensures e.Left? ==> r.calls == []
  {
    Run(e, if e.Right? then [OnRight(e.right)] else [])
  }

  /** `also(onLeft, onRight)`: invokes the block of the held side, returns the receiver. */
  function Also<L, R>(e: Either<L, R>): (r: Run<Either<L, R>, Call<L, R>>)
    ensures r.value == e
    ensures |r.calls| == 1
    ensures r.calls[0].OnLeft? <==> e.Left?
    ensures e.Left? ==> r.calls[0].l == e.left
    ensures e.Right? ==> r.calls[0].r == e.right
  {
    match e
    case Left(x) => Run(e, [OnLeft(x)])
    case Right(y) => Run(e, [OnRight(y)])
  }

  /** `letLeft(block)`: maps the value of a `Left`; a `Right` passes through and the
      block is not invoked. */
  function LetLeft<L, L2, R>(e: Either<L, R>, block: L -> L2): (r: Run<Either<L2, R>, Call<L, R>>)
    ensures r.value.Left? <==> e.Left?
    ensures e.Left? ==> r.value.left == block(e.left) && r.calls == [OnLeft(e.left)]
    ensures e.Right? ==> r.value.right == e.right && r.calls == []
  {
    match e
    case Left(x) => Run(Left(block(x)), [OnLeft(x)])
    case Right(y) => Run(Right(y), [])
  }

  /** `letRight(block)`: the mirror image of `letLeft`. */
  function LetRight<L, R, R2>(e: Either<L, R>, block: R -> R2): (r: Run<Either<L, R2>, Call<L, R>>)
    ensures r.value.Right? <==> e.Right?
    ensures e.Right? ==> r.value.right == block(e.right) && r.calls == [OnRight(e.right)]
    ensures e.Left? ==> r.value.left == e.left && r.calls == []
  {
    match e
    case Left(x) => Run(Left(x), [])
    case Right(y) => Run(Right(block(y)), [OnRight(y)])
  }

  /** `letBoth(onLeft, onRight)`: keeps the side, maps its value with that side's block. */
  function LetBoth<L, L2, R, R2>(e: Either<L, R>, onLeft: L -> L2, onRight: R -> R2): (r: Run<Either<L2, R2>, Call<L, R>>)
    ensures r.value.Left? <==> e.Left?
    ensures |r.calls| == 1
    ensures e.Left? ==> r.value.left == onLeft(e.left) && r.calls[0] == OnLeft(e.left)
    ensures e.Right? ==> r.value.right == onRight(e.right) && r.calls[0] == OnRight(e.right)
  {
    match e
    case Left(x) => Run(Left(onLeft(x)), [OnLeft(x)])
    case Right(y) => Run(Right(onRight(y)), [OnRight(y)])
  }

  /** `requireLeft(block)`: the left value, or an escape through `block` with the
      `Right` itself. */
  function RequireLeft<L, R>(e: Either<L, R>): (r: Required<L, Either<L, R>>)
    ensures r.Escaped? <==> e.Right?
    ensures r.Returned? ==> e == Left(r.value)
    ensures r.Escaped? ==> r.arg == e
  {
    match e
    case Left(x) => Returned(x)
    case Right(_) => Escaped(e)
  }

  /** `requireRight(block)`: the right value, or an escape through `block` with the
      `Left` itself. */
  function RequireRight<L, R>(e: Either<L, R>): (r: Required<R, Either<L, R>>)
    ensures r.Escaped? <==> e.Left?
    ensures r.Returned? ==> e == Right(r.value)
    ensures r.Escaped? ==> r.arg == e
  {
    match e
    case Left(_) => Escaped(e)
    case Right(y) => Returned(y)
  }

  /** `foldLeft(block)`: on a `Left` turns the left value into the right type; on a
      `Right` returns the right value without invoking the block. */
  function FoldLeft<L, R>(e: Either<L, R>, block: L -> R): (r: Run<R, Call<L, R>>)
    ensures e.Left? ==> r.value == block(e.left) && r.calls == [OnLeft(e.left)]
    ensures e.Right? ==> r.value == e.right && r.calls == []
  {
    match e
    case Left(x) => Run(block(x), [OnLeft(x)])
    case Right(y) => Run(y, [])
  }

  /** `foldRight(block)`: the mirror image of `foldLeft`. */
  function FoldRight<L, R>(e: Either<L, R>, block: R -> L): (r: Run<L, Call<L, R>>)
    ensures e.Right? ==> r.value == block(e.right) && r.calls == [OnRight(e.right)]
    ensures e.Left? ==> r.value == e.left && r.calls == []
  {
    match e
    case Left(x) => Run(x, [])
    case Right(y) => Run(block(y), [OnRight(y)])
  }

  /** `foldBoth(onLeft, onRight)`: the held value through that side's block. */
  function FoldBoth<L, R, T>(e: Either<L, R>, onLeft: L -> T, onRight: R -> T): (r: Run<T, Call<L, R>>)
    ensures |r.calls| == 1
    ensures e.Left? ==> r.value == onLeft(e.left) && r.calls[0] == OnLeft(e.left)
    ensures e.Right? ==> r.value == onRight(e.right) && r.calls[0] == OnRight(e.right)
  {
    match e
    case Left(x) => Run(onLeft(x), [OnLeft(x)])
    case Right(y) => Run(onRight(y), [OnRight(y)])
  }

  /** The three `also*` return the receiver; `also` invokes exactly the blocks that
      `alsoLeft` and `alsoRight` together invoke. */
  lemma AlsoIsAlsoLeftThenAlsoRight<L, R>(e: Either<L, R>)
    ensures Also(e).calls == AlsoLeft(e).calls + AlsoRight(AlsoLeft(e).value).calls
    ensures Also(e).value == AlsoRight(AlsoLeft(e).value).value == e
  {
  }

  /** `letLeft` with the identity is the identity, and two successive `letLeft`s are
      one `letLeft` with the composed block. */
  lemma LetLeftFunctorLaws<L, L2, L3, R>(e: Either<L, R>, f: L -> L2, g: L2 -> L3)
    ensures LetLeft(e, (x: L) => x).value == e
    ensures LetLeft(LetLeft(e, f).value, g).value == LetLeft(e, (x: L) => g(f(x))).value
  {
  }

  /** The same laws for `letRight`. */
  lemma LetRightFunctorLaws<L, R, R2, R3>(e: Either<L, R>, f: R -> R2, g: R2 -> R3)
    ensures LetRight(e, (y: R) => y).value == e
    ensures LetRight(LetRight(e, f).value, g).value == LetRight(e, (y: R) => g(f(y))).value
  {
  }

  /** `letBoth` is `letLeft` followed by `letRight`, with the same single invocation. */
  lemma LetBothIsLetLeftThenLetRight<L, L2, R, R2>(e: Either<L, R>, f: L -> L2, g: R -> R2)
    ensures LetBoth(e, f, g).value == LetRight(LetLeft(e, f).value, g).value
    ensures LetBoth(e, f, g).calls == LetLeft(e, f).calls + LetRight(e, g).calls
  {
  }

  /** The right-hand combinators are the left-hand ones seen through `invert`. */
  lemma RightIsMirrorOfLeft<L, R, R2>(e: Either<L, R>, f: R -> R2, h: R -> L)
    ensures LetRight(e, f).value == Invert(LetLeft(Invert(e), f).value)
    ensures FoldRight(e, h).value == FoldLeft(Invert(e), h).value
    ensures RequireRight(e).Returned? == RequireLeft(Invert(e)).Returned?
    ensures RequireRight(e).Returned? ==> RequireRight(e).value == RequireLeft(Invert(e)).value
  {
  }

  /** `foldLeft` and `foldRight` return what `foldBoth` returns with the identity on
      the other side (but invoke no block for that side). */
  lemma FoldsAreFoldBoth<L, R>(e: Either<L, R>, f: L -> R, g: R -> L)
    ensures FoldLeft(e, f).value == FoldBoth(e, f, (y: R) => y).value
    ensures FoldRight(e, g).value == FoldBoth(e, (x: L) => x, g).value
    ensures FoldLeft(e, f).calls == AlsoLeft(e).calls && FoldRight(e, g).calls == AlsoRight(e).calls
  {
  }

  /** `requireLeft` succeeds exactly where the failing `left` getter does, with the same
      value; it escapes exactly where the getter throws, with the value the exception holds. */
  lemma RequireAgreesWithGetters<L, R>(e: Either<L, R>)
    ensures RequireLeft(e).Returned? <==> LeftOrFail(e).Ok?
    ensures RequireLeft(e).Returned? ==> RequireLeft(e).value == LeftOrFail(e).value
    ensures RequireLeft(e).Escaped? ==> RequireLeft(e).arg == Right(LeftOrFail(e).error.held)
    ensures RequireRight(e).Returned? <==> RightOrFail(e).Ok?
    ensures RequireRight(e).Returned? ==> RequireRight(e).value == RightOrFail(e).value
    ensures RequireRight(e).Escaped? ==> RequireRight(e).arg == Left(RightOrFail(e).error.held)
  {
  }
}
