/** The callback combinators of Option.kt, including the promotions of an option
    to an either. Blocks are Dafny functions; each combinator also reports which
    block it invoked with which argument. */
module OptionOps {
  import opened Outcomes
  import opened Options
  import opened Eithers

  /** An invocation of the block for `Some` (with the value) or of the block for `None`. */
  datatype Call<T> = OnSome(v: T) | OnNone

  /** `alsoSome { }`: invokes its block with the value of a `Some`, returns the receiver. */
  function AlsoSome<T>(o: Option<T>): (r: Run<Option<T>, Call<T>>)
    ensures r.value == o
    ensures o.Some? ==> r.calls == [OnSome(o.value)]
    ensures o.None? ==> r.calls == []
  {
    Run(o, if o.Some? then [OnSome(o.value)] else [])
  }

  /** `alsoNone { }`: invokes its block on `None`, returns the receiver. */
  function AlsoNone<T>(o: Option<T>): (r: Run<Option<T>, Call<T>>)
    ensures r.value == o
    ensures o.None? ==> r.calls == [OnNone]
    ensures o.Some? ==> r.calls == []
  {
    Run(o, if o.None? then [OnNone] else [])
  }

  /** `alsoBoth(onNone, onSome)`: invokes the block of the variant held, returns the receiver. */
  function AlsoBoth<T>(o: Option<T>): (r: Run<Option<T>, Call<T>>)
    ensures r.value == o
    ensures |r.calls| == 1
    ensures r.calls[0].OnSome? <==> o.Some?
    ensures o.Some? ==> r.calls[0].v == o.value
  {
    match o
    case None => Run(o, [OnNone])
    case Some(x) => Run(o, [OnSome(x)])
  }

  /** `letSome(block)`: maps the value of a `Some`; `None` stays `None` and the block
      is not invoked. */
  function LetSome<T, U>(o: Option<T>, block: T -> U): (r: Run<Option<U>, Call<T>>)
    ensures r.value.Some? <==> o.Some?
    ensures o.Some? ==> r.value.value == block(o.value) && r.calls == [OnSome(o.value)]
    ensures o.None? ==> r.calls == []
  {
    match o
    case Some(x) => Run(Some(block(x)), [OnSome(x)])
    case None => Run(None, [])
  }

  /** `letAsLeft(onSome, onNone)`: `Some(v)` becomes `Left(onSome(v))`, `None` becomes
      `Right(onNone())`. */
  function LetAsLeft<T, L, R>(o: Option<T>, onSome: T -> L, onNone: () -> R): (r: Run<Either<L, R>, Call<T>>)
    ensures r.value.Left? <==> o.Some?
    ensures |r.calls| == 1
    ensures o.Some? ==> r.value.left == onSome(o.value) && r.calls[0] == OnSome(o.value)
    ensures o.None? ==> r.value.right == onNone() && r.calls[0] == OnNone
  {
    match o
    case None => Run(Right(onNone()), [OnNone])
    case Some(x) => Run(Left(onSome(x)), [OnSome(x)])
  }

  /** `letAsRight(onNone, onSome)`: `None` becomes `Left(onNone())`, `Some(v)` becomes
      `Right(onSome(v))`. */
  function LetAsRight<T, L, R>(o: Option<T>, onNone: () -> L, onSome: T -> R): (r: Run<Either<L, R>, Call<T>>)
    ensures r.value.Right? <==> o.Some?
    ensures |r.calls| == 1
    ensures o.Some? ==> r.value.right == onSome(o.value) && r.calls[0] == OnSome(o.value)
    ensures o.None? ==> r.value.left == onNone() && r.calls[0] == OnNone
  {
    match o
    case None => Run(Left(onNone()), [OnNone])
    case Some(x) => Run(Right(onSome(x)), [OnSome(x)])
  }

  /** `letNoneAsRight(block)`: `Some(v)` becomes `Left(v)`; only `None` invokes the
      block, and becomes `Right(block())`. */
  function LetNoneAsRight<L, R>(o: Option<L>, block: () -> R): (r: Run<Either<L, R>, Call<L>>)
    ensures r.value.Left? <==> o.Some?
    ensures o.Some? ==> r.value.left == o.value && r.calls == []
    ensures o.None? ==> r.value.right == block() && r.calls == [OnNone]
  {
    match o
    case Some(x) => Run(Left(x), [])
    case None => Run(Right(block()), [OnNone])
  }

  /** `letNoneAsLeft(block)`: `Some(v)` becomes `Right(v)`; only `None` invokes the
      block, and becomes `Left(block())`. */
  function LetNoneAsLeft<L, R>(o: Option<R>, block: () -> L): (r: Run<Either<L, R>, Call<R>>)
    ensures r.value.Right? <==> o.Some?
    ensures o.Some? ==> r.value.right == o.value && r.calls == []
    ensures o.None? ==> r.value.left == block() && r.calls == [OnNone]
  {
    match o
    case Some(x) => Run(Right(x), [])
    case None => Run(Left(block()), [OnNone])
  }

  /** `requireSome(block)`: the value of a `Some`, or an escape through `block` on `None`. */
  function RequireSome<T>(o: Option<T>): (r: Required<T, ()>)
    ensures r.Escaped? <==> o.None?
    ensures r.Returned? ==> o == Some(r.value)
  {
    match o
    case None => Escaped(())
    case Some(x) => Returned(x)
  }

  /** `requireNone(block)`: nothing on `None`; on a `Some`, an escape through `block`
      with the `Some` itself. */
  function RequireNone<T>(o: Option<T>): (r: Required<(), Option<T>>)
    ensures r.Escaped? <==> o.Some?
    ensures r.Escaped? ==> r.arg == o
  {
    if o.Some? then Escaped(o) else Returned(())
  }

  /** `foldBoth(onSome, onNone)`: the result of the one block matching the variant. */
  function FoldBoth<T, U>(o: Option<T>, onSome: T -> U, onNone: () -> U): (r: Run<U, Call<T>>)
    ensures |r.calls| == 1
    ensures o.Some? ==> r.value == onSome(o.value) && r.calls[0] == OnSome(o.value)
    ensures o.None? ==> r.value == onNone() && r.calls[0] == OnNone
  {
    match o
    case None => Run(onNone(), [OnNone])
    case Some(x) => Run(onSome(x), [OnSome(x)])
  }

  /** `foldNone(block)`: the value of a `Some`, or `block()` on `None`. */
  function FoldNone<T>(o: Option<T>, block: () -> T): (r: Run<T, Call<T>>)
    ensures o.Some? ==> r.value == o.value && r.calls == []
    ensures o.None? ==> r.value == block() && r.calls == [OnNone]
  {
    match o
    case None => Run(block(), [OnNone])
    case Some(x) => Run(x, [])
  }

  /** The three `also*` return the receiver; `alsoBoth` invokes exactly the blocks that
      `alsoSome` and `alsoNone` together invoke. */
  lemma AlsoBothIsAlsoSomeThenAlsoNone<T>(o: Option<T>)
    ensures AlsoBoth(o).calls == AlsoSome(o).calls + AlsoNone(AlsoSome(o).value).calls
    ensures AlsoBoth(o).value == AlsoNone(AlsoSome(o).value).value == o
  {
  }

  /** `letSome` with the identity is the identity, and two successive `letSome`s are one
      `letSome` with the composed block. */
  lemma LetSomeFunctorLaws<T, U, V>(o: Option<T>, f: T -> U, g: U -> V)
    ensures LetSome(o, (x: T) => x).value == o
    ensures LetSome(LetSome(o, f).value, g).value == LetSome(o, (x: T) => g(f(x))).value
  {
  }

  /** `letAsRight` is `letAsLeft` seen through `invert`, and `letNoneAsLeft` is
      `letNoneAsRight` seen through `invert`. */
  lemma RightPromotionsMirrorLeftOnes<T, L, R>(o: Option<T>, onSome: T -> R, onNone: () -> L, block: () -> L)
    ensures LetAsRight(o, onNone, onSome).value == Invert(LetAsLeft(o, onSome, onNone).value)
    ensures LetAsRight(o, onNone, onSome).calls == LetAsLeft(o, onSome, onNone).calls
    ensures LetNoneAsLeft(o, block).value == Invert(LetNoneAsRight(o, block).value)
  {
  }

  /** `letNoneAsRight` returns what `letAsLeft` returns with the identity for `Some`;
      `foldNone` returns what `foldBoth` returns with the identity for `Some`. */
  lemma ShortcutsAreIdentityInstances<T, R>(o: Option<T>, block: () -> R, fallback: () -> T)
    ensures LetNoneAsRight(o, block).value == LetAsLeft(o, (x: T) => x, block).value
    ensures FoldNone(o, fallback).value == FoldBoth(o, (x: T) => x, fallback).value
    ensures FoldNone(o, fallback).calls == AlsoNone(o).calls
  {
  }

  /** Promoting an option with `letNoneAsRight` and projecting it back with
      `leftAsOption` gives the option back; an either that is a `Left` survives the
      opposite trip. */
  lemma PromotionInvertsProjection<L, R>(o: Option<L>, e: Either<L, R>, block: () -> R)
    ensures LeftAsOption(LetNoneAsRight(o, block).value) == o
    ensures e.Left? ==> LetNoneAsRight(LeftAsOption(e), block).value == e
    ensures RightAsOption(LetNoneAsLeft(o, block).value) == o
  {
  }

  /** `requireSome` returns exactly where the failing `value` getter does, with the same
      value; `requireNone` escapes exactly where `requireSome` returns. */
  lemma RequireAgreesWithGetter<T>(o: Option<T>)
    ensures RequireSome(o).Returned? <==> ValueOrFail(o).Ok?
    ensures RequireSome(o).Returned? ==> RequireSome(o).value == ValueOrFail(o).value
    ensures RequireNone(o).Escaped? <==> RequireSome(o).Returned?
  {
  }
}
