/** The presence type `Option` (Option.kt, Some.kt, None.kt) and its legacy names
    `Value` (Value.kt) and `Empty` (Empty.kt). */
module Options {
  import opened Outcomes

  /** `Some(value)` holds exactly one value; `None` is a singleton with none. */
  datatype Option<T> = None | Some(value: T)

  /** Legacy name of `Some`: a `Value(x)` behaves exactly as `Some(x)`. */
  function Value<T>(x: T): (o: Option<T>)
    ensures o.Some? && o.value == x
  {
    Some(x)
  }

  /** Legacy name of `None`. */
  function Empty<T>(): (o: Option<T>)
    ensures !o.Some?
  {
    None
  }

  /** Thrown when `value` is read on `None`. */
  datatype AccessSomeException = AccessSomeException
  {
    function Message(): string
    {
      "Failed to get 'value' on None Option."
    }
  }

  /** Thrown when `value` is read on the legacy `Empty`. */
  datatype AccessValueException = AccessValueException
  {
    function Message(): string
    {
      "Failed to get 'value' on Empty Option."
    }
  }

  /** `value` on a `Some` (or `Value`): the constructor argument. */
  function Get<T>(o: Option<T>): (x: T)
    requires o.Some?
    ensures o == Some(x)
  {
    o.value
  }

  /** The `value` getter on any option: `None.value` throws `AccessSomeException`. */
  function ValueOrFail<T>(o: Option<T>): (r: Result<T, AccessSomeException>)
    ensures r.Ok? <==> o.Some?
    ensures r.Ok? ==> o == Some(r.value)
    ensures r.Err? ==> r.error.Message() == "Failed to get 'value' on None Option."
  {
    match o
    case Some(x) => Ok(x)
    case None => Err(AccessSomeException)
  }

  /** The `value` getter under the legacy names: `Empty.value` throws
      `AccessValueException`. */
  function LegacyValueOrFail<T>(o: Option<T>): (r: Result<T, AccessValueException>)
    ensures r.Ok? <==> o.Some?
    ensures r.Ok? ==> o == Some(r.value)
    ensures r.Err? ==> r.error.Message() == "Failed to get 'value' on Empty Option."
  {
    match o
    case Some(x) => Ok(x)
    case None => Err(AccessValueException)
  }

  /** `valueOrNull`: the value of a `Some`, `null` on `None`. */
  function ValueOrNull<T>(o: Option<T>): (r: Nullable<T>)
    ensures r.NonNull? <==> o.Some?
    ensures r.NonNull? ==> o == Some(r.get)
  {
    match o
    case Some(x) => NonNull(x)
    case None => Null
  }

  /** `Some.Unit`. */
  function SomeUnit(): (o: Option<()>)
    ensures o == Some(())
  {
    Some(())
  }

  /** `Value.Unit`, the same value under the legacy name. */
  function ValueUnit(): (o: Option<()>)
    ensures o == SomeUnit()
  {
    Value(())
  }

  /** `toString`: `Some(<value>)` for a data class `Some`, `None` for the data object. */
  function ShowOption<T>(o: Option<T>, show: T -> string): (r: string)
    ensures o.None? ==> r == "None"
    ensures o.Some? ==> |r| == |show(o.value)| + 6 && r[..5] == "Some(" && r[5..|r| - 1] == show(o.value) && r[|r| - 1] == ')'
  {
    match o
    case None => "None"
    case Some(x) => "Some(" + show(x) + ")"
  }

  /** `toString` under the legacy names: `Value(<value>)` and `Empty`. */
  function ShowLegacyOption<T>(o: Option<T>, show: T -> string): (r: string)
    ensures o.None? ==> r == "Empty"
    ensures o.Some? ==> |r| == |show(o.value)| + 7 && r[..6] == "Value(" && r[6..|r| - 1] == show(o.value) && r[|r| - 1] == ')'
  {
    match o
    case None => "Empty"
    case Some(x) => "Value(" + show(x) + ")"
  }

  /** Every option is in exactly one variant, and the failing getter fails exactly
      when the non-failing one gives `null`. */
  lemma ExactlyOneVariant<T>(o: Option<T>)
    ensures o.Some? != o.None?
    ensures ValueOrFail(o).Err? <==> ValueOrNull(o) == Null
  {
  }

  /** Data class equality: `Some(a) == Some(b)` exactly when `a == b`; all `None`s are equal. */
  lemma EqualityIsStructural<T>(a: T, b: T, n: Option<T>, m: Option<T>)
    ensures Some(a) == Some(b) <==> a == b
    ensures n.None? && m.None? ==> n == m
  {
  }

  /** The legacy `Value`/`Empty` behave as `Some`/`None`: same value, same
      `valueOrNull`, same equality. */
  lemma LegacyNamesAreAliases<T>(x: T, y: T)
    ensures Value(x) == Some(x) && Empty<T>() == None
    ensures Get(Value(x)) == x && ValueOrNull(Value(x)) == NonNull(x)
    ensures ValueOrNull(Empty<T>()) == Null
    ensures Value(x) == Value(y) <==> x == y
  {
  }

  /** `toString` tells options apart whenever the value's own `toString` does. */
  lemma ShowOptionIsInjective<T>(a: Option<T>, b: Option<T>, show: T -> string)
    requires forall x, y :: show(x) == show(y) ==> x == y
    requires ShowOption(a, show) == ShowOption(b, show)
    ensures a == b
  {
    if a.Some? && b.Some? {
      assert show(a.value) == ShowOption(a, show)[5..|ShowOption(a, show)| - 1];
    }
  }
}
