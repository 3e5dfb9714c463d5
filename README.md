# Either and Option, with their serializers, in Dafny

This project models the core of the Kotlin library `net.orandja.either`:

- `Either<L, R>`, a closed union of `Left(left)` and `Right(right)`. It has failing getters, nullable getters, `invert`, and projections to `Option`.
- `Option<T>`, a closed union of `Some(value)` and the `None` singleton. `Value` and `Empty` are the older names of these two.
- The callback combinators of `Either.kt` and `Option.kt`: `also*`, `let*`, `require*` and `fold*`.
- The kotlinx.serialization serializers. `EitherSerializer` writes exactly one of the elements `left`/`right` and reads back through two slots that are reconciled at the end. `LeftSerializer` and `RightSerializer` read back through one slot. `OptionSerializer`, `SomeSerializer` and `ValueSerializer` pass values straight through to their delegate.

How the model is built:

- A Kotlin exception is the `Err` side of a `Result`. For each throwing getter there is also a twin with a `requires` clause.
- A Kotlin `T?` is `Nullable<T>`.
- A block whose result the combinator uses (`let*`, `fold*`) is a Dafny function parameter. A `Unit` block of `also*` has no parameter: it appears only as an entry in the invocation log. Every combinator returns a `Run`: its result plus the list of block invocations. That is how "invoked only on the matching side" and "exactly one block runs" are stated.
- A `require*` escape block never returns. It is modelled as the outcome `Escaped(arg)`.
- A structure being decoded is a sequence of `Element(index, payload)`. The end of the sequence stands for `DECODE_DONE`.
- A delegate serializer is a `Codec(descriptor, encode, decode)`. Its `decode` may throw, and `RoundTrips` states that it reads back what it writes.
- `deserialize` is a method with a loop and local slots. It is proved equal to a specification function, `Scan` then `Reconcile`. Last-write-wins, order independence, the three verdicts and the round trip are proved about that function.

The snapshot is in the middle of a rename. `Left.kt` and `Right.kt` build `Value`/`Empty`, while `Option.kt` and `OptionSerializer.kt` only test for `Some`/`None`. The model follows the evident intent: `Value` is `Some` and `Empty` is `None` (`Options.Value`, `Options.Empty`, `Options.LegacyNamesAreAliases`). Where the legacy classes differ only in text, the model keeps the difference: `Options.ShowLegacyOption` and `Options.LegacyValueOrFail`. On this reading, the `OptionJson.kt` test cases hold (`Scenarios.OptionJsonCases`).

`RightSerializer.kt:37` throws the message "Cannot deserialize left value, left not found." when the `right` element is missing. The model keeps that message as written (`RightCodec.DecodeVerdict`).

## Model

| member | source | states |
|---|---|---|
| `Options.Value` | src/commonMain/kotlin/net/orandja/either/Value.kt:10 | the legacy `Value(x)` is the option `Some(x)` |
| `Options.Empty` | src/commonMain/kotlin/net/orandja/either/Empty.kt:6 | the legacy `Empty` is the option `None` |
| `Options.Get` | src/commonMain/kotlin/net/orandja/either/Some.kt:10 | `value` of a `Some` is its constructor argument |
| `Options.ValueOrFail` | src/commonMain/kotlin/net/orandja/either/None.kt:9-15 | the `value` getter succeeds exactly on `Some`, with its value; on `None` it throws `AccessSomeException`, whose `AccessSomeException.Message` is "Failed to get 'value' on None Option." |
| `Options.LegacyValueOrFail` | src/commonMain/kotlin/net/orandja/either/Empty.kt:9-15 | under the legacy names, `Empty.value` throws `AccessValueException`, whose `AccessValueException.Message` is "Failed to get 'value' on Empty Option."; `Value.value` is the value |
| `Options.ValueOrNull` | src/commonMain/kotlin/net/orandja/either/Option.kt:14-15 | `valueOrNull` is non-null exactly on `Some`, and then it is the value (Some.kt:24, None.kt:17) |
| `Options.SomeUnit` | src/commonMain/kotlin/net/orandja/either/Some.kt:19 | `Some.Unit` is exactly `Some(Unit)` |
| `Options.ValueUnit` | src/commonMain/kotlin/net/orandja/either/Value.kt:19 | `Value.Unit` is the same option as `Some.Unit` |
| `Options.ShowOption` | src/commonMain/kotlin/net/orandja/either/Some.kt:22 | `toString` is `Some(` + the value's string + `)`, and `None` for the data object |
| `Options.ShowLegacyOption` | src/commonMain/kotlin/net/orandja/either/Value.kt:22 | legacy `toString` is `Value(` + the value's string + `)`, and `Empty` for the data object |
| `Options.ExactlyOneVariant` | src/commonMain/kotlin/net/orandja/either/Option.kt:10-16 | an option is in exactly one variant; for a non-nullable value type, the failing getter throws exactly when `valueOrNull` is null |
| `Options.EqualityIsStructural` | src/commonMain/kotlin/net/orandja/either/Some.kt:10 | `Some(a) == Some(b)` iff `a == b`; all `None`s are equal |
| `Options.LegacyNamesAreAliases` | src/commonMain/kotlin/net/orandja/either/Value.kt:10-24 | `Value`/`Empty` have the same value, `valueOrNull` and equality as `Some`/`None` |
| `Options.ShowOptionIsInjective` | src/commonMain/kotlin/net/orandja/either/Some.kt:22 | `toString` distinguishes options whenever the value's `toString` distinguishes values |
| `Eithers.LeftValue` | src/commonMain/kotlin/net/orandja/either/Left.kt:40 | `left` (and `component1()`) of a `Left` is its constructor argument |
| `Eithers.RightValue` | src/commonMain/kotlin/net/orandja/either/Right.kt:41 | `right` (and `component1()`) of a `Right` is its constructor argument |
| `Eithers.LeftOrFail` | src/commonMain/kotlin/net/orandja/either/Right.kt:29-30 | the `left` getter succeeds exactly on a `Left`; on a `Right` it throws `AccessLeftOnRightException` holding the right value |
| `Eithers.RightOrFail` | src/commonMain/kotlin/net/orandja/either/Left.kt:29-30 | the `right` getter succeeds exactly on a `Right`; on a `Left` it throws `AccessRightOnLeftException` holding the left value |
| `Eithers.AccessMessageShowsHeldValue` | src/commonMain/kotlin/net/orandja/either/Left.kt:12-13 | the wrong-side message (`AccessRightOnLeftException.Message`, `AccessLeftOnRightException.Message`) is "Cannot get `right` on " / "Cannot get `left` on " followed by the held either's `toString` (Right.kt:11-12) |
| `Eithers.Invert` | src/commonMain/kotlin/net/orandja/either/Left.kt:43 | `invert()` swaps the side and keeps the value (Right.kt:45) |
| `Eithers.InvertIsInvolution` | src/commonMain/kotlin/net/orandja/either/Right.kt:45 | `invert` twice is the identity; it swaps the two projections and the nullable getters |
| `Eithers.LeftAsOption` | src/commonMain/kotlin/net/orandja/either/Left.kt:45-49 | `leftAsOption()` is `Value(left)` on a `Left` and `Empty` on a `Right` (Right.kt:48) |
| `Eithers.RightAsOption` | src/commonMain/kotlin/net/orandja/either/Right.kt:47-51 | `rightAsOption()` is `Value(right)` on a `Right` and `Empty` on a `Left` (Left.kt:49) |
| `Eithers.ProjectionsDetermineEither` | src/commonMain/kotlin/net/orandja/either/Either.kt:19-31 | two eithers with the same two projections are equal |
| `Eithers.LeftOrNull` | src/commonMain/kotlin/net/orandja/either/Left.kt:51-52 | `leftOrNull` is non-null exactly on a `Left`, and then it is the left value (Right.kt:54) |
| `Eithers.RightOrNull` | src/commonMain/kotlin/net/orandja/either/Right.kt:56-57 | `rightOrNull` is non-null exactly on a `Right`, and then it is the right value (Left.kt:55) |
| `Eithers.ShowEither` | src/commonMain/kotlin/net/orandja/either/Left.kt:57 | `toString` is `Left(`/`Right(` + the held value's string + `)` (Right.kt:59) |
| `Eithers.ShowEitherIsInjective` | src/commonMain/kotlin/net/orandja/either/Right.kt:59 | `toString` distinguishes eithers whenever both sides' `toString` distinguish values |
| `Eithers.LeftUnit` | src/commonMain/kotlin/net/orandja/either/Left.kt:22 | `Left.Unit` is exactly `Left(Unit)` |
| `Eithers.RightUnit` | src/commonMain/kotlin/net/orandja/either/Right.kt:22 | `Right.Unit` is exactly `Right(Unit)` |
| `Eithers.ExactlyOneSide` | src/commonMain/kotlin/net/orandja/either/Either.kt:6-11 | exactly one of the failing getters succeeds; for non-nullable side types, exactly one nullable getter is non-null |
| `EitherOps.AlsoLeft` | src/commonMain/kotlin/net/orandja/either/Either.kt:48-53 | returns the receiver; invokes the block once with the left value on a `Left`, never on a `Right` |
| `EitherOps.AlsoRight` | src/commonMain/kotlin/net/orandja/either/Either.kt:60-65 | returns the receiver; invokes the block once with the right value on a `Right`, never on a `Left` |
| `EitherOps.Also` | src/commonMain/kotlin/net/orandja/either/Either.kt:73-82 | returns the receiver; invokes exactly one block, the held side's, with the held value |
| `EitherOps.AlsoIsAlsoLeftThenAlsoRight` | src/commonMain/kotlin/net/orandja/either/Either.kt:48-82 | `also` invokes exactly what `alsoLeft` then `alsoRight` invoke, and all three return the receiver |
| `EitherOps.LetLeft` | src/commonMain/kotlin/net/orandja/either/Either.kt:88-93 | `Left(x)` becomes `Left(block(x))` with one invocation; a `Right` passes through unchanged with none |
| `EitherOps.LetRight` | src/commonMain/kotlin/net/orandja/either/Either.kt:99-104 | `Right(y)` becomes `Right(block(y))` with one invocation; a `Left` passes through unchanged with none |
| `EitherOps.LetLeftFunctorLaws` | src/commonMain/kotlin/net/orandja/either/Either.kt:88-93 | `letLeft` with the identity is the identity; two `letLeft`s are one with the composed block |
| `EitherOps.LetRightFunctorLaws` | src/commonMain/kotlin/net/orandja/either/Either.kt:99-104 | `letRight` with the identity is the identity; two `letRight`s are one with the composed block |
| `EitherOps.LetBoth` | src/commonMain/kotlin/net/orandja/either/Either.kt:112-118 | keeps the side and maps its value with exactly one invocation, of that side's block |
| `EitherOps.LetBothIsLetLeftThenLetRight` | src/commonMain/kotlin/net/orandja/either/Either.kt:112-118 | `letBoth` equals `letLeft` then `letRight`, with the same invocations |
| `EitherOps.RequireLeft` | src/commonMain/kotlin/net/orandja/either/Either.kt:124-129 | returns `x` on `Left(x)` without escaping; escapes exactly on a `Right`, with that `Right` |
| `EitherOps.RequireRight` | src/commonMain/kotlin/net/orandja/either/Either.kt:135-140 | returns `y` on `Right(y)` without escaping; escapes exactly on a `Left`, with that `Left` |
| `EitherOps.RequireAgreesWithGetters` | src/commonMain/kotlin/net/orandja/either/Either.kt:124-140 | `requireLeft`/`requireRight` return where the failing getter succeeds, and escape with the value the getter's exception holds |
| `EitherOps.FoldLeft` | src/commonMain/kotlin/net/orandja/either/Either.kt:146-151 | `Left(x)` gives `block(x)` with one invocation; `Right(r)` gives `r` with none |
| `EitherOps.FoldRight` | src/commonMain/kotlin/net/orandja/either/Either.kt:157-162 | `Right(y)` gives `block(y)` with one invocation; `Left(l)` gives `l` with none |
| `EitherOps.FoldBoth` | src/commonMain/kotlin/net/orandja/either/Either.kt:170-176 | `onLeft(l)` for `Left(l)` and `onRight(r)` for `Right(r)`, with exactly that one invocation |
| `EitherOps.FoldsAreFoldBoth` | src/commonMain/kotlin/net/orandja/either/Either.kt:146-176 | `foldLeft`/`foldRight` return `foldBoth` with the identity on the other side, and invoke no block there |
| `EitherOps.RightIsMirrorOfLeft` | src/commonMain/kotlin/net/orandja/either/Either.kt:135-162 | `letRight`, `foldRight` and `requireRight` are `letLeft`, `foldLeft` and `requireLeft` seen through `invert` |
| `OptionOps.AlsoSome` | src/commonMain/kotlin/net/orandja/either/Option.kt:22-27 | returns the receiver; invokes the block with the value only on a `Some` |
| `OptionOps.AlsoNone` | src/commonMain/kotlin/net/orandja/either/Option.kt:33-38 | returns the receiver; invokes the block only on `None` |
| `OptionOps.AlsoBoth` | src/commonMain/kotlin/net/orandja/either/Option.kt:46-55 | returns the receiver; invokes exactly one block, the one matching the variant |
| `OptionOps.AlsoBothIsAlsoSomeThenAlsoNone` | src/commonMain/kotlin/net/orandja/either/Option.kt:22-55 | `alsoBoth` invokes exactly what `alsoSome` then `alsoNone` invoke, and all return the receiver |
| `OptionOps.LetSome` | src/commonMain/kotlin/net/orandja/either/Option.kt:61-66 | `Some(v)` becomes `Some(block(v))`; `None` stays `None` and the block is not invoked |
| `OptionOps.LetSomeFunctorLaws` | src/commonMain/kotlin/net/orandja/either/Option.kt:61-66 | `letSome` with the identity is the identity; two `letSome`s are one with the composed block |
| `OptionOps.LetAsLeft` | src/commonMain/kotlin/net/orandja/either/Option.kt:74-80 | `Some(v)` becomes `Left(onSome(v))` and `None` becomes `Right(onNone())`, with exactly that one invocation |
| `OptionOps.LetAsRight` | src/commonMain/kotlin/net/orandja/either/Option.kt:88-94 | `None` becomes `Left(onNone())` and `Some(v)` becomes `Right(onSome(v))`, with exactly that one invocation |
| `OptionOps.LetNoneAsRight` | src/commonMain/kotlin/net/orandja/either/Option.kt:102-107 | `Some(v)` becomes `Left(v)` with no invocation; `None` becomes `Right(block())` |
| `OptionOps.LetNoneAsLeft` | src/commonMain/kotlin/net/orandja/either/Option.kt:115-120 | `Some(v)` becomes `Right(v)` with no invocation; `None` becomes `Left(block())` |
| `OptionOps.RightPromotionsMirrorLeftOnes` | src/commonMain/kotlin/net/orandja/either/Option.kt:74-120 | `letAsRight` and `letNoneAsLeft` are `letAsLeft` and `letNoneAsRight` followed by `invert` |
| `OptionOps.ShortcutsAreIdentityInstances` | src/commonMain/kotlin/net/orandja/either/Option.kt:102-167 | `letNoneAsRight` and `foldNone` return what `letAsLeft` and `foldBoth` return with the identity for `Some` |
| `OptionOps.PromotionInvertsProjection` | src/commonMain/kotlin/net/orandja/either/Option.kt:102-120 | `leftAsOption` undoes `letNoneAsRight`, and `rightAsOption` undoes `letNoneAsLeft`; a `Left` survives projection then promotion |
| `OptionOps.RequireSome` | src/commonMain/kotlin/net/orandja/either/Option.kt:126-131 | returns `v` on `Some(v)`; escapes exactly on `None` |
| `OptionOps.RequireNone` | src/commonMain/kotlin/net/orandja/either/Option.kt:136-140 | escapes exactly on a `Some`, with the `Some` itself; on `None` it does nothing |
| `OptionOps.RequireAgreesWithGetter` | src/commonMain/kotlin/net/orandja/either/Option.kt:126-140 | `requireSome` returns where the `value` getter succeeds, with its value; `requireNone` escapes exactly there |
| `OptionOps.FoldBoth` | src/commonMain/kotlin/net/orandja/either/Option.kt:148-154 | `onSome(v)` on `Some(v)` and `onNone()` on `None`, with exactly that one invocation |
| `OptionOps.FoldNone` | src/commonMain/kotlin/net/orandja/either/Option.kt:162-167 | `v` on `Some(v)` with no invocation; `block()` on `None` |
| `Codecs.DecodeSlot` | src/commonMain/kotlin/net/orandja/either/EitherSerializer.kt:32 | writing a slot is `Some` of what the delegate reads, or the delegate's exception |
| `Codecs.Failure.Kind` | src/commonMain/kotlin/net/orandja/either/EitherSerializer.kt:35-44 | `error(...)` (an unexpected index) is an `IllegalStateException`; every other failure the serializers raise themselves is a `SerializationException` (EitherSerializer.kt:40-41, LeftSerializer.kt:36, RightSerializer.kt:37); a delegate's exception keeps its class |
| `Codecs.Failure.Message` | src/commonMain/kotlin/net/orandja/either/EitherSerializer.kt:35 | the "Unexpected index: " message carries the reported index in decimal, and it reads back as that index; a delegate's message is passed on unchanged |
| `Codecs.FailureMessagesAreDistinct` | src/commonMain/kotlin/net/orandja/either/EitherSerializer.kt:35-41 | the serializers' own messages ("Either do not contains left or right value", "Either contains both left and right values", "Cannot deserialize left value, left not found.", "Unexpected index: i") tell the failures apart, including the index |
| `Codecs.ScanSingle` | src/commonMain/kotlin/net/orandja/either/LeftSerializer.kt:27-33 | the single-slot loop (also RightSerializer.kt:28-34) finishes only if every element has index 0; the slot is then unseen exactly for an empty structure, and otherwise holds the decoding of the last element; if every element has index 0 and decodes, the loop finishes |
| `Codecs.ScanSingleFailureIsFinal` | src/commonMain/kotlin/net/orandja/either/LeftSerializer.kt:27-33 | an exception thrown inside the single-slot loop ends decoding with that exception |
| `Codecs.ScanSingleKeepsLast` | src/commonMain/kotlin/net/orandja/either/LeftSerializer.kt:27-34 | with only index-0 elements that decode, the slot ends as the last one's value (last wins) |
| `Codecs.DecimalDigits` | src/commonMain/kotlin/net/orandja/either/EitherSerializer.kt:35 | the index in "Unexpected index: i" is written as decimal digits without a leading zero |
| `Codecs.DecimalDigitsRoundTrip` | src/commonMain/kotlin/net/orandja/either/EitherSerializer.kt:35 | the digits written in that message read back as the reported index |
| `EitherCodec.EitherDescriptor` | src/commonMain/kotlin/net/orandja/either/EitherSerializer.kt:21-24 | the structure is named "net.orandja.either.EitherSerializer" and has two elements, `left` and `right`, both optional, each described by that side's delegate |
| `EitherCodec.Step` | src/commonMain/kotlin/net/orandja/either/EitherSerializer.kt:31-36 | one turn of the loop: index 0 sets the left slot and index 1 the right slot to the delegate's value, leaving the other slot unchanged, or passes on the delegate's exception; any other index is rejected as "Unexpected index" |
| `EitherCodec.Scan` | src/commonMain/kotlin/net/orandja/either/EitherSerializer.kt:29-38 | the loop finishes only if every index is 0 or 1, and then each slot is unseen exactly when no element of its side occurs |
| `EitherCodec.Decode` | src/commonMain/kotlin/net/orandja/either/EitherSerializer.kt:26-46 | an exception from the loop is passed on; otherwise neither side gives `NeitherSide` and both sides give `BothSides`, each in both directions; exactly one side seen gives a result, and it is the either whose projections are the two slots |
| `EitherCodec.Serialize` | src/commonMain/kotlin/net/orandja/either/EitherSerializer.kt:48-55 | exactly one element is written: index 0 with the left delegate's payload for a `Left`, index 1 with the right delegate's for a `Right` |
| `EitherCodec.SerializeWritesTheHeldSidesElement` | src/commonMain/kotlin/net/orandja/either/EitherSerializer.kt:21-23 | the written element is the descriptor's `left` for a `Left` and `right` for a `Right`, never both, never neither |
| `EitherCodec.Reconcile` | src/commonMain/kotlin/net/orandja/either/EitherSerializer.kt:39-45 | neither slot gives "Either do not contains left or right value"; both give "Either contains both left and right values"; one slot gives the either whose projections are the slots; the `unreachable` branch is never reached |
| `EitherCodec.Deserialize` | src/commonMain/kotlin/net/orandja/either/EitherSerializer.kt:26-46 | the two-slot decode loop followed by reconciliation computes exactly `Decode`, the loop spec `Scan` followed by `Reconcile` |
| `EitherCodec.ScanFailureIsFinal` | src/commonMain/kotlin/net/orandja/either/EitherSerializer.kt:29-38 | an exception thrown inside the loop ends decoding with that exception |
| `EitherCodec.ScanKeepsLastOccurrence` | src/commonMain/kotlin/net/orandja/either/EitherSerializer.kt:30-37 | on a well-formed structure each slot is the decoding of that side's last element, or unseen (last wins, per side) |
| `EitherCodec.DecodeVerdict` | src/commonMain/kotlin/net/orandja/either/EitherSerializer.kt:39-43 | on a well-formed structure: no element gives `NeitherSide`; elements for both sides give `BothSides`; one side only gives that side with its last value |
| `EitherCodec.DecodeIgnoresInterleaving` | src/commonMain/kotlin/net/orandja/either/EitherSerializer.kt:30-37 | the outcome depends only on each side's own elements, not on how left and right are interleaved |
| `EitherCodec.DecodeRejectsUnexpectedIndex` | src/commonMain/kotlin/net/orandja/either/EitherSerializer.kt:35 | an index other than 0 or 1, reached by the loop, ends decoding in an `IllegalStateException` "Unexpected index: i" with that index in decimal |
| `EitherCodec.RoundTrip` | src/commonMain/kotlin/net/orandja/either/EitherSerializer.kt:26-55 | with round-tripping delegates, decoding what `serialize` writes gives the original either |
| `LeftCodec.LeftDescriptor` | src/commonMain/kotlin/net/orandja/either/LeftSerializer.kt:20-22 | the structure is named "net.orandja.either.LeftSerializer" and has one optional element `left`, described by the delegate |
| `LeftCodec.Serialize` | src/commonMain/kotlin/net/orandja/either/LeftSerializer.kt:41-45 | `serialize` of `Left(x)` writes exactly one element, index 0, carrying the delegate's payload for `x` |
| `LeftCodec.Decode` | src/commonMain/kotlin/net/orandja/either/LeftSerializer.kt:35-38 | a slot seen with value `x` gives `Left(x)`, and only a seen slot gives a result; an unseen slot gives `SideNotFound`; an exception from the loop is passed on unchanged |
| `LeftCodec.Deserialize` | src/commonMain/kotlin/net/orandja/either/LeftSerializer.kt:24-39 | the single-slot decode loop followed by the slot check computes exactly `Decode` |
| `LeftCodec.DecodeVerdict` | src/commonMain/kotlin/net/orandja/either/LeftSerializer.kt:35-37 | with no element it throws a `SerializationException` "Cannot deserialize left value, left not found.", and only then; otherwise it gives `Left` of the last element's value |
| `LeftCodec.DecodeRejectsUnexpectedIndex` | src/commonMain/kotlin/net/orandja/either/LeftSerializer.kt:31 | any index other than 0 reached by the loop is rejected as "Unexpected index" |
| `LeftCodec.RoundTrip` | src/commonMain/kotlin/net/orandja/either/LeftSerializer.kt:24-45 | with a round-tripping delegate, `decode(encode(Left(x))) == Left(x)` |
| `RightCodec.RightDescriptor` | src/commonMain/kotlin/net/orandja/either/RightSerializer.kt:21-23 | the structure is named "net.orandja.either.RightSerializer" and has one element `right`, not marked optional, described by the delegate |
| `RightCodec.Serialize` | src/commonMain/kotlin/net/orandja/either/RightSerializer.kt:42-46 | `serialize` of `Right(y)` writes exactly one element, index 0, carrying the delegate's payload for `y` |
| `RightCodec.Decode` | src/commonMain/kotlin/net/orandja/either/RightSerializer.kt:36-39 | a slot seen with value `y` gives `Right(y)`, and only a seen slot gives a result; an unseen slot gives `SideNotFound`; an exception from the loop is passed on unchanged |
| `RightCodec.Deserialize` | src/commonMain/kotlin/net/orandja/either/RightSerializer.kt:25-40 | the single-slot decode loop followed by the slot check computes exactly `Decode` |
| `RightCodec.DecodeVerdict` | src/commonMain/kotlin/net/orandja/either/RightSerializer.kt:36-38 | with no element it throws a `SerializationException` whose message is, as written, "Cannot deserialize left value, left not found.", and only then; otherwise it gives `Right` of the last element's value |
| `RightCodec.DecodeRejectsUnexpectedIndex` | src/commonMain/kotlin/net/orandja/either/RightSerializer.kt:32 | any index other than 0 reached by the loop is rejected as "Unexpected index" |
| `RightCodec.RoundTrip` | src/commonMain/kotlin/net/orandja/either/RightSerializer.kt:25-46 | with a round-tripping delegate, `decode(encode(Right(y))) == Right(y)` |
| `OptionCodec.Serialize` | src/commonMain/kotlin/net/orandja/either/OptionSerializer.kt:27-29 | `None` writes nothing; `Some(v)` hands exactly `v` to the delegate |
| `OptionCodec.Deserialize` | src/commonMain/kotlin/net/orandja/either/OptionSerializer.kt:24-25 | always `Some` of what the delegate reads, never `None`; a delegate exception is passed on |
| `OptionCodec.EncodeField` | src/commonMain/kotlin/net/orandja/either/OptionSerializer.kt:9-20 | with default `None` and `encodeDefaults = false`, the field is absent exactly for `None`; otherwise it is present with the delegate's payload |
| `OptionCodec.DecodeField` | src/commonMain/kotlin/net/orandja/either/OptionSerializer.kt:18-25 | an absent field reads as `None`, and only an absent field does; a present one goes through `deserialize` |
| `OptionCodec.FieldRoundTrip` | src/commonTest/kotlin/net/orandja/test/OptionJson.kt:15-37 | with a round-tripping delegate, all three field states read back as the option written |
| `OptionCodec.PresentNullSurvives` | src/commonMain/kotlin/net/orandja/either/OptionSerializer.kt:20 | `Some(null)` is written as a present field and reads back as `Some(null)`, not `None` |
| `OptionCodec.SomeEncode` | src/commonMain/kotlin/net/orandja/either/SomeSerializer.kt:16-18 | `Some(x)` is written as exactly what `OptionSerializer` writes for `Some(x)`: the delegate's payload for `x`, unwrapped |
| `OptionCodec.SomeDecode` | src/commonMain/kotlin/net/orandja/either/SomeSerializer.kt:14 | reads `Some` of what the delegate reads |
| `OptionCodec.ValueEncode` | src/commonMain/kotlin/net/orandja/either/ValueSerializer.kt:16-18 | `Value(x)` is written as exactly what `OptionSerializer` writes for `Value(x)`: the delegate's payload for `x`, unwrapped |
| `OptionCodec.ValueDecode` | src/commonMain/kotlin/net/orandja/either/ValueSerializer.kt:14 | reads `Value` of what the delegate reads |
| `OptionCodec.UnwrappedRoundTrip` | src/commonMain/kotlin/net/orandja/either/SomeSerializer.kt:14-17 | with a round-tripping delegate, `Some(x)` and `Value(x)` read back from what their serializers write; both write the same payload, and all three option deserializers read the same |
| `OptionCodec.DescriptorsArePassThrough` | src/commonMain/kotlin/net/orandja/either/OptionSerializer.kt:23 | the three option descriptors (`OptionDescriptor`, `SomeDescriptor`, `ValueDescriptor`) are the delegate's own, so there is no wrapping structure (SomeSerializer.kt:13, ValueSerializer.kt:13) |
| `Scenarios.EitherJsonCases` | src/commonTest/kotlin/net/orandja/test/EitherJson.kt:20-37 | `Left("value")` is written as `{"left":"value"}` and `Right("value")` as `{"right":"value"}`, and both read back |
| `Scenarios.EitherJsonRejections` | src/commonMain/kotlin/net/orandja/either/EitherSerializer.kt:40-41 | `{"left":1,"right":2}` is rejected as `BothSides` and `{}` as `NeitherSide` |
| `Scenarios.OptionJsonCases` | src/commonTest/kotlin/net/orandja/test/OptionJson.kt:15-37 | `Empty`, `Value(null)` and `Value("value")` are written as `{}`, `{"value":null}` and `{"value":"value"}`, and read back |
| `Scenarios.FoldCases` | src/commonTest/kotlin/net/orandja/test/SomeTests.kt:39-44 | on `Left("value")`, `foldRight` gives `"value"` and `foldLeft { 0 }` gives `0` |

## Left out

- The kotlinx.serialization framework itself is not part of this model. That covers `Json`, `Encoder`/`Decoder`, `decodeStructure`/`encodeStructure`, and the JSON text of RFC 8259. A structure is a sequence of `(index, payload)` elements, and the end of the sequence plays `DECODE_DONE`.
- Element indices are natural numbers. The framework's negative sentinels other than `DECODE_DONE` (such as `UNKNOWN_NAME`) are handled inside the framework and are not modelled.
- The `isOptional` flag of a descriptor element is recorded but not acted on. What the framework does for a missing element marked non-optional is framework behaviour.
- `OptionCodec.EncodeField` models only `encodeDefaults = false` and a field default of `None`, which the library's documentation requires. With defaults encoded, `None` would reach `OptionSerializer.serialize`, which writes nothing.
- `Options.ValueOrNull`: Kotlin flattens `T?` when `T` is itself nullable, so `Some(null).valueOrNull` is `null` in the source. The model keeps it apart from `None` as `NonNull(Null)`. The same holds for `Eithers.LeftOrNull` and `Eithers.RightOrNull`.
- `Eithers.LeftOrNull`: for a nullable left type, `Left(null).leftOrNull` is `null` in the source, the same as on a `Right`; the model gives `NonNull(Null)`, because `T?` flattening is not modelled.
- `Eithers.RightOrNull`: for a nullable right type, `Right(null).rightOrNull` is `null` in the source, the same as on a `Left`; the model gives `NonNull(Null)`.
- `Options.ExactlyOneVariant`: its second clause holds in the source only for a non-nullable value type. `Some(null).value` returns `null` without throwing, yet its `valueOrNull` is `null`.
- `Eithers.ExactlyOneSide`: its second clause holds in the source only for non-nullable side types. For `Left(null)`, both `leftOrNull` and `rightOrNull` are `null`.
- Equality of eithers: `Left` and `Right` are plain classes (Left.kt:9, Right.kt:8), not data classes, and no source file overrides `equals`. Kotlin's `==` on eithers is therefore reference identity. In the model, `==` on `Either` means "same side, equal value". Every lemma that equates eithers is stated in that sense: `Eithers.InvertIsInvolution`, `Eithers.ProjectionsDetermineEither`, `Eithers.ShowEitherIsInjective`, the `LetLeft`/`LetRight` functor laws, the `RoundTrip` lemmas of the three either codecs, and `Scenarios.EitherJsonCases`. In the source, for instance, `Left(1).invert().invert() == Left(1)` compares two distinct objects and is false. So the `assertEquals` of EitherJson.kt:33-36 compares references. `Some` and `Value` are data classes, so option equality is structural in the source as in the model.
- Serializer binding: `Either`, `Left` and `Right` carry no `@Serializable` annotation (Either.kt:6, Left.kt:9, Right.kt:8). Nothing in the core binds `EitherSerializer`, `LeftSerializer` or `RightSerializer` to those types, so a caller must pass them explicitly. The model covers the serializers themselves; how the framework would look up a serializer for an unannotated class is framework behaviour and is not modelled.
- Exception cause chaining (`value as? Throwable`) in the wrong-side exceptions is not modelled.
- A held value's `toString` is not modelled. It is a parameter `show` of the functions that render text.
- Blocks are pure functions plus a log of their invocations. Side effects beyond being invoked are not modelled, and neither are `inline`, non-local returns, or `@JvmStatic`.
- A `Nothing`-returning escape block is modelled as the outcome `Escaped(arg)`. Where control goes after it is not modelled.
- `tryLeft`, `alsoBoth` on `Either`, `letValue`, `foldEmpty`, `letEmptyAsRight`, `letEmptyAsLeft`, `requireValue` and `requireEmpty` are called by the tests. They are not defined in the core source files, so they are not modelled.
- `Value` and `Empty` are not separate runtime classes here; they are the same values as `Some` and `None`. As a result, the model does not show how the `is Some` / `None` tests in Option.kt and OptionSerializer.kt would treat instances of the legacy classes.
- The build script (targets, publishing, signing, documentation) is not part of this model.
