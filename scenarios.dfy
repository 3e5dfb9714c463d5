/** The concrete cases of the library's tests, over a small JSON-like payload type:
    EitherJson.kt, OptionJson.kt and the fold checks of SomeTests.kt. */
module Scenarios {
  import opened Outcomes
  import opened Options
  import opened Eithers
  import opened Codecs
  import EitherOps
  import EitherCodec
  import OptionCodec

  /** A JSON value as far as the tests need one. */
  datatype Json = JNull | JString(text: string) | JNumber(number: int)

  /** The built-in `String` serializer. */
  function StringCodec(): Codec<string, Json>
  {
    Codec(Descriptor("kotlin.String", []),
      (x: string) => JString(x),
      (j: Json) => if j.JString? then Ok(j.text) else Err(InnerFailure(SerializationException, "Expected string literal")))
  }

  /** The built-in `Int` serializer. */
  function IntCodec(): Codec<int, Json>
  {
    Codec(Descriptor("kotlin.Int", []),
      (x: int) => JNumber(x),
      (j: Json) => if j.JNumber? then Ok(j.number) else Err(InnerFailure(SerializationException, "Expected number")))
  }

  /** The built-in `String?` serializer. */
  function NullableStringCodec(): Codec<Nullable<string>, Json>
  {
    Codec(Descriptor("kotlin.String?", []),
      (x: Nullable<string>) => if x.NonNull? then JString(x.get) else JNull,
      (j: Json) =>
        if j.JNull? then Ok(Null)
        else if j.JString? then Ok(NonNull(j.text))
        else Err(InnerFailure(SerializationException, "Expected string literal")))
  }

  /** The keys and values a JSON object shows for the elements of a structure. */
  function ObjectEntries(d: Descriptor, s: seq<Element<Json>>): (entries: seq<(string, Json)>)
    requires forall k :: 0 <= k < |s| ==> s[k].index < |d.elements|
    ensures |entries| == |s|
    ensures forall k :: 0 <= k < |s| ==> entries[k] == (d.elements[s[k].index].name, s[k].payload)
    decreases |s|
  {
    if s == [] then [] else ObjectEntries(d, s[..|s| - 1]) + [(d.elements[s[|s| - 1].index].name, s[|s| - 1].payload)]
  }

  /** `Left("value")` is written `{"left":"value"}` and `Right("value")` `{"right":"value"}`,
      and both read back. */
  lemma EitherJsonCases()
    ensures ObjectEntries(EitherCodec.EitherDescriptor(StringCodec(), IntCodec()),
      EitherCodec.Serialize(StringCodec(), IntCodec(), Left("value"))) == [("left", JString("value"))]
    ensures ObjectEntries(EitherCodec.EitherDescriptor(IntCodec(), StringCodec()),
      EitherCodec.Serialize(IntCodec(), StringCodec(), Right("value"))) == [("right", JString("value"))]
    ensures EitherCodec.Decode(StringCodec(), IntCodec(), [Element(0, JString("value"))]) == Ok(Left("value"))
    ensures EitherCodec.Decode(IntCodec(), StringCodec(), [Element(1, JString("value"))]) == Ok(Right("value"))
  {
    var one: seq<Element<Json>> := [Element(0, JString("value"))];
    assert one[..0] == [];
    var other: seq<Element<Json>> := [Element(1, JString("value"))];
    assert other[..0] == [];
  }

  /** `{"left":1,"right":2}` is rejected as holding both sides, and `{}` as holding neither. */
  lemma EitherJsonRejections()
    ensures EitherCodec.Decode(IntCodec(), IntCodec(), [Element(0, JNumber(1)), Element(1, JNumber(2))]) == Err(BothSides)
    ensures EitherCodec.Decode(IntCodec(), IntCodec(), []) == Err(NeitherSide)
  {
    var s: seq<Element<Json>> := [Element(0, JNumber(1)), Element(1, JNumber(2))];
    assert s[..1] == [Element(0, JNumber(1))] && s[..1][..0] == [];
    assert EitherCodec.Scan(IntCodec(), IntCodec(), s[..1]) == Ok(EitherCodec.Slots(Some(1), None));
    assert EitherCodec.Scan(IntCodec(), IntCodec(), s) == Ok(EitherCodec.Slots(Some(1), Some(2)));
  }

  /** A field `value: Option<String?> = Empty` is written `{}`, `{"value":null}` and
      `{"value":"value"}` for `Empty`, `Value(null)` and `Value("value")`, and each reads back. */
  lemma OptionJsonCases()
    ensures OptionCodec.EncodeField(NullableStringCodec(), Empty()) == OptionCodec.Absent
    ensures OptionCodec.EncodeField(NullableStringCodec(), Value(Null)) == OptionCodec.Present(JNull)
    ensures OptionCodec.EncodeField(NullableStringCodec(), Value(NonNull("value"))) == OptionCodec.Present(JString("value"))
    ensures OptionCodec.DecodeField(NullableStringCodec(), OptionCodec.Absent) == Ok(Empty())
    ensures OptionCodec.DecodeField(NullableStringCodec(), OptionCodec.Present(JNull)) == Ok(Value(Null))
    ensures OptionCodec.DecodeField(NullableStringCodec(), OptionCodec.Present(JString("value"))) == Ok(Value(NonNull("value")))
  {
  }

  /** On `Left("value")`, `foldRight { "new" }` gives `"value"` and `foldLeft { 0 }` gives `0`. */
  lemma FoldCases()
    ensures EitherOps.FoldRight(Left("value"), (y: int) => "new").value == "value"
    ensures EitherOps.FoldLeft(Left("value"), (x: string) => 0).value == 0
  {
  }
}
