/** OptionSerializer.kt, SomeSerializer.kt and ValueSerializer.kt: options are
    written through their delegate with no wrapping structure, and absence is
    carried by the absence of the enclosing field. */
module OptionCodec {
  import opened Outcomes
  import opened Options
  import opened Codecs

  /** OptionSerializer's descriptor is the delegate's own. */
  function OptionDescriptor<T, P>(c: Codec<T, P>): Descriptor
  {
    c.descriptor
  }

  /** OptionSerializer's `serialize`: a `Some` hands exactly its value to the
      delegate; `None` writes nothing. */
  function Serialize<T, P>(c: Codec<T, P>, o: Option<T>): (written: seq<P>)
    ensures o.None? <==> written == []
    ensures o.Some? ==> written == [c.encode(o.value)]
  {
    if o.Some? then [c.encode(o.value)] else []
  }

  /** OptionSerializer's `deserialize`: whatever the delegate reads, wrapped in `Some`
      (even a `null`); it never produces `None`. */
  function Deserialize<T, P>(c: Codec<T, P>, p: P): (r: Result<Option<T>, Failure>)
    ensures r.Ok? <==> c.decode(p).Ok?
    ensures r.Ok? ==> r.value.Some? && Ok(r.value.value) == c.decode(p)
    ensures r.Err? ==> r.error == c.decode(p).error
  {
    DecodeSlot(c, p)
  }

  /** A field of an enclosing structure: left out of the document, or present with
      the payload its serializer wrote. */
  datatype Field<P> = Absent | Present(payload: P)

  /** How the enclosing class writes a field declared `Option<T> = None` when defaults
      are not encoded (`encodeDefaults = false`): the framework leaves out a field
      equal to its default, and otherwise writes what OptionSerializer writes. */
  function EncodeField<T, P>(c: Codec<T, P>, o: Option<T>): (f: Field<P>)
    ensures f.Absent? <==> o.None?
    ensures o.Some? ==> f == Present(c.encode(o.value))
  {
    if o == None then Absent else Present(Serialize(c, o)[0])
  }

  /** How the enclosing class reads that field: a missing field keeps its default
      `None`; a present one goes through OptionSerializer. Only absence gives `None`. */
  function DecodeField<T, P>(c: Codec<T, P>, f: Field<P>): (r: Result<Option<T>, Failure>)
    ensures r == Ok(None) <==> f.Absent?
    ensures f.Present? ==> r == Deserialize(c, f.payload)
  {
    match f
    case Absent => Ok(None)
    case Present(p) => Deserialize(c, p)
  }

  /** SomeSerializer's descriptor is the delegate's own. */
  function SomeDescriptor<T, P>(c: Codec<T, P>): Descriptor
  {
    c.descriptor
  }

  /** SomeSerializer's `serialize`: exactly what the delegate writes for the value,
      with no wrapping structure. */
  function SomeEncode<T, P>(c: Codec<T, P>, x: T): (p: P)
    ensures [p] == Serialize(c, Some(x))
  {
    c.encode(x)
  }

  /** SomeSerializer's `deserialize`: `Some` of what the delegate reads. */
  function SomeDecode<T, P>(c: Codec<T, P>, p: P): (r: Result<Option<T>, Failure>)
    ensures r.Ok? <==> c.decode(p).Ok?
    ensures r.Ok? ==> r.value == Some(c.decode(p).value)
    ensures r.Err? ==> r.error == c.decode(p).error
  {
    match c.decode(p)
    case Ok(x) => Ok(Some(x))
    case Err(f) => Err(f)
  }

  /** ValueSerializer's descriptor is the delegate's own. */
  function ValueDescriptor<T, P>(c: Codec<T, P>): Descriptor
  {
    c.descriptor
  }

  /** ValueSerializer's `serialize`: exactly what the delegate writes for the value. */
  function ValueEncode<T, P>(c: Codec<T, P>, x: T): (p: P)
    ensures [p] == Serialize(c, Value(x))
  {
    c.encode(x)
  }

  /** ValueSerializer's `deserialize`: `Value` of what the delegate reads. */
  function ValueDecode<T, P>(c: Codec<T, P>, p: P): (r: Result<Option<T>, Failure>)
    ensures r.Ok? <==> c.decode(p).Ok?
    ensures r.Ok? ==> r.value == Value(c.decode(p).value)
    ensures r.Err? ==> r.error == c.decode(p).error
  {
    match c.decode(p)
    case Ok(x) => Ok(Value(x))
    case Err(f) => Err(f)
  }

  /** Field-level round trip: with a delegate that reads back what it writes, each
      of the three states (field absent, present with a value that may itself be
      `null`) reads back as the option that was written. */
  lemma FieldRoundTrip<T(!new), P>(c: Codec<T, P>, o: Option<T>)
    requires RoundTrips(c)
    ensures DecodeField(c, EncodeField(c, o)) == Ok(o)
  {
    if o.Some? {
      assert c.decode(c.encode(o.value)) == Ok(o.value);
    }
  }

  /** A present `null` stays a present `null`: `Some(null)` is written as a present
      field and does not read back as `None`. */
  lemma PresentNullSurvives<T(!new), P>(c: Codec<Nullable<T>, P>)
    requires RoundTrips(c)
    ensures EncodeField(c, Some(Null)).Present?
    ensures DecodeField(c, EncodeField(c, Some(Null))) == Ok(Some(Null))
  {
    FieldRoundTrip(c, Some(Null));
  }

  /** Round trips of the unwrapped codecs, and their agreement with OptionSerializer
      on a `Some`. */
  lemma UnwrappedRoundTrip<T(!new), P>(c: Codec<T, P>, x: T, p: P)
    requires RoundTrips(c)
    ensures SomeDecode(c, SomeEncode(c, x)) == Ok(Some(x))
    ensures ValueDecode(c, ValueEncode(c, x)) == Ok(Value(x))
    ensures SomeEncode(c, x) == ValueEncode(c, x)
    ensures Deserialize(c, p) == SomeDecode(c, p) == ValueDecode(c, p)
  {
    assert c.decode(c.encode(x)) == Ok(x);
  }

  /** None of the three option codecs wraps its delegate in a structure. */
  lemma DescriptorsArePassThrough<T, P>(c: Codec<T, P>)
    ensures OptionDescriptor(c) == SomeDescriptor(c) == ValueDescriptor(c) == c.descriptor
  {
  }
}
