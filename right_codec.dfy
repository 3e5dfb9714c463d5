/** RightSerializer.kt: a `Right` is written as a structure with its one element
    `right` (index 0 of this structure), and read back through a single slot. */
module RightCodec {
  import opened Outcomes
  import opened Options
  import opened Eithers
  import opened Codecs

  /** The structure: one element `right`, not marked optional, described by the delegate. */
  function RightDescriptor<R, P>(c: Codec<R, P>): (d: Descriptor)
    ensures d.serialName == "net.orandja.either.RightSerializer" && |d.elements| == 1
    ensures d.elements[0].name == "right" && d.elements[0].descriptor == c.descriptor
    ensures d.elements[0].isOptional == false
  {
    Descriptor("net.orandja.either.RightSerializer", [ElementDescriptor("right", c.descriptor, false)])
  }

  /** `serialize`: the element `right`, written by the delegate. */
  function Serialize<R, P>(c: Codec<R, P>, y: R): (s: seq<Element<P>>)
    ensures |s| == 1 && s[0].index == 0 && s[0].payload == c.encode(y)
  {
    [Element(0, c.encode(y))]
  }

  /** What `deserialize` produces: always a `Right`, or `SideNotFound` (whose message,
      as written, speaks of the left value) when the loop ends with the slot unseen. */
  function Decode<L, R, P>(c: Codec<R, P>, s: seq<Element<P>>): (r: Result<Either<L, R>, Failure>)
    ensures r.Ok? ==> r.value.Right? && ScanSingle(c, s) == Ok(Some(r.value.right))
    ensures ScanSingle(c, s).Ok? && ScanSingle(c, s).value.Some? ==> r == Ok(Right(ScanSingle(c, s).value.value))
    ensures ScanSingle(c, s) == Ok(None) ==> r == Err(SideNotFound)
    ensures ScanSingle(c, s).Err? ==> r == Err(ScanSingle(c, s).error)
  {
    match ScanSingle(c, s)
    case Err(f) => Err(f)
    case Ok(None) => Err(SideNotFound)
    case Ok(Some(y)) => Ok(Right(y))
  }

  /** `deserialize`: the single-slot decode loop, then the check that the slot was seen. */
  method Deserialize<L, R, P>(c: Codec<R, P>, s: seq<Element<P>>) returns (r: Result<Either<L, R>, Failure>)
    ensures r == Decode(c, s)
  {
    var right: Option<R> := None;
    var i := 0;
    while i < |s|
      invariant i <= |s|
      invariant ScanSingle(c, s[..i]) == Ok(right)
    {
      assert s[..i + 1][..i] == s[..i];
      var element := s[i];
      if element.index == 0 {
        var decoded := c.decode(element.payload);
        if decoded.Err? {
          ScanSingleFailureIsFinal(c, s, i + 1);
          return Err(decoded.error);
        }
        right := Some(decoded.value);
      } else {
        ScanSingleFailureIsFinal(c, s, i + 1);
        return Err(UnexpectedIndex(element.index));
      }
      i := i + 1;
    }
    assert s[..i] == s;
    if right.None? {
      r := Err(SideNotFound);
    } else {
      r := Ok(Right(right.value));
    }
  }

  /** On a structure of `right` elements that all decode: none is `SideNotFound`,
      otherwise the last one gives the `Right`. */
  lemma DecodeVerdict<L, R, P>(c: Codec<R, P>, s: seq<Element<P>>)
    requires forall k :: 0 <= k < |s| ==> s[k].index == 0
    requires AllDecode(c, Payloads(s, 0))
    ensures Decode<L, R, P>(c, s) == Err(SideNotFound) <==> s == []
    ensures s != [] ==> Decode<L, R, P>(c, s) == Ok(Right(LastDecoded(c, Payloads(s, 0)).value))
    ensures s == [] ==> Decode<L, R, P>(c, s).error.Message() == "Cannot deserialize left value, left not found."
    ensures s == [] ==> Decode<L, R, P>(c, s).error.Kind() == SerializationException
  {
    ScanSingleKeepsLast(c, s);
    if s != [] {
      assert Payloads(s, 0) == Payloads(s[..|s| - 1], 0) + [s[|s| - 1].payload];
    }
  }

  /** An element other than `right` throws `Unexpected index` once the loop reaches it. */
  lemma DecodeRejectsUnexpectedIndex<L, R, P>(c: Codec<R, P>, s: seq<Element<P>>, k: nat)
    requires k < |s| && s[k].index != 0
    requires forall j :: 0 <= j < k ==> s[j].index == 0
    requires AllDecode(c, Payloads(s[..k], 0))
    ensures Decode<L, R, P>(c, s) == Err(UnexpectedIndex(s[k].index))
  {
    ScanSingleKeepsLast(c, s[..k]);
    assert s[..k + 1][..k] == s[..k];
    ScanSingleFailureIsFinal(c, s, k + 1);
  }

  /** Round trip: with a delegate that reads back what it writes, reading back what
      `serialize` writes gives the `Right` that was written. */
  lemma RoundTrip<L, R(!new), P>(c: Codec<R, P>, y: R)
    requires RoundTrips(c)
    ensures Decode<L, R, P>(c, Serialize(c, y)) == Ok(Right(y))
  {
    var s := Serialize(c, y);
    assert s[..|s| - 1] == [];
    assert c.decode(c.encode(y)) == Ok(y);
    assert ScanSingle(c, s) == Ok(Some(y));
  }
}
