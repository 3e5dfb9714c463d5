/** LeftSerializer.kt: a `Left` is written as a structure with its one element
    `left` (index 0), and read back through a single slot. */
module LeftCodec {
  import opened Outcomes
  import opened Options
  import opened Eithers
  import opened Codecs

  /** The structure: one optional element `left`, described by the delegate. */
  function LeftDescriptor<L, P>(c: Codec<L, P>): (d: Descriptor)
    ensures d.serialName == "net.orandja.either.LeftSerializer" && |d.elements| == 1
    ensures d.elements[0].name == "left" && d.elements[0].descriptor == c.descriptor
    ensures d.elements[0].isOptional == true
  {
    Descriptor("net.orandja.either.LeftSerializer", [ElementDescriptor("left", c.descriptor, true)])
  }

  /** `serialize`: the element `left`, written by the delegate. */
  function Serialize<L, P>(c: Codec<L, P>, x: L): (s: seq<Element<P>>)
    ensures |s| == 1 && s[0].index == 0 && s[0].payload == c.encode(x)
  {
    [Element(0, c.encode(x))]
  }

  /** What `deserialize` produces: always a `Left`, or `SideNotFound` when the loop
      ends with the slot unseen. */
  function Decode<L, R, P>(c: Codec<L, P>, s: seq<Element<P>>): (r: Result<Either<L, R>, Failure>)
    ensures r.Ok? ==> r.value.Left? && ScanSingle(c, s) == Ok(Some(r.value.left))
    ensures ScanSingle(c, s).Ok? && ScanSingle(c, s).value.Some? ==> r == Ok(Left(ScanSingle(c, s).value.value))
    ensures ScanSingle(c, s) == Ok(None) ==> r == Err(SideNotFound)
    ensures ScanSingle(c, s).Err? ==> r == Err(ScanSingle(c, s).error)
  {
    match ScanSingle(c, s)
    case Err(f) => Err(f)
    case Ok(None) => Err(SideNotFound)
    case Ok(Some(x)) => Ok(Left(x))
  }

  /** `deserialize`: the single-slot decode loop, then the check that the slot was seen. */
  method Deserialize<L, R, P>(c: Codec<L, P>, s: seq<Element<P>>) returns (r: Result<Either<L, R>, Failure>)
    ensures r == Decode(c, s)
  {
    var left: Option<L> := None;
    var i := 0;
    while i < |s|
      invariant i <= |s|
      invariant ScanSingle(c, s[..i]) == Ok(left)
    {
      assert s[..i + 1][..i] == s[..i];
      var element := s[i];
      if element.index == 0 {
        var decoded := c.decode(element.payload);
        if decoded.Err? {
          ScanSingleFailureIsFinal(c, s, i + 1);
          return Err(decoded.error);
        }
        left := Some(decoded.value);
      } else {
        ScanSingleFailureIsFinal(c, s, i + 1);
        return Err(UnexpectedIndex(element.index));
      }
      i := i + 1;
    }
    assert s[..i] == s;
    if left.None? {
      r := Err(SideNotFound);
    } else {
      r := Ok(Left(left.value));
    }
  }

  /** On a structure of `left` elements that all decode: none is `SideNotFound`,
      otherwise the last one gives the `Left`. */
  lemma DecodeVerdict<L, R, P>(c: Codec<L, P>, s: seq<Element<P>>)
    requires forall k :: 0 <= k < |s| ==> s[k].index == 0
    requires AllDecode(c, Payloads(s, 0))
    ensures Decode<L, R, P>(c, s) == Err(SideNotFound) <==> s == []
    ensures s != [] ==> Decode<L, R, P>(c, s) == Ok(Left(LastDecoded(c, Payloads(s, 0)).value))
    ensures s == [] ==> Decode<L, R, P>(c, s).error.Message() == "Cannot deserialize left value, left not found."
    ensures s == [] ==> Decode<L, R, P>(c, s).error.Kind() == SerializationException
  {
    ScanSingleKeepsLast(c, s);
    if s != [] {
      assert Payloads(s, 0) == Payloads(s[..|s| - 1], 0) + [s[|s| - 1].payload];
    }
  }

  /** An element other than `left` throws `Unexpected index` once the loop reaches it. */
  lemma DecodeRejectsUnexpectedIndex<L, R, P>(c: Codec<L, P>, s: seq<Element<P>>, k: nat)
    requires k < |s| && s[k].index != 0
    requires forall j :: 0 <= j < k ==> s[j].index == 0
    requires AllDecode(c, Payloads(s[..k], 0))
    ensures Decode<L, R, P>(c, s) == Err(UnexpectedIndex(s[k].index))
  {
    ScanSingleKeepsLast(c, s[..k]);
    assert s[..k + 1][..k] == s[..k];
    ScanSingleFailureIsFinal(c, s, k + 1);
  }

  /** Round trip: with a delegate that reads back what it writes, reading back what
      `serialize` writes gives the `Left` that was written. */
  lemma RoundTrip<L(!new), R, P>(c: Codec<L, P>, x: L)
    requires RoundTrips(c)
    ensures Decode<L, R, P>(c, Serialize(c, x)) == Ok(Left(x))
  {
    var s := Serialize(c, x);
    assert s[..|s| - 1] == [];
    assert c.decode(c.encode(x)) == Ok(x);
    assert ScanSingle(c, s) == Ok(Some(x));
  }
}
