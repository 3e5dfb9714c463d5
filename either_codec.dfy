/** EitherSerializer.kt: an either is written as a structure with exactly one of
    the elements `left` (index 0) and `right` (index 1), and read back by
    accumulating each side into its own slot, in whatever order the elements come,
    before reconciling the two slots. */
module EitherCodec {
  import opened Outcomes
  import opened Options
  import opened Eithers
  import opened Codecs

  /** The structure: `left` and `right`, both optional, described by the delegates. */
  function EitherDescriptor<L, R, P>(lc: Codec<L, P>, rc: Codec<R, P>): (d: Descriptor)
    ensures d.serialName == "net.orandja.either.EitherSerializer" && |d.elements| == 2
    ensures d.elements[0].name == "left" && d.elements[0].descriptor == lc.descriptor
    ensures d.elements[1].name == "right" && d.elements[1].descriptor == rc.descriptor
    ensures forall k :: 0 <= k < |d.elements| ==> d.elements[k].isOptional
  {
    Descriptor("net.orandja.either.EitherSerializer",
      [ElementDescriptor("left", lc.descriptor, true), ElementDescriptor("right", rc.descriptor, true)])
  }

  /** `serialize`: the one element of the side held, written by that side's delegate. */
  function Serialize<L, R, P>(lc: Codec<L, P>, rc: Codec<R, P>, e: Either<L, R>): (s: seq<Element<P>>)
    ensures |s| == 1
    ensures s[0].index == (if e.Left? then 0 else 1)
    ensures e.Left? ==> s[0].payload == lc.encode(e.left)
    ensures e.Right? ==> s[0].payload == rc.encode(e.right)
  {
    match e
    case Left(x) => [Element(0, lc.encode(x))]
    case Right(y) => [Element(1, rc.encode(y))]
  }

  /** The two field accumulators of `deserialize`. */
  datatype Slots<L, R> = Slots(left: Option<L>, right: Option<R>)

  /** One turn of the decode loop. */
  function Step<L, R, P>(lc: Codec<L, P>, rc: Codec<R, P>, slots: Slots<L, R>, element: Element<P>): (r: Result<Slots<L, R>, Failure>)
    ensures element.index > 1 ==> r == Err(UnexpectedIndex(element.index))
    ensures element.index == 0 ==> r == (match lc.decode(element.payload)
                                         case Ok(x) => Ok(Slots(Some(x), slots.right))
                                         case Err(f) => Err(f))
    ensures element.index == 1 ==> r == (match rc.decode(element.payload)
                                         case Ok(y) => Ok(Slots(slots.left, Some(y)))
                                         case Err(f) => Err(f))
  {
    if element.index == 0 then
      match DecodeSlot(lc, element.payload)
      case Ok(v) => Ok(slots.(left := v))
      case Err(f) => Err(f)
    else if element.index == 1 then
      match DecodeSlot(rc, element.payload)
      case Ok(v) => Ok(slots.(right := v))
      case Err(f) => Err(f)
    else
      Err(UnexpectedIndex(element.index))
  }

  /** The decode loop over a prefix of the elements: the slots it ends with, or the
      first exception thrown. */
  function Scan<L, R, P>(lc: Codec<L, P>, rc: Codec<R, P>, s: seq<Element<P>>): (r: Result<Slots<L, R>, Failure>)
    ensures r.Ok? ==> forall k :: 0 <= k < |s| ==> s[k].index <= 1
    ensures r.Ok? ==> (r.value.left.None? <==> Payloads(s, 0) == [])
    ensures r.Ok? ==> (r.value.right.None? <==> Payloads(s, 1) == [])
    decreases |s|
  {
    if s == [] then Ok(Slots(None, None))
    else
      var init := s[..|s| - 1];
      assert forall k :: 0 <= k < |init| ==> init[k] == s[k];
      match Scan(lc, rc, init)
      case Err(f) => Err(f)
      case Ok(slots) => Step(lc, rc, slots, s[|s| - 1])
  }

  /** The `when` after the loop: neither and both are rejected, exactly one side gives
      that side's either. Its fourth branch always holds where it is reached, so the
      source's `else -> error("unreachable")` is never taken. */
  function Reconcile<L, R>(left: Option<L>, right: Option<R>): (r: Result<Either<L, R>, Failure>)
    ensures r == Err(NeitherSide) <==> left.None? && right.None?
    ensures r == Err(BothSides) <==> left.Some? && right.Some?
    ensures r.Ok? <==> left.Some? != right.Some?
    ensures r.Ok? ==> LeftAsOption(r.value) == left && RightAsOption(r.value) == right
  {
    if left.None? && right.None? then Err(NeitherSide)
    else if left.Some? && right.Some? then Err(BothSides)
    else if left.Some? then Ok(Left(left.value))
    else assert right.Some?; Ok(Right(right.value))
  }

  /** What `deserialize` produces for a structure. */
  function Decode<L, R, P>(lc: Codec<L, P>, rc: Codec<R, P>, s: seq<Element<P>>): (r: Result<Either<L, R>, Failure>)
    ensures Scan(lc, rc, s).Err? ==> r == Err(Scan(lc, rc, s).error)
    ensures Scan(lc, rc, s).Ok? ==> (r == Err(NeitherSide) <==> Payloads(s, 0) == [] && Payloads(s, 1) == [])
    ensures Scan(lc, rc, s).Ok? ==> (r == Err(BothSides) <==> Payloads(s, 0) != [] && Payloads(s, 1) != [])
    ensures Scan(lc, rc, s).Ok? && (Payloads(s, 0) == []) != (Payloads(s, 1) == []) ==> r.Ok?
    ensures r.Ok? ==> Scan(lc, rc, s).Ok?
    ensures r.Ok? ==> LeftAsOption(r.value) == Scan(lc, rc, s).value.left && RightAsOption(r.value) == Scan(lc, rc, s).value.right
  {
    match Scan(lc, rc, s)
    case Err(f) => Err(f)
    case Ok(slots) => Reconcile(slots.left, slots.right)
  }

  /** `deserialize`: the decode loop with its two slots, then the reconciliation. */
  method Deserialize<L, R, P>(lc: Codec<L, P>, rc: Codec<R, P>, s: seq<Element<P>>) returns (r: Result<Either<L, R>, Failure>)
    ensures r == Decode(lc, rc, s)
  {
    var left: Option<L> := None;
    var right: Option<R> := None;
    var i := 0;
    while i < |s|
      invariant i <= |s|
      invariant Scan(lc, rc, s[..i]) == Ok(Slots(left, right))
    {
      assert s[..i + 1][..i] == s[..i];
      var element := s[i];
      if element.index == 0 {
        var decoded := lc.decode(element.payload);
        if decoded.Err? {
          ScanFailureIsFinal(lc, rc, s, i + 1);
          return Err(decoded.error);
        }
        left := Some(decoded.value);
      } else if element.index == 1 {
        var decoded := rc.decode(element.payload);
        if decoded.Err? {
          ScanFailureIsFinal(lc, rc, s, i + 1);
          return Err(decoded.error);
        }
        right := Some(decoded.value);
      } else {
        ScanFailureIsFinal(lc, rc, s, i + 1);
        return Err(UnexpectedIndex(element.index));
      }
      i := i + 1;
    }
    assert s[..i] == s;
    r := Reconcile(left, right);
  }

  /** Once the loop has thrown on a prefix, it throws the same on the whole structure. */
  lemma {:induction false} ScanFailureIsFinal<L, R, P>(lc: Codec<L, P>, rc: Codec<R, P>, s: seq<Element<P>>, k: nat)
    requires k <= |s| && Scan(lc, rc, s[..k]).Err?
    ensures Scan(lc, rc, s) == Scan(lc, rc, s[..k])
    decreases |s|
  {
    if k < |s| {
      var init := s[..|s| - 1];
      assert init[..k] == s[..k];
      ScanFailureIsFinal(lc, rc, init, k);
    } else {
      assert s[..k] == s;
    }
  }

  /** Every element is `left` or `right`, and each side's delegate reads every payload
      given for that side. */
  ghost predicate WellFormed<L, R, P>(lc: Codec<L, P>, rc: Codec<R, P>, s: seq<Element<P>>)
  {
    && (forall k :: 0 <= k < |s| ==> s[k].index <= 1)
    && AllDecode(lc, Payloads(s, 0))
    && AllDecode(rc, Payloads(s, 1))
  }

  /** On a well-formed structure each slot ends as the decoding of the last element for
      its side, or unseen: last write wins, independently for each side. */
  lemma {:induction false} ScanKeepsLastOccurrence<L, R, P>(lc: Codec<L, P>, rc: Codec<R, P>, s: seq<Element<P>>)
    requires WellFormed(lc, rc, s)
    ensures Scan(lc, rc, s) == Ok(Slots(LastDecoded(lc, Payloads(s, 0)), LastDecoded(rc, Payloads(s, 1))))
    decreases |s|
  {
    if s != [] {
      var init := s[..|s| - 1];
      var last := s[|s| - 1];
      assert Payloads(s, 0) == Payloads(init, 0) + (if last.index == 0 then [last.payload] else []);
      assert Payloads(s, 1) == Payloads(init, 1) + (if last.index == 1 then [last.payload] else []);
      assert AllDecode(lc, Payloads(init, 0)) by {
        forall k | 0 <= k < |Payloads(init, 0)| ensures lc.decode(Payloads(init, 0)[k]).Ok? {
          assert Payloads(init, 0)[k] == Payloads(s, 0)[k];
        }
      }
      assert AllDecode(rc, Payloads(init, 1)) by {
        forall k | 0 <= k < |Payloads(init, 1)| ensures rc.decode(Payloads(init, 1)[k]).Ok? {
          assert Payloads(init, 1)[k] == Payloads(s, 1)[k];
        }
      }
      ScanKeepsLastOccurrence(lc, rc, init);
    }
  }

  /** When every element is `left` or `right`, the two sides' elements make up the
      whole structure. */
  lemma {:induction false} SidesPartitionElements<P>(s: seq<Element<P>>)
    requires forall k :: 0 <= k < |s| ==> s[k].index <= 1
    ensures |Payloads(s, 0)| + |Payloads(s, 1)| == |s|
    decreases |s|
  {
    if s != [] {
      SidesPartitionElements(s[..|s| - 1]);
    }
  }

  /** The verdict on a well-formed structure: no element is `NeitherSide`, elements for
      both sides are `BothSides`, and elements for one side only give that side, with
      the value of its last element. */
  lemma DecodeVerdict<L, R, P>(lc: Codec<L, P>, rc: Codec<R, P>, s: seq<Element<P>>)
    requires WellFormed(lc, rc, s)
    ensures Decode(lc, rc, s) == Err(NeitherSide) <==> s == []
    ensures Decode(lc, rc, s) == Err(BothSides) <==> Payloads(s, 0) != [] && Payloads(s, 1) != []
    ensures Payloads(s, 0) != [] && Payloads(s, 1) == [] ==>
      Decode(lc, rc, s) == Ok(Left(LastDecoded(lc, Payloads(s, 0)).value))
    ensures Payloads(s, 1) != [] && Payloads(s, 0) == [] ==>
      Decode(lc, rc, s) == Ok(Right(LastDecoded(rc, Payloads(s, 1)).value))
  {
    ScanKeepsLastOccurrence(lc, rc, s);
    SidesPartitionElements(s);
  }

  /** The verdict depends on each side's elements and their order among themselves, not
      on how the two sides are interleaved. */
  lemma DecodeIgnoresInterleaving<L, R, P>(lc: Codec<L, P>, rc: Codec<R, P>, s: seq<Element<P>>, t: seq<Element<P>>)
    requires WellFormed(lc, rc, s)
    requires forall k :: 0 <= k < |t| ==> t[k].index <= 1
    requires Payloads(s, 0) == Payloads(t, 0) && Payloads(s, 1) == Payloads(t, 1)
    ensures Decode(lc, rc, s) == Decode(lc, rc, t)
  {
    ScanKeepsLastOccurrence(lc, rc, s);
    ScanKeepsLastOccurrence(lc, rc, t);
  }

  /** An element whose index is neither `left` nor `right` throws `Unexpected index`
      with that index, once the loop reaches it. */
  lemma DecodeRejectsUnexpectedIndex<L, R, P>(lc: Codec<L, P>, rc: Codec<R, P>, s: seq<Element<P>>, k: nat)
    requires k < |s| && s[k].index > 1
    requires WellFormed(lc, rc, s[..k])
    ensures Decode(lc, rc, s) == Err(UnexpectedIndex(s[k].index))
    ensures Decode(lc, rc, s).error.Kind() == IllegalStateException
    ensures Decode(lc, rc, s).error.Message() == "Unexpected index: " + DecimalDigits(s[k].index)
  {
    ScanKeepsLastOccurrence(lc, rc, s[..k]);
    assert s[..k + 1][..k] == s[..k];
    ScanFailureIsFinal(lc, rc, s, k + 1);
  }

  /** Round trip: with delegates that read back what they write, reading back what
      `serialize` writes gives the either that was written. */
  lemma RoundTrip<L(!new), R(!new), P>(lc: Codec<L, P>, rc: Codec<R, P>, e: Either<L, R>)
    requires RoundTrips(lc) && RoundTrips(rc)
    ensures Decode(lc, rc, Serialize(lc, rc, e)) == Ok(e)
  {
    var s := Serialize(lc, rc, e);
    assert s[..|s| - 1] == [];
    match e
    case Left(x) =>
      assert lc.decode(lc.encode(x)) == Ok(x);
      assert Scan(lc, rc, s) == Ok(Slots(Some(x), None));
    case Right(y) =>
      assert rc.decode(rc.encode(y)) == Ok(y);
      assert Scan(lc, rc, s) == Ok(Slots(None, Some(y)));
  }

  /** `serialize` writes one element, and it is the element the descriptor declares
      for the side held: `left` for a `Left`, `right` for a `Right`. */
  lemma SerializeWritesTheHeldSidesElement<L, R, P>(lc: Codec<L, P>, rc: Codec<R, P>, e: Either<L, R>)
    ensures EitherDescriptor(lc, rc).elements[Serialize(lc, rc, e)[0].index].name == (if e.Left? then "left" else "right")
    ensures Payloads(Serialize(lc, rc, e), 0) == [] <==> e.Right?
    ensures Payloads(Serialize(lc, rc, e), 1) == [] <==> e.Left?
  {
    var s := Serialize(lc, rc, e);
    assert s[..|s| - 1] == [];
  }
}
