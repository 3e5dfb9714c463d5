/** The part of the serialization framework the serializers rely on, abstracted:
    serial descriptors, inner codecs (each side's delegate serializer), the element
    events a structure decoder reports, and the exceptions decoding can throw. */
module Codecs {
  import opened Outcomes
  import opened Options

  /** A serial descriptor: the serial name and the named elements of a structure
      (no elements for a primitive). */
  datatype Descriptor = Descriptor(serialName: string, elements: seq<ElementDescriptor>)

  /** One element of a structure: its name, its own descriptor, and whether the
      element may be left out of a document. */
  datatype ElementDescriptor = ElementDescriptor(name: string, descriptor: Descriptor, isOptional: bool)

  /** The class of exception a decoding failure is thrown as. */
  datatype ExceptionKind = SerializationException | IllegalStateException

  /** The failures a deserializer can end in. */
  datatype Failure =
    | NeitherSide                                        // an Either structure with no element
    | BothSides                                          // an Either structure with both elements
    | SideNotFound                                       // a Left or Right structure without its element
    | UnexpectedIndex(index: nat)                        // `error("Unexpected index: $index")`
    | InnerFailure(kind: ExceptionKind, message: string) // thrown by a delegate and propagated
  {
    /** The class it is thrown as: `error(...)` throws an `IllegalStateException`, the
        serializers' own `throw`s a `SerializationException`, and a delegate's
        exception keeps its class. */
    function Kind(): (k: ExceptionKind)
      ensures !InnerFailure? ==> (k == IllegalStateException <==> UnexpectedIndex?)
      ensures InnerFailure? ==> k == kind
    {
      match this
      case UnexpectedIndex(_) => IllegalStateException
      case InnerFailure(k, _) => k
      case _ => SerializationException
    }

    /** The exception's message; an `Unexpected index` message carries the index in
        decimal, so the index can be read back from it. */
    function Message(): (m: string)
      ensures UnexpectedIndex? ==> |m| > 18 && m[..18] == "Unexpected index: " && IsDecimal(m[18..]) && DecimalValue(m[18..]) == index
      ensures InnerFailure? ==> m == message
    {
      match this
      case NeitherSide => "Either do not contains left or right value"
      case BothSides => "Either contains both left and right values"
      case SideNotFound => "Cannot deserialize left value, left not found."
      case UnexpectedIndex(i) =>
        DecimalDigitsRoundTrip(i);
        assert ("Unexpected index: " + DecimalDigits(i))[18..] == DecimalDigits(i);
        "Unexpected index: " + DecimalDigits(i)
      case InnerFailure(_, m) => m
    }
  }

  /** A delegate serializer: its descriptor, what it writes for a value, and what it
      reads back from a payload (a value, or the exception it throws). */
  datatype Codec<!T, !P> = Codec(descriptor: Descriptor, encode: T -> P, decode: P -> Result<T, Failure>)

  /** The delegate reads back every value it writes. */
  ghost predicate RoundTrips<T(!new), P>(c: Codec<T, P>)
  {
    forall x :: c.decode(c.encode(x)) == Ok(x)
  }

  /** The delegate reads every one of the given payloads without throwing. */
  ghost predicate AllDecode<T, P>(c: Codec<T, P>, ps: seq<P>)
  {
    forall k :: 0 <= k < |ps| ==> c.decode(ps[k]).Ok?
  }

  /** One step of a structure decoder: `decodeElementIndex` reported `index`, and the
      element's payload is what `decodeSerializableElement` hands to the delegate. The
      end of a sequence of elements stands for `DECODE_DONE`. */
  datatype Element<P> = Element(index: nat, payload: P)

  /** The payloads of the elements with the given index, in document order: the last
      element, when it has that index, is listed last, and otherwise the list is the
      one of the elements before it. */
  function Payloads<P>(s: seq<Element<P>>, index: nat): (ps: seq<P>)
    ensures s != [] && s[|s| - 1].index == index ==> ps != [] && ps[|ps| - 1] == s[|s| - 1].payload
    ensures s != [] && s[|s| - 1].index != index ==> ps == Payloads(s[..|s| - 1], index)
    decreases |s|
  {
    if s == [] then []
    else
      var init := s[..|s| - 1];
      assert forall k :: 0 <= k < |init| ==> init[k] == s[k];
      Payloads(init, index) + (if s[|s| - 1].index == index then [s[|s| - 1].payload] else [])
  }

  /** `Payloads` lists exactly the payloads of the elements with that index: each such
      element's payload is listed, and each listed payload comes from such an element. */
  lemma {:induction false} PayloadsListsMatchingElements<P>(s: seq<Element<P>>, index: nat)
    ensures forall k :: 0 <= k < |s| && s[k].index == index ==> s[k].payload in Payloads(s, index)
    ensures forall j :: 0 <= j < |Payloads(s, index)| ==>
      exists k :: 0 <= k < |s| && s[k].index == index && s[k].payload == Payloads(s, index)[j]
    decreases |s|
  {
    if s != [] {
      var init := s[..|s| - 1];
      PayloadsListsMatchingElements(init, index);
      var ps, qs := Payloads(s, index), Payloads(init, index);
      assert ps == qs + (if s[|s| - 1].index == index then [s[|s| - 1].payload] else []);
      forall j | 0 <= j < |ps|
        ensures exists k :: 0 <= k < |s| && s[k].index == index && s[k].payload == ps[j]
      {
        if j < |qs| {
          var k :| 0 <= k < |init| && init[k].index == index && init[k].payload == qs[j];
          assert s[k] == init[k] && ps[j] == qs[j];
        } else {
          assert s[|s| - 1].index == index && s[|s| - 1].payload == ps[j];
        }
      }
      forall k | 0 <= k < |s| && s[k].index == index
        ensures s[k].payload in ps
      {
        if k < |init| {
          assert init[k] == s[k];
        }
      }
    } else {
      assert Payloads(s, index) == [];
    }
  }

  /** The slot a field accumulator ends with when every payload decodes: unseen, or
      the decoding of the last payload seen. */
  function LastDecoded<T, P>(c: Codec<T, P>, ps: seq<P>): (slot: Option<T>)
    requires AllDecode(c, ps)
    ensures slot.None? <==> ps == []
    ensures slot.Some? ==> Ok(slot.value) == c.decode(ps[|ps| - 1])
  {
    if ps == [] then None else Some(c.decode(ps[|ps| - 1]).value)
  }

  /** Writing a slot: the delegate's value, as `Some`, or the exception it throws. */
  function DecodeSlot<T, P>(c: Codec<T, P>, p: P): (r: Result<Option<T>, Failure>)
    ensures r.Ok? <==> c.decode(p).Ok?
    ensures r.Ok? ==> r.value == Some(c.decode(p).value)
    ensures r.Err? ==> r.error == c.decode(p).error
  {
    match c.decode(p)
    case Ok(v) => Ok(Some(v))
    case Err(f) => Err(f)
  }

  /** The single-slot decode loop of LeftSerializer and RightSerializer over a prefix
      of the elements: index 0 overwrites the slot, any other index is rejected, and
      the first failure ends the loop. */
  function ScanSingle<T, P>(c: Codec<T, P>, s: seq<Element<P>>): (r: Result<Option<T>, Failure>)
    ensures r.Ok? ==> forall k :: 0 <= k < |s| ==> s[k].index == 0
    ensures r.Ok? ==> (r.value.None? <==> s == [])
    ensures r.Ok? && s != [] ==> c.decode(s[|s| - 1].payload) == Ok(r.value.value)
    ensures (forall k :: 0 <= k < |s| ==> s[k].index == 0 && c.decode(s[k].payload).Ok?) ==> r.Ok?
    decreases |s|
  {
    if s == [] then Ok(None)
    else
      match ScanSingle(c, s[..|s| - 1])
      case Err(f) => Err(f)
      case Ok(_) =>
        if s[|s| - 1].index == 0 then DecodeSlot(c, s[|s| - 1].payload)
        else Err(UnexpectedIndex(s[|s| - 1].index))
  }

  /** Once the single-slot loop has failed on a prefix, it fails the same way on the
      whole sequence: a thrown exception ends the loop. */
  lemma {:induction false} ScanSingleFailureIsFinal<T, P>(c: Codec<T, P>, s: seq<Element<P>>, k: nat)
    requires k <= |s| && ScanSingle(c, s[..k]).Err?
    ensures ScanSingle(c, s) == ScanSingle(c, s[..k])
    decreases |s|
  {
    if k < |s| {
      var init := s[..|s| - 1];
      assert init[..k] == s[..k];
      ScanSingleFailureIsFinal(c, init, k);
    } else {
      assert s[..k] == s;
    }
  }

  /** With only index-0 elements that all decode, the single slot ends with the last
      one: last write wins. */
  lemma {:induction false} ScanSingleKeepsLast<T, P>(c: Codec<T, P>, s: seq<Element<P>>)
    requires forall k :: 0 <= k < |s| ==> s[k].index == 0
    requires AllDecode(c, Payloads(s, 0))
    ensures ScanSingle(c, s) == Ok(LastDecoded(c, Payloads(s, 0)))
    decreases |s|
  {
    if s != [] {
      var init := s[..|s| - 1];
      assert Payloads(s, 0) == Payloads(init, 0) + [s[|s| - 1].payload];
      assert AllDecode(c, Payloads(init, 0)) by {
        forall k | 0 <= k < |Payloads(init, 0)|
          ensures c.decode(Payloads(init, 0)[k]).Ok?
        {
          assert Payloads(init, 0)[k] == Payloads(s, 0)[k];
        }
      }
      ScanSingleKeepsLast(c, init);
    }
  }

  /** The messages of the serializers' own failures tell the failures apart; in
      particular two `Unexpected index` messages are equal only for the same index. */
  lemma FailureMessagesAreDistinct(a: Failure, b: Failure)
    requires !a.InnerFailure? && !b.InnerFailure?
    requires a.Message() == b.Message()
    ensures a == b
  {
  }

  /** The digits of a natural number in base ten, as Kotlin's `Int.toString` writes them. */
  function DecimalDigits(n: nat): (s: string)
    ensures 1 <= |s|
    ensures IsDecimal(s)
    ensures s[0] == '0' ==> n == 0
    decreases n
  {
    if n < 10 then [(n + 48) as char] else DecimalDigits(n / 10) + [(n % 10 + 48) as char]
  }

  /** Every character is a decimal digit. */
  predicate IsDecimal(s: string)
  {
    forall k :: 0 <= k < |s| ==> '0' <= s[k] <= '9'
  }

  /** The number a string of decimal digits denotes. */
  function DecimalValue(s: string): nat
    requires IsDecimal(s)
    decreases |s|
  {
    if s == [] then 0 else 10 * DecimalValue(s[..|s| - 1]) + (s[|s| - 1] as int - 48)
  }

  /** Reading back the digits of `n` gives `n`: the index in an `Unexpected index`
      message is the index that was reported. */
  lemma {:induction false} DecimalDigitsRoundTrip(n: nat)
    ensures DecimalValue(DecimalDigits(n)) == n
    decreases n
  {
    if n >= 10 {
      var s := DecimalDigits(n);
      assert s[..|s| - 1] == DecimalDigits(n / 10);
      DecimalDigitsRoundTrip(n / 10);
    }
  }
}
