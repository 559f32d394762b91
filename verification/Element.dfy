/** The recursive data element decoder. The functions say what is decoded; the methods
    at the end decode step by step, with the loop over a sequence body. */
module Element {
  import opened Bytes
  import opened Descriptor

  const UINT_TYPE: ElementType := 1
  const UUID_TYPE: ElementType := 3
  const SEQUENCE_TYPE: ElementType := 6

  datatype DataElement =
    | UnsignedInt(number: u128)
    | Uuid16(uuid: u16)
    | Sequence(elements: seq<DataElement>)
    | Unknown

  function PayloadLen(input: seq<byte>, size: ElementSize): Parse<nat> {
    match size
    case Fixed(n) => Ok(input, n)
    case VarLen8 =>
      var (rest, n) :- BeU8(input);
      Ok(rest, n)
    case VarLen16 =>
      var (rest, n) :- BeU16(input);
      Ok(rest, n)
    case VarLen32 =>
      var (rest, n) :- BeU32(input);
      Ok(rest, n)
  }

  function UintValue(body: seq<byte>): Parse<u128> {
    if |body| == 1 then BeU8(body)
    else if |body| == 2 then BeU16(body)
    else if |body| == 4 then BeU32(body)
    else Reject
  }

  function Uuid16Value(body: seq<byte>): Parse<u16> {
    if |body| == 2 then BeU16(body) else Reject
  }

  /** Descriptor, length and body of one element: what is read before its type matters. */
  function ParseEnvelope(input: seq<byte>): (r: Parse<(Descriptor, seq<byte>)>)
    ensures r.Ok? ==> |r.rest| + |r.value.1| < |input|
  {
    var (afterDescriptor, desc) :- ParseDescriptor(input);
    var (afterLen, len) :- PayloadLen(afterDescriptor, desc.size);
    var (rest, body) :- Take(len, afterLen);
    Ok(rest, (desc, body))
  }

  function ParseElement(input: seq<byte>): (r: Parse<DataElement>)
    ensures r.Ok? ==> |r.rest| < |input|
    decreases |input|, 0
  {
    var (rest, envelope) :- ParseEnvelope(input);
    var (desc, body) := envelope;
    if desc.elementType == UINT_TYPE then
      var (_, value) :- UintValue(body);
      Ok(rest, UnsignedInt(value))
    else if desc.elementType == UUID_TYPE && desc.size == Fixed(2) then
      var (_, value) :- Uuid16Value(body);
      Ok(rest, Uuid16(value))
    else if desc.elementType == SEQUENCE_TYPE then
      var (_, elements) :- ParseContents(body);
      Ok(rest, Sequence(elements))
    else
      Ok(rest, Unknown)
  }

  function ParseContents(body: seq<byte>): (r: Parse<seq<DataElement>>)
    ensures r.Ok? ==> r.rest == []
    decreases |body|, 1
  {
    if body == [] then Ok([], [])
    else
      var (rest, element) :- ParseElement(body);
      var (end, elements) :- ParseContents(rest);
      Ok(end, [element] + elements)
  }

  /** What decoding a body amounts to once some of its elements are already in hand. */
  function Prepend(elements: seq<DataElement>, tail: Parse<seq<DataElement>>): Parse<seq<DataElement>> {
    if tail.Ok? then Ok(tail.rest, elements + tail.value) else Reject
  }

  method DecodeElement(input: seq<byte>) returns (r: Parse<DataElement>)
    ensures r == ParseElement(input)
    decreases |input|, 0
  {
    var envelope := ParseEnvelope(input);
    if envelope.Reject? { return Reject; }
    var (desc, body) := envelope.value;
    if desc.elementType == UINT_TYPE {
      var value := UintValue(body);
      if value.Reject? { return Reject; }
      return Ok(envelope.rest, UnsignedInt(value.value));
    }
    if desc.elementType == UUID_TYPE && desc.size == Fixed(2) {
      var value := Uuid16Value(body);
      if value.Reject? { return Reject; }
      return Ok(envelope.rest, Uuid16(value.value));
    }
    if desc.elementType == SEQUENCE_TYPE {
      var contents := SequenceContents(body);
      if contents.Reject? { return Reject; }
      return Ok(envelope.rest, Sequence(contents.value));
    }
    return Ok(envelope.rest, Unknown);
  }

  method SequenceContents(body: seq<byte>) returns (r: Parse<seq<DataElement>>)
    ensures r == ParseContents(body)
    decreases |body|, 1
  {
    var remaining := body;
    var elements: seq<DataElement> := [];
    assert ParseContents(body).Ok? ==> [] + ParseContents(body).value == ParseContents(body).value;
    while remaining != []
      invariant |remaining| <= |body|
      invariant ParseContents(body) == Prepend(elements, ParseContents(remaining))
      decreases |remaining|
    {
      var next := DecodeElement(remaining);
      if next.Reject? { return Reject; }
      var tail := ParseContents(next.rest);
      assert tail.Ok? ==> elements + ([next.value] + tail.value) == elements + [next.value] + tail.value;
      elements := elements + [next.value];
      remaining := next.rest;
    }
    assert elements + [] == elements;
    return Ok(remaining, elements);
  }
}
