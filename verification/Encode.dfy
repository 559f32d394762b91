/** The one PDU the client builds: the ServiceSearchAttributeRequest
    (Bluetooth Core Specification, Vol 3, Part B, section 4.7.1). */
module Encode {
  import opened Bytes
  import opened Element
  import opened WireFormat
  import opened ElementRoundTrip
  import opened PduHeader
  import opened Response

  datatype Request = Request(
    transactionId: u16,
    serviceUuid16: u16,
    maximumAttributeByteCount: u16,
    attributeIdRange: u32,
    continuationState: seq<byte>)

  datatype EncodeError = ContinuationStateTooLong(len: int) | BodyTooLong(len: int)

  const REQUEST_PDU_ID: byte := 0x06
  const SEQUENCE_DESCRIPTOR: byte := 0x35
  const UUID16_DESCRIPTOR: byte := 0x19
  const UINT32_DESCRIPTOR: byte := 0x0a

  // --- What a request is on the wire ----------------------------------------------------

  /** The search pattern: a sequence of one 16-bit UUID. */
  function ServicePattern(uuid: u16): (w: Wire)
    ensures WellFormed(w)
  {
    var leaf := Leaf(UUID_TYPE, 1, PutU16(uuid));
    SoleTree(leaf);
    Node(5, [leaf])
  }

  /** The attribute id list: a sequence of one 32-bit range. */
  function AttributeIds(range: u32): (w: Wire)
    ensures WellFormed(w)
  {
    var leaf := Leaf(UINT_TYPE, 2, PutU32(range));
    SoleTree(leaf);
    Node(5, [leaf])
  }

  function RequestBody(r: Request): seq<byte>
    requires |r.continuationState| < 0x100
  {
    Print(ServicePattern(r.serviceUuid16))
      + PutU16(r.maximumAttributeByteCount)
      + Print(AttributeIds(r.attributeIdRange))
      + [|r.continuationState|]
      + r.continuationState
  }

  function RequestBytes(r: Request): (s: seq<byte>)
    requires |r.continuationState| < 0x100
    ensures |s| == 20 + |r.continuationState|
  {
    BodyLength(r);
    PrintPduHeader(PduHeader(REQUEST_PDU_ID, r.transactionId, |RequestBody(r)|)) + RequestBody(r)
  }

  lemma BodyLength(r: Request)
    requires |r.continuationState| < 0x100
    ensures |RequestBody(r)| == 15 + |r.continuationState|
  {
    PatternBytes(r.serviceUuid16);
    AttributeIdBytes(r.attributeIdRange);
  }

  lemma PatternBytes(uuid: u16)
    ensures Print(ServicePattern(uuid)) == [SEQUENCE_DESCRIPTOR, 3, UUID16_DESCRIPTOR] + PutU16(uuid)
  {
    var leaf := Leaf(UUID_TYPE, 1, PutU16(uuid));
    assert Print(leaf) == [UUID16_DESCRIPTOR] + PutU16(uuid);
    SoleTree(leaf);
  }

  lemma AttributeIdBytes(range: u32)
    ensures Print(AttributeIds(range)) == [SEQUENCE_DESCRIPTOR, 5, UINT32_DESCRIPTOR] + PutU32(range)
  {
    var leaf := Leaf(UINT_TYPE, 2, PutU32(range));
    assert Print(leaf) == [UINT32_DESCRIPTOR] + PutU32(range);
    SoleTree(leaf);
  }

  /** A request is refused exactly when its token does not fit its length byte; no request
      is ever refused for the length of its body. */
  function EncodeRequest(r: Request): Result<seq<byte>, EncodeError> {
    if |r.continuationState| < 0x100 then Success(RequestBytes(r))
    else Failure(ContinuationStateTooLong(|r.continuationState|))
  }

  /** The bytes of every request, one by one: header, pattern, byte count, id list and token. */
  lemma RequestLayout(r: Request)
    requires |r.continuationState| <= 255
    ensures EncodeRequest(r) == Success(
      [0x06] + PutU16(r.transactionId) + PutU16(15 + |r.continuationState|)
      + [0x35, 0x03, 0x19] + PutU16(r.serviceUuid16)
      + PutU16(r.maximumAttributeByteCount)
      + [0x35, 0x05, 0x0a] + PutU32(r.attributeIdRange)
      + [|r.continuationState|] + r.continuationState)
  {
    hide PutU16, PutU32, Print, ServicePattern, AttributeIds;
    BodyLength(r);
    PatternBytes(r.serviceUuid16);
    AttributeIdBytes(r.attributeIdRange);
    var header := [0x06] + PutU16(r.transactionId) + PutU16(15 + |r.continuationState|);
    var pattern := [0x35, 0x03, 0x19] + PutU16(r.serviceUuid16);
    var ids := [0x35, 0x05, 0x0a] + PutU32(r.attributeIdRange);
    var body := pattern + PutU16(r.maximumAttributeByteCount) + ids + [|r.continuationState|] + r.continuationState;
    assert RequestBytes(r) == header + body;
    assert header + body
        == header + [0x35, 0x03, 0x19] + PutU16(r.serviceUuid16) + PutU16(r.maximumAttributeByteCount)
           + [0x35, 0x05, 0x0a] + PutU32(r.attributeIdRange) + [|r.continuationState|] + r.continuationState;
  }

  /** The first request of a browse, as captured from a phone. */
  lemma FirstBrowseRequest() returns (pdu: seq<byte>)
    ensures EncodeRequest(Request(0, 0x1002, 0xffff, 0xffff, [])) == Success(pdu)
    ensures pdu == [0x06, 0x00, 0x00, 0x00, 0x0f, 0x35, 0x03, 0x19, 0x10, 0x02, 0xff, 0xff,
                    0x35, 0x05, 0x0a, 0x00, 0x00, 0xff, 0xff, 0x00]
  {
    hide EncodeRequest;
    RequestLayout(Request(0, 0x1002, 0xffff, 0xffff, []));
    pdu := EncodeRequest(Request(0, 0x1002, 0xffff, 0xffff, [])).value;
  }

  /** The second one, which echoes the token of the first page. */
  lemma SecondBrowseRequest() returns (pdu: seq<byte>)
    ensures EncodeRequest(Request(1, 0x1002, 0xffff, 0xffff, [0x00, 0xf3])) == Success(pdu)
    ensures pdu == [0x06, 0x00, 0x01, 0x00, 0x11, 0x35, 0x03, 0x19, 0x10, 0x02, 0xff, 0xff,
                    0x35, 0x05, 0x0a, 0x00, 0x00, 0xff, 0xff, 0x02, 0x00, 0xf3]
  {
    hide EncodeRequest;
    RequestLayout(Request(1, 0x1002, 0xffff, 0xffff, [0x00, 0xf3]));
    pdu := EncodeRequest(Request(1, 0x1002, 0xffff, 0xffff, [0x00, 0xf3])).value;
  }

  // --- Encoding step by step ------------------------------------------------------------

  method Encode(request: Request) returns (r: Result<seq<byte>, EncodeError>)
    ensures r == EncodeRequest(request)
    ensures r.Failure? <==> |request.continuationState| > 255
    ensures r.Failure? ==> r.error == ContinuationStateTooLong(|request.continuationState|)
  {
    hide PutU16, PutU32, Print, ServicePattern, AttributeIds;
    var body: seq<byte> := [];
    body := body + [SEQUENCE_DESCRIPTOR];
    body := body + [0x03];
    body := body + [UUID16_DESCRIPTOR];
    body := body + PutU16(request.serviceUuid16);
    ghost var pattern := Print(ServicePattern(request.serviceUuid16));
    assert body == pattern by { PatternBytes(request.serviceUuid16); }
    body := body + PutU16(request.maximumAttributeByteCount);
    body := body + [SEQUENCE_DESCRIPTOR];
    body := body + [0x05];
    body := body + [UINT32_DESCRIPTOR];
    body := body + PutU32(request.attributeIdRange);
    ghost var ids := Print(AttributeIds(request.attributeIdRange));
    assert body == pattern + PutU16(request.maximumAttributeByteCount) + ids by {
      AttributeIdBytes(request.attributeIdRange);
    }
    if |request.continuationState| >= 0x100 {
      return Failure(ContinuationStateTooLong(|request.continuationState|));
    }
    body := body + [|request.continuationState|];
    body := body + request.continuationState;
    if |body| >= 0x1_0000 {
      return Failure(BodyTooLong(|body|));
    }
    var pdu: seq<byte> := [REQUEST_PDU_ID];
    pdu := pdu + PutU16(request.transactionId);
    pdu := pdu + PutU16(|body|);
    pdu := pdu + body;
    return Success(pdu);
  }

  // --- Reading a request back -----------------------------------------------------------

  /** How the receiving side reads a request, with the decoders of the other direction. */
  function ReadRequest(input: seq<byte>): Option<Request> {
    var header := ParsePduHeader(input);
    if header.Reject? || header.value.pduId != 6 || header.value.parameterLength != |header.rest| then None
    else
      var pattern := ParseElement(header.rest);
      if pattern.Reject? then None
      else
        var maximum := BeU16(pattern.rest);
        if maximum.Reject? then None
        else
          var ids := ParseElement(maximum.rest);
          if ids.Reject? then None
          else
            var tokenLen := BeU8(ids.rest);
            if tokenLen.Reject? || |tokenLen.rest| != tokenLen.value then None
            else
              var uuid, range := SoleUuid16(pattern.value), SoleUint32(ids.value);
              if uuid.None? || range.None? then None
              else Some(Request(header.value.transactionId, uuid.value, maximum.value, range.value, tokenLen.rest))
  }

  function SoleUuid16(e: DataElement): Option<u16> {
    if e.Sequence? && |e.elements| == 1 && e.elements[0].Uuid16? then Some(e.elements[0].uuid) else None
  }

  function SoleUint32(e: DataElement): Option<u32> {
    if e.Sequence? && |e.elements| == 1 && e.elements[0].UnsignedInt? && e.elements[0].number < 0x1_0000_0000
    then Some(e.elements[0].number) else None
  }

  lemma PatternDecodes(uuid: u16, rest: seq<byte>)
    ensures ParseElement(Print(ServicePattern(uuid)) + rest) == Ok(rest, Sequence([Uuid16(uuid)]))
  {
    ElementOfPrint(ServicePattern(uuid), rest);
    SoleTree(Leaf(UUID_TYPE, 1, PutU16(uuid)));
  }

  lemma AttributeIdsDecode(range: u32, rest: seq<byte>)
    ensures ParseElement(Print(AttributeIds(range)) + rest) == Ok(rest, Sequence([UnsignedInt(range)]))
  {
    ElementOfPrint(AttributeIds(range), rest);
    SoleTree(Leaf(UINT_TYPE, 2, PutU32(range)));
    BigEndianOfU32(range);
  }

  /** Every field of an encoded request can be read back, and nothing is left over. */
  lemma RequestRoundTrip(r: Request)
    requires |r.continuationState| <= 255
    ensures ReadRequest(RequestBytes(r)) == Some(r)
  {
    var t3 := [|r.continuationState|] + r.continuationState;
    var t2 := Print(AttributeIds(r.attributeIdRange)) + t3;
    var t1 := PutU16(r.maximumAttributeByteCount) + t2;
    hide PutU16, Print, ServicePattern, AttributeIds, ParsePduHeader, ParseElement, PrintPduHeader;
    BodyLength(r);
    Regroup(Print(ServicePattern(r.serviceUuid16)), PutU16(r.maximumAttributeByteCount),
            Print(AttributeIds(r.attributeIdRange)), [|r.continuationState|], r.continuationState, []);
    assert RequestBody(r) == RequestBody(r) + [] && r.continuationState == r.continuationState + [];
    HeaderOfPrint(PduHeader(REQUEST_PDU_ID, r.transactionId, |RequestBody(r)|), RequestBody(r));
    PatternDecodes(r.serviceUuid16, t1);
    U16RoundTrip(r.maximumAttributeByteCount, t2);
    AttributeIdsDecode(r.attributeIdRange, t3);
    assert t3[1..] == r.continuationState;
  }

  lemma EncodeInjective(r1: Request, r2: Request)
    requires EncodeRequest(r1).Success? && EncodeRequest(r1) == EncodeRequest(r2)
    ensures r1 == r2
  {
    RequestRoundTrip(r1);
    RequestRoundTrip(r2);
  }

  /** The token is documented to be at most 16 bytes. A request is encoded if and only if it is
      at most 255; so where the documentation and the code part is from 17 to 255. */
  lemma TokenLimitExactly(r: Request)
    ensures EncodeRequest(r).Success? <==> |r.continuationState| <= 255
    ensures (EncodeRequest(r).Success? <==> |r.continuationState| <= 16)
       <==> !(17 <= |r.continuationState| <= 255)
  {
  }

  /** For one, a token of 17 bytes is sent. */
  lemma SeventeenByteTokenSent() returns (r: Request)
    ensures |r.continuationState| == 17 && EncodeRequest(r).Success? && ReadRequest(RequestBytes(r)) == Some(r)
  {
    r := Request(0, 0x1002, 0xffff, 0xffff, [0, 0, 0, 0, 0, 0, 0, 0, 0, 0, 0, 0, 0, 0, 0, 0, 0]);
    RequestRoundTrip(r);
  }
}
