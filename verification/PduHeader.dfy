/** The 5-byte header of every PDU (Bluetooth Core Specification, Vol 3, Part B, section 4.2). */
module PduHeader {
  import opened Bytes

  datatype PduHeader = PduHeader(pduId: byte, transactionId: u16, parameterLength: u16)

  function ParsePduHeader(input: seq<byte>): Parse<PduHeader> {
    var (rest, pduId) :- BeU8(input);
    var (rest, transactionId) :- BeU16(rest);
    var (rest, parameterLength) :- BeU16(rest);
    Ok(rest, PduHeader(pduId, transactionId, parameterLength))
  }

  function PrintPduHeader(h: PduHeader): (s: seq<byte>)
    ensures |s| == 5
  {
    [h.pduId] + PutU16(h.transactionId) + PutU16(h.parameterLength)
  }

  lemma HeaderOfPrint(h: PduHeader, rest: seq<byte>)
    ensures ParsePduHeader(PrintPduHeader(h) + rest) == Ok(rest, h)
  {
    var tail := PutU16(h.parameterLength) + rest;
    var input := [h.pduId] + (PutU16(h.transactionId) + tail);
    assert PrintPduHeader(h) + rest == input;
    assert input[1..] == PutU16(h.transactionId) + tail;
    U16RoundTrip(h.transactionId, tail);
    U16RoundTrip(h.parameterLength, rest);
  }

  lemma PrintOfHeader(input: seq<byte>)
    requires ParsePduHeader(input).Ok?
    ensures PrintPduHeader(ParsePduHeader(input).value) + ParsePduHeader(input).rest == input
  {
    U16Reprint(input[1..]);
    U16Reprint(input[3..]);
    assert input[1..][2..] == input[3..] && input[3..][2..] == input[5..];
    assert input == [input[0]] + input[1..];
  }

  /** A header is read exactly when five bytes are there, and its length field is bytes 3 and 4. */
  lemma HeaderReads(input: seq<byte>)
    ensures ParsePduHeader(input).Ok? <==> |input| >= 5
    ensures |input| >= 5 ==>
      && ParsePduHeader(input).rest == input[5..]
      && ParsePduHeader(input).value.parameterLength == Shift(input[3], input[4])
  {
    if |input| >= 5 {
      assert input[1..][2..] == input[3..] && input[3..][2..] == input[5..];
    }
  }
}
