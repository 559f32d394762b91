/** Responses: framing of one page, and interpretation of the reassembled attribute bytes. */
module Response {
  import opened Bytes
  import opened Element
  import opened PduHeader

  type AttributeList = seq<(u16, DataElement)>

  datatype RawResponse = RawResponse(
    header: PduHeader,
    attributeBytes: seq<byte>,
    continuationState: seq<byte>)

  function ParseRawResponse(input: seq<byte>): Parse<RawResponse> {
    var (rest, header) :- ParsePduHeader(input);
    var (rest, attributeBytesLen) :- BeU16(rest);
    var (rest, attributeBytes) :- Take(attributeBytesLen, rest);
    var (rest, continuationLen) :- BeU8(rest);
    var (rest, continuationBytes) :- Take(continuationLen, rest);
    Ok(rest, RawResponse(header, attributeBytes, continuationBytes))
  }

  /** Attribute id and value pairs of one record's elements; `None` rejects the record. */
  function PairAttributes(elements: seq<DataElement>): Option<AttributeList> {
    if |elements| % 2 != 0 then None else CollectPairs(elements)
  }

  function CollectPairs(elements: seq<DataElement>): Option<AttributeList>
    requires |elements| % 2 == 0
  {
    if elements == [] then Some([])
    else if elements[0].UnsignedInt? && elements[0].number < 0x1_0000 then
      var others := CollectPairs(elements[2..]);
      if others.Some? then Some([(elements[0].number, elements[1])] + others.value) else None
    else None
  }

  function CollectRecords(records: seq<DataElement>): Option<seq<AttributeList>> {
    if records == [] then Some([])
    else
      var first := if records[0].Sequence? then PairAttributes(records[0].elements) else Some([]);
      var others := CollectRecords(records[1..]);
      if first.Some? && others.Some? then Some([first.value] + others.value) else None
  }

  function DecodeAttributeLists(attributeBytes: seq<byte>): Parse<seq<AttributeList>> {
    var (rest, outer) :- ParseElement(attributeBytes);
    if outer.Sequence? then
      var lists := CollectRecords(outer.elements);
      if lists.Some? then Ok(rest, lists.value) else Reject
    else
      Ok(rest, [])
  }

  /** Interpretation on top of the step-by-step decoder. */
  method ReadAttributeLists(attributeBytes: seq<byte>) returns (r: Parse<seq<AttributeList>>)
    ensures r == DecodeAttributeLists(attributeBytes)
  {
    var outer := DecodeElement(attributeBytes);
    if outer.Reject? { return Reject; }
    if !outer.value.Sequence? { return Ok(outer.rest, []); }
    var lists := CollectRecords(outer.value.elements);
    if lists.None? { return Reject; }
    return Ok(outer.rest, lists.value);
  }

  // --- Framing --------------------------------------------------------------------------

  predicate Printable(r: RawResponse) {
    |r.attributeBytes| < 0x1_0000 && |r.continuationState| < 0x100
  }

  function PrintRawResponse(r: RawResponse): seq<byte>
    requires Printable(r)
  {
    PrintPduHeader(r.header) + PutU16(|r.attributeBytes|) + r.attributeBytes
      + [|r.continuationState|] + r.continuationState
  }

  /** Framing recovers any header, any fragment and any token, and leaves what follows. */
  lemma RawResponseOfPrint(r: RawResponse, rest: seq<byte>)
    requires Printable(r)
    ensures ParseRawResponse(PrintRawResponse(r) + rest) == Ok(rest, r)
  {
    hide PrintPduHeader, PutU16;
    var t3 := r.continuationState + rest;
    var t2 := [|r.continuationState|] + t3;
    var t1 := r.attributeBytes + t2;
    Regroup(PrintPduHeader(r.header), PutU16(|r.attributeBytes|), r.attributeBytes,
            [|r.continuationState|], r.continuationState, rest);
    HeaderOfPrint(r.header, PutU16(|r.attributeBytes|) + t1);
    U16RoundTrip(|r.attributeBytes|, t1);
    TakeAppended(r.attributeBytes, t2);
    assert t2[1..] == t3;
    TakeAppended(r.continuationState, rest);
  }

  /** Whatever framing accepts is the print of what it returns. */
  lemma PrintOfRawResponse(input: seq<byte>)
    requires ParseRawResponse(input).Ok?
    ensures Printable(ParseRawResponse(input).value)
    ensures PrintRawResponse(ParseRawResponse(input).value) + ParseRawResponse(input).rest == input
  {
    hide PrintPduHeader, ParsePduHeader, PutU16, BeU16;
    var Ok(rest, r) := ParseRawResponse(input);
    var i1 := ParsePduHeader(input).rest;
    var i2 := BeU16(i1).rest;
    var i3 := i2[|r.attributeBytes|..];
    PrintOfHeader(input);
    U16Reprint(i1);
    assert i2 == r.attributeBytes + i3;
    assert i3 == [i3[0]] + i3[1..];
    Regroup(PrintPduHeader(r.header), PutU16(|r.attributeBytes|), r.attributeBytes,
            [|r.continuationState|], r.continuationState, rest);
  }

  lemma Regroup(a: seq<byte>, b: seq<byte>, c: seq<byte>, d: seq<byte>, e: seq<byte>, f: seq<byte>)
    ensures a + b + c + d + e + f == a + (b + (c + (d + (e + f))))
  {
  }

  // --- Pairing --------------------------------------------------------------------------

  /** The elements a record's attributes are written as. */
  function Flatten(attributes: AttributeList): (es: seq<DataElement>)
    ensures |es| == 2 * |attributes|
  {
    if attributes == [] then []
    else [UnsignedInt(attributes[0].0), attributes[0].1] + Flatten(attributes[1..])
  }

  /** Pairing inverts flattening, and accepts nothing else. */
  lemma {:induction false} PairingInvertsFlattening(elements: seq<DataElement>, attributes: AttributeList)
    ensures PairAttributes(elements) == Some(attributes) <==> elements == Flatten(attributes)
    decreases |elements| + |attributes|
  {
    if |elements| >= 2 && attributes != [] {
      PairingInvertsFlattening(elements[2..], attributes[1..]);
      assert elements == elements[..2] + elements[2..];
      assert attributes == [attributes[0]] + attributes[1..];
    }
  }

  /** A record is well paired when its count is even and every even position is a 16-bit id. */
  predicate WellPaired(elements: seq<DataElement>) {
    && |elements| % 2 == 0
    && forall i | 0 <= i < |elements| && i % 2 == 0 ::
         elements[i].UnsignedInt? && elements[i].number <= 0xffff
  }

  lemma {:induction false} PairingFailsExactly(elements: seq<DataElement>)
    ensures PairAttributes(elements).Some? <==> WellPaired(elements)
    decreases |elements|
  {
    if |elements| >= 2 {
      PairingFailsExactly(elements[2..]);
      assert WellPaired(elements) ==> WellPaired(elements[2..]) by {
        assert forall i | 0 <= i < |elements| - 2 :: elements[2..][i] == elements[i + 2];
      }
      if WellPaired(elements[2..]) && elements[0].UnsignedInt? && elements[0].number <= 0xffff {
        forall i | 0 <= i < |elements| && i % 2 == 0
          ensures elements[i].UnsignedInt? && elements[i].number <= 0xffff
        {
          assert i >= 2 ==> elements[i] == elements[2..][i - 2];
        }
      }
    }
  }

  /** One list per record, in order: the record's pairs, or nothing for a record that is no sequence. */
  predicate ListOfRecord(record: DataElement, list: AttributeList) {
    if record.Sequence? then record.elements == Flatten(list) else list == []
  }

  lemma {:induction false} RecordsDecodeInOrder(records: seq<DataElement>, lists: seq<AttributeList>)
    ensures CollectRecords(records) == Some(lists)
       <==> |lists| == |records| && forall i | 0 <= i < |records| :: ListOfRecord(records[i], lists[i])
    decreases |records|
  {
    if records != [] {
      var first := if records[0].Sequence? then PairAttributes(records[0].elements) else Some([]);
      if lists != [] {
        if records[0].Sequence? {
          PairingInvertsFlattening(records[0].elements, lists[0]);
        }
        RecordsDecodeInOrder(records[1..], lists[1..]);
        assert lists == [lists[0]] + lists[1..];
        assert forall i | 0 < i < |records| :: records[i] == records[1..][i - 1];
        assert forall i | 0 < i < |lists| :: lists[i] == lists[1..][i - 1];
        assert CollectRecords(records) == Some(lists)
          <==> first == Some(lists[0]) && CollectRecords(records[1..]) == Some(lists[1..]);
      }
    }
  }

  lemma {:induction false} RecordsFailExactly(records: seq<DataElement>)
    ensures CollectRecords(records).None?
       <==> exists i :: 0 <= i < |records| && records[i].Sequence? && !WellPaired(records[i].elements)
    decreases |records|
  {
    if records != [] {
      RecordsFailExactly(records[1..]);
      if records[0].Sequence? {
        PairingFailsExactly(records[0].elements);
      }
      assert forall i | 0 < i < |records| :: records[i] == records[1..][i - 1];
    }
  }

  // --- Interpretation -------------------------------------------------------------------

  /** The element that carries a list of service records. */
  function RecordsElement(records: seq<AttributeList>): DataElement {
    Sequence(seq(|records|, i requires 0 <= i < |records| => Sequence(Flatten(records[i]))))
  }

  /** What the outer element comes to: one list per record of a sequence, in order, and no
      list when it is no sequence. */
  predicate ListsOf(outer: DataElement, lists: seq<AttributeList>) {
    if outer.Sequence? then
      |lists| == |outer.elements| && forall i | 0 <= i < |lists| :: ListOfRecord(outer.elements[i], lists[i])
    else
      lists == []
  }

  /** Some record of the outer element cannot be paired. */
  predicate HoldsBadRecord(outer: DataElement) {
    outer.Sequence? && exists i ::
      0 <= i < |outer.elements| && outer.elements[i].Sequence? && !WellPaired(outer.elements[i].elements)
  }

  lemma RecordsAreTheirLists(records: seq<AttributeList>)
    ensures ListsOf(RecordsElement(records), records)
  {
  }

  /** Interpretation returns one list per record of the outer sequence, in order, and no list
      when the outer element is no sequence; bytes after it are left alone. */
  lemma DecodeMeans(attributeBytes: seq<byte>, rest: seq<byte>, lists: seq<AttributeList>)
    ensures DecodeAttributeLists(attributeBytes) == Ok(rest, lists)
       <==> exists outer :: ParseElement(attributeBytes) == Ok(rest, outer) && ListsOf(outer, lists)
  {
    var r := ParseElement(attributeBytes);
    if r.Ok? && r.value.Sequence? {
      RecordsDecodeInOrder(r.value.elements, lists);
    }
    if r.Ok? {
      assert ParseElement(attributeBytes) == Ok(r.rest, r.value);
    }
  }

  /** Interpretation recovers the records of any bytes that decode to them. */
  lemma DecodesRecords(attributeBytes: seq<byte>, rest: seq<byte>, records: seq<AttributeList>)
    requires ParseElement(attributeBytes) == Ok(rest, RecordsElement(records))
    ensures DecodeAttributeLists(attributeBytes) == Ok(rest, records)
  {
    RecordsDecodeInOrder(RecordsElement(records).elements, records);
  }

  /** Interpretation fails exactly on an undecodable blob or on a badly paired record. */
  lemma DecodeFailsExactly(attributeBytes: seq<byte>)
    ensures DecodeAttributeLists(attributeBytes).Reject?
       <==> var r := ParseElement(attributeBytes);
            r.Reject? || HoldsBadRecord(r.value)
  {
    var r := ParseElement(attributeBytes);
    if r.Ok? && r.value.Sequence? {
      RecordsFailExactly(r.value.elements);
    }
  }
}
