/** From bytes on the stream to the answer about service records. */
module EndToEnd {
  import opened Bytes
  import opened Element
  import opened WireFormat
  import opened ElementRoundTrip
  import opened PduHeader
  import opened Response
  import opened Extract
  import opened Socket
  import opened Session
  import opened Answers
  import opened SessionRuns
  import opened SessionOutcomes

  /** The stream starts with a full answer whose pages reassemble to `bytes`, and the three
      operations of each page work; what follows is `rest`. */
  predicate Carries(net: Net, pdus: seq<seq<byte>>, rest: seq<byte>, bytes: seq<byte>) {
    Complete(pdus) && StartsWith(net, pdus, rest) && Blob(PagesOf(pdus)) == bytes
  }

  // --- What a session answers -----------------------------------------------------------

  /** A full answer is read whole, whatever follows it, wherever the three operations of each
      page work: one request per page, and the result depends on the pages only through the
      bytes they reassemble to. The PDUs are any the client accepts: their ids, and bytes they
      carry after the token, do not matter. */
  lemma ServedSession(net: Net, pdus: seq<seq<byte>>, rest: seq<byte>, uuid: u16)
    requires Complete(pdus) && StartsWith(net, pdus, rest)
    ensures RunSession(net, uuid)
         == (NetAfter(net, PagesOf(pdus), rest, 0, uuid, []), Interpret(Blob(PagesOf(pdus))))
  {
    hide FetchPages, Interpret, Requests, Work, Skip, Blob;
    CompleteAnswerIsRead(net, 0, uuid, [], pdus, rest);
  }

  // --- What the bytes mean --------------------------------------------------------------

  /** Any encoding of a list of records, with or without bytes after it, is interpreted as
      the search over those records; a record that is no sequence counts as an empty one. */
  lemma EncodedRecordsAreSearched(w: Wire, junk: seq<byte>, records: seq<AttributeList>)
    requires WellFormed(w) && ListsOf(Abstract(w), records)
    ensures Interpret(Print(w) + junk) == Success(FirstChannel(records))
    ensures GivesAnswer(records, FirstChannel(records))
  {
    TreeIsInterpreted(w, junk, records);
    AnswerIsFirstChannel(records, FirstChannel(records));
  }

  /** Records, encoded in any way, cut into pages anywhere, on any PDUs the client accepts and
      followed by anything: where the three operations of each page work, whatever later ones
      would do, the session answers with the first channel of the records, after exactly one
      request per page, and leaves the stream where the answer ends. Records that are no
      sequence have no channel and hide nothing; an outer element that is none has no records. */
  lemma FindsFirstChannel(records: seq<AttributeList>, w: Wire, junk: seq<byte>, uuid: u16)
    returns (answer: Option<byte>)
    requires WellFormed(w) && ListsOf(Abstract(w), records)
    ensures GivesAnswer(records, answer) && answer == FirstChannel(records)
    ensures !Abstract(w).Sequence? ==> answer == None
    ensures forall net, pdus, rest | Carries(net, pdus, rest, Print(w) + junk) ::
      && RunSession(net, uuid)
         == (Net(rest, net.sent + Requests(uuid, 0, [], PagesOf(pdus)), Skip(net.outcomes, 3 * |pdus|)),
             Success(answer))
      && |Requests(uuid, 0, [], PagesOf(pdus))| == |pdus|
  {
    answer := FirstChannel(records);
    hide RunSession, Requests, Skip, StartsWith, IsPdu, ParseRawResponse, Blob, GivesAnswer, Print;
    EncodedRecordsAreSearched(w, junk, records);
    forall net, pdus, rest | Carries(net, pdus, rest, Print(w) + junk)
      ensures RunSession(net, uuid)
           == (Net(rest, net.sent + Requests(uuid, 0, [], PagesOf(pdus)), Skip(net.outcomes, 3 * |pdus|)),
               Success(answer))
    {
      ServedSession(net, pdus, rest, uuid);
    }
  }

  /** Where a server cuts its answer does not matter, even inside an element: on every stream
      that carries the same bytes the result is the same. */
  lemma PagingDoesNotMatter(bytes: seq<byte>, uuid: u16)
    ensures forall net1, pdus1, rest1, net2, pdus2, rest2 |
      Carries(net1, pdus1, rest1, bytes) && Carries(net2, pdus2, rest2, bytes) ::
      RunSession(net1, uuid).1 == RunSession(net2, uuid).1
  {
    hide RunSession, NetAfter, Interpret, StartsWith, IsPdu, ParseRawResponse, Blob;
    forall net, pdus, rest | Carries(net, pdus, rest, bytes)
      ensures RunSession(net, uuid).1 == Interpret(bytes)
    {
      ServedSession(net, pdus, rest, uuid);
    }
  }

  /** An answer that stops short of its last byte is a decode error, never an answer. */
  lemma MissingBytesFailDecode(w: Wire, bytes: seq<byte>, uuid: u16)
    requires WellFormed(w) && bytes < Print(w)
    ensures forall net, pdus, rest | Carries(net, pdus, rest, bytes) ::
      RunSession(net, uuid).1 == Failure(DecodeFailed)
  {
    hide RunSession, NetAfter, StartsWith, IsPdu, ParseRawResponse, ParseElement, Print, CollectRecords;
    TruncatedTreeRejected(w, bytes);
    forall net, pdus, rest | Carries(net, pdus, rest, bytes)
      ensures RunSession(net, uuid).1 == Failure(DecodeFailed)
    {
      ServedSession(net, pdus, rest, uuid);
    }
  }

  lemma TruncatedTreeRejected(w: Wire, fragment: seq<byte>)
    requires WellFormed(w) && fragment < Print(w)
    ensures ParseElement(fragment).Reject?
  {
    hide ParseElement, Print;
    ElementOfPrint(w, []);
    assert Print(w) + [] == Print(w);
    TruncatedElementRejected(Print(w), |fragment|);
    assert Print(w)[..|fragment|] == fragment;
  }

  /** The first page of an answer, taken alone, is interpreted if and only if all of the
      answer's element is on it and can be interpreted. */
  lemma FirstFragmentDecodesExactly(w: Wire, junk: seq<byte>, fragment: seq<byte>)
    requires WellFormed(w) && fragment <= Print(w) + junk
    ensures DecodeAttributeLists(fragment).Ok?
       <==> |Print(w)| <= |fragment| && DecodeAttributeLists(Print(w)).Ok?
  {
    hide ParseElement, Print, CollectRecords;
    var n := |Print(w)|;
    if n <= |fragment| {
      assert fragment == Print(w) + fragment[n..];
      ElementOfPrint(w, fragment[n..]);
      ElementOfPrint(w, []);
      assert Print(w) + [] == Print(w);
    } else {
      assert fragment == Print(w)[..|fragment|];
      TruncatedTreeRejected(w, fragment);
    }
  }

  /** The session is documented to return the channel of the first record. It returns that if
      and only if this record has a channel or no other record has one. */
  lemma ReturnsFirstRecordExactly(records: seq<AttributeList>, w: Wire, junk: seq<byte>, uuid: u16)
    requires WellFormed(w) && ListsOf(Abstract(w), records) && records != []
    ensures forall net, pdus, rest | Carries(net, pdus, rest, Print(w) + junk) ::
      RunSession(net, uuid).1 == Success(RfcommChannel(records[0]))
      <==> RecordHasChannel(records[0]) || forall i | 0 < i < |records| :: !RecordHasChannel(records[i])
  {
    hide RunSession, Requests, Skip, Carries, RecordHasChannel, RfcommChannel, FirstChannel;
    var answer := FindsFirstChannel(records, w, junk, uuid);
    FirstRecordAnswersExactly(records);
  }

  /** Size forms do not matter: respelling any headers changes neither what the lists decode
      to nor the answer. */
  lemma SizeFormsDoNotMatter(w1: Wire, w2: Wire, junk: seq<byte>)
    requires WellFormed(w1) && WellFormed(w2) && Respelled(w1, w2)
    ensures DecodeAttributeLists(Print(w1) + junk) == DecodeAttributeLists(Print(w2) + junk)
    ensures Interpret(Print(w1) + junk) == Interpret(Print(w2) + junk)
  {
    RespellingKeepsMeaning(w1, w2);
    ElementOfPrint(w1, junk);
    ElementOfPrint(w2, junk);
  }

  // --- Answers printed from their pages -------------------------------------------------

  /** Pages a server can answer with, printed with nothing to spare: each fits its length
      fields, and every page but the last carries a token. */
  predicate Servable(pages: seq<RawResponse>) {
    && pages != [] && AllPrintable(pages)
    && (forall i | 0 <= i < |pages| ::
          pages[i].header.parameterLength == 3 + |pages[i].attributeBytes| + |pages[i].continuationState|)
    && (forall i | 0 <= i < |pages| :: pages[i].continuationState == [] <==> i == |pages| - 1)
  }

  lemma PrependServable(page: RawResponse, others: seq<RawResponse>)
    requires Printable(page) && page.continuationState != [] && Servable(others)
    requires page.header.parameterLength == 3 + |page.attributeBytes| + |page.continuationState|
    ensures Servable([page] + others)
    ensures Blob([page] + others) == page.attributeBytes + Blob(others)
  {
    assert ([page] + others)[1..] == others;
  }

  function PdusOf(pages: seq<RawResponse>): (pdus: seq<seq<byte>>)
    requires AllPrintable(pages)
    ensures |pdus| == |pages|
  {
    seq(|pages|, i requires 0 <= i < |pages| => PrintRawResponse(pages[i]))
  }

  lemma PrintedPage(page: RawResponse)
    requires Printable(page)
    requires page.header.parameterLength == 3 + |page.attributeBytes| + |page.continuationState|
    ensures IsPdu(PrintRawResponse(page))
    ensures ParseRawResponse(PrintRawResponse(page)) == Ok([], page)
  {
    var pdu := PrintRawResponse(page);
    assert pdu + [] == pdu;
    RawResponseOfPrint(page, []);
    HeaderReads(pdu);
  }

  lemma ServablePagesAreComplete(pages: seq<RawResponse>)
    requires Servable(pages)
    ensures Complete(PdusOf(pages)) && PagesOf(PdusOf(pages)) == pages
  {
    hide PrintRawResponse, ParseRawResponse, IsPdu;
    forall i | 0 <= i < |pages|
      ensures IsPdu(PdusOf(pages)[i]) && ParseRawResponse(PdusOf(pages)[i]) == Ok([], pages[i])
    {
      PrintedPage(pages[i]);
    }
    assert PagesOf(PdusOf(pages)) == pages;
  }

  /** Printed pages at the front of a stream, by operations that work. */
  lemma PrintedSession(pages: seq<RawResponse>, trailing: seq<byte>, outcomes: seq<Outcome>, uuid: u16)
    requires Servable(pages) && Work(outcomes, 3 * |pages|)
    ensures RunSession(Net(Concat(PdusOf(pages)) + trailing, [], outcomes), uuid)
         == (Net(trailing, Requests(uuid, 0, [], pages), Skip(outcomes, 3 * |pages|)), Interpret(Blob(pages)))
  {
    hide RunSession, PdusOf, Requests, Interpret, Work, Skip, Servable, IsPdu, ParseRawResponse;
    ServablePagesAreComplete(pages);
    ServedSession(Net(Concat(PdusOf(pages)) + trailing, [], outcomes), PdusOf(pages), trailing, uuid);
    assert [] + Requests(uuid, 0, [], pages) == Requests(uuid, 0, [], pages);
  }

  /** The client accepts more than such pages: here a page with a byte after its token, counted
      in its parameter length. */
  lemma SurplusIsAccepted()
    ensures var pdu := [7, 0, 0, 0, 4, 0, 0, 0, 9];
      Complete([pdu]) && ParseRawResponse(pdu) == Ok([9], RawResponse(PduHeader(7, 0, 4), [], []))
  {
    var pdu: seq<byte> := [7, 0, 0, 0, 4, 0, 0, 0, 9];
    var page := RawResponse(PduHeader(7, 0, 4), [], []);
    assert pdu == PrintRawResponse(page) + [9];
    RawResponseOfPrint(page, [9]);
    assert [pdu][..0] == [];
  }

  // --- Where the documentation does not hold --------------------------------------------

  /** The session need not return the first record's channel: here an answer on one page, whose
      first record is empty and whose second gives channel 13, which the session returns. */
  lemma ReturnsLaterRecord(uuid: u16) returns (records: seq<AttributeList>, pages: seq<RawResponse>)
    ensures records != [] && RfcommChannel(records[0]) == None && Servable(pages)
    ensures RunSession(Net(Concat(PdusOf(pages)), [], []), uuid).1 == Success(Some(13))
  {
    hide RunSession, PdusOf, RfcommChannel, Interpret;
    records := LaterRecordAnswers();
    var w := LaterRecordTree(records);
    var blob := Print(w);
    pages := [RawResponse(PduHeader(0x07, 0, 3 + |blob|), blob, [])];
    assert Blob(pages) == blob + Blob([]) == blob + [];
    assert Concat(PdusOf(pages)) + [] == Concat(PdusOf(pages));
    PrintedSession(pages, [], [], uuid);
    RecordsAreTheirLists(records);
    EncodedRecordsAreSearched(w, [], records);
  }

  /** One page's bytes need not fail to decode: here the same answer on two pages, the second
      of which, taken alone, decodes. */
  lemma LaterFragmentDecodes() returns (records: seq<AttributeList>, pages: seq<RawResponse>)
    ensures Servable(pages) && |pages| == 2 && pages[1].attributeBytes == [0x08, 0x0d]
    ensures DecodeAttributeLists(Blob(pages)) == Ok([], records)
    ensures DecodeAttributeLists(pages[0].attributeBytes).Reject?
    ensures DecodeAttributeLists(pages[1].attributeBytes) == Ok([], [])
  {
    hide Print, ParseElement;
    records := LaterRecordAnswers();
    var w := LaterRecordTree(records);
    var first, second := Print(w)[..|Print(w)| - 2], [0x08, 0x0d];
    var page2 := RawResponse(PduHeader(0x07, 1, 5), second, []);
    var page1 := RawResponse(PduHeader(0x07, 0, 4 + |first|), first, [0]);
    pages := [page1] + [page2];
    assert Blob([page2]) == second + Blob([]) == second;
    PrependServable(page1, [page2]);
    assert first + second == Print(w);
    assert Print(w) + [] == Print(w);
    ElementOfPrint(w, []);
    DecodesRecords(Print(w), [], records);
    TruncatedTreeRejected(w, first);
    ChannelDecodes();
  }

  lemma ChannelDecodes()
    ensures ParseElement([0x08, 0x0d]) == Ok([], UnsignedInt(13))
  {
    var w := Leaf(UINT_TYPE, 0, [13]);
    BigEndianOfFour([13]);
    ElementOfPrint(w, []);
    assert Print(w) + [] == [0x08, 0x0d];
  }

  lemma RfcommStackTree() returns (w: Wire)
    ensures WellFormed(w) && Abstract(w) == Sequence([Sequence([Uuid16(3), UnsignedInt(13)])])
    ensures 2 <= |Print(w)| < 20 && Print(w)[|Print(w)| - 2..] == [0x08, 0x0d]
  {
    var uuid, channel := Leaf(UUID_TYPE, 1, [0, 3]), Leaf(UINT_TYPE, 0, [13]);
    PairOfTrees(uuid, channel);
    BigEndianOfFour([13]);
    var entry := Node(5, [uuid, channel]);
    SoleTree(entry);
    w := Node(5, [entry]);
  }

  lemma RfcommRecordTree() returns (w: Wire)
    ensures WellFormed(w)
    ensures Abstract(w) == Sequence([UnsignedInt(4), Sequence([Sequence([Uuid16(3), UnsignedInt(13)])])])
    ensures 2 <= |Print(w)| < 30 && Print(w)[|Print(w)| - 2..] == [0x08, 0x0d]
  {
    var stack := RfcommStackTree();
    var id := Leaf(UINT_TYPE, 1, [0, 4]);
    PairOfTrees(id, stack);
    BigEndianOfFour([0, 4]);
    w := Node(5, [id, stack]);
  }

  lemma FlattenFew(id: u16, value: DataElement)
    ensures Flatten([]) == [] && Flatten([(id, value)]) == [UnsignedInt(id), value]
  {
    assert Flatten([(id, value)]) == [UnsignedInt(id), value] + Flatten([]);
  }

  /** The records of `LaterRecordAnswers` on the wire. */
  lemma LaterRecordTree(records: seq<AttributeList>) returns (w: Wire)
    requires records == [[], [(4, Sequence([Sequence([Uuid16(3), UnsignedInt(13)])]))]]
    ensures WellFormed(w) && Abstract(w) == RecordsElement(records)
    ensures 2 <= |Print(w)| < 0x100 && Print(w)[|Print(w)| - 2..] == [0x08, 0x0d]
  {
    hide Flatten;
    FlattenFew(4, Sequence([Sequence([Uuid16(3), UnsignedInt(13)])]));
    var first := Node(5, []);
    var second := RfcommRecordTree();
    PairOfTrees(first, second);
    w := Node(5, [first, second]);
    assert Flatten(records[1]) == Abstract(second).elements;
    assert Abstract(w).elements == RecordsElement(records).elements;
  }
}
