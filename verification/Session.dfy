/** The paging session: request, read one PDU, keep its fragment, echo its token, repeat;
    then decode the reassembled bytes and search them. */
module Session {
  import opened Bytes
  import opened Response
  import opened Extract
  import opened Encode
  import opened Socket

  const MAXIMUM_ATTRIBUTE_BYTE_COUNT: u16 := 0xffff
  const ATTRIBUTE_RANGE: u32 := 0x0000_ffff

  datatype QueryError = EncodeFailed(cause: EncodeError) | SocketFailed(kind: SocketError) | DecodeFailed

  function WrappingNext(transactionId: u16): u16 {
    (transactionId + 1) % 0x1_0000
  }

  function PageRequest(uuid: u16, transactionId: u16, token: seq<byte>): Request {
    Request(transactionId, uuid, MAXIMUM_ATTRIBUTE_BYTE_COUNT, ATTRIBUTE_RANGE, token)
  }

  function Query(net: Net, transactionId: u16, uuid: u16, token: seq<byte>): (Net, Result<seq<byte>, QueryError>) {
    match EncodeRequest(PageRequest(uuid, transactionId, token))
    case Failure(cause) => (net, Failure(EncodeFailed(cause)))
    case Success(bytes) =>
      var (net, r) := Exchange(net, bytes);
      (net, if r.Success? then Success(r.value) else Failure(SocketFailed(r.error)))
  }

  function FetchPage(net: Net, transactionId: u16, uuid: u16, token: seq<byte>)
    : (Net, Result<RawResponse, QueryError>)
  {
    var (net, bytes) := Query(net, transactionId, uuid, token);
    if bytes.Failure? then (net, Failure(bytes.error))
    else
      var raw := ParseRawResponse(bytes.value);
      (net, if raw.Ok? then Success(raw.value) else Failure(DecodeFailed))
  }

  /** What a run leaves: the stream, the pages accepted in order, and the error that ended it. */
  datatype Run = Run(net: Net, pages: seq<RawResponse>, failure: Option<QueryError>)

  function After(earlier: seq<RawResponse>, run: Run): Run {
    Run(run.net, earlier + run.pages, run.failure)
  }

  function FetchPages(net: Net, transactionId: u16, uuid: u16, token: seq<byte>): Run
    decreases |net.incoming|
  {
    var (after, page) := FetchPage(net, transactionId, uuid, token);
    if page.Failure? then Run(after, [], Some(page.error))
    else if page.value.continuationState == [] then Run(after, [page.value], None)
    else
      PageConsumes(net, transactionId, uuid, token);
      After([page.value], FetchPages(after, WrappingNext(transactionId), uuid, page.value.continuationState))
  }

  /** The attribute bytes of all pages, reassembled. */
  function Blob(pages: seq<RawResponse>): seq<byte> {
    if pages == [] then [] else pages[0].attributeBytes + Blob(pages[1..])
  }

  function Interpret(blob: seq<byte>): Result<Option<byte>, QueryError> {
    match DecodeAttributeLists(blob)
    case Ok(_, lists) => Success(FirstChannel(lists))
    case Reject => Failure(DecodeFailed)
  }

  function Answer(run: Run): Result<Option<byte>, QueryError> {
    if run.failure.Some? then Failure(run.failure.value) else Interpret(Blob(run.pages))
  }

  function RunSession(net: Net, uuid: u16): (Net, Result<Option<byte>, QueryError>) {
    var run := FetchPages(net, 0, uuid, []);
    (run.net, Answer(run))
  }

  // --- One page -------------------------------------------------------------------------

  /** Framing costs eight bytes: header, attribute count and token length. */
  lemma RawResponseLength(pdu: seq<byte>)
    requires ParseRawResponse(pdu).Ok?
    ensures var r := ParseRawResponse(pdu).value;
      |r.attributeBytes| + |r.continuationState| + 8 <= |pdu| && Printable(r)
  {
    PrintOfRawResponse(pdu);
  }

  /** An accepted page uses up at least eight bytes, its fragment and its token. */
  lemma PageConsumes(net: Net, transactionId: u16, uuid: u16, token: seq<byte>)
    ensures var (after, page) := FetchPage(net, transactionId, uuid, token);
      page.Success? ==>
        && |after.incoming| + |page.value.attributeBytes| + |page.value.continuationState| + 8 <= |net.incoming|
        && Printable(page.value)
  {
    if FetchPage(net, transactionId, uuid, token).1.Success? {
      var request := RequestBytes(PageRequest(uuid, transactionId, token));
      ExchangeTakesOnePdu(net, request);
      RawResponseLength(Exchange(net, request).1.value);
    }
  }

  lemma {:induction false} BlobAppend(a: seq<RawResponse>, b: seq<RawResponse>)
    ensures Blob(a + b) == Blob(a) + Blob(b)
    decreases |a|
  {
    if a == [] {
      assert a + b == b;
    } else {
      BlobAppend(a[1..], b);
      assert (a + b)[1..] == a[1..] + b;
      assert a[0].attributeBytes + (Blob(a[1..]) + Blob(b)) == a[0].attributeBytes + Blob(a[1..]) + Blob(b);
    }
  }

  /** Each page adds its fragment at the end of the reassembled bytes, and nothing else does. */
  lemma FragmentsAccumulate(pages: seq<RawResponse>, page: RawResponse)
    ensures Blob(pages + [page]) == Blob(pages) + page.attributeBytes && Blob([]) == []
  {
    BlobAppend(pages, [page]);
    assert Blob([page]) == page.attributeBytes + Blob([]);
  }

  lemma AfterAfter(a: seq<RawResponse>, b: seq<RawResponse>, run: Run)
    ensures After(a, After(b, run)) == After(a + b, run)
  {
    assert a + (b + run.pages) == a + b + run.pages;
  }

  /** Encoding never fails inside a session: every token came from an 8-bit length. */
  lemma {:induction false} EncodingNeverFails(net: Net, transactionId: u16, uuid: u16, token: seq<byte>)
    requires |token| < 0x100
    ensures var failure := FetchPages(net, transactionId, uuid, token).failure;
      failure.Some? ==> !failure.value.EncodeFailed?
    decreases |net.incoming|
  {
    var (after, page) := FetchPage(net, transactionId, uuid, token);
    if page.Success? && page.value.continuationState != [] {
      PageConsumes(net, transactionId, uuid, token);
      EncodingNeverFails(after, WrappingNext(transactionId), uuid, page.value.continuationState);
    }
  }

  /** How a run goes on from the answer to one query. */
  function Continuation(pages: seq<RawResponse>, net: Net, transactionId: u16, uuid: u16,
                        bytes: Result<seq<byte>, QueryError>): Run
  {
    if bytes.Failure? then Run(net, pages, Some(bytes.error))
    else
      var raw := ParseRawResponse(bytes.value);
      if raw.Reject? then Run(net, pages, Some(DecodeFailed))
      else if raw.value.continuationState == [] then Run(net, pages + [raw.value], None)
      else After(pages + [raw.value], FetchPages(net, WrappingNext(transactionId), uuid, raw.value.continuationState))
  }

  /** What one more query does to a run that has accepted `pages` so far. */
  lemma PageStep(pages: seq<RawResponse>, net: Net, transactionId: u16, uuid: u16, token: seq<byte>,
                 after: Net, bytes: Result<seq<byte>, QueryError>)
    requires Query(net, transactionId, uuid, token) == (after, bytes)
    ensures After(pages, FetchPages(net, transactionId, uuid, token))
         == Continuation(pages, after, transactionId, uuid, bytes)
    ensures bytes.Success? && ParseRawResponse(bytes.value).Ok? ==>
      var raw := ParseRawResponse(bytes.value).value;
      && |after.incoming| < |net.incoming|
      && Blob(pages + [raw]) == Blob(pages) + raw.attributeBytes
  {
    if bytes.Success? && ParseRawResponse(bytes.value).Ok? {
      var raw := ParseRawResponse(bytes.value).value;
      PageConsumes(net, transactionId, uuid, token);
      FragmentsAccumulate(pages, raw);
      if raw.continuationState != [] {
        AfterAfter(pages, [raw], FetchPages(after, WrappingNext(transactionId), uuid, raw.continuationState));
      }
    } else {
      assert pages + [] == pages;
    }
  }

  // --- The session step by step ---------------------------------------------------------

  method QueryOnce(stream: Stream, transactionId: u16, uuid: u16, token: seq<byte>)
    returns (r: Result<seq<byte>, QueryError>)
    requires stream.Valid()
    modifies stream
    ensures stream.Valid() && (stream.State(), r) == Query(old(stream.State()), transactionId, uuid, token)
    ensures |token| > 255 ==>
      r == Failure(EncodeFailed(ContinuationStateTooLong(|token|))) && stream.State() == old(stream.State())
  {
    var bytes := Encode.Encode(PageRequest(uuid, transactionId, token));
    if bytes.Failure? { return Failure(EncodeFailed(bytes.error)); }
    var pdu := SendAndReceivePdu(stream, bytes.value);
    if pdu.Failure? { return Failure(SocketFailed(pdu.error)); }
    return Success(pdu.value);
  }

  method FindRfcommChannel(stream: Stream, uuid: u16) returns (r: Result<Option<byte>, QueryError>)
    requires stream.Valid()
    modifies stream
    ensures stream.Valid() && (stream.State(), r) == RunSession(old(stream.State()), uuid)
    ensures r.Failure? ==> !r.error.EncodeFailed?
  {
    ghost var start, pages: seq<RawResponse> := stream.State(), [];
    EncodingNeverFails(start, 0, uuid, []);
    var transactionId: u16 := 0;
    var firstBytes := QueryOnce(stream, transactionId, uuid, []);
    PageStep([], start, 0, uuid, [], stream.State(), firstBytes);
    ghost var run := After([], FetchPages(start, 0, uuid, []));
    assert run == FetchPages(start, 0, uuid, []);
    if firstBytes.Failure? { return Failure(firstBytes.error); }
    var firstRaw := ParseRawResponse(firstBytes.value);
    if firstRaw.Reject? { return Failure(DecodeFailed); }
    var attributeBytes := firstRaw.value.attributeBytes;
    var continuationState := firstRaw.value.continuationState;
    pages := [] + [firstRaw.value];
    while continuationState != []
      invariant stream.Valid()
      invariant attributeBytes == Blob(pages)
      invariant continuationState == [] ==> run == Run(stream.State(), pages, None)
      invariant continuationState != [] ==>
        run == After(pages, FetchPages(stream.State(), WrappingNext(transactionId), uuid, continuationState))
      decreases |stream.State().incoming|
    {
      ghost var before, token := stream.State(), continuationState;
      transactionId := WrappingNext(transactionId);
      var bytes := QueryOnce(stream, transactionId, uuid, continuationState);
      PageStep(pages, before, transactionId, uuid, token, stream.State(), bytes);
      if bytes.Failure? { return Failure(bytes.error); }
      var raw := ParseRawResponse(bytes.value);
      if raw.Reject? { return Failure(DecodeFailed); }
      attributeBytes := attributeBytes + raw.value.attributeBytes;
      continuationState := raw.value.continuationState;
      pages := pages + [raw.value];
    }
    var lists := ReadAttributeLists(attributeBytes);
    if lists.Reject? { return Failure(DecodeFailed); }
    return Success(FirstChannel(lists.value));
  }
}
