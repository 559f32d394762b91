/** A server that pages by offset, in closed loop with the client: it reads each request the
    client sent and answers from the offset its token names. */
module PagingServer {
  import opened Bytes
  import opened PduHeader
  import opened Response
  import opened Encode
  import opened Socket
  import opened Session
  import opened SessionRuns
  import opened EndToEnd

  /** What the server holds, and how much of it goes on one page. */
  datatype Server = Server(blob: seq<byte>, chunk: nat) {
    predicate Valid() {
      |blob| < 0x1_0000_0000 && 0 < chunk <= 0xfff8
    }

    function PageAt(offset: nat, transactionId: u16): (page: RawResponse)
      requires Valid() && offset <= |blob|
      ensures Printable(page)
      ensures page.header.parameterLength == 3 + |page.attributeBytes| + |page.continuationState|
    {
      var last := offset + chunk >= |blob|;
      var fragment := if last then blob[offset..] else blob[offset..offset + chunk];
      var token := if last then [] else PutU32(offset + chunk);
      RawResponse(PduHeader(0x07, transactionId, 3 + |fragment| + |token|), fragment, token)
    }

    function OffsetOf(token: seq<byte>): Option<nat> {
      if token == [] then Some(0)
      else
        var offset := BeU32(token);
        if offset.Ok? && offset.rest == [] && offset.value <= |blob| then Some(offset.value) else None
    }

    /** The reply to the bytes of one request; an error response to anything else. */
    function Reply(request: seq<byte>): seq<byte>
      requires Valid()
    {
      var r := ReadRequest(request);
      var offset := if r.Some? then OffsetOf(r.value.continuationState) else None;
      if offset.None? then PrintPduHeader(PduHeader(0x01, 0, 2)) + [0x00, 0x05]
      else PrintRawResponse(PageAt(offset.value, r.value.transactionId))
    }

    /** The pages of a whole answer, from an offset on. */
    function PagesFrom(offset: nat, transactionId: u16): seq<RawResponse>
      requires Valid() && offset <= |blob|
      decreases |blob| - offset
    {
      var page := PageAt(offset, transactionId);
      if offset + chunk >= |blob| then [page]
      else [page] + PagesFrom(offset + chunk, WrappingNext(transactionId))
    }

    lemma {:induction false} PagesReassemble(offset: nat, transactionId: u16)
      requires Valid() && offset <= |blob|
      ensures var pages := PagesFrom(offset, transactionId);
        Servable(pages) && Blob(pages) == blob[offset..]
      decreases |blob| - offset
    {
      hide Servable, Blob, PutU32;
      var page := PageAt(offset, transactionId);
      if offset + chunk >= |blob| {
        SolePage(page);
      } else {
        var next := WrappingNext(transactionId);
        PagesReassemble(offset + chunk, next);
        PrependServable(page, PagesFrom(offset + chunk, next));
        assert blob[offset..] == blob[offset..offset + chunk] + blob[offset + chunk..];
      }
    }

    static lemma SolePage(page: RawResponse)
      requires Printable(page) && page.continuationState == []
      requires page.header.parameterLength == 3 + |page.attributeBytes| + |page.continuationState|
      ensures Servable([page]) && Blob([page]) == page.attributeBytes
    {
      assert Blob([page]) == page.attributeBytes + Blob([]);
    }

    lemma FirstReply(offset: nat, transactionId: u16, token: seq<byte>, uuid: u16)
      requires Valid() && offset <= |blob| && |token| < 0x100 && OffsetOf(token) == Some(offset)
      ensures PrintRawResponse(PageAt(offset, transactionId))
           == Reply(RequestBytes(PageRequest(uuid, transactionId, token)))
    {
      hide RequestBytes, PrintRawResponse, ReadRequest, PageAt, OffsetOf;
      RequestRoundTrip(PageRequest(uuid, transactionId, token));
    }

    /** Page `i` is the server's reply to the request the client sends for it. */
    lemma {:induction false} PagesAreReplies(offset: nat, transactionId: u16, token: seq<byte>, uuid: u16, i: nat)
      requires Valid() && offset <= |blob| && |token| < 0x100 && OffsetOf(token) == Some(offset)
      requires AllPrintable(PagesFrom(offset, transactionId)) && i < |PagesFrom(offset, transactionId)|
      ensures PrintRawResponse(PagesFrom(offset, transactionId)[i])
           == Reply(RequestAt(uuid, transactionId, token, PagesFrom(offset, transactionId), i))
      decreases i
    {
      hide RequestBytes, PrintRawResponse, Reply, RequestAt, Servable, Blob, PageAt, OffsetOf;
      var page, next := PageAt(offset, transactionId), WrappingNext(transactionId);
      if i == 0 {
        FirstReply(offset, transactionId, token, uuid);
        FirstRequest(uuid, transactionId, token, PagesFrom(offset, transactionId));
      } else {
        NextOffset(offset, transactionId);
        PagesReassemble(offset + chunk, next);
        var others := PagesFrom(offset + chunk, next);
        ServableIsPrintable(others);
        PagesAreReplies(offset + chunk, next, page.continuationState, uuid, i - 1);
        RequestAtNext(uuid, transactionId, token, page, others, i - 1);
      }
    }

    lemma NextOffset(offset: nat, transactionId: u16)
      requires Valid() && offset + chunk < |blob|
      ensures OffsetOf(PageAt(offset, transactionId).continuationState) == Some(offset + chunk)
    {
      hide PutU32, BeU32;
      U32RoundTrip(offset + chunk, []);
      assert PutU32(offset + chunk) + [] == PutU32(offset + chunk);
    }

    /** Client and server in closed loop: every PDU the client reads is the server's reply to
        the request the client had just sent, and the answer is the interpretation of exactly
        the server's bytes, whatever the page size. */
    lemma ClosedLoop(uuid: u16, trailing: seq<byte>, outcomes: seq<Outcome>)
      requires Valid() && Work(outcomes, 3 * |PagesFrom(0, 0)|)
      ensures var pages := PagesFrom(0, 0);
        && Servable(pages)
        && var (after, answer) := RunSession(Net(Concat(PdusOf(pages)) + trailing, [], outcomes), uuid);
        && answer == Interpret(blob) && after.incoming == trailing
        && |after.sent| == |pages|
        && forall i | 0 <= i < |pages| :: PdusOf(pages)[i] == Reply(after.sent[i])
    {
      hide RunSession, Interpret, RequestAt, PrintRawResponse, Reply, PagesFrom, Servable, Work, Skip;
      var pages := PagesFrom(0, 0);
      PagesReassemble(0, 0);
      assert AllPrintable(pages) by { ServableIsPrintable(pages); }
      assert blob[0..] == blob;
      PrintedSession(pages, trailing, outcomes, uuid);
      forall i: nat | i < |pages|
        ensures PdusOf(pages)[i] == Reply(Requests(uuid, 0, [], pages)[i])
      {
        PagesAreReplies(0, 0, [], uuid, i);
      }
    }
  }

  lemma FirstRequest(uuid: u16, transactionId: u16, token: seq<byte>, pages: seq<RawResponse>)
    requires |token| < 0x100 && AllPrintable(pages)
    ensures RequestAt(uuid, transactionId, token, pages, 0) == RequestBytes(PageRequest(uuid, transactionId, token))
  {
    hide RequestBytes;
  }

  lemma ServableIsPrintable(pages: seq<RawResponse>)
    requires Servable(pages)
    ensures AllPrintable(pages)
  {
  }
}
