/** What holds of every run of the paging session, whatever the server sends and however
    the stream behaves. */
module SessionRuns {
  import opened Bytes
  import opened Response
  import opened Encode
  import opened Socket
  import opened Session

  /** The token sent with request `i`: the given one first, then that of the page before. */
  function TokenAt(token: seq<byte>, pages: seq<RawResponse>, i: nat): seq<byte>
    requires i <= |pages|
  {
    if i == 0 then token else pages[i - 1].continuationState
  }

  /** Transaction ids count up from the first and wrap around. */
  function IdAt(transactionId: u16, i: nat): u16 {
    (transactionId + i) % 0x1_0000
  }

  lemma IdAtNext(transactionId: u16, i: nat)
    ensures IdAt(WrappingNext(transactionId), i) == IdAt(transactionId, i + 1)
    ensures IdAt(transactionId, 0) == transactionId
  {
  }

  predicate AllPrintable(pages: seq<RawResponse>) {
    forall i | 0 <= i < |pages| :: Printable(pages[i])
  }

  /** Request `i` of a run that starts with this transaction id and token. */
  function RequestAt(uuid: u16, transactionId: u16, token: seq<byte>, pages: seq<RawResponse>, i: nat): seq<byte>
    requires |token| < 0x100 && AllPrintable(pages) && i <= |pages|
  {
    RequestBytes(PageRequest(uuid, IdAt(transactionId, i), TokenAt(token, pages, i)))
  }

  /** After one page, the requests are those of a run that starts with its token. */
  lemma RequestAtNext(uuid: u16, transactionId: u16, token: seq<byte>,
                      page: RawResponse, others: seq<RawResponse>, i: nat)
    requires |token| < 0x100 && Printable(page) && AllPrintable(others) && i <= |others|
    ensures RequestAt(uuid, transactionId, token, [page] + others, i + 1)
         == RequestAt(uuid, WrappingNext(transactionId), page.continuationState, others, i)
  {
    hide RequestBytes, IdAt, WrappingNext;
    IdAtNext(transactionId, i);
    assert TokenAt(token, [page] + others, i + 1) == TokenAt(page.continuationState, others, i);
  }

  /** Request `i` asks for this service, for all attributes and as many bytes as can be, with
      transaction id `i` further on, wrapped, and exactly the token of the page before. */
  lemma RequestSays(uuid: u16, transactionId: u16, token: seq<byte>, pages: seq<RawResponse>, i: nat)
    requires |token| < 0x100 && AllPrintable(pages) && i <= |pages|
    ensures ReadRequest(RequestAt(uuid, transactionId, token, pages, i))
         == Some(Request((transactionId + i) % 65536, uuid, 65535, 65535,
                         if i == 0 then token else pages[i - 1].continuationState))
  {
    hide RequestBytes, ReadRequest;
    RequestRoundTrip(PageRequest(uuid, IdAt(transactionId, i), TokenAt(token, pages, i)));
  }

  // --- Pages as PDUs --------------------------------------------------------------------

  /** A whole PDU whose framing is accepted. */
  predicate IsPage(pdu: seq<byte>) {
    IsPdu(pdu) && ParseRawResponse(pdu).Ok?
  }

  predicate AllPages(pdus: seq<seq<byte>>) {
    forall i | 0 <= i < |pdus| :: IsPage(pdus[i])
  }

  function PagesOf(pdus: seq<seq<byte>>): (pages: seq<RawResponse>)
    requires AllPages(pdus)
    ensures |pages| == |pdus| && AllPrintable(pages)
    ensures forall i | 0 <= i < |pdus| :: pages[i] == ParseRawResponse(pdus[i]).value
  {
    if pdus == [] then []
    else
      RawResponseLength(pdus[0]);
      [ParseRawResponse(pdus[0]).value] + PagesOf(pdus[1..])
  }

  /** Pages that each ask for another one. */
  predicate Continues(pdus: seq<seq<byte>>) {
    AllPages(pdus) && forall i | 0 <= i < |pdus| :: ParseRawResponse(pdus[i]).value.continuationState != []
  }

  /** A full answer: continuing pages, then one that asks for no more. */
  predicate Complete(pdus: seq<seq<byte>>) {
    && pdus != [] && AllPages(pdus) && Continues(pdus[..|pdus| - 1])
    && ParseRawResponse(pdus[|pdus| - 1]).value.continuationState == []
  }

  /** Any request that is not empty: how many operations an exchange takes does not depend on
      which. */
  function SomeRequest(): seq<byte> {
    [REQUEST_PDU_ID]
  }

  /** The operations of one query on these bytes: write, header and, if one is due, body. */
  function QueryOperations(incoming: seq<byte>): nat {
    Operations(SomeRequest(), incoming)
  }

  lemma PageTakesThree(pdu: seq<byte>, rest: seq<byte>)
    requires IsPage(pdu)
    ensures QueryOperations(pdu) == QueryOperations(pdu + rest) == 3
  {
    RawResponseLength(pdu);
  }

  /** A page that was fetched: whole, at the front of the stream, by three operations. */
  predicate Fetched(net: Net, pdu: seq<byte>, after: Net) {
    && IsPage(pdu) && net.incoming == pdu + after.incoming
    && Work(net.outcomes, 3) && after.outcomes == Skip(net.outcomes, 3)
  }

  lemma FetchedPdu(net: Net, transactionId: u16, uuid: u16, token: seq<byte>) returns (pdu: seq<byte>)
    requires FetchPage(net, transactionId, uuid, token).1.Success?
    ensures var after := FetchPage(net, transactionId, uuid, token).0;
      Fetched(net, pdu, after) && after.sent == net.sent + [RequestBytes(PageRequest(uuid, transactionId, token))]
    ensures ParseRawResponse(pdu).value == FetchPage(net, transactionId, uuid, token).1.value
  {
    hide Exchange, ParseRawResponse, Work, Skip;
    var request := RequestBytes(PageRequest(uuid, transactionId, token));
    ExchangeTakesOnePdu(net, request);
    pdu := Exchange(net, request).1.value;
    PageTakesThree(pdu, []);
  }

  // --- Every run ------------------------------------------------------------------------

  /** Tokens drive the run: all accepted pages but the last of a successful run carry one. */
  predicate TokensDrive(run: Run) {
    && AllPrintable(run.pages)
    && (forall i | 0 <= i < |run.pages| - 1 :: run.pages[i].continuationState != [])
    && (run.failure.Some? ==> forall i | 0 <= i < |run.pages| :: run.pages[i].continuationState != [])
    && (run.failure.None? ==> run.pages != [] && run.pages[|run.pages| - 1].continuationState == [])
  }

  /** The log a run leaves: request by request with its transaction id and token. A failed run
      has also begun one more request: whole if its write worked, so always after a decode
      error, and otherwise as far as that write came. */
  predicate LogMatches(before: Net, run: Run, uuid: u16, transactionId: u16, token: seq<byte>)
    requires |token| < 0x100 && AllPrintable(run.pages)
  {
    var n, k, sent := |before.sent|, |run.pages|, run.net.sent;
    && |sent| == n + k + (if run.failure.Some? then 1 else 0)
    && before.sent <= sent
    && (forall i | 0 <= i < k :: sent[n + i] == RequestAt(uuid, transactionId, token, run.pages, i))
    && (run.failure.Some? ==>
          var request := RequestAt(uuid, transactionId, token, run.pages, k);
          && sent[n + k] == SentPart(request, before.outcomes, 3 * k)
          && (run.failure.value.DecodeFailed? ==> sent[n + k] == request))
  }

  lemma {:induction false} EveryRun(net: Net, transactionId: u16, uuid: u16, token: seq<byte>)
    requires |token| < 0x100
    ensures var run := FetchPages(net, transactionId, uuid, token);
      TokensDrive(run) && LogMatches(net, run, uuid, transactionId, token)
    decreases |net.incoming|
  {
    hide RequestBytes, Exchange, ParseRawResponse, Fetched, SentPart, Skip;
    var run := FetchPages(net, transactionId, uuid, token);
    var request := RequestBytes(PageRequest(uuid, transactionId, token));
    var (after, page) := FetchPage(net, transactionId, uuid, token);
    if Exchange(net, request).1.Failure? {
      ExchangeFails(net, request);
    } else {
      ExchangeTakesOnePdu(net, request);
    }
    if page.Success? {
      PageConsumes(net, transactionId, uuid, token);
      var p := page.value;
      if p.continuationState != [] {
        var pdu := FetchedPdu(net, transactionId, uuid, token);
        FetchedTakesThree(net, pdu, after);
        EveryRun(after, WrappingNext(transactionId), uuid, p.continuationState);
        var tail := FetchPages(after, WrappingNext(transactionId), uuid, p.continuationState);
        LogExtends(net, after, run, tail, p, uuid, transactionId, token);
      }
    }
  }

  lemma FetchedTakesThree(net: Net, pdu: seq<byte>, after: Net)
    requires Fetched(net, pdu, after)
    ensures after.outcomes == Skip(net.outcomes, 3)
  {
    hide ParseRawResponse, Work, Skip;
  }

  lemma LogExtends(before: Net, after: Net, run: Run, tail: Run, page: RawResponse,
                   uuid: u16, transactionId: u16, token: seq<byte>)
    requires |token| < 0x100 && Printable(page) && AllPrintable(tail.pages)
    requires after.sent == before.sent + [RequestBytes(PageRequest(uuid, transactionId, token))]
    requires after.outcomes == Skip(before.outcomes, 3)
    requires run == After([page], tail)
    requires LogMatches(after, tail, uuid, WrappingNext(transactionId), page.continuationState)
    ensures AllPrintable(run.pages) && LogMatches(before, run, uuid, transactionId, token)
  {
    hide RequestBytes, IdAt, WrappingNext, Skip, SentPart;
    var n, k := |before.sent|, |run.pages|;
    forall i: nat | 1 <= i <= k
      ensures RequestAt(uuid, transactionId, token, run.pages, i)
           == RequestAt(uuid, WrappingNext(transactionId), page.continuationState, tail.pages, i - 1)
    {
      RequestAtNext(uuid, transactionId, token, page, tail.pages, i - 1);
    }
    IdAtNext(transactionId, 0);
    if run.failure.Some? {
      SentLater(RequestAt(uuid, transactionId, token, run.pages, k), before.outcomes, 3 * (k - 1));
    }
    assert run.net.sent[n] == after.sent[n];
  }

  lemma SentLater(request: seq<byte>, outcomes: seq<Outcome>, i: nat)
    requires request != []
    ensures SentPart(request, Skip(outcomes, 3), i) == SentPart(request, outcomes, 3 + i)
  {
  }

  /** Continuing pages of a run: those that asked for another one. */
  function Continuing(run: Run): nat {
    if run.failure.None? && run.pages != [] then |run.pages| - 1 else |run.pages|
  }

  /** On any finite stream the loop ends: each continuing page uses up at least nine bytes.
      The reassembled bytes never exceed 65532 per page. */
  lemma {:induction false} RunIsBounded(net: Net, transactionId: u16, uuid: u16, token: seq<byte>)
    ensures var run := FetchPages(net, transactionId, uuid, token);
      9 * Continuing(run) <= |net.incoming| && |Blob(run.pages)| <= 65532 * |run.pages|
    decreases |net.incoming|
  {
    var (after, page) := FetchPage(net, transactionId, uuid, token);
    if page.Success? {
      var p := page.value;
      PageConsumes(net, transactionId, uuid, token);
      FragmentIsBounded(net, transactionId, uuid, token);
      if p.continuationState != [] {
        RunIsBounded(after, WrappingNext(transactionId), uuid, p.continuationState);
        var tail := FetchPages(after, WrappingNext(transactionId), uuid, p.continuationState);
        assert FetchPages(net, transactionId, uuid, token).pages[1..] == tail.pages;
      } else {
        assert Blob([p]) == p.attributeBytes + Blob([]);
      }
    }
  }

  lemma FragmentIsBounded(net: Net, transactionId: u16, uuid: u16, token: seq<byte>)
    requires FetchPage(net, transactionId, uuid, token).1.Success?
    ensures |FetchPage(net, transactionId, uuid, token).1.value.attributeBytes| <= 65532
  {
    var request := RequestBytes(PageRequest(uuid, transactionId, token));
    ExchangeTakesOnePdu(net, request);
    RawResponseLength(Exchange(net, request).1.value);
  }

  // --- Requests and pages in sequence ---------------------------------------------------

  /** The requests that fetch `pages`, in order. */
  function Requests(uuid: u16, transactionId: u16, token: seq<byte>, pages: seq<RawResponse>): (log: seq<seq<byte>>)
    requires |token| < 0x100 && AllPrintable(pages)
    ensures |log| == |pages|
    ensures forall i | 0 <= i < |pages| :: log[i] == RequestAt(uuid, transactionId, token, pages, i)
  {
    seq(|pages|, i requires 0 <= i < |pages| => RequestAt(uuid, transactionId, token, pages, i))
  }

  lemma RequestsUnfold(uuid: u16, transactionId: u16, token: seq<byte>, pages: seq<RawResponse>)
    requires |token| < 0x100 && AllPrintable(pages) && pages != []
    ensures Requests(uuid, transactionId, token, pages)
         == [RequestBytes(PageRequest(uuid, transactionId, token))]
            + Requests(uuid, WrappingNext(transactionId), pages[0].continuationState, pages[1..])
  {
    hide RequestBytes, IdAt, WrappingNext;
    forall i: nat | 1 <= i < |pages|
      ensures RequestAt(uuid, transactionId, token, pages, i)
           == RequestAt(uuid, WrappingNext(transactionId), pages[0].continuationState, pages[1..], i - 1)
    {
      assert pages == [pages[0]] + pages[1..];
      RequestAtNext(uuid, transactionId, token, pages[0], pages[1..], i - 1);
    }
    IdAtNext(transactionId, 0);
  }

  lemma RequestsAppend(uuid: u16, transactionId: u16, token: seq<byte>, pages: seq<RawResponse>, page: RawResponse)
    requires |token| < 0x100 && AllPrintable(pages) && Printable(page)
    ensures Requests(uuid, transactionId, token, pages + [page])
         == Requests(uuid, transactionId, token, pages) + [RequestAt(uuid, transactionId, token, pages, |pages|)]
  {
    hide RequestBytes;
    assert forall i: nat | i <= |pages| :: TokenAt(token, pages + [page], i) == TokenAt(token, pages, i);
  }

  lemma NoPages()
    ensures Continues([]) && PagesOf([]) == [] && Concat([]) == []
  {
  }

  lemma PrependBytes(pdu: seq<byte>, pdus: seq<seq<byte>>, rest: seq<byte>)
    ensures Concat([pdu] + pdus) + rest == pdu + (Concat(pdus) + rest)
    ensures pdus == [] ==> Concat(pdus) + rest == rest
  {
    assert ([pdu] + pdus)[1..] == pdus;
    assert pdu + Concat(pdus) + rest == pdu + (Concat(pdus) + rest);
  }

  lemma PrependToPages(pdu: seq<byte>, pdus: seq<seq<byte>>)
    requires IsPage(pdu) && AllPages(pdus)
    ensures AllPages([pdu] + pdus)
    ensures PagesOf([pdu] + pdus) == [ParseRawResponse(pdu).value] + PagesOf(pdus)
  {
    hide ParseRawResponse, IsPdu;
    assert ([pdu] + pdus)[1..] == pdus;
  }

  /** A page in front of others is the first of their pages and of their bytes. */
  lemma PrependPage(pdu: seq<byte>, pdus: seq<seq<byte>>, rest: seq<byte>)
    requires IsPage(pdu) && AllPages(pdus)
    ensures AllPages([pdu] + pdus)
    ensures PagesOf([pdu] + pdus) == [ParseRawResponse(pdu).value] + PagesOf(pdus)
    ensures Concat([pdu] + pdus) + rest == pdu + (Concat(pdus) + rest)
    ensures pdus == [] ==> Concat(pdus) + rest == rest
    ensures var token := ParseRawResponse(pdu).value.continuationState;
      && (token == [] && pdus == [] ==> Complete([pdu] + pdus))
      && (token != [] && Complete(pdus) ==> Complete([pdu] + pdus))
      && (token != [] && Continues(pdus) ==> Continues([pdu] + pdus))
  {
    hide ParseRawResponse, IsPage, PagesOf, Concat;
    PrependToPages(pdu, pdus);
    PrependBytes(pdu, pdus, rest);
    var all := [pdu] + pdus;
    if pdus == [] {
      assert all[..|all| - 1] == [];
    } else {
      assert all[..|all| - 1] == [pdu] + pdus[..|pdus| - 1];
    }
  }
}
