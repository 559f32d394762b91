/** Which streams lead to which outcome of the paging session: for every stream, whatever it
    carries and whichever of its operations break. */
module SessionOutcomes {
  import opened Bytes
  import opened Response
  import opened Encode
  import opened Socket
  import opened Session
  import opened SessionRuns
  import opened Answers

  // --- Reading pages --------------------------------------------------------------------

  /** A PDU that comes whole, by operations that work, is the answer to a query: as a page if
      its framing is accepted, else as a decode error. */
  lemma PageIsFetched(net: Net, transactionId: u16, uuid: u16, token: seq<byte>, pdu: seq<byte>, rest: seq<byte>)
    requires |token| < 0x100 && IsPdu(pdu) && net.incoming == pdu + rest
    requires Work(net.outcomes, QueryOperations(pdu))
    ensures var raw := ParseRawResponse(pdu);
      FetchPage(net, transactionId, uuid, token)
      == (Net(rest, net.sent + [RequestBytes(PageRequest(uuid, transactionId, token))],
              Skip(net.outcomes, QueryOperations(pdu))),
          if raw.Ok? then Success(raw.value) else Failure(DecodeFailed))
  {
    hide Exchange, ParseRawResponse;
    ExchangeReadsPdu(net, RequestBytes(PageRequest(uuid, transactionId, token)), pdu, rest);
  }

  /** The stream after these pages: requested, read, and three operations each used up. */
  function NetAfter(net: Net, pages: seq<RawResponse>, rest: seq<byte>,
                    transactionId: u16, uuid: u16, token: seq<byte>): Net
    requires |token| < 0x100 && AllPrintable(pages)
  {
    Net(rest, net.sent + Requests(uuid, transactionId, token, pages), Skip(net.outcomes, 3 * |pages|))
  }

  /** What a session does once it has accepted the continuing pages `pages`. */
  function AfterPages(net: Net, pages: seq<RawResponse>, rest: seq<byte>,
                      transactionId: u16, uuid: u16, token: seq<byte>): Run
    requires |token| < 0x100 && AllPrintable(pages)
  {
    After(pages, FetchPages(NetAfter(net, pages, rest, transactionId, uuid, token),
                            IdAt(transactionId, |pages|), uuid, TokenAt(token, pages, |pages|)))
  }

  lemma {:induction false} ContinuingPagesAreRead(
    net: Net, transactionId: u16, uuid: u16, token: seq<byte>, pdus: seq<seq<byte>>, rest: seq<byte>)
    requires |token| < 0x100 && Continues(pdus) && net.incoming == Concat(pdus) + rest
    requires Work(net.outcomes, 3 * |pdus|)
    ensures FetchPages(net, transactionId, uuid, token)
         == AfterPages(net, PagesOf(pdus), rest, transactionId, uuid, token)
    decreases |pdus|
  {
    hide RequestBytes, FetchPage, ParseRawResponse, Work, Skip, IsPdu;
    if pdus == [] {
      IdAtNext(transactionId, 0);
      SkipSkip(net.outcomes, 0, 0);
      assert net.sent + Requests(uuid, transactionId, token, []) == net.sent;
      assert Concat(pdus) + rest == rest;
      var run := FetchPages(net, transactionId, uuid, token);
      assert [] + run.pages == run.pages;
    } else {
      var others := Concat(pdus[1..]) + rest;
      assert net.incoming == pdus[0] + others;
      PageTakesThree(pdus[0], others);
      WorkOn(net.outcomes, 3, 3 * (|pdus| - 1));
      PageIsFetched(net, transactionId, uuid, token, pdus[0], others);
      var page := ParseRawResponse(pdus[0]).value;
      var after := FetchPage(net, transactionId, uuid, token).0;
      RawResponseLength(pdus[0]);
      assert Continues(pdus[1..]);
      ContinuingPagesAreRead(after, WrappingNext(transactionId), uuid, page.continuationState, pdus[1..], rest);
      assert PagesOf(pdus) == [page] + PagesOf(pdus[1..]);
      AfterPagesUnfolds(net, after, page, PagesOf(pdus[1..]), rest, transactionId, uuid, token);
    }
  }

  lemma AfterPagesUnfolds(net: Net, after: Net, page: RawResponse, others: seq<RawResponse>, rest: seq<byte>,
                          transactionId: u16, uuid: u16, token: seq<byte>)
    requires |token| < 0x100 && Printable(page) && AllPrintable(others)
    requires after.sent == net.sent + [RequestBytes(PageRequest(uuid, transactionId, token))]
    requires after.outcomes == Skip(net.outcomes, 3)
    ensures AfterPages(net, [page] + others, rest, transactionId, uuid, token)
         == After([page], AfterPages(after, others, rest, WrappingNext(transactionId), uuid, page.continuationState))
  {
    hide RequestBytes, FetchPages, IdAt, WrappingNext, NetAfter;
    var pages := [page] + others;
    IdAtNext(transactionId, |others|);
    NetAfterUnfolds(net, after, page, others, rest, transactionId, uuid, token);
    assert TokenAt(token, pages, |pages|) == TokenAt(page.continuationState, others, |others|);
    AfterAfter([page], others, FetchPages(NetAfter(net, pages, rest, transactionId, uuid, token),
                                          IdAt(transactionId, |pages|), uuid, TokenAt(token, pages, |pages|)));
  }

  lemma NetAfterUnfolds(net: Net, after: Net, page: RawResponse, others: seq<RawResponse>, rest: seq<byte>,
                        transactionId: u16, uuid: u16, token: seq<byte>)
    requires |token| < 0x100 && Printable(page) && AllPrintable(others)
    requires after.sent == net.sent + [RequestBytes(PageRequest(uuid, transactionId, token))]
    requires after.outcomes == Skip(net.outcomes, 3)
    ensures NetAfter(net, [page] + others, rest, transactionId, uuid, token)
         == NetAfter(after, others, rest, WrappingNext(transactionId), uuid, page.continuationState)
  {
    hide RequestBytes, IdAt, WrappingNext, Skip, Requests;
    var next := WrappingNext(transactionId);
    var request := RequestBytes(PageRequest(uuid, transactionId, token));
    var log := Requests(uuid, next, page.continuationState, others);
    assert ([page] + others)[1..] == others;
    SkipSkip(net.outcomes, 3, 3 * |others|);
    RequestsUnfold(uuid, transactionId, token, [page] + others);
    assert net.sent + ([request] + log) == net.sent + [request] + log;
  }

  /** A full answer is read to its last byte and no further, with exactly one request per
      page, wherever the three operations of each page work. What later operations would do
      does not matter. */
  lemma CompleteAnswerIsRead(net: Net, transactionId: u16, uuid: u16, token: seq<byte>,
                             pdus: seq<seq<byte>>, rest: seq<byte>)
    requires |token| < 0x100 && Complete(pdus) && net.incoming == Concat(pdus) + rest
    requires Work(net.outcomes, 3 * |pdus|)
    ensures FetchPages(net, transactionId, uuid, token)
         == Run(NetAfter(net, PagesOf(pdus), rest, transactionId, uuid, token), PagesOf(pdus), None)
  {
    hide FetchPages, ParseRawResponse, IsPdu, Requests, IdAt, Work, Skip;
    var k := |pdus| - 1;
    var init, last := pdus[..k], pdus[k];
    assert pdus == init + [last];
    ConcatAppend(init, [last]);
    assert Concat([last]) == last + Concat([]) == last;
    assert Concat(init) + last + rest == Concat(init) + (last + rest);
    LastPageIsRead(net, transactionId, uuid, token, init, last, rest);
  }

  lemma LastPageIsRead(net: Net, transactionId: u16, uuid: u16, token: seq<byte>,
                       init: seq<seq<byte>>, last: seq<byte>, rest: seq<byte>)
    requires |token| < 0x100 && Work(net.outcomes, 3 * (|init| + 1))
    requires Continues(init) && IsPage(last) && ParseRawResponse(last).value.continuationState == []
    requires net.incoming == Concat(init) + (last + rest)
    ensures var pages := PagesOf(init) + [ParseRawResponse(last).value];
      && AllPages(init + [last]) && PagesOf(init + [last]) == pages
      && FetchPages(net, transactionId, uuid, token)
         == Run(NetAfter(net, pages, rest, transactionId, uuid, token), pages, None)
  {
    hide RequestBytes, FetchPage, ParseRawResponse, IdAt, IsPdu, Requests, Work, Skip, NetAfter;
    var pages, page := PagesOf(init), ParseRawResponse(last).value;
    RawResponseLength(last);
    assert PagesOf(init + [last]) == pages + [page];
    WorkOn(net.outcomes, 3 * |init|, 3);
    ContinuingPagesAreRead(net, transactionId, uuid, token, init, last + rest);
    PageTakesThree(last, rest);
    NetAfterAppend(net, pages, page, last + rest, rest, transactionId, uuid, token);
    PageIsFetched(NetAfter(net, pages, last + rest, transactionId, uuid, token), IdAt(transactionId, |pages|), uuid,
                  TokenAt(token, pages, |pages|), last, rest);
  }

  lemma NetAfterAppend(net: Net, pages: seq<RawResponse>, page: RawResponse, before: seq<byte>, rest: seq<byte>,
                       transactionId: u16, uuid: u16, token: seq<byte>)
    requires |token| < 0x100 && AllPrintable(pages) && Printable(page)
    ensures var after := NetAfter(net, pages, before, transactionId, uuid, token);
      && after.incoming == before && after.outcomes == Skip(net.outcomes, 3 * |pages|)
      && NetAfter(net, pages + [page], rest, transactionId, uuid, token)
         == Net(rest, after.sent + [RequestAt(uuid, transactionId, token, pages, |pages|)], Skip(after.outcomes, 3))
  {
    hide RequestBytes, IdAt, Skip, Requests;
    var log := Requests(uuid, transactionId, token, pages);
    var request := RequestAt(uuid, transactionId, token, pages, |pages|);
    SkipSkip(net.outcomes, 3 * |pages|, 3);
    RequestsAppend(uuid, transactionId, token, pages, page);
    assert net.sent + (log + [request]) == net.sent + log + [request];
  }

  // --- How a session ends ---------------------------------------------------------------

  /** The next PDU comes whole, by operations that work, and its framing is rejected. */
  predicate BadPage(incoming: seq<byte>, outcomes: seq<Outcome>) {
    && !EndsInside(incoming)
    && ParseRawResponse(incoming[..5 + Shift(incoming[3], incoming[4])]).Reject?
    && Work(outcomes, QueryOperations(incoming))
  }

  /** The stream starts with `pdus`, read by operations that work, and goes on with `rest`. */
  predicate StartsWith(net: Net, pdus: seq<seq<byte>>, rest: seq<byte>) {
    net.incoming == Concat(pdus) + rest && Work(net.outcomes, 3 * |pdus|)
  }

  /** What a rejected PDU at the front of `rest` leaves, after these pages: its request sent
      whole, and the stream right after it. */
  function AfterBadPage(net: Net, pages: seq<RawResponse>, rest: seq<byte>,
                        transactionId: u16, uuid: u16, token: seq<byte>): Net
    requires |token| < 0x100 && AllPrintable(pages) && !EndsInside(rest)
  {
    var here := NetAfter(net, pages, rest, transactionId, uuid, token);
    Net(rest[5 + Shift(rest[3], rest[4])..],
        here.sent + [RequestAt(uuid, transactionId, token, pages, |pages|)],
        Skip(here.outcomes, QueryOperations(rest)))
  }

  /** After these pages the next query cannot be completed: it ends with this error and leaves
      the stream so. */
  ghost predicate QueryStops(net: Net, pages: seq<RawResponse>, rest: seq<byte>,
                             transactionId: u16, uuid: u16, token: seq<byte>, after: Net, error: SocketError)
    requires |token| < 0x100 && AllPrintable(pages)
  {
    Stops(NetAfter(net, pages, rest, transactionId, uuid, token),
          RequestAt(uuid, transactionId, token, pages, |pages|), after, error)
  }

  lemma QueryFailsExactly(net: Net, transactionId: u16, uuid: u16, token: seq<byte>)
    requires |token| < 0x100
    ensures var request := RequestBytes(PageRequest(uuid, transactionId, token));
      forall after, error ::
        FetchPage(net, transactionId, uuid, token) == (after, Failure(SocketFailed(error)))
        <==> Stops(net, request, after, error)
    ensures FetchPage(net, transactionId, uuid, token).1 == Failure(DecodeFailed)
       <==> BadPage(net.incoming, net.outcomes)
  {
    hide Exchange, ParseRawResponse, Stops, Work, Skip;
    var request := RequestBytes(PageRequest(uuid, transactionId, token));
    forall after, error
      ensures Exchange(net, request) == (after, Failure(error)) <==> Stops(net, request, after, error)
    {
      ExchangeFailsExactly(net, request, after, error);
    }
    if Exchange(net, request).1.Success? {
      ExchangeTakesOnePdu(net, request);
      var pdu := Exchange(net, request).1.value;
      assert pdu == net.incoming[..|pdu|];
    }
    if BadPage(net.incoming, net.outcomes) {
      BadPageIsFetched(net, transactionId, uuid, token);
    }
  }

  /** After any continuing pages, a PDU that is no response page ends the session in a decode
      error: for one, a PDU that announces fewer than three bytes, such as an error response.
      The request it answers was sent whole, and the stream is left right after it. */
  lemma BadPageFailsDecode(net: Net, uuid: u16, pdus: seq<seq<byte>>, rest: seq<byte>)
    requires Continues(pdus) && StartsWith(net, pdus, rest)
    requires BadPage(rest, Skip(net.outcomes, 3 * |pdus|))
    ensures RunSession(net, uuid) == (AfterBadPage(net, PagesOf(pdus), rest, 0, uuid, []), Failure(DecodeFailed))
  {
    hide FetchPages, ParseRawResponse, Requests, Skip, Work, QueryOperations, IsPdu, BadPage, RequestAt, AfterBadPage;
    ContinuingPagesAreRead(net, 0, uuid, [], pdus, rest);
    BadPageEnds(net, PagesOf(pdus), rest, uuid);
  }

  lemma BadPageEnds(net: Net, pages: seq<RawResponse>, rest: seq<byte>, uuid: u16)
    requires AllPrintable(pages) && BadPage(rest, Skip(net.outcomes, 3 * |pages|))
    ensures AfterPages(net, pages, rest, 0, uuid, [])
         == Run(AfterBadPage(net, pages, rest, 0, uuid, []), pages, Some(DecodeFailed))
  {
    hide FetchPage, ParseRawResponse, IdAt, Requests, Skip, Work, QueryOperations, RequestBytes;
    var after := NetAfter(net, pages, rest, 0, uuid, []);
    BadPageIsFetched(after, IdAt(0, |pages|), uuid, TokenAt([], pages, |pages|));
    assert pages + [] == pages;
  }

  lemma BadPageIsFetched(net: Net, transactionId: u16, uuid: u16, token: seq<byte>)
    requires |token| < 0x100 && BadPage(net.incoming, net.outcomes)
    ensures FetchPage(net, transactionId, uuid, token)
         == (Net(net.incoming[5 + Shift(net.incoming[3], net.incoming[4])..],
                 net.sent + [RequestBytes(PageRequest(uuid, transactionId, token))],
                 Skip(net.outcomes, QueryOperations(net.incoming))),
             Failure(DecodeFailed))
  {
    hide FetchPage, ParseRawResponse, RequestBytes, Skip, Work;
    var n := 5 + Shift(net.incoming[3], net.incoming[4]);
    assert net.incoming == net.incoming[..n] + net.incoming[n..];
    PageIsFetched(net, transactionId, uuid, token, net.incoming[..n], net.incoming[n..]);
  }

  lemma ShortPduIsBad(pdu: seq<byte>)
    requires IsPdu(pdu) && Shift(pdu[3], pdu[4]) < 3
    ensures ParseRawResponse(pdu).Reject?
  {
    if ParseRawResponse(pdu).Ok? {
      RawResponseLength(pdu);
    }
  }

  /** After any continuing pages, a query that cannot be completed ends the session in its
      error: never in a channel, and never in the absence of one. */
  lemma StoppedStreamFails(net: Net, uuid: u16, pdus: seq<seq<byte>>, rest: seq<byte>, after: Net, error: SocketError)
    requires Continues(pdus) && StartsWith(net, pdus, rest)
    requires QueryStops(net, PagesOf(pdus), rest, 0, uuid, [], after, error)
    ensures RunSession(net, uuid) == (after, Failure(SocketFailed(error)))
  {
    hide FetchPage, ParseRawResponse, RequestBytes, Requests, Stops, Skip, Work;
    ContinuingPagesAreRead(net, 0, uuid, [], pdus, rest);
    QueryFailsExactly(NetAfter(net, PagesOf(pdus), rest, 0, uuid, []), IdAt(0, |pdus|), uuid,
                      TokenAt([], PagesOf(pdus), |pdus|));
  }

  /** A break in store for an operation of the next query ends the session with that error, and
      leaves what the broken operation left. */
  lemma StoredBreakFailsSession(net: Net, uuid: u16, pdus: seq<seq<byte>>, rest: seq<byte>,
                                k: nat, error: SocketError, moved: nat)
    requires Continues(pdus) && net.incoming == Concat(pdus) + rest && k < QueryOperations(rest)
    requires 3 * |pdus| + k < |net.outcomes| && net.outcomes[3 * |pdus| + k] == Breaks(error, moved)
    requires forall i | 0 <= i < 3 * |pdus| + k :: net.outcomes[i] == Works
    ensures var pages := PagesOf(pdus);
      var here, request := NetAfter(net, pages, rest, 0, uuid, []), RequestAt(uuid, 0, [], pages, |pages|);
      RunSession(net, uuid) == (AfterBreak(here, request, k, moved), Failure(SocketFailed(error)))
  {
    hide RunSession, ParseRawResponse, RequestBytes, Requests, Skip, AfterBreak;
    var pages := PagesOf(pdus);
    var here, request := NetAfter(net, pages, rest, 0, uuid, []), RequestAt(uuid, 0, [], pages, |pages|);
    BreaksLater(net.outcomes, 3 * |pdus|, k, error, moved);
    assert BreaksAt(net.outcomes, 3 * |pdus| + k, error, moved);
    assert Broken(here, request, AfterBreak(here, request, k, moved), error);
    StoppedStreamFails(net, uuid, pdus, rest, AfterBreak(here, request, k, moved), error);
  }

  /** A stream that ends inside a PDU, or before the next one, is an input/output error and
      leaves nothing to read. */
  lemma EndedStreamFails(net: Net, uuid: u16, pdus: seq<seq<byte>>, rest: seq<byte>)
    requires Continues(pdus) && net.incoming == Concat(pdus) + rest && EndsInside(rest)
    requires Work(net.outcomes, 3 * |pdus| + QueryOperations(rest))
    ensures var pages := PagesOf(pdus);
      var here, request := NetAfter(net, pages, rest, 0, uuid, []), RequestAt(uuid, 0, [], pages, |pages|);
      RunSession(net, uuid) == (AfterEnd(here, request), Failure(SocketFailed(Io)))
  {
    hide RunSession, Work, Skip, AfterEnd, QueryStops, IsPage, Concat, NetAfter, RequestAt, QueryOperations;
    var pages := PagesOf(pdus);
    var here, request := NetAfter(net, pages, rest, 0, uuid, []), RequestAt(uuid, 0, [], pages, |pages|);
    WorkOn(net.outcomes, 3 * |pdus|, QueryOperations(rest));
    EndStopsQuery(net, pages, rest, uuid);
    StoppedStreamFails(net, uuid, pdus, rest, AfterEnd(here, request), Io);
  }

  lemma EndStopsQuery(net: Net, pages: seq<RawResponse>, rest: seq<byte>, uuid: u16)
    requires AllPrintable(pages) && EndsInside(rest) && Work(Skip(net.outcomes, 3 * |pages|), QueryOperations(rest))
    ensures var here, request := NetAfter(net, pages, rest, 0, uuid, []), RequestAt(uuid, 0, [], pages, |pages|);
      QueryStops(net, pages, rest, 0, uuid, [], AfterEnd(here, request), Io)
  {
    hide Work, Skip, AfterEnd, Requests, RequestBytes;
    var here, request := NetAfter(net, pages, rest, 0, uuid, []), RequestAt(uuid, 0, [], pages, |pages|);
    assert Ended(here, request, AfterEnd(here, request), Io);
  }

  /** So is a full answer cut short at any byte. */
  lemma {:induction false} CutAnswerFails(net: Net, transactionId: u16, uuid: u16, token: seq<byte>,
                                          pdus: seq<seq<byte>>)
    requires |token| < 0x100 && Complete(pdus) && net.incoming < Concat(pdus) && Work(net.outcomes, 3 * |pdus|)
    ensures FetchPages(net, transactionId, uuid, token).failure == Some(SocketFailed(Io))
    decreases |pdus|
  {
    hide RequestBytes, Exchange, FetchPage, ParseRawResponse, IsPdu, Work, Skip;
    var first, others := pdus[0], Concat(pdus[1..]);
    assert Concat(pdus) == first + others;
    WorkOn(net.outcomes, 3, 3 * (|pdus| - 1));
    if |net.incoming| < |first| {
      ShortPageHitsEnd(net, transactionId, uuid, token, first, others);
    } else {
      var rest := net.incoming[|first|..];
      assert net.incoming == first + rest && rest < others;
      assert |pdus| > 1;
      var init := pdus[..|pdus| - 1];
      assert init[0] == first && pdus[1..][..|pdus| - 2] == init[1..];
      PageTakesThree(first, rest);
      PageIsFetched(net, transactionId, uuid, token, first, rest);
      RawResponseLength(first);
      CutAnswerFails(FetchPage(net, transactionId, uuid, token).0, WrappingNext(transactionId), uuid,
                     ParseRawResponse(first).value.continuationState, pdus[1..]);
    }
  }

  lemma ShortPageHitsEnd(net: Net, transactionId: u16, uuid: u16, token: seq<byte>,
                         first: seq<byte>, others: seq<byte>)
    requires |token| < 0x100 && IsPdu(first) && Work(net.outcomes, 3)
    requires net.incoming <= first + others && |net.incoming| < |first|
    ensures FetchPage(net, transactionId, uuid, token).1 == Failure(SocketFailed(Io))
  {
    hide FetchPage;
    assert net.incoming == (first + others)[..|net.incoming|] == first[..|net.incoming|];
    if |net.incoming| >= 5 {
      assert net.incoming[..5] == first[..5];
    }
    QueryFailsExactly(net, transactionId, uuid, token);
    var request := RequestBytes(PageRequest(uuid, transactionId, token));
    assert Stops(net, request, AfterEnd(net, request), Io);
  }

  // --- Every run is one of these --------------------------------------------------------

  /** How a run relates to its stream. The pages it accepted are PDUs at the front of the
      stream, whole and in order, read by operations that worked. It succeeded on a full
      answer, or it met a page it could not accept, or its next query could not be completed;
      and each way this is what it left. */
  ghost predicate Explains(net: Net, transactionId: u16, uuid: u16, token: seq<byte>, run: Run,
                           pdus: seq<seq<byte>>, rest: seq<byte>)
    requires |token| < 0x100
  {
    && AllPages(pdus) && PagesOf(pdus) == run.pages && StartsWith(net, pdus, rest)
    && match run.failure
       case None => Complete(pdus) && run.net == NetAfter(net, run.pages, rest, transactionId, uuid, token)
       case Some(EncodeFailed(_)) => false
       case Some(DecodeFailed) =>
         && Continues(pdus) && BadPage(rest, Skip(net.outcomes, 3 * |pdus|))
         && run.net == AfterBadPage(net, run.pages, rest, transactionId, uuid, token)
       case Some(SocketFailed(kind)) =>
         Continues(pdus) && QueryStops(net, run.pages, rest, transactionId, uuid, token, run.net, kind)
  }

  lemma {:induction false} RunReadsPdus(net: Net, transactionId: u16, uuid: u16, token: seq<byte>)
    returns (pdus: seq<seq<byte>>, rest: seq<byte>)
    requires |token| < 0x100
    ensures Explains(net, transactionId, uuid, token, FetchPages(net, transactionId, uuid, token), pdus, rest)
    decreases |net.incoming|
  {
    hide RequestBytes, Exchange, FetchPage, ParseRawResponse, Work, Skip, BadPage, QueryStops, Explains;
    var (after, page) := FetchPage(net, transactionId, uuid, token);
    var run := FetchPages(net, transactionId, uuid, token);
    if page.Failure? {
      pdus, rest := [], net.incoming;
      FailedFetchExplains(net, transactionId, uuid, token);
    } else {
      PageConsumes(net, transactionId, uuid, token);
      var pdu := FetchedPdu(net, transactionId, uuid, token);
      if page.value.continuationState == [] {
        LastFetchExplains(net, transactionId, uuid, token, run, pdu, after);
        pdus, rest := [pdu], after.incoming;
      } else {
        var next, token' := WrappingNext(transactionId), page.value.continuationState;
        var pdus', rest' := RunReadsPdus(after, next, uuid, token');
        FetchExplains(net, transactionId, uuid, token, after, FetchPages(after, next, uuid, token'), pdu, pdus', rest');
        pdus, rest := [pdu] + pdus', rest';
      }
    }
  }

  lemma NoPagesYet(net: Net, transactionId: u16, uuid: u16, token: seq<byte>)
    requires |token| < 0x100
    ensures NetAfter(net, [], net.incoming, transactionId, uuid, token) == net
    ensures RequestAt(uuid, transactionId, token, [], 0) == RequestBytes(PageRequest(uuid, transactionId, token))
  {
    hide RequestBytes;
    SkipSkip(net.outcomes, 0, 0);
    assert net.sent + Requests(uuid, transactionId, token, []) == net.sent;
  }

  lemma FailedFetchExplains(net: Net, transactionId: u16, uuid: u16, token: seq<byte>)
    requires |token| < 0x100 && FetchPage(net, transactionId, uuid, token).1.Failure?
    ensures Explains(net, transactionId, uuid, token, FetchPages(net, transactionId, uuid, token), [], net.incoming)
  {
    hide RequestBytes, Exchange, ParseRawResponse, BadPage, Stops, NetAfter, RequestAt;
    NoPages();
    NoPagesYet(net, transactionId, uuid, token);
    SkipSkip(net.outcomes, 0, 0);
    QueryFailsExactly(net, transactionId, uuid, token);
    if BadPage(net.incoming, net.outcomes) {
      BadPageIsFetched(net, transactionId, uuid, token);
    }
    assert Concat([]) + net.incoming == net.incoming;
  }

  lemma LastFetchExplains(net: Net, transactionId: u16, uuid: u16, token: seq<byte>,
                          run: Run, pdu: seq<byte>, after: Net)
    requires |token| < 0x100
    requires Fetched(net, pdu, after) && ParseRawResponse(pdu).value.continuationState == []
    requires after.sent == net.sent + [RequestBytes(PageRequest(uuid, transactionId, token))]
    requires run == Run(after, [ParseRawResponse(pdu).value], None)
    ensures Explains(net, transactionId, uuid, token, run, [pdu], after.incoming)
  {
    hide ParseRawResponse, RequestBytes, Work, Skip, IsPdu, BadPage, QueryStops, NetAfter;
    NoPages();
    RawResponseLength(pdu);
    PrependPage(pdu, [], after.incoming);
    assert [pdu] + [] == [pdu] && run.pages == run.pages + [];
    NetAfterUnfolds(net, after, run.pages[0], [], after.incoming, transactionId, uuid, token);
    NoPagesYet(after, WrappingNext(transactionId), uuid, []);
  }

  lemma FetchExplains(net: Net, transactionId: u16, uuid: u16, token: seq<byte>, after: Net, tail: Run,
                      pdu: seq<byte>, pdus: seq<seq<byte>>, rest: seq<byte>)
    requires |token| < 0x100
    requires Fetched(net, pdu, after) && ParseRawResponse(pdu).value.continuationState != []
    requires after.sent == net.sent + [RequestBytes(PageRequest(uuid, transactionId, token))]
    ensures var page := ParseRawResponse(pdu).value;
      |page.continuationState| < 0x100
      && (Explains(after, WrappingNext(transactionId), uuid, page.continuationState, tail, pdus, rest)
          ==> Explains(net, transactionId, uuid, token, After([page], tail), [pdu] + pdus, rest))
  {
    hide ParseRawResponse, RequestBytes, Work, Skip, IsPdu, BadPage, Stops, PagesOf, Complete, Continues, Concat;
    hide NetAfter, RequestAt, WrappingNext;
    RawResponseLength(pdu);
    var page := ParseRawResponse(pdu).value;
    if Explains(after, WrappingNext(transactionId), uuid, page.continuationState, tail, pdus, rest) {
      PrependPage(pdu, pdus, rest);
      WorkOn(net.outcomes, 3, 3 * |pdus|);
      SkipSkip(net.outcomes, 3, 3 * |pdus|);
      NetAfterUnfolds(net, after, page, tail.pages, rest, transactionId, uuid, token);
      RequestAtNext(uuid, transactionId, token, page, tail.pages, |tail.pages|);
    }
  }

  /** Every byte string starts with a full answer, or with continuing pages and then its end
      or a page whose framing is rejected. */
  lemma SoundStreamSplits(incoming: seq<byte>) returns (pdus: seq<seq<byte>>, rest: seq<byte>)
    ensures AllPages(pdus) && incoming == Concat(pdus) + rest
    ensures Complete(pdus)
         || (Continues(pdus) && EndsInside(rest))
         || (Continues(pdus) && !EndsInside(rest) && ParseRawResponse(rest[..5 + Shift(rest[3], rest[4])]).Reject?)
  {
    hide FetchPages, ParseRawResponse, Complete, Continues, Concat, PagesOf;
    pdus, rest := RunReadsPdus(Net(incoming, [], []), 0, 0, []);
  }

  // --- Exactly when ---------------------------------------------------------------------

  /** On any stream, the session succeeds with an answer, and leaves a stream, if and only if
      the stream starts with a full answer whose reassembled bytes give that answer, the three
      operations of each of its pages work, and what is left is what follows it. */
  lemma SessionSucceedsExactly(net: Net, uuid: u16, after: Net, answer: Option<byte>)
    ensures RunSession(net, uuid) == (after, Success(answer))
       <==> exists pdus, rest :: Complete(pdus) && StartsWith(net, pdus, rest)
              && BytesAnswer(Blob(PagesOf(pdus)), answer) && after == NetAfter(net, PagesOf(pdus), rest, 0, uuid, [])
  {
    hide FetchPages, Interpret, BytesAnswer, PagesOf, Blob, Continues, StartsWith, BadPage, QueryStops, NetAfter;
    hide IsPage;
    forall pdus, rest | Complete(pdus) && StartsWith(net, pdus, rest)
      ensures RunSession(net, uuid) == (NetAfter(net, PagesOf(pdus), rest, 0, uuid, []), Interpret(Blob(PagesOf(pdus))))
      ensures Interpret(Blob(PagesOf(pdus))) == Success(answer) <==> BytesAnswer(Blob(PagesOf(pdus)), answer)
    {
      CompleteAnswerInterpreted(net, uuid, pdus, rest);
      InterpretsExactly(Blob(PagesOf(pdus)), answer);
    }
    var pdus, rest := RunReadsPdus(net, 0, uuid, []);
  }

  lemma CompleteAnswerInterpreted(net: Net, uuid: u16, pdus: seq<seq<byte>>, rest: seq<byte>)
    requires Complete(pdus) && StartsWith(net, pdus, rest)
    ensures RunSession(net, uuid) == (NetAfter(net, PagesOf(pdus), rest, 0, uuid, []), Interpret(Blob(PagesOf(pdus))))
  {
    hide FetchPages, Interpret, PagesOf, Blob, Requests, Skip;
    CompleteAnswerIsRead(net, 0, uuid, [], pdus, rest);
  }

  /** On any stream, the session ends in a decode error if and only if the stream starts with
      a full answer that cannot be interpreted, or with continuing pages and then a page whose
      framing is rejected; and it leaves what follows that answer or that page. */
  lemma DecodeFailsSessionExactly(net: Net, uuid: u16, after: Net)
    ensures RunSession(net, uuid) == (after, Failure(DecodeFailed))
       <==> exists pdus, rest :: AllPages(pdus) && StartsWith(net, pdus, rest)
              && ((Complete(pdus) && Unreadable(Blob(PagesOf(pdus)))
                   && after == NetAfter(net, PagesOf(pdus), rest, 0, uuid, []))
                  || (Continues(pdus) && BadPage(rest, Skip(net.outcomes, 3 * |pdus|))
                      && after == AfterBadPage(net, PagesOf(pdus), rest, 0, uuid, [])))
  {
    hide FetchPages, Interpret, Unreadable, PagesOf, Blob, Complete, Continues, StartsWith, BadPage, QueryStops, Skip;
    hide NetAfter, AfterBadPage, IsPage;
    forall pdus, rest | AllPages(pdus) && Complete(pdus) && StartsWith(net, pdus, rest)
      ensures RunSession(net, uuid) == (NetAfter(net, PagesOf(pdus), rest, 0, uuid, []), Interpret(Blob(PagesOf(pdus))))
      ensures Interpret(Blob(PagesOf(pdus))) == Failure(DecodeFailed) <==> Unreadable(Blob(PagesOf(pdus)))
    {
      CompleteAnswerInterpreted(net, uuid, pdus, rest);
      InterpretFailsExactly(Blob(PagesOf(pdus)));
    }
    forall pdus, rest | Continues(pdus) && StartsWith(net, pdus, rest) && BadPage(rest, Skip(net.outcomes, 3 * |pdus|))
      ensures AllPages(pdus) && !EndsInside(rest)
        && RunSession(net, uuid) == (AfterBadPage(net, PagesOf(pdus), rest, 0, uuid, []), Failure(DecodeFailed))
    {
      BadPageParts(pdus, rest, Skip(net.outcomes, 3 * |pdus|));
      BadPageFailsDecode(net, uuid, pdus, rest);
    }
    var pdus, rest := RunReadsPdus(net, 0, uuid, []);
  }

  lemma BadPageParts(pdus: seq<seq<byte>>, rest: seq<byte>, outcomes: seq<Outcome>)
    requires Continues(pdus) && BadPage(rest, outcomes)
    ensures AllPages(pdus) && !EndsInside(rest)
  {
  }

  /** On any stream, the session ends in a transport error if and only if the stream starts
      with continuing pages after which a query cannot be completed, with that error; and it
      leaves what that query left. */
  lemma SocketFailsSessionExactly(net: Net, uuid: u16, after: Net, error: SocketError)
    ensures RunSession(net, uuid) == (after, Failure(SocketFailed(error)))
       <==> exists pdus, rest :: Continues(pdus) && StartsWith(net, pdus, rest)
              && QueryStops(net, PagesOf(pdus), rest, 0, uuid, [], after, error)
  {
    hide FetchPages, DecodeAttributeLists, PagesOf, Blob, Complete, StartsWith, BadPage, QueryStops, Skip;
    hide NetAfter, AfterBadPage, IsPage, ParseRawResponse;
    forall pdus, rest | Continues(pdus) && StartsWith(net, pdus, rest)
                        && QueryStops(net, PagesOf(pdus), rest, 0, uuid, [], after, error)
      ensures RunSession(net, uuid) == (after, Failure(SocketFailed(error)))
    {
      StoppedStreamFails(net, uuid, pdus, rest, after, error);
    }
    var pdus, rest := RunReadsPdus(net, 0, uuid, []);
  }

  /** A run that fails with a transport error had an operation in store that breaks with that
      error, or the error is `Io` and, after the accepted pages, the stream ends inside the PDU
      that was due. A timeout is never made up. */
  lemma SocketFailureHasCause(net: Net, transactionId: u16, uuid: u16, token: seq<byte>, error: SocketError)
    requires |token| < 0x100 && FetchPages(net, transactionId, uuid, token).failure == Some(SocketFailed(error))
    ensures CanBreak(net.outcomes, error)
         || (error == Io && exists pdus, rest ::
               && AllPages(pdus) && PagesOf(pdus) == FetchPages(net, transactionId, uuid, token).pages
               && net.incoming == Concat(pdus) + rest && EndsInside(rest))
  {
    hide FetchPages, ParseRawResponse, RequestBytes, IsPdu, Stops, Work, CanBreak;
    var run := FetchPages(net, transactionId, uuid, token);
    var pdus, rest := RunReadsPdus(net, transactionId, uuid, token);
    StopHasCause(NetAfter(net, run.pages, rest, transactionId, uuid, token),
                 RequestAt(uuid, transactionId, token, run.pages, |run.pages|), run.net, error);
    if CanBreak(Skip(net.outcomes, 3 * |pdus|), error) {
      LaterBreakIsStored(net.outcomes, 3 * |pdus|, error);
    }
  }
}
