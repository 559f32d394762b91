/** Request and response exchange over a byte stream. `Net` is the stream as a value: the
    bytes still to come, the log of what was written, and how coming operations fare.
    `Stream` is the mutable stream, where the bytes arrive in chunks of any sizes. */
module Socket {
  import opened Bytes

  const PDU_HEADER_LEN: nat := 5

  datatype SocketError = Io | Timeout

  /** How one stream operation fares. A broken one moves some of its bytes and then fails. */
  datatype Outcome = Works | Breaks(error: SocketError, moved: nat)

  datatype Net = Net(incoming: seq<byte>, sent: seq<seq<byte>>, outcomes: seq<Outcome>) {
    /** How the next operation fares; with nothing in store, operations work. */
    function Next(): Outcome {
      if outcomes == [] then Works else outcomes[0]
    }

    function Later(): seq<Outcome> {
      if outcomes == [] then [] else outcomes[1..]
    }
  }

  function Min(a: nat, b: nat): (m: nat)
    ensures m <= a && m <= b && (m == a || m == b)
  {
    if a < b then a else b
  }

  /** Writing nothing always works and leaves no trace. */
  function Write(net: Net, data: seq<byte>): (Net, Result<(), SocketError>) {
    if data == [] then (net, Success(()))
    else match net.Next()
      case Works => (Net(net.incoming, net.sent + [data], net.Later()), Success(()))
      case Breaks(error, moved) =>
        (Net(net.incoming, net.sent + [data[..Min(moved, |data| - 1)]], net.Later()), Failure(error))
  }

  /** Reading exactly `n` bytes. The end of the stream is an input/output error. */
  function Read(net: Net, n: nat): (Net, Result<seq<byte>, SocketError>) {
    if n == 0 then (net, Success([]))
    else match net.Next()
      case Works =>
        if |net.incoming| < n then (Net([], net.sent, net.Later()), Failure(Io))
        else (Net(net.incoming[n..], net.sent, net.Later()), Success(net.incoming[..n]))
      case Breaks(error, moved) =>
        (Net(net.incoming[Min(moved, Min(n - 1, |net.incoming|))..], net.sent, net.Later()), Failure(error))
  }

  function Exchange(net: Net, request: seq<byte>): (Net, Result<seq<byte>, SocketError>) {
    var (net, written) := Write(net, request);
    if written.Failure? then (net, Failure(written.error))
    else
      var (net, header) := Read(net, PDU_HEADER_LEN);
      if header.Failure? then (net, header)
      else
        var (net, body) := Read(net, Shift(header.value[3], header.value[4]));
        if body.Failure? then (net, body) else (net, Success(header.value + body.value))
  }

  // --- The stream -----------------------------------------------------------------------

  function Concat(chunks: seq<seq<byte>>): seq<byte> {
    if chunks == [] then [] else chunks[0] + Concat(chunks[1..])
  }

  lemma {:induction false} ConcatAppend(a: seq<seq<byte>>, b: seq<seq<byte>>)
    ensures Concat(a + b) == Concat(a) + Concat(b)
    decreases |a|
  {
    if a == [] {
      assert a + b == b;
    } else {
      ConcatAppend(a[1..], b);
      assert (a + b)[1..] == a[1..] + b;
      assert a[0] + (Concat(a[1..]) + Concat(b)) == a[0] + Concat(a[1..]) + Concat(b);
    }
  }

  class Stream {
    var arrivals: seq<seq<byte>>
    var sent: seq<seq<byte>>
    var outcomes: seq<Outcome>

    /** A chunk is what one read delivers: an empty one would be the end of the stream. */
    ghost predicate Valid()
      reads this
    {
      [] !in arrivals
    }

    ghost function State(): Net
      reads this
    {
      Net(Concat(arrivals), sent, outcomes)
    }

    constructor (arrivals: seq<seq<byte>>, outcomes: seq<Outcome>)
      requires [] !in arrivals
      ensures Valid() && State() == Net(Concat(arrivals), [], outcomes)
    {
      this.arrivals, this.sent, this.outcomes := arrivals, [], outcomes;
    }

    method NextOutcome() returns (outcome: Outcome)
      modifies this`outcomes
      ensures outcome == old(State()).Next() && outcomes == old(State()).Later()
    {
      outcome := Works;
      if outcomes != [] {
        outcome, outcomes := outcomes[0], outcomes[1..];
      }
    }

    method WriteAll(data: seq<byte>) returns (r: Result<(), SocketError>)
      requires Valid()
      modifies this
      ensures Valid() && (State(), r) == Write(old(State()), data)
    {
      if data == [] { return Success(()); }
      var outcome := NextOutcome();
      match outcome
      case Works =>
        sent := sent + [data];
        r := Success(());
      case Breaks(error, moved) =>
        sent := sent + [data[..Min(moved, |data| - 1)]];
        r := Failure(error);
    }

    /** Take up to `wanted` bytes off the first chunk, as one read of the stream does. */
    method ReadSome(wanted: nat) returns (piece: seq<byte>)
      requires Valid() && wanted > 0
      modifies this`arrivals
      ensures Valid() && |piece| <= wanted
      ensures piece + Concat(arrivals) == old(Concat(arrivals))
      ensures piece == [] ==> Concat(arrivals) == []
    {
      if arrivals == [] { return []; }
      var chunk := arrivals[0];
      if |chunk| <= wanted {
        piece, arrivals := chunk, arrivals[1..];
      } else {
        piece := chunk[..wanted];
        arrivals := [chunk[wanted..]] + arrivals[1..];
        assert chunk[..wanted] + chunk[wanted..] == chunk;
      }
    }

    static method PutSlice(buf: array<byte>, at: nat, piece: seq<byte>)
      requires at + |piece| <= buf.Length
      modifies buf
      ensures buf[..at + |piece|] == old(buf[..at]) + piece
    {
      forall i | 0 <= i < |piece| {
        buf[at + i] := piece[i];
      }
    }

    /** Fill the first `wanted` bytes of `buf` from as many reads as it takes, or until the
        stream ends. */
    method Fill(buf: array<byte>, wanted: nat) returns (filled: nat)
      requires Valid() && wanted <= buf.Length
      modifies this`arrivals, buf
      ensures Valid() && filled <= wanted
      ensures buf[..filled] + Concat(arrivals) == old(Concat(arrivals))
      ensures filled < wanted ==> Concat(arrivals) == []
    {
      hide Concat;
      filled := 0;
      while filled < wanted
        invariant 0 <= filled <= wanted && Valid()
        invariant buf[..filled] + Concat(arrivals) == old(Concat(arrivals))
      {
        var piece := ReadSome(wanted - filled);
        if piece == [] { return; }
        PutSlice(buf, filled, piece);
        filled := filled + |piece|;
      }
    }

    method ReadExact(buf: array<byte>) returns (r: Result<(), SocketError>)
      requires Valid()
      modifies this, buf
      ensures Valid() && State() == Read(old(State()), buf.Length).0
      ensures match Read(old(State()), buf.Length).1
              case Success(data) => r == Success(()) && buf[..] == data
              case Failure(error) => r == Failure(error)
    {
      hide Concat;
      if buf.Length == 0 { return Success(()); }
      var outcome := NextOutcome();
      var filled := Fill(buf, if outcome.Works? then buf.Length else Min(outcome.moved, buf.Length - 1));
      assert buf[..filled] == old(State()).incoming[..filled] && State().incoming == old(State()).incoming[filled..];
      if outcome.Breaks? { return Failure(outcome.error); }
      if filled < buf.Length { return Failure(Io); }
      assert buf[..] == buf[..filled];
      return Success(());
    }
  }

  /** Send `request` and read back exactly one PDU. */
  method SendAndReceivePdu(stream: Stream, request: seq<byte>) returns (r: Result<seq<byte>, SocketError>)
    requires stream.Valid()
    modifies stream
    ensures stream.Valid() && (stream.State(), r) == Exchange(old(stream.State()), request)
  {
    var written := stream.WriteAll(request);
    if written.Failure? { return Failure(written.error); }
    var header := new byte[PDU_HEADER_LEN];
    var headerRead := stream.ReadExact(header);
    if headerRead.Failure? { return Failure(headerRead.error); }
    ghost var headerBytes := header[..];
    var paramLen := Shift(header[3], header[4]);
    var body := new byte[paramLen];
    var bodyRead := stream.ReadExact(body);
    if bodyRead.Failure? { return Failure(bodyRead.error); }
    assert header[..] == headerBytes;
    var pdu: seq<byte> := [];
    pdu := pdu + header[..];
    pdu := pdu + body[..];
    assert pdu == headerBytes + body[..];
    return Success(pdu);
  }

  // --- One read -------------------------------------------------------------------------

  /** A read of `n` bytes that works takes the next `n`, or all there are and fails with `Io`.
      One that breaks has taken as many as it moved, but fewer than `n`, and loses no others. */
  lemma ReadTakes(net: Net, n: nat, piece: seq<byte>, rest: seq<byte>)
    requires n > 0 && net.incoming == piece + rest
    ensures net.outcomes == [] || net.outcomes[0] == Works ==>
      && (|piece| == n ==> Read(net, n) == (Net(rest, net.sent, Skip(net.outcomes, 1)), Success(piece)))
      && (|net.incoming| < n ==> Read(net, n) == (Net([], net.sent, Skip(net.outcomes, 1)), Failure(Io)))
    ensures net.outcomes != [] && net.outcomes[0].Breaks?
            && |piece| == Min(net.outcomes[0].moved, Min(n - 1, |net.incoming|)) ==>
      Read(net, n) == (Net(rest, net.sent, net.outcomes[1..]), Failure(net.outcomes[0].error))
  {
    assert net.incoming[..|piece|] == piece && net.incoming[|piece|..] == rest;
  }

  // --- Framing --------------------------------------------------------------------------

  /** Exactly one PDU: a header, then as many bytes as it announces. */
  predicate IsPdu(pdu: seq<byte>) {
    |pdu| >= 5 && |pdu| == 5 + Shift(pdu[3], pdu[4])
  }

  /** The bytes run out inside their first PDU, or there are none. */
  predicate EndsInside(bytes: seq<byte>) {
    |bytes| < 5 || |bytes| < 5 + Shift(bytes[3], bytes[4])
  }

  /** What the log of writes gains from a request sent whole. */
  function Written(request: seq<byte>): seq<seq<byte>> {
    if request == [] then [] else [request]
  }

  /** How many stream operations an exchange takes: a write unless there is nothing to write,
      a header read, and a body read if the header that comes announces a body. */
  function Operations(request: seq<byte>, incoming: seq<byte>): nat {
    |Written(request)| + (if |incoming| >= 5 && Shift(incoming[3], incoming[4]) > 0 then 2 else 1)
  }

  /** The outcomes left after `n` operations. */
  function Skip(outcomes: seq<Outcome>, n: nat): seq<Outcome> {
    if n < |outcomes| then outcomes[n..] else []
  }

  /** The first `n` of the coming operations work: none of them has a break in store. */
  predicate Work(outcomes: seq<Outcome>, n: nat) {
    forall i | 0 <= i < n && i < |outcomes| :: outcomes[i] == Works
  }

  /** Operation `k` is the first with a break in store, with this error after this many bytes. */
  predicate BreaksAt(outcomes: seq<Outcome>, k: nat, error: SocketError, moved: nat) {
    k < |outcomes| && outcomes[k] == Breaks(error, moved) && forall i | 0 <= i < k :: outcomes[i] == Works
  }

  lemma SkipSkip(outcomes: seq<Outcome>, m: nat, n: nat)
    ensures Skip(Skip(outcomes, m), n) == Skip(outcomes, m + n) && Skip(outcomes, 0) == outcomes
  {
  }

  lemma WorkOn(outcomes: seq<Outcome>, m: nat, n: nat)
    ensures Work(outcomes, m + n) <==> Work(outcomes, m) && Work(Skip(outcomes, m), n)
  {
    if Work(outcomes, m) && Work(Skip(outcomes, m), n) {
      forall i | 0 <= i < m + n && i < |outcomes| ensures outcomes[i] == Works {
        assert i >= m ==> Skip(outcomes, m)[i - m] == outcomes[i];
      }
    }
  }

  lemma BreaksLater(outcomes: seq<Outcome>, m: nat, k: nat, error: SocketError, moved: nat)
    requires Work(outcomes, m)
    ensures BreaksAt(outcomes, m + k, error, moved) <==> BreaksAt(Skip(outcomes, m), k, error, moved)
  {
    var later := Skip(outcomes, m);
    if BreaksAt(later, k, error, moved) {
      forall i | 0 <= i < m + k ensures outcomes[i] == Works {
        assert i >= m ==> later[i - m] == outcomes[i];
      }
    }
  }

  /** Either the first `n` operations work or one of them is the first to break. */
  lemma {:induction false} WorkOrBreak(outcomes: seq<Outcome>, n: nat) returns (k: nat)
    ensures Work(outcomes, n)
         || (k < n && k < |outcomes| && outcomes[k].Breaks?
             && BreaksAt(outcomes, k, outcomes[k].error, outcomes[k].moved))
  {
    k := 0;
    while k < n && k < |outcomes| && outcomes[k].Works?
      invariant k <= n && k <= |outcomes| && Work(outcomes, k)
    {
      k := k + 1;
    }
  }

  /** What an exchange leaves when operation `k` is the first to break. A broken write has sent
      a proper prefix of the request and read nothing. A broken read has taken less than it was
      to take: of the header's five bytes, or of the bytes after them. */
  function AfterBreak(net: Net, request: seq<byte>, k: nat, moved: nat): Net
    requires k < Operations(request, net.incoming)
  {
    var outcomes := Skip(net.outcomes, k + 1);
    if k < |Written(request)| then
      Net(net.incoming, net.sent + [request[..Min(moved, |request| - 1)]], outcomes)
    else if k == |Written(request)| then
      Net(net.incoming[Min(moved, Min(4, |net.incoming|))..], net.sent + Written(request), outcomes)
    else
      var n := Shift(net.incoming[3], net.incoming[4]);
      Net(net.incoming[5 + Min(moved, Min(n - 1, |net.incoming| - 5))..], net.sent + Written(request), outcomes)
  }

  /** What an exchange leaves when its operations work and the stream ends inside the PDU:
      nothing to read. */
  function AfterEnd(net: Net, request: seq<byte>): Net {
    Net([], net.sent + Written(request), Skip(net.outcomes, Operations(request, net.incoming)))
  }

  /** One of the operations an exchange takes is the first to break. */
  ghost predicate Broken(net: Net, request: seq<byte>, after: Net, error: SocketError) {
    exists k: nat, moved: nat ::
      && k < Operations(request, net.incoming) && BreaksAt(net.outcomes, k, error, moved)
      && after == AfterBreak(net, request, k, moved)
  }

  /** The operations an exchange takes work, and the stream ends inside the PDU that is due. */
  predicate Ended(net: Net, request: seq<byte>, after: Net, error: SocketError) {
    && error == Io && EndsInside(net.incoming) && Work(net.outcomes, Operations(request, net.incoming))
    && after == AfterEnd(net, request)
  }

  /** An exchange cannot be completed, and this is how it ends and what it leaves. */
  ghost predicate Stops(net: Net, request: seq<byte>, after: Net, error: SocketError) {
    Broken(net, request, after, error) || Ended(net, request, after, error)
  }

  lemma WriteWorks(net: Net, data: seq<byte>)
    requires Work(net.outcomes, |Written(data)|)
    ensures Write(net, data)
         == (Net(net.incoming, net.sent + Written(data), Skip(net.outcomes, |Written(data)|)), Success(()))
  {
    assert net.sent + [] == net.sent;
  }

  lemma ReadWorks(net: Net, piece: seq<byte>, rest: seq<byte>)
    requires net.incoming == piece + rest && (piece != [] ==> Work(net.outcomes, 1))
    ensures Read(net, |piece|)
         == (Net(rest, net.sent, Skip(net.outcomes, if piece == [] then 0 else 1)), Success(piece))
  {
    if piece == [] {
      assert piece + rest == rest;
    } else {
      ReadTakes(net, |piece|, piece, rest);
    }
  }

  lemma ReadBreaks(net: Net, n: nat, error: SocketError, moved: nat)
    requires n > 0 && BreaksAt(net.outcomes, 0, error, moved)
    ensures Read(net, n)
         == (Net(net.incoming[Min(moved, Min(n - 1, |net.incoming|))..], net.sent, Skip(net.outcomes, 1)),
             Failure(error))
  {
    var m := Min(moved, Min(n - 1, |net.incoming|));
    assert net.incoming == net.incoming[..m] + net.incoming[m..];
    assert Skip(net.outcomes, 1) == net.outcomes[1..];
    ReadTakes(net, n, net.incoming[..m], net.incoming[m..]);
  }

  /** The header read of an exchange whose write and header read work. */
  lemma HeaderWorks(net: Net, request: seq<byte>)
    requires |net.incoming| >= 5 && Work(net.outcomes, |Written(request)| + 1)
    ensures Work(net.outcomes, |Written(request)|)
    ensures Read(Net(net.incoming, net.sent + Written(request), Skip(net.outcomes, |Written(request)|)), 5)
         == (Net(net.incoming[5..], net.sent + Written(request), Skip(net.outcomes, |Written(request)| + 1)),
             Success(net.incoming[..5]))
  {
    hide Read;
    var w := |Written(request)|;
    WorkOn(net.outcomes, w, 1);
    SkipSkip(net.outcomes, w, 1);
    assert |net.incoming[..5]| == 5 && net.incoming == net.incoming[..5] + net.incoming[5..];
    ReadWorks(Net(net.incoming, net.sent + Written(request), Skip(net.outcomes, w)),
              net.incoming[..5], net.incoming[5..]);
  }

  /** A break in store for an operation that an exchange takes makes it fail with that error. */
  lemma StoredBreakFails(net: Net, request: seq<byte>, k: nat, error: SocketError, moved: nat)
    requires k < |net.outcomes| && k < Operations(request, net.incoming)
    requires net.outcomes[k] == Breaks(error, moved) && forall i | 0 <= i < k :: net.outcomes[i] == Works
    ensures Exchange(net, request) == (AfterBreak(net, request, k, moved), Failure(error))
  {
    hide Read, Skip;
    var w, sent := |Written(request)|, net.sent + Written(request);
    if k >= w {
      assert Work(net.outcomes, w);
      WriteWorks(net, request);
      BreaksLater(net.outcomes, k, 0, error, moved);
      SkipSkip(net.outcomes, k, 1);
      if k == w {
        ReadBreaks(Net(net.incoming, sent, Skip(net.outcomes, w)), 5, error, moved);
      } else {
        HeaderWorks(net, request);
        ReadBreaks(Net(net.incoming[5..], sent, Skip(net.outcomes, w + 1)),
                   Shift(net.incoming[3], net.incoming[4]), error, moved);
        var m := Min(moved, Min(Shift(net.incoming[3], net.incoming[4]) - 1, |net.incoming| - 5));
        assert net.incoming[5..][m..] == net.incoming[5 + m..];
      }
    } else {
      WriteBreaks(net, request, error, moved);
    }
  }

  lemma WriteBreaks(net: Net, data: seq<byte>, error: SocketError, moved: nat)
    requires data != [] && BreaksAt(net.outcomes, 0, error, moved)
    ensures Write(net, data)
         == (Net(net.incoming, net.sent + [data[..Min(moved, |data| - 1)]], Skip(net.outcomes, 1)), Failure(error))
  {
    assert Skip(net.outcomes, 1) == net.outcomes[1..];
  }

  lemma EndFails(net: Net, request: seq<byte>)
    requires EndsInside(net.incoming) && Work(net.outcomes, Operations(request, net.incoming))
    ensures Exchange(net, request) == (AfterEnd(net, request), Failure(Io))
  {
    hide Read, Skip;
    var w, sent := |Written(request)|, net.sent + Written(request);
    if |net.incoming| < 5 {
      WorkOn(net.outcomes, w, 1);
      WriteWorks(net, request);
      ReadEnds(Net(net.incoming, sent, Skip(net.outcomes, w)), 5);
      SkipSkip(net.outcomes, w, 1);
    } else {
      WorkOn(net.outcomes, w + 1, 1);
      HeaderWorks(net, request);
      WriteWorks(net, request);
      ReadEnds(Net(net.incoming[5..], sent, Skip(net.outcomes, w + 1)), Shift(net.incoming[3], net.incoming[4]));
      SkipSkip(net.outcomes, w + 1, 1);
    }
  }

  lemma ReadEnds(net: Net, n: nat)
    requires |net.incoming| < n && Work(net.outcomes, 1)
    ensures Read(net, n) == (Net([], net.sent, Skip(net.outcomes, 1)), Failure(Io))
  {
    ReadTakes(net, n, net.incoming, []);
  }

  /** Where the operations it takes work, an exchange reads a PDU whole, whatever follows it. */
  lemma ExchangeReadsPdu(net: Net, request: seq<byte>, pdu: seq<byte>, rest: seq<byte>)
    requires IsPdu(pdu) && net.incoming == pdu + rest && Work(net.outcomes, Operations(request, pdu))
    ensures Exchange(net, request)
         == (Net(rest, net.sent + Written(request), Skip(net.outcomes, Operations(request, pdu))), Success(pdu))
  {
    hide Read, Skip;
    var w, sent := |Written(request)|, net.sent + Written(request);
    assert net.incoming[..5] == pdu[..5] && net.incoming[5..] == pdu[5..] + rest;
    assert |pdu[5..]| == Shift(pdu[3], pdu[4]);
    WorkOn(net.outcomes, w + 1, if |pdu| > 5 then 1 else 0);
    HeaderWorks(net, request);
    WriteWorks(net, request);
    ReadWorks(Net(net.incoming[5..], sent, Skip(net.outcomes, w + 1)), pdu[5..], rest);
    SkipSkip(net.outcomes, w + 1, if |pdu| > 5 then 1 else 0);
    assert pdu == pdu[..5] + pdu[5..];
  }

  /** An exchange fails if and only if an operation it takes breaks, or they all work and the
      stream ends: with the error of the first break, or `Io`, and leaving exactly what that
      operation left. */
  lemma ExchangeFailsExactly(net: Net, request: seq<byte>, after: Net, error: SocketError)
    ensures Exchange(net, request) == (after, Failure(error)) <==> Stops(net, request, after, error)
  {
    hide Exchange, AfterBreak, AfterEnd, Work;
    var n := Operations(request, net.incoming);
    forall k: nat, moved: nat | k < n && BreaksAt(net.outcomes, k, error, moved)
      ensures Exchange(net, request) == (AfterBreak(net, request, k, moved), Failure(error))
    {
      StoredBreakFails(net, request, k, error, moved);
    }
    var k := WorkOrBreak(net.outcomes, n);
    if !Work(net.outcomes, n) {
      StoredBreakFails(net, request, k, net.outcomes[k].error, net.outcomes[k].moved);
    } else if EndsInside(net.incoming) {
      EndFails(net, request);
    } else {
      var m := 5 + Shift(net.incoming[3], net.incoming[4]);
      ExchangeReadsPdu(net, request, net.incoming[..m], net.incoming[m..]);
      assert net.incoming == net.incoming[..m] + net.incoming[m..];
    }
  }

  /** A successful exchange sends the request whole, returns one PDU and consumes exactly it,
      and every operation it took worked. */
  lemma ExchangeTakesOnePdu(net: Net, request: seq<byte>)
    requires Exchange(net, request).1.Success?
    ensures var (after, r) := Exchange(net, request);
      && IsPdu(r.value) && net.incoming == r.value + after.incoming
      && after.sent == net.sent + Written(request)
      && Operations(request, net.incoming) == Operations(request, r.value)
      && Work(net.outcomes, Operations(request, r.value))
      && after.outcomes == Skip(net.outcomes, Operations(request, r.value))
  {
    hide Exchange, AfterBreak, Work;
    var n := Operations(request, net.incoming);
    var k := WorkOrBreak(net.outcomes, n);
    if !Work(net.outcomes, n) {
      StoredBreakFails(net, request, k, net.outcomes[k].error, net.outcomes[k].moved);
    } else if EndsInside(net.incoming) {
      EndFails(net, request);
    } else {
      var m := 5 + Shift(net.incoming[3], net.incoming[4]);
      assert net.incoming == net.incoming[..m] + net.incoming[m..];
      ExchangeReadsPdu(net, request, net.incoming[..m], net.incoming[m..]);
    }
  }

  /** What operation `i`, a write of `request`, sends of it: all, unless it breaks. */
  function SentPart(request: seq<byte>, outcomes: seq<Outcome>, i: nat): (part: seq<byte>)
    requires request != []
    ensures part <= request
    ensures part == request <==> i < |outcomes| ==> outcomes[i] == Works
  {
    if i < |outcomes| && outcomes[i].Breaks? then request[..Min(outcomes[i].moved, |request| - 1)] else request
  }

  /** A failed exchange has started to send the request: whole if its write worked, and
      otherwise the bytes that write moved, never all. */
  lemma ExchangeFails(net: Net, request: seq<byte>)
    requires request != [] && Exchange(net, request).1.Failure?
    ensures Exchange(net, request).0.sent == net.sent + [SentPart(request, net.outcomes, 0)]
  {
    hide Exchange;
    ExchangeFailsExactly(net, request, Exchange(net, request).0, Exchange(net, request).1.error);
  }

  /** An operation in store breaks with this error. */
  ghost predicate CanBreak(outcomes: seq<Outcome>, error: SocketError) {
    exists moved :: Breaks(error, moved) in outcomes
  }

  /** The error of a failed exchange is that of an operation that broke, or it is `Io` and the
      stream ends inside the PDU that was due. */
  lemma ExchangeFailureHasCause(net: Net, request: seq<byte>)
    requires Exchange(net, request).1.Failure?
    ensures var error := Exchange(net, request).1.error;
      CanBreak(net.outcomes, error) || (error == Io && EndsInside(net.incoming))
  {
    hide Exchange;
    var error := Exchange(net, request).1.error;
    ExchangeFailsExactly(net, request, Exchange(net, request).0, error);
    StopHasCause(net, request, Exchange(net, request).0, error);
  }

  lemma StopHasCause(net: Net, request: seq<byte>, after: Net, error: SocketError)
    requires Stops(net, request, after, error)
    ensures CanBreak(net.outcomes, error) || (error == Io && EndsInside(net.incoming))
  {
    if Broken(net, request, after, error) {
      var k: nat, moved: nat :| k < Operations(request, net.incoming) && BreaksAt(net.outcomes, k, error, moved);
      assert net.outcomes[k] in net.outcomes;
    }
  }

  lemma LaterBreakIsStored(outcomes: seq<Outcome>, n: nat, error: SocketError)
    requires CanBreak(Skip(outcomes, n), error)
    ensures CanBreak(outcomes, error)
  {
    assert forall o | o in Skip(outcomes, n) :: o in outcomes;
  }

  /** Where its operations work and the stream ends inside a PDU, an exchange fails with `Io`
      and leaves nothing to read. */
  lemma ExchangeHitsEnd(net: Net, request: seq<byte>, pdu: seq<byte>)
    requires IsPdu(pdu) && net.incoming < pdu && Work(net.outcomes, Operations(request, net.incoming))
    ensures Exchange(net, request).1 == Failure(Io) && Exchange(net, request).0.incoming == []
  {
    hide Exchange;
    if |net.incoming| >= 5 {
      assert net.incoming[..5] == pdu[..5];
    }
    EndFails(net, request);
  }

  /** One exchange after another, stopping at the first failure. */
  function Exchanges(net: Net, requests: seq<seq<byte>>): (Net, Result<seq<seq<byte>>, SocketError>)
    decreases |requests|
  {
    if requests == [] then (net, Success([]))
    else
      var (net, first) := Exchange(net, requests[0]);
      if first.Failure? then (net, Failure(first.error))
      else
        var (net, others) := Exchanges(net, requests[1..]);
        (net, if others.Failure? then others else Success([first.value] + others.value))
  }

  function AllWritten(requests: seq<seq<byte>>): seq<seq<byte>> {
    if requests == [] then [] else Written(requests[0]) + AllWritten(requests[1..])
  }

  function AllOperations(requests: seq<seq<byte>>, pdus: seq<seq<byte>>): nat
    requires |requests| == |pdus|
  {
    if requests == [] then 0 else Operations(requests[0], pdus[0]) + AllOperations(requests[1..], pdus[1..])
  }

  /** PDUs that arrive run together are returned one by one, and what follows is left alone. */
  lemma {:induction false} PdusAreFramed(net: Net, requests: seq<seq<byte>>, pdus: seq<seq<byte>>, rest: seq<byte>)
    requires |requests| == |pdus| && Work(net.outcomes, AllOperations(requests, pdus))
    requires forall i | 0 <= i < |pdus| :: IsPdu(pdus[i])
    requires net.incoming == Concat(pdus) + rest
    ensures Exchanges(net, requests)
         == (Net(rest, net.sent + AllWritten(requests), Skip(net.outcomes, AllOperations(requests, pdus))),
             Success(pdus))
    decreases |pdus|
  {
    hide Exchange, Operations, Written, Work, Skip;
    if pdus == [] {
      SkipSkip(net.outcomes, 0, 0);
      assert net.sent + [] == net.sent && Concat(pdus) + rest == rest;
    } else {
      var others := Concat(pdus[1..]) + rest;
      var n := Operations(requests[0], pdus[0]);
      assert net.incoming == pdus[0] + others;
      SkipSkip(net.outcomes, n, AllOperations(requests[1..], pdus[1..]));
      WorkOn(net.outcomes, n, AllOperations(requests[1..], pdus[1..]));
      ExchangeReadsPdu(net, requests[0], pdus[0], others);
      var after := Net(others, net.sent + Written(requests[0]), Skip(net.outcomes, n));
      PdusAreFramed(after, requests[1..], pdus[1..], rest);
      assert net.sent + Written(requests[0]) + AllWritten(requests[1..]) == net.sent + AllWritten(requests);
      assert pdus == [pdus[0]] + pdus[1..];
    }
  }
}
