/** Where an answer comes from: a channel the session returns is there in the received bytes. */
module Provenance {
  import opened Bytes
  import opened Element
  import opened WireFormat
  import opened ElementRoundTrip
  import opened Response
  import opened Extract
  import opened Socket
  import opened Session
  import opened SessionRuns
  import opened SessionOutcomes

  ghost predicate Contains(whole: seq<byte>, part: seq<byte>) {
    exists before, after :: whole == before + part + after
  }

  lemma ContainsTransitive(a: seq<byte>, b: seq<byte>, c: seq<byte>)
    requires Contains(a, b) && Contains(b, c)
    ensures Contains(a, c)
  {
    var before, after :| a == before + b + after;
    var before', after' :| b == before' + c + after';
    assert a == before + before' + c + (after' + after);
  }

  lemma {:induction false} ChildIsContained(ws: seq<Wire>, i: nat)
    requires i < |ws| && AllWellFormed(ws)
    ensures WellFormed(ws[i]) && Contains(PrintAll(ws), Print(ws[i]))
    ensures |AbstractAll(ws)| == |ws| && AbstractAll(ws)[i] == Abstract(ws[i])
    decreases i
  {
    hide Print;
    ChildCount(ws);
    if i == 0 {
      assert PrintAll(ws) == [] + Print(ws[0]) + PrintAll(ws[1..]);
    } else {
      ChildIsContained(ws[1..], i - 1);
      var rest := PrintAll(ws[1..]);
      assert PrintAll(ws) == Print(ws[0]) + rest + [];
      assert Contains(PrintAll(ws), rest);
      ContainsTransitive(PrintAll(ws), rest, Print(ws[i]));
    }
  }

  lemma {:induction false} ChildCount(ws: seq<Wire>)
    requires AllWellFormed(ws)
    ensures |AbstractAll(ws)| == |ws|
    decreases ws
  {
    if ws != [] {
      ChildCount(ws[1..]);
    }
  }

  /** Child `i` of a sequence: encoded inside it, and meaning its `i`-th element. */
  lemma ChildOf(w: Wire, i: nat)
    requires WellFormed(w) && Abstract(w).Sequence? && i < |Abstract(w).elements|
    ensures w.Node? && |w.children| == |Abstract(w).elements|
    ensures WellFormed(w.children[i]) && Abstract(w.children[i]) == Abstract(w).elements[i]
    ensures Contains(Print(w), Print(w.children[i]))
  {
    ChildCount(w.children);
    ChildIsContained(w.children, i);
    var body := PrintAll(w.children);
    var n := |Print(w)| - |body|;
    assert Print(w) == Print(w)[..n] + body + [];
    assert Contains(Print(w), body);
    ContainsTransitive(Print(w), body, Print(w.children[i]));
  }

  lemma {:induction false} FlattenAt(attributes: AttributeList, j: nat)
    requires j < |attributes|
    ensures Flatten(attributes)[2 * j] == UnsignedInt(attributes[j].0)
    ensures Flatten(attributes)[2 * j + 1] == attributes[j].1
    decreases j
  {
    if j > 0 {
      FlattenAt(attributes[1..], j - 1);
    }
  }

  /** The bytes of an RFCOMM entry's two fields. */
  predicate IsRfcommPair(fields: seq<Wire>, channel: byte) {
    && |fields| == 2 && AllWellFormed(fields)
    && fields[0] == Leaf(UUID_TYPE, 1, [0x00, 0x03])
    && fields[1].Leaf? && fields[1].elementType == UINT_TYPE && BigEndian(fields[1].payload) == channel
  }

  lemma RfcommEntryBytes(entry: Wire, channel: byte)
    requires WellFormed(entry) && IsRfcommEntry(Abstract(entry), channel)
    ensures entry.Node? && IsRfcommPair(entry.children, channel)
    ensures Contains(Print(entry), [0x19, 0x00, 0x03] + Print(entry.children[1]))
  {
    ChildOf(entry, 0);
    ChildOf(entry, 1);
    var fields := entry.children;
    var uuid := fields[0];
    assert Abstract(uuid) == Uuid16(3) && Abstract(fields[1]) == UnsignedInt(channel);
    assert uuid.payload == [0x00, 0x03];
    assert Print(uuid) == [0x19, 0x00, 0x03];
    assert fields[1..] == [fields[1]];
    SoleTree(fields[1]);
    assert PrintAll(fields) == Print(uuid) + Print(fields[1]);
    var n := |Print(entry)| - |PrintAll(fields)|;
    assert Print(entry) == Print(entry)[..n] + PrintAll(fields) + [];
  }

  /** Record `i`, attribute `j`, entry `k` of an encoded answer hold the channel, under id 4. */
  ghost predicate HoldsChannel(w: Wire, i: nat, j: nat, k: nat, channel: byte) {
    && WellFormed(w) && w.Node? && i < |w.children|
    && var record := w.children[i];
    && record.Node? && 2 * j + 1 < |record.children|
    && var id, value := record.children[2 * j], record.children[2 * j + 1];
    && id.Leaf? && id.elementType == UINT_TYPE && BigEndian(id.payload) == 4
    && value.Node? && k < |value.children|
    && var entry := value.children[k];
    && entry.Node? && IsRfcommPair(entry.children, channel)
    && Contains(Print(w), Print(value))
    && Contains(Print(value), [0x19, 0x00, 0x03] + Print(entry.children[1]))
  }

  lemma AnswerIsHeld(w: Wire, records: seq<AttributeList>, i: nat, j: nat, k: nat, channel: byte)
    requires WellFormed(w) && Abstract(w).Sequence? && CollectRecords(Abstract(w).elements) == Some(records)
    requires i < |records| && AnswersRecord(records[i], j, k, channel)
    ensures HoldsChannel(w, i, j, k, channel)
  {
    hide Print, BigEndian, CollectRecords, Contains;
    RecordsDecodeInOrder(Abstract(w).elements, records);
    assert ListOfRecord(Abstract(w).elements[i], records[i]);
    ChildOf(w, i);
    var record := w.children[i];
    FlattenAt(records[i], j);
    ChildOf(record, 2 * j);
    ChildOf(record, 2 * j + 1);
    var value := record.children[2 * j + 1];
    ChildOf(value, k);
    var entry := value.children[k];
    RfcommEntryBytes(entry, channel);
    ContainsTransitive(Print(w), Print(record), Print(value));
    ContainsTransitive(Print(value), Print(entry), [0x19, 0x00, 0x03] + Print(entry.children[1]));
  }

  /** If the session, on any stream whatever, answers with a channel, then what it read is a
      full answer whose reassembled bytes begin with an encoding that holds this channel: in
      some record, as the value of an attribute with id 4, contiguously the RFCOMM UUID
      `19 00 03` and an integer that denotes the channel. */
  lemma AnswerWasReceived(net: Net, uuid: u16, channel: byte)
    returns (pdus: seq<seq<byte>>, w: Wire, i: nat, j: nat, k: nat)
    ensures RunSession(net, uuid).1 == Success(Some(channel)) ==>
      && Complete(pdus) && net.incoming == Concat(pdus) + RunSession(net, uuid).0.incoming
      && WellFormed(w) && Print(w) <= Blob(PagesOf(pdus))
      && HoldsChannel(w, i, j, k, channel)
  {
    hide FetchPages, Concat, Complete, HoldsChannel, AnswersRecord, ParseElement, Work, BadPage, QueryStops;
    var rest;
    pdus, rest := RunReadsPdus(net, 0, uuid, []);
    w, i, j, k := Node(0, []), 0, 0, 0;
    if RunSession(net, uuid).1 == Success(Some(channel)) {
      var blob := Blob(PagesOf(pdus));
      w := TreeOfElement(blob);
      var records := DecodeAttributeLists(blob).value;
      FirstChannelMeans(records);
      var i' :| FirstGives(records, i', channel);
      var j', k' :| AnswersRecord(records[i'], j', k', channel);
      AnswerHasPosition(records[i'], j', k', channel);
      i, j, k := i', j', k';
      AnswerIsHeld(w, records, i, j, k, channel);
    }
  }

  lemma AnswerHasPosition(record: AttributeList, j: int, k: int, channel: int)
    requires AnswersRecord(record, j, k, channel)
    ensures j >= 0 && k >= 0
  {
  }
}
