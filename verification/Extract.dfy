/** The RFCOMM channel of a service record, and of the first record that has one. */
module Extract {
  import opened Bytes
  import opened Element
  import opened Response

  const PROTOCOL_DESCRIPTOR_LIST_ATTR_ID: u16 := 0x0004
  const RFCOMM_UUID: u16 := 0x0003

  function FindAttribute(attributes: AttributeList, id: u16): Option<DataElement> {
    if attributes == [] then None
    else if attributes[0].0 == id then Some(attributes[0].1)
    else FindAttribute(attributes[1..], id)
  }

  function EntryChannel(entry: DataElement): Option<byte> {
    if entry.Sequence? then
      var fields := entry.elements;
      if |fields| == 2 && fields[0] == Uuid16(RFCOMM_UUID) && fields[1].UnsignedInt? then
        if fields[1].number < 0x100 then Some(fields[1].number) else None
      else None
    else None
  }

  function StackChannel(stack: seq<DataElement>): Option<byte> {
    if stack == [] then None
    else
      var first := EntryChannel(stack[0]);
      if first.Some? then first else StackChannel(stack[1..])
  }

  function RfcommChannel(attributes: AttributeList): Option<byte> {
    var found := FindAttribute(attributes, PROTOCOL_DESCRIPTOR_LIST_ATTR_ID);
    if found.Some? && found.value.Sequence? then StackChannel(found.value.elements) else None
  }

  function FirstChannel(lists: seq<AttributeList>): Option<byte> {
    if lists == [] then None
    else
      var first := RfcommChannel(lists[0]);
      if first.Some? then first else FirstChannel(lists[1..])
  }

  // --- What the search means ------------------------------------------------------------

  /** A protocol stack entry naming RFCOMM with a channel that fits a byte. */
  ghost predicate IsRfcommEntry(entry: DataElement, channel: int) {
    0 <= channel <= 0xff && entry == Sequence([Uuid16(3), UnsignedInt(channel)])
  }

  ghost predicate NamesRfcomm(entry: DataElement) {
    exists channel :: IsRfcommEntry(entry, channel)
  }

  /** Position `j` holds the record's first attribute with id 4, and that is a sequence. */
  ghost predicate FirstProtocolList(record: AttributeList, j: int) {
    && 0 <= j < |record| && record[j].0 == 4 && record[j].1.Sequence?
    && forall m | 0 <= m < j :: record[m].0 != 4
  }

  /** Entry `k` of attribute `j` is the record's first RFCOMM entry, and gives `channel`. */
  ghost predicate AnswersRecord(record: AttributeList, j: int, k: int, channel: int) {
    && FirstProtocolList(record, j)
    && 0 <= k < |record[j].1.elements|
    && IsRfcommEntry(record[j].1.elements[k], channel)
    && forall m | 0 <= m < k :: !NamesRfcomm(record[j].1.elements[m])
  }

  ghost predicate RecordGives(record: AttributeList, channel: int) {
    exists j, k :: AnswersRecord(record, j, k, channel)
  }

  ghost predicate RecordHasChannel(record: AttributeList) {
    exists channel :: RecordGives(record, channel)
  }

  /** Record `i` gives `channel`, and no earlier record gives any. */
  ghost predicate FirstGives(records: seq<AttributeList>, i: int, channel: int) {
    && 0 <= i < |records| && RecordGives(records[i], channel)
    && forall m | 0 <= m < i :: !RecordHasChannel(records[m])
  }

  lemma EntryChannelMeans(entry: DataElement)
    ensures EntryChannel(entry).Some? ==> IsRfcommEntry(entry, EntryChannel(entry).value)
    ensures EntryChannel(entry).None? ==> !NamesRfcomm(entry)
  {
    if EntryChannel(entry).Some? {
      assert entry.elements == [Uuid16(RFCOMM_UUID), UnsignedInt(EntryChannel(entry).value)];
    }
  }

  lemma {:induction false} StackChannelMeans(stack: seq<DataElement>) returns (k: int)
    ensures StackChannel(stack).Some? ==>
      && 0 <= k < |stack| && IsRfcommEntry(stack[k], StackChannel(stack).value)
      && forall m | 0 <= m < k :: !NamesRfcomm(stack[m])
    ensures StackChannel(stack).None? ==> forall m | 0 <= m < |stack| :: !NamesRfcomm(stack[m])
    decreases |stack|
  {
    k := 0;
    if stack != [] {
      EntryChannelMeans(stack[0]);
      if EntryChannel(stack[0]).None? {
        var k' := StackChannelMeans(stack[1..]);
        k := k' + 1;
        assert forall m | 0 < m < |stack| :: stack[m] == stack[1..][m - 1];
      }
    }
  }

  lemma {:induction false} FindAttributeMeans(record: AttributeList, id: u16) returns (j: int)
    ensures FindAttribute(record, id).Some? ==>
      && 0 <= j < |record| && record[j] == (id, FindAttribute(record, id).value)
      && forall m | 0 <= m < j :: record[m].0 != id
    ensures FindAttribute(record, id).None? ==> forall m | 0 <= m < |record| :: record[m].0 != id
    decreases |record|
  {
    j := 0;
    if record != [] && record[0].0 != id {
      var j' := FindAttributeMeans(record[1..], id);
      j := j' + 1;
      assert forall m | 0 < m < |record| :: record[m] == record[1..][m - 1];
    }
  }

  lemma AnswerIsUnique(record: AttributeList, j: int, k: int, c: int, j': int, k': int, c': int)
    requires AnswersRecord(record, j, k, c) && AnswersRecord(record, j', k', c')
    ensures j == j' && k == k' && c == c'
  {
    assert NamesRfcomm(record[j].1.elements[k]) && NamesRfcomm(record[j'].1.elements[k']);
  }

  /** A record's channel is its first RFCOMM entry, in its first ProtocolDescriptorList. */
  lemma RecordChannelMeans(record: AttributeList)
    ensures forall channel :: RfcommChannel(record) == Some(channel) <==> RecordGives(record, channel)
    ensures RfcommChannel(record).None? <==> !RecordHasChannel(record)
  {
    var j := FindAttributeMeans(record, PROTOCOL_DESCRIPTOR_LIST_ATTR_ID);
    var found := FindAttribute(record, PROTOCOL_DESCRIPTOR_LIST_ATTR_ID);
    if RfcommChannel(record).Some? {
      var c := RfcommChannel(record).value;
      var k := StackChannelMeans(found.value.elements);
      assert AnswersRecord(record, j, k, c);
      forall j', k', c' | AnswersRecord(record, j', k', c') ensures c' == c {
        AnswerIsUnique(record, j, k, c, j', k', c');
      }
      assert RecordGives(record, c);
    } else {
      forall j', k', c' | AnswersRecord(record, j', k', c') ensures false {
        assert j' == j;
        var k := StackChannelMeans(found.value.elements);
        assert NamesRfcomm(found.value.elements[k']);
      }
    }
  }

  /** The answer comes from the lowest-indexed record that has one, and there is none
      exactly when no record has one. */
  lemma {:induction false} FirstChannelMeans(records: seq<AttributeList>)
    ensures forall channel ::
      FirstChannel(records) == Some(channel) <==> exists i :: FirstGives(records, i, channel)
    ensures FirstChannel(records).None? <==> forall i | 0 <= i < |records| :: !RecordHasChannel(records[i])
    decreases |records|
  {
    if records != [] {
      var tail := records[1..];
      RecordChannelMeans(records[0]);
      FirstChannelMeans(tail);
      if RfcommChannel(records[0]).Some? {
        assert FirstGives(records, 0, RfcommChannel(records[0]).value);
        assert RecordHasChannel(records[0]);
      } else {
        forall channel, i ensures FirstGives(records, i + 1, channel) <==> FirstGives(tail, i, channel) {
          ShiftedAnswer(records, i, channel);
        }
        forall channel, i | FirstGives(records, i, channel) ensures FirstGives(tail, i - 1, channel) {
          ShiftedAnswer(records, i - 1, channel);
        }
        assert forall i | 0 < i < |records| :: records[i] == tail[i - 1];
      }
    }
  }

  lemma ShiftedAnswer(records: seq<AttributeList>, i: int, channel: int)
    requires records != [] && !RecordHasChannel(records[0])
    ensures FirstGives(records, i + 1, channel) <==> FirstGives(records[1..], i, channel)
  {
    var tail := records[1..];
    assert i == -1 && FirstGives(records, 0, channel) ==> RecordHasChannel(records[0]);
    assert forall m | 0 <= m < |tail| :: tail[m] == records[m + 1];
    if FirstGives(tail, i, channel) {
      forall m | 0 <= m < i + 1 ensures !RecordHasChannel(records[m]) {
        assert m > 0 ==> !RecordHasChannel(tail[m - 1]);
      }
    }
  }

  // --- Against the documentation --------------------------------------------------------

  /** The session is documented to return the channel of the first matching record. It does
      exactly when that record has a channel, or no other record has one either. */
  lemma FirstRecordAnswersExactly(records: seq<AttributeList>)
    requires records != []
    ensures FirstChannel(records) == RfcommChannel(records[0])
       <==> RecordHasChannel(records[0]) || forall i | 0 < i < |records| :: !RecordHasChannel(records[i])
  {
    RecordChannelMeans(records[0]);
    FirstChannelMeans(records[1..]);
    assert forall i | 0 < i < |records| :: records[i] == records[1..][i - 1];
    assert forall i | 0 <= i < |records| - 1 :: records[1..][i] == records[i + 1];
  }

  /** It does not in general: here the first record has no channel and the second answers. */
  lemma LaterRecordAnswers() returns (records: seq<AttributeList>)
    ensures records == [[], [(4, Sequence([Sequence([Uuid16(3), UnsignedInt(13)])]))]]
    ensures RfcommChannel(records[0]) == None && FirstChannel(records) == Some(13)
  {
    var entry := Sequence([Uuid16(RFCOMM_UUID), UnsignedInt(13)]);
    var record: AttributeList := [(PROTOCOL_DESCRIPTOR_LIST_ATTR_ID, Sequence([entry]))];
    records := [[], record];
    assert StackChannel([entry]) == Some(13);
    assert RfcommChannel(record) == Some(13);
    assert records[1..] == [record];
  }
}
