/** What reassembled bytes answer, said through the encoding they start with: the search the
    session ends in, pinned apart from the decoder. */
module Answers {
  import opened Bytes
  import opened Element
  import opened WireFormat
  import opened ElementRoundTrip
  import opened Response
  import opened Extract
  import opened Session

  /** The lists answer with the channel of the first one that gives any, or with none where
      none of them does. */
  ghost predicate GivesAnswer(lists: seq<AttributeList>, answer: Option<byte>) {
    if answer.Some? then exists i :: FirstGives(lists, i, answer.value)
    else forall i | 0 <= i < |lists| :: !RecordHasChannel(lists[i])
  }

  /** The bytes start with the encoding `w`. */
  predicate Encoded(bytes: seq<byte>, w: Wire, junk: seq<byte>) {
    WellFormed(w) && bytes == Print(w) + junk
  }

  /** The bytes start with an encoding of lists that answer so. */
  ghost predicate BytesAnswer(bytes: seq<byte>, answer: Option<byte>) {
    exists w, junk, lists ::
      Encoded(bytes, w, junk) && ListsOf(Abstract(w), lists) && GivesAnswer(lists, answer)
  }

  /** The bytes start with no encoding, or with one that holds a record that cannot be paired. */
  ghost predicate Unreadable(bytes: seq<byte>) {
    forall w, junk | Encoded(bytes, w, junk) :: HoldsBadRecord(Abstract(w))
  }

  lemma AnswerIsFirstChannel(lists: seq<AttributeList>, answer: Option<byte>)
    ensures GivesAnswer(lists, answer) <==> answer == FirstChannel(lists)
  {
    FirstChannelMeans(lists);
  }

  /** Whatever follows it, an encoding is interpreted as the search over its lists. A record
      that is no sequence counts as an empty list and hides no other record's channel. */
  lemma TreeIsInterpreted(w: Wire, junk: seq<byte>, lists: seq<AttributeList>)
    requires WellFormed(w) && ListsOf(Abstract(w), lists)
    ensures DecodeAttributeLists(Print(w) + junk) == Ok(junk, lists)
    ensures forall c: byte :: Interpret(Print(w) + junk) == Success(Some(c)) <==> exists i :: FirstGives(lists, i, c)
    ensures Interpret(Print(w) + junk) == Success(None) <==> forall i | 0 <= i < |lists| :: !RecordHasChannel(lists[i])
  {
    hide ParseElement, FirstGives, RecordHasChannel;
    ElementOfPrint(w, junk);
    DecodeMeans(Print(w) + junk, junk, lists);
    FirstChannelMeans(lists);
  }

  /** An encoding of anything but a sequence has no channel. */
  lemma NoSequenceNoChannel(w: Wire, junk: seq<byte>)
    requires WellFormed(w) && !Abstract(w).Sequence?
    ensures Interpret(Print(w) + junk) == Success(None)
  {
    TreeIsInterpreted(w, junk, []);
  }

  /** The bytes are interpreted as an answer if and only if they start with an encoding that
      gives it. */
  lemma InterpretsExactly(bytes: seq<byte>, answer: Option<byte>)
    ensures Interpret(bytes) == Success(answer) <==> BytesAnswer(bytes, answer)
  {
    hide ParseElement, FirstGives, RecordHasChannel, Print, CollectRecords;
    forall w, junk, lists | Encoded(bytes, w, junk) && ListsOf(Abstract(w), lists) && GivesAnswer(lists, answer)
      ensures Interpret(bytes) == Success(answer)
    {
      TreeIsInterpreted(w, junk, lists);
    }
    if Interpret(bytes) == Success(answer) {
      var w := TreeOfElement(bytes);
      var Ok(junk, lists) := DecodeAttributeLists(bytes);
      DecodeMeans(bytes, junk, lists);
      AnswerIsFirstChannel(lists, answer);
      assert Encoded(bytes, w, junk);
    }
  }

  /** Otherwise they are a decode error: if and only if no encoding starts them, or the one
      that does holds a badly paired record. */
  lemma InterpretFailsExactly(bytes: seq<byte>)
    ensures Interpret(bytes) == Failure(DecodeFailed) <==> Unreadable(bytes)
    ensures Interpret(bytes).Failure? ==> Interpret(bytes).error == DecodeFailed
  {
    hide ParseElement, FirstChannel, Print, CollectRecords;
    DecodeFailsExactly(bytes);
    forall w, junk | Encoded(bytes, w, junk) ensures ParseElement(bytes) == Ok(junk, Abstract(w)) {
      ElementOfPrint(w, junk);
    }
    if ParseElement(bytes).Ok? {
      var w := TreeOfElement(bytes);
      assert Encoded(bytes, w, ParseElement(bytes).rest);
    }
  }
}
