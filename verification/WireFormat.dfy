/** Syntax trees of the data element wire format, with the printer the client does not have.
    A tree keeps what decoding forgets: type, size form and uninterpreted payloads. */
module WireFormat {
  import opened Bytes
  import opened Descriptor
  import opened Element

  /** One element on the wire. `Node` is a sequence; `Leaf` is an element of any other type. */
  datatype Wire =
    | Leaf(elementType: ElementType, sizeIndex: SizeIndex, payload: seq<byte>)
    | Node(sizeIndex: SizeIndex, children: seq<Wire>)

  /** Whether size index `sizeIndex` can announce a payload of `n` bytes. */
  predicate SizeFits(elementType: ElementType, sizeIndex: SizeIndex, n: nat) {
    match sizeIndex
    case 0 => n == if elementType == 0 then 0 else 1
    case 1 => n == 2
    case 2 => n == 4
    case 3 => n == 8
    case 4 => n == 16
    case 5 => n < 0x100
    case 6 => n < 0x1_0000
    case _ => n < 0x1_0000_0000
  }

  /** The length field of a size form. A length that does not fit has no field. */
  function PrintLength(sizeIndex: SizeIndex, n: nat): seq<byte> {
    match sizeIndex
    case 5 => if n < 0x100 then [n] else []
    case 6 => if n < 0x1_0000 then PutU16(n) else []
    case 7 => if n < 0x1_0000_0000 then PutU32(n) else []
    case _ => []
  }

  function PrintEnvelope(elementType: ElementType, sizeIndex: SizeIndex, payload: seq<byte>): (s: seq<byte>)
    ensures |s| > |payload|
  {
    [elementType * 8 + sizeIndex] + PrintLength(sizeIndex, |payload|) + payload
  }

  /** The trees that are encodings: sizes fit, integers have a width the client accepts. */
  predicate WellFormed(w: Wire)
    decreases w
  {
    match w
    case Leaf(t, s, payload) =>
      t != SEQUENCE_TYPE && SizeFits(t, s, |payload|) && (t == UINT_TYPE ==> |payload| in {1, 2, 4})
    case Node(s, children) =>
      AllWellFormed(children) && SizeFits(SEQUENCE_TYPE, s, |PrintAll(children)|)
  }

  predicate AllWellFormed(ws: seq<Wire>)
    decreases ws
  {
    ws == [] || (WellFormed(ws[0]) && AllWellFormed(ws[1..]))
  }

  /** The trees whose sizes fit, with integers of any width. */
  predicate Sized(w: Wire)
    decreases w
  {
    match w
    case Leaf(t, s, payload) => t != SEQUENCE_TYPE && SizeFits(t, s, |payload|)
    case Node(s, children) => AllSized(children) && SizeFits(SEQUENCE_TYPE, s, |PrintAll(children)|)
  }

  predicate AllSized(ws: seq<Wire>)
    decreases ws
  {
    ws == [] || (Sized(ws[0]) && AllSized(ws[1..]))
  }

  /** Some integer, at any depth, has a width other than 1, 2 and 4 bytes. */
  predicate HoldsWide(w: Wire)
    decreases w
  {
    match w
    case Leaf(t, _, payload) => t == UINT_TYPE && |payload| !in {1, 2, 4}
    case Node(_, children) => AnyHoldsWide(children)
  }

  predicate AnyHoldsWide(ws: seq<Wire>)
    decreases ws
  {
    ws != [] && (HoldsWide(ws[0]) || AnyHoldsWide(ws[1..]))
  }

  function Print(w: Wire): (s: seq<byte>)
    ensures |s| > 0
    decreases w
  {
    match w
    case Leaf(t, s, payload) => PrintEnvelope(t, s, payload)
    case Node(s, children) => PrintEnvelope(SEQUENCE_TYPE, s, PrintAll(children))
  }

  function PrintAll(ws: seq<Wire>): seq<byte>
    decreases ws
  {
    if ws == [] then [] else Print(ws[0]) + PrintAll(ws[1..])
  }

  /** What a tree means to the client. */
  function Abstract(w: Wire): DataElement
    requires WellFormed(w)
    decreases w
  {
    match w
    case Leaf(t, s, payload) =>
      if t == UINT_TYPE then UintOfBytes(payload)
      else if t == UUID_TYPE && s == 1 then Uuid16(Shift(payload[0], payload[1]))
      else Unknown
    case Node(s, children) => Sequence(AbstractAll(children))
  }

  function UintOfBytes(payload: seq<byte>): DataElement
    requires |payload| in {1, 2, 4}
  {
    BigEndianOfFour(payload);
    UnsignedInt(BigEndian(payload))
  }

  function AbstractAll(ws: seq<Wire>): seq<DataElement>
    requires AllWellFormed(ws)
    decreases ws
  {
    if ws == [] then [] else [Abstract(ws[0])] + AbstractAll(ws[1..])
  }

  lemma SoleTree(w: Wire)
    ensures PrintAll([w]) == Print(w) && AllWellFormed([w]) == WellFormed(w)
    ensures WellFormed(w) ==> AbstractAll([w]) == [Abstract(w)]
  {
    assert [w][1..] == [];
    assert PrintAll([w]) == Print(w) + PrintAll([]);
  }

  lemma PairOfTrees(w1: Wire, w2: Wire)
    ensures PrintAll([w1, w2]) == Print(w1) + Print(w2)
    ensures AllWellFormed([w1, w2]) <==> WellFormed(w1) && WellFormed(w2)
    ensures WellFormed(w1) && WellFormed(w2) ==> AbstractAll([w1, w2]) == [Abstract(w1), Abstract(w2)]
  {
    assert [w1, w2][1..] == [w2];
    SoleTree(w2);
  }
}
