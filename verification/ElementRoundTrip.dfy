/** The decoder inverts the printer, in both directions, and what follows from it. */
module ElementRoundTrip {
  import opened Bytes
  import opened Descriptor
  import opened Element
  import opened WireFormat

  // --- From trees to bytes and back -----------------------------------------------------

  lemma LengthOfPrint(t: ElementType, s: SizeIndex, n: nat, rest: seq<byte>)
    requires SizeFits(t, s, n)
    ensures PayloadLen(PrintLength(s, n) + rest, ResolveSize(t, s)) == Ok(rest, n)
  {
    if s == 6 {
      U16RoundTrip(n, rest);
    } else if s == 7 {
      U32RoundTrip(n, rest);
    } else if s == 5 {
      assert ([n] + rest)[1..] == rest;
    } else {
      assert [] + rest == rest;
    }
  }

  lemma DescriptorOfPrint(t: ElementType, s: SizeIndex, rest: seq<byte>)
    ensures ParseDescriptor([t * 8 + s] + rest) == Ok(rest, Descriptor(t, ResolveSize(t, s)))
  {
    var input := [t * 8 + s] + rest;
    assert input[0] / 8 == t && input[0] % 8 == s;
    assert input[1..] == rest;
  }

  lemma EnvelopeOfPrint(t: ElementType, s: SizeIndex, payload: seq<byte>, rest: seq<byte>)
    requires SizeFits(t, s, |payload|)
    ensures ParseEnvelope(PrintEnvelope(t, s, payload) + rest)
         == Ok(rest, (Descriptor(t, ResolveSize(t, s)), payload))
  {
    hide PrintLength, SizeFits, ResolveSize, PayloadLen;
    var tail := PrintLength(s, |payload|) + (payload + rest);
    assert PrintEnvelope(t, s, payload) + rest == [t * 8 + s] + tail;
    DescriptorOfPrint(t, s, tail);
    LengthOfPrint(t, s, |payload|, payload + rest);
    TakeAppended(payload, rest);
  }

  lemma {:induction false} ElementOfPrint(w: Wire, rest: seq<byte>)
    requires WellFormed(w)
    ensures ParseElement(Print(w) + rest) == Ok(rest, Abstract(w))
    decreases w
  {
    match w
    case Leaf(t, s, payload) =>
      EnvelopeOfPrint(t, s, payload, rest);
      BigEndianOfFour(payload);
    case Node(s, children) =>
      EnvelopeOfPrint(SEQUENCE_TYPE, s, PrintAll(children), rest);
      ContentsOfPrint(children);
  }

  lemma {:induction false} ContentsOfPrint(ws: seq<Wire>)
    requires AllWellFormed(ws)
    ensures ParseContents(PrintAll(ws)) == Ok([], AbstractAll(ws))
    decreases ws
  {
    if ws != [] {
      ElementOfPrint(ws[0], PrintAll(ws[1..]));
      ContentsOfPrint(ws[1..]);
    }
  }

  // --- From bytes to trees and back -----------------------------------------------------

  lemma PrintOfLength(t: ElementType, s: SizeIndex, input: seq<byte>)
    requires PayloadLen(input, ResolveSize(t, s)).Ok?
    ensures var Ok(rest, n) := PayloadLen(input, ResolveSize(t, s));
      SizeFits(t, s, n) && PrintLength(s, n) + rest == input
  {
    match s
    case 5 =>
      assert [input[0]] + input[1..] == input;
    case 6 =>
      U16Reprint(input);
      assert PrintLength(s, BeU16(input).value) == PutU16(BeU16(input).value);
    case 7 =>
      U32Reprint(input);
      assert PrintLength(s, BeU32(input).value) == PutU32(BeU32(input).value);
    case _ =>
      assert [] + input == input;
  }

  lemma PrintOfEnvelope(input: seq<byte>) returns (t: ElementType, s: SizeIndex)
    requires ParseEnvelope(input).Ok?
    ensures var Ok(rest, (desc, body)) := ParseEnvelope(input);
      && desc == Descriptor(t, ResolveSize(t, s))
      && SizeFits(t, s, |body|)
      && PrintEnvelope(t, s, body) + rest == input
  {
    hide PrintLength, SizeFits, ResolveSize, PayloadLen;
    t, s := input[0] / 8, input[0] % 8;
    var Ok(rest, (desc, body)) := ParseEnvelope(input);
    PrintOfLength(t, s, input[1..]);
    Reassemble(input[0], PrintLength(s, |body|), body, rest, input);
  }

  lemma Reassemble(first: byte, length: seq<byte>, body: seq<byte>, rest: seq<byte>, input: seq<byte>)
    requires input != [] && input[0] == first && input[1..] == length + (body + rest)
    ensures [first] + length + body + rest == input
  {
    assert [first] + length + body + rest == [first] + (length + (body + rest));
  }

  lemma {:induction false} TreeOfElement(input: seq<byte>) returns (w: Wire)
    requires ParseElement(input).Ok?
    ensures WellFormed(w)
    ensures Print(w) + ParseElement(input).rest == input
    ensures Abstract(w) == ParseElement(input).value
    decreases |input|, 0
  {
    var t, s := PrintOfEnvelope(input);
    var Ok(_, (_, body)) := ParseEnvelope(input);
    if t == SEQUENCE_TYPE {
      var ws := TreesOfContents(body);
      w := Node(s, ws);
    } else {
      w := Leaf(t, s, body);
      BigEndianOfFour(body);
    }
  }

  lemma {:induction false} TreesOfContents(body: seq<byte>) returns (ws: seq<Wire>)
    requires ParseContents(body).Ok?
    ensures AllWellFormed(ws)
    ensures PrintAll(ws) == body
    ensures AbstractAll(ws) == ParseContents(body).value
    decreases |body|, 1
  {
    if body == [] {
      ws := [];
    } else {
      var w := TreeOfElement(body);
      var tail := TreesOfContents(ParseElement(body).rest);
      ws := [w] + tail;
      assert ws[1..] == tail;
    }
  }

  /** The decoder accepts exactly the printed trees, and returns exactly their meaning. */
  lemma AcceptsExactlyEncodings(input: seq<byte>, rest: seq<byte>, e: DataElement)
    ensures ParseElement(input) == Ok(rest, e)
      <==> exists w :: WellFormed(w) && Print(w) + rest == input && Abstract(w) == e
  {
    if ParseElement(input) == Ok(rest, e) {
      var w := TreeOfElement(input);
      assert WellFormed(w) && Print(w) + rest == input && Abstract(w) == e;
    }
    if w :| WellFormed(w) && Print(w) + rest == input && Abstract(w) == e {
      ElementOfPrint(w, rest);
    }
  }

  // --- Locality and unambiguity ---------------------------------------------------------

  /** Bytes after an element never change how it decodes. */
  lemma Locality(x: seq<byte>, y: seq<byte>)
    requires ParseElement(x).Ok?
    ensures ParseElement(x + y) == Ok(ParseElement(x).rest + y, ParseElement(x).value)
  {
    var w := TreeOfElement(x);
    LocalityOfPrint(w, ParseElement(x).rest, y);
  }

  lemma LocalityOfPrint(w: Wire, rest: seq<byte>, more: seq<byte>)
    requires WellFormed(w)
    ensures ParseElement(Print(w) + rest + more) == Ok(rest + more, Abstract(w))
  {
    hide ParseElement, Print;
    assert Print(w) + rest + more == Print(w) + (rest + more);
    ElementOfPrint(w, rest + more);
  }

  /** No input starts with two different encodings. */
  lemma {:induction false} UniqueTree(w1: Wire, rest1: seq<byte>, w2: Wire, rest2: seq<byte>)
    requires WellFormed(w1) && WellFormed(w2)
    requires Print(w1) + rest1 == Print(w2) + rest2
    ensures w1 == w2 && rest1 == rest2
    decreases w1
  {
    var (t1, s1, p1) := Parts(w1);
    var (t2, s2, p2) := Parts(w2);
    EnvelopeOfPrint(t1, s1, p1, rest1);
    EnvelopeOfPrint(t2, s2, p2, rest2);
    assert (Print(w1) + rest1)[0] == t1 * 8 + s1 && (Print(w2) + rest2)[0] == t2 * 8 + s2;
    if w1.Node? {
      UniqueTrees(w1.children, w2.children);
    }
  }

  /** Type, size index and payload of a tree: the envelope it prints. */
  function Parts(w: Wire): (p: (ElementType, SizeIndex, seq<byte>))
    requires WellFormed(w)
    ensures SizeFits(p.0, p.1, |p.2|) && Print(w) == PrintEnvelope(p.0, p.1, p.2)
  {
    match w
    case Leaf(t, s, payload) => (t, s, payload)
    case Node(s, children) => (SEQUENCE_TYPE, s, PrintAll(children))
  }

  lemma {:induction false} UniqueTrees(ws1: seq<Wire>, ws2: seq<Wire>)
    requires AllWellFormed(ws1) && AllWellFormed(ws2)
    requires PrintAll(ws1) == PrintAll(ws2)
    ensures ws1 == ws2
    decreases ws1
  {
    if ws1 != [] && ws2 != [] {
      UniqueTree(ws1[0], PrintAll(ws1[1..]), ws2[0], PrintAll(ws2[1..]));
      UniqueTrees(ws1[1..], ws2[1..]);
      assert ws1 == [ws1[0]] + ws1[1..] && ws2 == [ws2[0]] + ws2[1..];
    }
  }

  /** No encoding is a proper prefix of another. */
  lemma PrefixFree(w1: Wire, w2: Wire)
    requires WellFormed(w1) && WellFormed(w2)
    requires Print(w1) <= Print(w2)
    ensures w1 == w2
  {
    UniqueTree(w1, Print(w2)[|Print(w1)|..], w2, []);
  }

  /** An element cut short anywhere is rejected. */
  lemma TruncatedElementRejected(x: seq<byte>, n: nat)
    requires ParseElement(x).Ok?
    requires n < |x| - |ParseElement(x).rest|
    ensures ParseElement(x[..n]).Reject?
  {
    if ParseElement(x[..n]).Ok? {
      assert x[..n] + x[n..] == x;
      Locality(x[..n], x[n..]);
    }
  }

  // --- Walking a sequence body ----------------------------------------------------------

  lemma ConcatAssociates(a: seq<DataElement>, b: seq<DataElement>, tail: Parse<seq<DataElement>>)
    ensures Prepend(a + b, tail) == Prepend(a, Prepend(b, tail))
  {
    if tail.Ok? {
      assert a + b + tail.value == a + (b + tail.value);
    }
  }

  /** Decoding a concatenation is concatenating the decodings. */
  lemma {:induction false} ContentsHomomorphism(a: seq<byte>, b: seq<byte>)
    requires ParseContents(a).Ok?
    ensures ParseContents(a + b) == Prepend(ParseContents(a).value, ParseContents(b))
    decreases |a|
  {
    if a == [] {
      assert a + b == b;
      assert ParseContents(b).Ok? ==> [] + ParseContents(b).value == ParseContents(b).value;
    } else {
      var Ok(r, e) := ParseElement(a);
      Locality(a, b);
      ContentsHomomorphism(r, b);
      ConcatAssociates([e], ParseContents(r).value, ParseContents(b));
    }
  }

  /** An element the client does not interpret is stepped over: its siblings decode as they
      would around any other such element, and the body is rejected only on account of `b`. */
  lemma UnknownIsSkipped(a: seq<byte>, u: seq<byte>, b: seq<byte>)
    requires ParseContents(a).Ok?
    requires ParseElement(u) == Ok([], Unknown)
    ensures ParseContents(a + u + b) == Prepend(ParseContents(a).value + [Unknown], ParseContents(b))
  {
    assert ParseContents([]) == Ok([], []);
    assert ParseContents(u).value == [Unknown];
    ContentsHomomorphism(a, u);
    ContentsHomomorphism(a + u, b);
  }

  /** A body is rejected as soon as one of its elements is, wherever it stands. */
  lemma BadElementRejectsBody(a: seq<byte>, u: seq<byte>, b: seq<byte>)
    requires ParseContents(a).Ok?
    requires u != [] && ParseElement(u + b).Reject?
    ensures ParseContents(a + u + b).Reject?
  {
    assert a + u + b == a + (u + b);
    ContentsHomomorphism(a, u + b);
  }

  /** Types the client does not interpret are documented to be stepped over. Integers are the
      exception: a non-sequence element is accepted exactly when it is no integer or an
      integer of 1, 2 or 4 bytes, whatever its payload. */
  lemma LeafAcceptedExactly(t: ElementType, s: SizeIndex, payload: seq<byte>, rest: seq<byte>)
    requires t != SEQUENCE_TYPE && SizeFits(t, s, |payload|)
    ensures ParseElement(PrintEnvelope(t, s, payload) + rest).Ok?
       <==> t != UINT_TYPE || |payload| in {1, 2, 4}
  {
    EnvelopeOfPrint(t, s, payload, rest);
  }

  /** Integers of other widths are the only reason to reject bytes whose sizes are right: a tree
      is accepted if and only if it holds no such integer, at any depth. */
  lemma {:induction false} WideIntegerRejected(w: Wire, rest: seq<byte>)
    requires Sized(w)
    ensures ParseElement(Print(w) + rest).Ok? <==> !HoldsWide(w)
    ensures ParseElement(Print(w) + rest).Ok? ==> ParseElement(Print(w) + rest).rest == rest
    decreases w
  {
    match w
    case Leaf(t, s, payload) =>
      EnvelopeOfPrint(t, s, payload, rest);
    case Node(s, children) =>
      EnvelopeOfPrint(SEQUENCE_TYPE, s, PrintAll(children), rest);
      WideIntegersRejected(children);
  }

  lemma {:induction false} WideIntegersRejected(ws: seq<Wire>)
    requires AllSized(ws)
    ensures ParseContents(PrintAll(ws)).Ok? <==> !AnyHoldsWide(ws)
    decreases ws
  {
    if ws != [] {
      WideIntegerRejected(ws[0], PrintAll(ws[1..]));
      WideIntegersRejected(ws[1..]);
    }
  }

  /** For one, the 64-bit integer 1. */
  lemma SixtyFourBitOneRejected()
    ensures ParseElement([0x0b, 0, 0, 0, 0, 0, 0, 0, 1]).Reject?
  {
    var payload := [0, 0, 0, 0, 0, 0, 0, 1];
    LeafAcceptedExactly(UINT_TYPE, 3, payload, []);
    assert PrintEnvelope(UINT_TYPE, 3, payload) + [] == [0x0b, 0, 0, 0, 0, 0, 0, 0, 1];
  }

  // --- Size forms -----------------------------------------------------------------------

  /** Two trees of the same shape, types and payloads: only their size forms may differ. */
  predicate SameButForms(w1: Wire, w2: Wire)
    decreases w1
  {
    match (w1, w2)
    case (Leaf(t1, _, p1), Leaf(t2, _, p2)) => t1 == t2 && p1 == p2
    case (Node(_, c1), Node(_, c2)) => AllSameButForms(c1, c2)
    case _ => false
  }

  predicate AllSameButForms(ws1: seq<Wire>, ws2: seq<Wire>)
    decreases ws1
  {
    |ws1| == |ws2| && (ws1 == [] || (SameButForms(ws1[0], ws2[0]) && AllSameButForms(ws1[1..], ws2[1..])))
  }

  /** Two such trees where, besides, the two-byte fixed form of a UUID, by which alone a 16-bit
      UUID is recognised, is kept and not taken up. Every other header may be respelled. */
  predicate Respelled(w1: Wire, w2: Wire)
    decreases w1
  {
    match (w1, w2)
    case (Leaf(t1, s1, p1), Leaf(t2, s2, p2)) =>
      t1 == t2 && p1 == p2 && (t1 == UUID_TYPE ==> (s1 == 1 <==> s2 == 1))
    case (Node(_, c1), Node(_, c2)) => AllRespelled(c1, c2)
    case _ => false
  }

  predicate AllRespelled(ws1: seq<Wire>, ws2: seq<Wire>)
    decreases ws1
  {
    |ws1| == |ws2| && (ws1 == [] || (Respelled(ws1[0], ws2[0]) && AllRespelled(ws1[1..], ws2[1..])))
  }

  lemma {:induction false} RespellingKeepsMeaning(w1: Wire, w2: Wire)
    requires WellFormed(w1) && WellFormed(w2) && Respelled(w1, w2)
    ensures Abstract(w1) == Abstract(w2)
    decreases w1
  {
    if w1.Node? {
      RespellingKeepsMeanings(w1.children, w2.children);
    }
  }

  lemma {:induction false} RespellingKeepsMeanings(ws1: seq<Wire>, ws2: seq<Wire>)
    requires AllWellFormed(ws1) && AllWellFormed(ws2) && AllRespelled(ws1, ws2)
    ensures AbstractAll(ws1) == AbstractAll(ws2)
    decreases ws1
  {
    if ws1 != [] {
      RespellingKeepsMeaning(ws1[0], ws2[0]);
      RespellingKeepsMeanings(ws1[1..], ws2[1..]);
    }
  }

  /** And no other respelling keeps the meaning. */
  lemma {:induction false} RespellingMeansExactly(w1: Wire, w2: Wire)
    requires WellFormed(w1) && WellFormed(w2) && SameButForms(w1, w2)
    ensures Abstract(w1) == Abstract(w2) <==> Respelled(w1, w2)
    decreases w1
  {
    if w1.Node? {
      RespellingsMeanExactly(w1.children, w2.children);
    }
  }

  lemma {:induction false} RespellingsMeanExactly(ws1: seq<Wire>, ws2: seq<Wire>)
    requires AllWellFormed(ws1) && AllWellFormed(ws2) && AllSameButForms(ws1, ws2)
    ensures AbstractAll(ws1) == AbstractAll(ws2) <==> AllRespelled(ws1, ws2)
    decreases ws1
  {
    if ws1 != [] {
      RespellingMeansExactly(ws1[0], ws2[0]);
      RespellingsMeanExactly(ws1[1..], ws2[1..]);
      assert AbstractAll(ws1)[0] == Abstract(ws1[0]) && AbstractAll(ws1)[1..] == AbstractAll(ws1[1..]);
      assert AbstractAll(ws2)[0] == Abstract(ws2[0]) && AbstractAll(ws2)[1..] == AbstractAll(ws2[1..]);
    }
  }

  // --- Resource bounds ------------------------------------------------------------------

  function NodeCount(e: DataElement): nat
    decreases e
  {
    if e.Sequence? then 1 + NodeCounts(e.elements) else 1
  }

  function NodeCounts(es: seq<DataElement>): nat
    decreases es
  {
    if es == [] then 0 else NodeCount(es[0]) + NodeCounts(es[1..])
  }

  function Depth(e: DataElement): nat
    decreases e
  {
    if e.Sequence? then 1 + Depths(e.elements) else 1
  }

  function Depths(es: seq<DataElement>): nat
    decreases es
  {
    if es == [] then 0
    else
      var first, others := Depth(es[0]), Depths(es[1..]);
      if first < others then others else first
  }

  /** Every integer anywhere in the element is below 2^32. */
  predicate Narrow(e: DataElement)
    decreases e
  {
    (e.UnsignedInt? ==> e.number < 0x1_0000_0000) && (e.Sequence? ==> AllNarrow(e.elements))
  }

  predicate AllNarrow(es: seq<DataElement>)
    decreases es
  {
    es == [] || (Narrow(es[0]) && AllNarrow(es[1..]))
  }

  /** The decoded tree is no larger than what was read: one byte at least per node and per
      level, and what is left is a proper suffix of the input. */
  lemma {:induction false} ElementBounds(input: seq<byte>)
    requires ParseElement(input).Ok?
    ensures var Ok(rest, e) := ParseElement(input);
      && |rest| < |input| && rest == input[|input| - |rest|..]
      && Depth(e) <= NodeCount(e) <= |input| - |rest|
      && Narrow(e)
    decreases |input|, 0
  {
    var t, s := PrintOfEnvelope(input);
    var Ok(rest, (desc, body)) := ParseEnvelope(input);
    if t == SEQUENCE_TYPE {
      ContentsBounds(body);
    }
  }

  lemma {:induction false} ContentsBounds(body: seq<byte>)
    requires ParseContents(body).Ok?
    ensures var es := ParseContents(body).value;
      Depths(es) <= NodeCounts(es) <= |body| && AllNarrow(es)
    decreases |body|, 1
  {
    if body != [] {
      ElementBounds(body);
      ContentsBounds(ParseElement(body).rest);
      var Ok(rest, e) := ParseElement(body);
      var es := ParseContents(body).value;
      assert es[1..] == ParseContents(rest).value;
    }
  }

  // --- Every element can be written -----------------------------------------------------

  /** The shortest header of a sequence: no length field where a fixed size fits the body. */
  function ShortForm(n: nat): SizeIndex {
    match n
    case 1 => 0
    case 2 => 1
    case 4 => 2
    case 8 => 3
    case 16 => 4
    case _ => if n < 0x100 then 5 else if n < 0x1_0000 then 6 else 7
  }

  /** The shortest way to write an element; `Unknown` is written as Nil. */
  function Spell(e: DataElement): Wire
    requires Narrow(e)
    decreases e
  {
    match e
    case UnsignedInt(n) =>
      if n < 0x100 then Leaf(UINT_TYPE, 0, [n])
      else if n < 0x1_0000 then Leaf(UINT_TYPE, 1, PutU16(n))
      else Leaf(UINT_TYPE, 2, PutU32(n))
    case Uuid16(u) => Leaf(UUID_TYPE, 1, PutU16(u))
    case Sequence(es) => Node(ShortForm(|PrintAll(SpellAll(es))|), SpellAll(es))
    case Unknown => Leaf(0, 0, [])
  }

  function SpellAll(es: seq<DataElement>): seq<Wire>
    requires AllNarrow(es)
    decreases es
  {
    if es == [] then [] else [Spell(es[0])] + SpellAll(es[1..])
  }

  /** The element can be written: its integers are below 2^32, and its body, written as
      shortly as can be, fits a 32-bit length. */
  predicate Writable(e: DataElement) {
    Narrow(e) && (e.Sequence? ==> |PrintAll(SpellAll(e.elements))| < 0x1_0000_0000)
  }

  lemma {:induction false} SpellingMeans(e: DataElement)
    requires Writable(e)
    ensures WellFormed(Spell(e)) && Abstract(Spell(e)) == e
    decreases e, 1
  {
    match e
    case UnsignedInt(n) =>
      BigEndianOfFour([n % 0x100]);
      if 0x100 <= n < 0x1_0000 {
        U16RoundTrip(n, []);
        assert PutU16(n) + [] == PutU16(n);
        BigEndianOfFour(PutU16(n));
      } else if n >= 0x1_0000 {
        BigEndianOfU32(n);
      }
    case Uuid16(u) =>
    case Sequence(es) => SpellingsMean(es);
    case Unknown =>
  }

  lemma {:induction false} SpellingsMean(es: seq<DataElement>)
    requires AllNarrow(es) && |PrintAll(SpellAll(es))| < 0x1_0000_0000
    ensures AllWellFormed(SpellAll(es)) && AbstractAll(SpellAll(es)) == es
    decreases es, 0
  {
    if es != [] {
      SpellingMeans(es[0]);
      SpellingsMean(es[1..]);
    }
  }

  /** No encoding of an element is shorter than its spelling. */
  lemma {:induction false} SpellingIsShortest(w: Wire)
    requires WellFormed(w)
    ensures Writable(Abstract(w)) && |Print(Spell(Abstract(w)))| <= |Print(w)|
    decreases w
  {
    match w
    case Leaf(t, s, payload) =>
      BigEndianOfFour(payload);
    case Node(s, children) =>
      SpellingsAreShortest(children);
      ShortFormIsShortest(s, |PrintAll(children)|, |PrintAll(SpellAll(AbstractAll(children)))|);
  }

  lemma {:induction false} SpellingsAreShortest(ws: seq<Wire>)
    requires AllWellFormed(ws)
    ensures AllNarrow(AbstractAll(ws)) && |PrintAll(SpellAll(AbstractAll(ws)))| <= |PrintAll(ws)|
    decreases ws
  {
    if ws != [] {
      SpellingIsShortest(ws[0]);
      SpellingsAreShortest(ws[1..]);
    }
  }

  lemma ShortFormIsShortest(s: SizeIndex, n: nat, m: nat)
    requires SizeFits(SEQUENCE_TYPE, s, n) && m <= n
    ensures SizeFits(SEQUENCE_TYPE, ShortForm(m), m)
    ensures |PrintLength(ShortForm(m), m)| + m <= |PrintLength(s, n)| + n
  {
  }

  /** Exactly the writable elements have an encoding: they are what the decoder can return. */
  lemma EncodableExactly(e: DataElement)
    ensures (exists w :: WellFormed(w) && Abstract(w) == e) <==> Writable(e)
  {
    if w :| WellFormed(w) && Abstract(w) == e {
      SpellingIsShortest(w);
    }
    if Writable(e) {
      SpellingMeans(e);
    }
  }
}
