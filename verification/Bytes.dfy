/** Machine integers, parse results and the big-endian byte primitives that every
    layer of the client shares. */
module Bytes {
  type byte = x: int | 0 <= x < 0x100
  type u16 = x: int | 0 <= x < 0x1_0000
  type u32 = x: int | 0 <= x < 0x1_0000_0000
  type u128 = x: int | 0 <= x < 0x1_0000_0000_0000_0000_0000_0000_0000_0000

  datatype Option<+T> = None | Some(value: T)

  datatype Result<+T, +E> = Success(value: T) | Failure(error: E)

  /** The outcome of a parser: the unread input and a value, or a rejection.
      Every reason for rejecting is the same value here. */
  datatype Parse<+T> = Ok(rest: seq<byte>, value: T) | Reject {
    predicate IsFailure() { Reject? }
    function PropagateFailure<U>(): Parse<U> requires Reject? { Reject }
    function Extract(): (seq<byte>, T) requires Ok? { (rest, value) }
  }

  /** A number extended on the right by one more byte. */
  function Shift(high: nat, low: byte): nat {
    high * 0x100 + low
  }

  function BeU8(input: seq<byte>): Parse<byte> {
    if |input| < 1 then Reject else Ok(input[1..], input[0])
  }

  function BeU16(input: seq<byte>): Parse<u16> {
    if |input| < 2 then Reject else Ok(input[2..], Shift(input[0], input[1]))
  }

  function BeU32(input: seq<byte>): Parse<u32> {
    if |input| < 4 then Reject
    else Ok(input[4..], Shift(input[0], input[1]) * 0x1_0000 + Shift(input[2], input[3]))
  }

  function Take(n: nat, input: seq<byte>): Parse<seq<byte>> {
    if |input| < n then Reject else Ok(input[n..], input[..n])
  }

  function PutU16(v: u16): (s: seq<byte>)
    ensures |s| == 2
  {
    [v / 0x100, v % 0x100]
  }

  function PutU32(v: u32): (s: seq<byte>)
    ensures |s| == 4
  {
    PutU16(v / 0x1_0000) + PutU16(v % 0x1_0000)
  }

  /** The number a byte string denotes in big-endian order, at any width. */
  function BigEndian(s: seq<byte>): nat {
    if s == [] then 0 else Shift(BigEndian(s[..|s| - 1]), s[|s| - 1])
  }

  lemma BigEndianOfFour(s: seq<byte>)
    ensures |s| == 1 ==> BigEndian(s) == s[0]
    ensures |s| == 2 ==> BigEndian(s) == Shift(s[0], s[1])
    ensures |s| == 4 ==> BigEndian(s) == Shift(Shift(Shift(s[0], s[1]), s[2]), s[3])
  {
    if |s| == 1 {
      assert s[..0] == [];
    } else if |s| == 2 {
      assert s[..1][..0] == [];
    } else if |s| == 4 {
      assert s[..3][..2] == s[..2] && s[..2][..1] == s[..1] && s[..1][..0] == [];
    }
  }

  lemma U16RoundTrip(v: u16, rest: seq<byte>)
    ensures BeU16(PutU16(v) + rest) == Ok(rest, v)
  {
    assert (PutU16(v) + rest)[2..] == rest;
  }

  lemma U16Reprint(input: seq<byte>)
    requires BeU16(input).Ok?
    ensures PutU16(BeU16(input).value) + BeU16(input).rest == input
  {
    PutPair(input[0], input[1]);
    assert input == [input[0], input[1]] + input[2..];
  }

  lemma PutPair(high: byte, low: byte)
    ensures PutU16(Shift(high, low)) == [high, low]
  {
  }

  lemma Halves(high: u16, low: u16)
    ensures (high * 0x1_0000 + low) / 0x1_0000 == high && (high * 0x1_0000 + low) % 0x1_0000 == low
  {
  }

  lemma U32RoundTrip(v: u32, rest: seq<byte>)
    ensures BeU32(PutU32(v) + rest) == Ok(rest, v)
  {
    hide PutU16;
    var high, low := v / 0x1_0000, v % 0x1_0000;
    U16RoundTrip(high, []);
    U16RoundTrip(low, []);
    assert PutU16(high) + [] == PutU16(high) && PutU16(low) + [] == PutU16(low);
    assert (PutU32(v) + rest)[4..] == rest;
  }

  lemma U32Reprint(input: seq<byte>)
    requires BeU32(input).Ok?
    ensures PutU32(BeU32(input).value) + BeU32(input).rest == input
  {
    hide PutU16;
    PutPair(input[0], input[1]);
    PutPair(input[2], input[3]);
    Halves(Shift(input[0], input[1]), Shift(input[2], input[3]));
    assert input == [input[0], input[1]] + [input[2], input[3]] + input[4..];
  }

  lemma BigEndianOfU32(v: u32)
    ensures BigEndian(PutU32(v)) == v
  {
    U32RoundTrip(v, []);
    assert PutU32(v) + [] == PutU32(v);
    BigEndianOfFour(PutU32(v));
  }

  lemma TakeAppended(body: seq<byte>, rest: seq<byte>)
    ensures Take(|body|, body + rest) == Ok(rest, body)
  {
  }
}
