/** The descriptor byte of a data element: a 5-bit type and a 3-bit size index
    (Bluetooth Core Specification, Vol 3, Part B, section 3.2). */
module Descriptor {
  import opened Bytes

  type ElementType = x: int | 0 <= x < 32
  type SizeIndex = x: int | 0 <= x < 8

  datatype ElementSize = Fixed(width: byte) | VarLen8 | VarLen16 | VarLen32

  datatype Descriptor = Descriptor(elementType: ElementType, size: ElementSize)

  function ResolveSize(elementType: ElementType, sizeIndex: SizeIndex): ElementSize {
    match sizeIndex
    case 0 => Fixed(if elementType != 0 then 1 else 0)
    case 1 => Fixed(2)
    case 2 => Fixed(4)
    case 3 => Fixed(8)
    case 4 => Fixed(16)
    case 5 => VarLen8
    case 6 => VarLen16
    case _ => VarLen32
  }

  function ParseDescriptor(input: seq<byte>): Parse<Descriptor> {
    if input == [] then Reject
    else
      var elementType: ElementType := input[0] / 8;
      Ok(input[1..], Descriptor(elementType, ResolveSize(elementType, input[0] % 8)))
  }
}
