/** One element of each value type as little-endian bytes: the byteorder
    reads and writes every decoder and the writer perform. Integers are
    two's complement; float values are their bit patterns. */
module Elements {
  import opened Bytes
  import opened Header

  predicate IsSigned(vt: ValueType)
  {
    vt == I8 || vt == I16 || vt == I32
  }

  /** 256 to the power of the element size: the number of bit patterns. */
  function Modulus(vt: ValueType): nat
  {
    match vt
    case U8 | I8 => 0x100
    case U16 | I16 => 0x1_0000
    case U32 | I32 | F32 => 0x1_0000_0000
    case F64 => 0x1_0000_0000_0000_0000
  }

  lemma {:induction false} ModulusIsPow(vt: ValueType)
    ensures Modulus(vt) == Pow256(Size(vt))
  {
    Pow256Values();
  }

  /** The values the Rust element type holds (floats as bit patterns). */
  predicate InRange(vt: ValueType, v: int)
  {
    var m := Modulus(vt);
    if IsSigned(vt) then -(m as int) <= 2 * v < m else 0 <= v < m
  }

  lemma {:induction false} InRangeBounds(vt: ValueType, v: int)
    ensures InRange(vt, v) <==>
      match vt
      case U8 => 0 <= v < 0x100
      case U16 => 0 <= v < 0x1_0000
      case U32 | F32 => 0 <= v < 0x1_0000_0000
      case F64 => 0 <= v < 0x1_0000_0000_0000_0000
      case I8 => -0x80 <= v < 0x80
      case I16 => -0x8000 <= v < 0x8000
      case I32 => -0x8000_0000 <= v < 0x8000_0000
  {
  }

  /** `read_*::<LittleEndian>` of one element from exactly Size(vt) bytes. */
  function DecodeElem(vt: ValueType, bs: seq<byte>): (v: int)
    requires |bs| == Size(vt)
    ensures InRange(vt, v)
  {
    LeDecodeBound(bs);
    ModulusIsPow(vt);
    var u := LeDecode(bs);
    if IsSigned(vt) then Signed(u, Modulus(vt)) else u
  }

  /** `write_*::<LittleEndian>` of one element. */
  function EncodeElem(vt: ValueType, v: int): (bs: seq<byte>)
    requires InRange(vt, v)
    ensures |bs| == Size(vt)
  {
    ModulusIsPow(vt);
    LeEncode(if IsSigned(vt) then Unsigned(v, Modulus(vt)) else v, Size(vt))
  }

  /** Decoding what was encoded gives the value back. */
  lemma {:induction false} DecodeEncode(vt: ValueType, v: int)
    requires InRange(vt, v)
    ensures DecodeElem(vt, EncodeElem(vt, v)) == v
  {
    ModulusIsPow(vt);
    if IsSigned(vt) {
      SignedUnsigned(v, Modulus(vt));
    }
  }

  /** Encoding what was decoded gives the bytes back. */
  lemma {:induction false} EncodeDecode(vt: ValueType, bs: seq<byte>)
    requires |bs| == Size(vt)
    ensures EncodeElem(vt, DecodeElem(vt, bs)) == bs
  {
    LeEncodeOfDecode(bs);
  }

  /** A one-byte unsigned element is the byte itself; a one-byte signed
      element is its two's-complement reinterpretation (`as i8`). */
  lemma {:induction false} ByteElements(b: byte)
    ensures DecodeElem(U8, [b]) == b
    ensures DecodeElem(I8, [b]) == if b < 0x80 then b as int else b as int - 0x100
  {
    assert [b][1..] == [];
  }
}
