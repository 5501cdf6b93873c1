/** The SANE type-tag registry and the entities both directions of the codec share:
    element types, arrays, the header and the dynamically typed `Sane` value (src/data.rs). */
module Data {
  import opened Results
  import opened LittleEndian

  /** The closed set of element types a SANE array may hold. */
  datatype DataType = F32 | I32 | U32 | F64 | I64 | U64 | I8 | U8

  /** Decodes a wire type code; an unknown code is returned unchanged as the error. */
  function ParseDataType(code: byte): (r: Result<DataType, byte>)
    ensures r.Err? <==> code >= 8
    ensures r.Err? ==> r.error == code
    ensures r.Ok? ==> DataTypeCode(r.value) == code
  {
    match code
    case 0 => Ok(F32)
    case 1 => Ok(I32)
    case 2 => Ok(U32)
    case 3 => Ok(F64)
    case 4 => Ok(I64)
    case 5 => Ok(U64)
    case 6 => Ok(I8)
    case 7 => Ok(U8)
    case _ => Err(code)
  }

  /** The wire code of an element type. */
  function DataTypeCode(t: DataType): (c: byte)
    ensures c < 8
  {
    match t
    case F32 => 0
    case I32 => 1
    case U32 => 2
    case F64 => 3
    case I64 => 4
    case U64 => 5
    case I8 => 6
    case U8 => 7
  }

  /** Parsing recovers every type from its code. */
  lemma CodeRoundTrip(t: DataType)
    ensures ParseDataType(DataTypeCode(t)) == Ok(t)
  {
  }

  /** Distinct types have distinct codes. */
  lemma CodeInjective(t: DataType, u: DataType)
    requires DataTypeCode(t) == DataTypeCode(u)
    ensures t == u
  {
    CodeRoundTrip(t);
    CodeRoundTrip(u);
  }

  /** `size_of` the element type, in bytes: the width of its `to_le_bytes` array and of the
      groups `from_le_bytes` decodes. */
  function Size(t: DataType): (s: nat)
    ensures s == 1 || s == 4 || s == 8
  {
    match t
    case F32 | I32 | U32 => 4
    case F64 | I64 | U64 => 8
    case I8 | U8 => 1
  }

  /** Whether the element type is a two's-complement signed integer. */
  predicate Signed(t: DataType)
  {
    t == I32 || t == I64 || t == I8
  }

  /** The values an element of type t can hold. Signed integers are their value; unsigned
      integers are their value; floats are their IEEE-754 bit pattern read as unsigned. */
  predicate InRange(t: DataType, x: int)
  {
    var p := Pow256(Size(t));
    if Signed(t) then -(p / 2) <= x < p / 2 else 0 <= x < p
  }

  /** Every element of xs is a value of type t: what Rust's static element type guarantees. */
  predicate Holds(t: DataType, xs: seq<int>)
  {
    forall i :: 0 <= i < |xs| ==> InRange(t, xs[i])
  }

  /** The number of elements of an array of the given shape (1 for rank 0). */
  function Product(shape: seq<nat>): nat
  {
    if |shape| == 0 then 1 else shape[0] * Product(shape[1..])
  }

  /** An n-dimensional array: its shape and its elements in row-major order. */
  datatype NdArray = NdArray(shape: seq<nat>, data: seq<int>) {
    /** The array abstraction's invariant: one element per index. */
    predicate Valid() {
      |data| == Product(shape)
    }
  }

  /** The record header: the shape, the element type and the payload length in bytes. */
  datatype Header = Header(shape: seq<nat>, dataType: DataType, dataLength: nat)

  /** An array whose element type is known only at run time: one case per registry entry. */
  datatype Sane =
    | ArrayF32(value: NdArray)
    | ArrayI32(value: NdArray)
    | ArrayU32(value: NdArray)
    | ArrayF64(value: NdArray)
    | ArrayI64(value: NdArray)
    | ArrayU64(value: NdArray)
    | ArrayI8(value: NdArray)
    | ArrayU8(value: NdArray)
  {
    /** The element type the case stands for. */
    function ElementType(): DataType {
      match this
      case ArrayF32(_) => F32
      case ArrayI32(_) => I32
      case ArrayU32(_) => U32
      case ArrayF64(_) => F64
      case ArrayI64(_) => I64
      case ArrayU64(_) => U64
      case ArrayI8(_) => I8
      case ArrayU8(_) => U8
    }
  }

  /** The `Sane` case for element type t holding a. */
  function Wrap(t: DataType, a: NdArray): (s: Sane)
    ensures s.ElementType() == t && s.value == a
  {
    match t
    case F32 => ArrayF32(a)
    case I32 => ArrayI32(a)
    case U32 => ArrayU32(a)
    case F64 => ArrayF64(a)
    case I64 => ArrayI64(a)
    case U64 => ArrayU64(a)
    case I8 => ArrayI8(a)
    case U8 => ArrayU8(a)
  }

  /** Every `Sane` value is the wrapping of its own array at its own type. */
  lemma UnwrapWrap(s: Sane)
    ensures Wrap(s.ElementType(), s.value) == s
  {
  }

  /** The sequence in opposite order: the shape's order on the wire. */
  function Reversed<T>(s: seq<T>): (r: seq<T>)
    ensures |r| == |s|
  {
    seq(|s|, i requires 0 <= i < |s| => s[|s| - 1 - i])
  }

  /** Reversing twice gives back the original order. */
  lemma ReversedTwice<T>(s: seq<T>)
    ensures Reversed(Reversed(s)) == s
  {
  }

  /** Reversing a sequence does not change whether all its elements are at most bound. */
  lemma ReversedBounded(s: seq<nat>, bound: nat)
    ensures (forall i :: 0 <= i < |s| ==> s[i] <= bound)
        ==> (forall i :: 0 <= i < |s| ==> Reversed(s)[i] <= bound)
    ensures (forall i :: 0 <= i < |s| ==> Reversed(s)[i] <= bound)
        ==> (forall i :: 0 <= i < |s| ==> s[i] <= bound)
  {
    if forall i :: 0 <= i < |s| ==> Reversed(s)[i] <= bound {
      ReversedBoundedBack(s, bound);
    }
  }


  /** The backward direction of `ReversedBounded`. */
  lemma ReversedBoundedBack(s: seq<nat>, bound: nat)
    requires forall i :: 0 <= i < |s| ==> Reversed(s)[i] <= bound
    ensures forall i :: 0 <= i < |s| ==> s[i] <= bound
  {
    forall i | 0 <= i < |s|
      ensures s[i] <= bound
    {
      assert Reversed(s)[|s| - 1 - i] <= bound;
    }
  }
}
