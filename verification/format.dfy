/** The SANE wire format as a reference definition: the bytes of one record, field by field,
    and the per-element little-endian conversions of Rust's `to_le_bytes` / `from_le_bytes`.
    The writer and the reader are both proved against these definitions. */
module Format {
  import opened LittleEndian
  import opened Data

  /** The ASCII bytes "SANE" that open every record. */
  const MAGIC: seq<byte> := [0x53, 0x41, 0x4E, 0x45]

  const U32_MAX: nat := 0xFFFF_FFFF
  const U64_MAX: nat := 0xFFFF_FFFF_FFFF_FFFF

  /** An element's `to_le_bytes`: the low-order bytes of its two's-complement bit pattern. */
  function ElemToLe(t: DataType, x: int): (r: seq<byte>)
    requires InRange(t, x)
    ensures |r| == Size(t)
  {
    ToLe(if x < 0 then x + Pow256(Size(t)) else x, Size(t))
  }

  /** An element's `from_le_bytes`: the value of type t whose encoding is bs. */
  function ElemFromLe(t: DataType, bs: seq<byte>): (x: int)
    requires |bs| == Size(t)
    ensures InRange(t, x)
    ensures ElemToLe(t, x) == bs
  {
    ToLeFromLe(bs);
    var p := Pow256(Size(t));
    assert p == 2 * (p / 2) by {
      assert p == 0x100 * Pow256(Size(t) - 1);
    }
    var u := FromLe(bs);
    if Signed(t) && u >= p / 2 then
      assert u - p < 0 && (u - p) + p == u;
      u - p
    else u
  }

  /** Decoding an element's encoding gives the element back. */
  lemma ElemRoundTrip(t: DataType, x: int)
    requires InRange(t, x)
    ensures ElemFromLe(t, ElemToLe(t, x)) == x
  {
    var bits := if x < 0 then x + Pow256(Size(t)) else x;
    FromLeToLe(bits, Size(t));
  }

  /** Two elements of type t with the same encoding are equal. */
  lemma ElemToLeInjective(t: DataType, x: int, y: int)
    requires InRange(t, x) && InRange(t, y)
    requires ElemToLe(t, x) == ElemToLe(t, y)
    ensures x == y
  {
    ElemRoundTrip(t, x);
    ElemRoundTrip(t, y);
  }

  /** The payload: the elements' encodings concatenated in row-major order. */
  function PayloadBytes(t: DataType, xs: seq<int>): (r: seq<byte>)
    requires Holds(t, xs)
    ensures |r| == |xs| * Size(t)
  {
    if |xs| == 0 then [] else ElemToLe(t, xs[0]) + PayloadBytes(t, xs[1..])
  }

  /** The dimension fields: each dimension as 8 little-endian bytes, in the given order. */
  function DimsBytes(dims: seq<nat>): (r: seq<byte>)
    ensures |r| == 8 * |dims|
  {
    if |dims| == 0 then [] else ToLe(dims[0], 8) + DimsBytes(dims[1..])
  }

  /** The header fields in wire order: magic, rank, the dimensions reversed, type code,
      payload length. */
  function HeaderBytes(h: Header): (r: seq<byte>)
    ensures |r| == 4 + 4 + 8 * |h.shape| + 1 + 8
    ensures r[..4] == MAGIC
    ensures r[4..8] == ToLe(|h.shape|, 4)
    ensures r[8..8 + 8 * |h.shape|] == DimsBytes(Reversed(h.shape))
    ensures r[8 + 8 * |h.shape|] == DataTypeCode(h.dataType)
    ensures r[9 + 8 * |h.shape|..] == ToLe(h.dataLength, 8)
  {
    MAGIC + ToLe(|h.shape|, 4) + DimsBytes(Reversed(h.shape)) + [DataTypeCode(h.dataType)]
      + ToLe(h.dataLength, 8)
  }

  /** The header fields fit their wire widths: rank in a u32, dimensions and length in a u64. */
  predicate Representable(h: Header)
  {
    && |h.shape| <= U32_MAX
    && (forall i :: 0 <= i < |h.shape| ==> h.shape[i] <= U64_MAX)
    && h.dataLength <= U64_MAX
  }

  /** The header fields fit the reading platform's `usize`, whose largest value is usizeMax. */
  predicate FitsUsize(h: Header, usizeMax: nat)
  {
    && |h.shape| <= usizeMax
    && (forall i :: 0 <= i < |h.shape| ==> h.shape[i] <= usizeMax)
    && h.dataLength <= usizeMax
  }

  /** The header the writer derives from an array of element type t. */
  function RecordHeader(t: DataType, a: NdArray): Header
  {
    Header(a.shape, t, |a.data| * Size(t))
  }

  /** One complete record: the header followed by the payload. */
  function Encode(t: DataType, a: NdArray): (r: seq<byte>)
    requires Holds(t, a.data)
    ensures |r| == 17 + 8 * |a.shape| + |a.data| * Size(t)
  {
    HeaderBytes(RecordHeader(t, a)) + PayloadBytes(t, a.data)
  }

  /** Two element sequences of type t with the same payload are equal. */
  lemma {:induction false} PayloadBytesInjective(t: DataType, xs: seq<int>, ys: seq<int>)
    requires Holds(t, xs) && Holds(t, ys)
    requires PayloadBytes(t, xs) == PayloadBytes(t, ys)
    ensures xs == ys
  {
    if |xs| > 0 {
      var sz := Size(t);
      var p := PayloadBytes(t, xs);
      assert p[..sz] == ElemToLe(t, xs[0]) && p[sz..] == PayloadBytes(t, xs[1..]);
      assert PayloadBytes(t, ys)[..sz] == ElemToLe(t, ys[0]);
      assert PayloadBytes(t, ys)[sz..] == PayloadBytes(t, ys[1..]);
      ElemToLeInjective(t, xs[0], ys[0]);
      PayloadBytesInjective(t, xs[1..], ys[1..]);
      assert xs == [xs[0]] + xs[1..] && ys == [ys[0]] + ys[1..];
    }
  }

  /** The payload of the first k elements is a prefix of the payload (of length k elements'
      worth, by `PayloadBytes`' own contract). */
  lemma {:induction false} PayloadPrefix(t: DataType, xs: seq<int>, k: nat)
    requires Holds(t, xs)
    requires k <= |xs|
    ensures Holds(t, xs[..k])
    ensures PayloadBytes(t, xs[..k]) <= PayloadBytes(t, xs)
  {
    assert Holds(t, xs[..k]) by {
      forall i | 0 <= i < k ensures InRange(t, xs[..k][i]) {
        assert xs[..k][i] == xs[i];
      }
    }
    if k > 0 {
      var e := ElemToLe(t, xs[0]);
      PayloadPrefix(t, xs[1..], k - 1);
      assert xs[..k][1..] == xs[1..][..k - 1];
      assert PayloadBytes(t, xs[..k]) == e + PayloadBytes(t, xs[1..][..k - 1]);
      assert PayloadBytes(t, xs) == e + PayloadBytes(t, xs[1..]);
      PrefixAfter(e, PayloadBytes(t, xs[1..][..k - 1]), PayloadBytes(t, xs[1..]));
    }
  }

  /** A common start keeps the prefix order. */
  lemma PrefixAfter(e: seq<byte>, a: seq<byte>, b: seq<byte>)
    requires a <= b
    ensures e + a <= e + b
  {
    assert (e + b)[..|e + a|] == e + b[..|a|];
  }

  /** The payload of a u8 array is its elements themselves. */
  lemma {:induction false} PayloadOfBytes(bs: seq<byte>)
    ensures Holds(U8, bs)
    ensures PayloadBytes(U8, bs) == bs
  {
    if |bs| > 0 {
      PayloadOfBytes(bs[1..]);
      assert ElemToLe(U8, bs[0]) == [bs[0]];
      assert bs == [bs[0]] + bs[1..];
    }
  }
}
