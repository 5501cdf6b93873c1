/** What the writer and the reader promise each other: a written record reads back as the
    array that was written, leaving whatever follows it untouched, and the reader rejects a
    truncated record, a record of another element type and a record of another rank. */
module RoundTrip {
  import opened Results
  import opened LittleEndian
  import opened Data
  import opened Format
  import opened Write
  import opened Read

  lemma WireLimits()
    ensures Pow256(4) == U32_MAX + 1
    ensures Pow256(8) == U64_MAX + 1
  {
  }

  /** `read_exact` of exactly |a| bytes from a + b returns a and leaves b. */
  lemma ReadExactConcat(a: seq<byte>, b: seq<byte>)
    ensures ReadExact(a + b, |a|) == Ok(Parsed(a, b))
  {
    assert (a + b)[..|a|] == a && (a + b)[|a|..] == b;
  }

  /** `parse_u32_size` of an encoded rank gives the rank back, when it fits a `usize`. */
  lemma ParseU32SizeOfToLe(v: nat, usizeMax: nat)
    requires v <= U32_MAX
    ensures ParseU32Size(ToLe(v, 4), usizeMax)
         == if v <= usizeMax then Ok(v) else Err(CannotConvertToUSize)
  {
    WireLimits();
    FromLeToLe(v, 4);
  }

  /** `parse_u64_size` of an encoded size gives the size back, when it fits a `usize`. */
  lemma ParseU64SizeOfToLe(v: nat, usizeMax: nat)
    requires v <= U64_MAX
    ensures ParseU64Size(ToLe(v, 8), usizeMax)
         == if v <= usizeMax then Ok(v) else Err(CannotConvertToUSize)
  {
    WireLimits();
    FromLeToLe(v, 8);
  }

  /** Parsing encoded dimensions gives them back, or `CannotConvertToUSize` when one of them
      does not fit a `usize`. */
  lemma {:induction false} ParseDimsOfBytes(dims: seq<nat>, usizeMax: nat)
    requires forall i :: 0 <= i < |dims| ==> dims[i] <= U64_MAX
    ensures (forall i :: 0 <= i < |dims| ==> dims[i] <= usizeMax) ==>
      ParseDims(DimsBytes(dims), usizeMax) == Ok(dims)
    ensures (exists i :: 0 <= i < |dims| && dims[i] > usizeMax) ==>
      ParseDims(DimsBytes(dims), usizeMax) == Err(CannotConvertToUSize)
  {
    if |dims| > 0 {
      var bs := DimsBytes(dims);
      assert bs[..8] == ToLe(dims[0], 8);
      assert bs[8..] == DimsBytes(dims[1..]);
      ParseU64SizeOfToLe(dims[0], usizeMax);
      ParseDimsOfBytes(dims[1..], usizeMax);
      assert forall i :: 1 <= i < |dims| ==> dims[i] == dims[1..][i - 1];
      if exists i :: 0 <= i < |dims| && dims[i] > usizeMax {
        var i :| 0 <= i < |dims| && dims[i] > usizeMax;
        if i > 0 {
          assert dims[1..][i - 1] > usizeMax;
        }
      }
      assert dims == [dims[0]] + dims[1..];
    }
  }

  /** `read_header` of an encoded header: the header itself and the untouched rest, or
      `CannotConvertToUSize` when the reading platform's `usize` cannot hold one of its sizes. */
  lemma HeaderRoundTrip(h: Header, rest: seq<byte>, usizeMax: nat)
    requires Representable(h)
    ensures FitsUsize(h, usizeMax) ==>
      ReadHeader(HeaderBytes(h) + rest, usizeMax) == Ok(Parsed(h, rest))
    ensures !FitsUsize(h, usizeMax) ==>
      ReadHeader(HeaderBytes(h) + rest, usizeMax) == Err(CannotConvertToUSize)
  {
    var rank := |h.shape|;
    var dims := Reversed(h.shape);
    var code := [DataTypeCode(h.dataType)];
    var a4 := ToLe(h.dataLength, 8) + rest;
    var a3 := code + a4;
    var a2 := DimsBytes(dims) + a3;
    var a1 := ToLe(rank, 4) + a2;
    var input := HeaderBytes(h) + rest;
    ConcatAssoc(MAGIC, ToLe(rank, 4), DimsBytes(dims), code, ToLe(h.dataLength, 8), rest);
    assert input == MAGIC + a1;
    ReadExactConcat(MAGIC, a1);
    ReadExactConcat(ToLe(rank, 4), a2);
    ReadExactConcat(DimsBytes(dims), a3);
    ReadExactConcat(code, a4);
    ReadExactConcat(ToLe(h.dataLength, 8), rest);
    ParseU32SizeOfToLe(rank, usizeMax);
    ReversedBounded(h.shape, U64_MAX);
    ReversedBounded(h.shape, usizeMax);
    ParseDimsOfBytes(dims, usizeMax);
    ReversedTwice(h.shape);
    CodeRoundTrip(h.dataType);
    ParseU64SizeOfToLe(h.dataLength, usizeMax);
  }

  /** A whole number of groups plus fewer than a group of extra bytes has that many groups. */
  lemma GroupsWithTail(q: nat, k: nat, extra: nat)
    requires k == 1 || k == 4 || k == 8
    requires extra < k
    ensures (q * k + extra) / k == q
  {
  }

  /** `from_le_bytes` inverts the payload encoding, and ignores a trailing partial element. */
  lemma PayloadRoundTrip(t: DataType, xs: seq<int>, tail: seq<byte>)
    requires Holds(t, xs)
    requires |tail| < Size(t)
    ensures FromLeBytes(t, PayloadBytes(t, xs) + tail) == xs
  {
    var p := PayloadBytes(t, xs);
    var r := FromLeBytes(t, p + tail);
    GroupsWithTail(|xs|, Size(t), |tail|);
    assert |p + tail| == |xs| * Size(t) + |tail|;
    assert |r| == |xs|;
    assert (p + tail)[..|xs| * Size(t)] == p;
    assert PayloadBytes(t, r) == p;
    PayloadBytesInjective(t, r, xs);
  }

  /** The reader's steps on a valid record followed by rest: the header, then exactly the
      payload, which decodes to the array. */
  lemma RecordSteps(t: DataType, a: NdArray, rest: seq<byte>, usizeMax: nat)
    requires a.Valid() && Holds(t, a.data)
    requires Representable(RecordHeader(t, a)) && FitsUsize(RecordHeader(t, a), usizeMax)
    ensures ReadHeader(Encode(t, a) + rest, usizeMax)
         == Ok(Parsed(RecordHeader(t, a), PayloadBytes(t, a.data) + rest))
    ensures ReadExact(PayloadBytes(t, a.data) + rest, RecordHeader(t, a).dataLength)
         == Ok(Parsed(PayloadBytes(t, a.data), rest))
    ensures AlignArray(t, a.shape, PayloadBytes(t, a.data)) == Ok(a)
  {
    var h := RecordHeader(t, a);
    var p := PayloadBytes(t, a.data);
    ConcatAssoc3(HeaderBytes(h), p, rest);
    HeaderRoundTrip(h, p + rest, usizeMax);
    ReadExactConcat(p, rest);
    PayloadAligns(t, a, []);
    assert p + [] == p;
  }

  /** A whole number of groups plus any extra bytes has at least that many groups. */
  lemma GroupsAtLeast(q: nat, k: nat, extra: nat)
    requires k == 1 || k == 4 || k == 8
    ensures (q * k + extra) / k >= q
  {
  }

  /** `align_array` of a valid array's payload followed by any bytes gives the array back:
      the surplus decodes to elements beyond the shape's count, which are dropped. */
  lemma PayloadAligns(t: DataType, a: NdArray, junk: seq<byte>)
    requires a.Valid() && Holds(t, a.data)
    ensures AlignArray(t, a.shape, PayloadBytes(t, a.data) + junk) == Ok(a)
  {
    var pb := PayloadBytes(t, a.data);
    var p := pb + junk;
    GroupsAtLeast(|a.data|, Size(t), |junk|);
    assert |p| / Size(t) >= Product(a.shape);
    var r := AlignArray(t, a.shape, p);
    assert p[..|a.data| * Size(t)] == pb;
    PayloadBytesInjective(t, r.value.data, a.data);
  }

  /** The headline round trip: reading the encoding of a valid array, followed by any bytes,
      gives back the array and leaves those bytes untouched; at its own rank, at a dynamic
      rank, and through the dynamically typed reader as the case of its element type. */
  lemma RecordRoundTrip(t: DataType, a: NdArray, rest: seq<byte>, usizeMax: nat)
    requires a.Valid() && Holds(t, a.data)
    requires Representable(RecordHeader(t, a)) && FitsUsize(RecordHeader(t, a), usizeMax)
    ensures ReadSane(Encode(t, a) + rest, usizeMax, t, Some(|a.shape|)) == Ok(Parsed(a, rest))
    ensures ReadSane(Encode(t, a) + rest, usizeMax, t, None) == Ok(Parsed(a, rest))
    ensures ReadSaneDyn(Encode(t, a) + rest, usizeMax) == Ok(Parsed(Wrap(t, a), rest))
  {
    RecordSteps(t, a, rest, usizeMax);
  }

  /** A one-element `i32` shape over eight payload bytes keeps the first element and drops
      the second. */
  lemma SurplusElementDropped()
    ensures AlignArray(I32, [1], [1, 0, 0, 0, 2, 0, 0, 0]) == Ok(NdArray([1], [1]))
  {
    var a := NdArray([1], [1]);
    assert a.Valid() by { assert Product([1]) == 1 * Product([]); }
    assert ToLe(0, 2) == [0, 0];
    assert ToLe(1, 4) == [1, 0, 0, 0];
    assert PayloadBytes(I32, a.data) == ElemToLe(I32, 1) + PayloadBytes(I32, []);
    PayloadAligns(I32, a, [2, 0, 0, 0]);
    assert [1, 0, 0, 0] + [2, 0, 0, 0] == [1, 0, 0, 0, 2, 0, 0, 0];
  }

  /** The converse of `ReadSaneAccepts`: a header whose declared length covers a valid
      array's payload and any surplus bytes, followed by the payload, the surplus and rest,
      reads back as the array and leaves rest; the surplus is ignored. */
  lemma PaddedRecordReads(input: seq<byte>, t: DataType, a: NdArray, junk: seq<byte>,
                          rest: seq<byte>, usizeMax: nat)
    requires a.Valid() && Holds(t, a.data)
    requires Representable(Header(a.shape, t, |a.data| * Size(t) + |junk|))
    requires FitsUsize(Header(a.shape, t, |a.data| * Size(t) + |junk|), usizeMax)
    requires RecordWithJunk(input, t, a, junk, rest)
    ensures ReadSane(input, usizeMax, t, Some(|a.shape|)) == Ok(Parsed(a, rest))
    ensures ReadSane(input, usizeMax, t, None) == Ok(Parsed(a, rest))
    ensures ReadSaneDyn(input, usizeMax) == Ok(Parsed(Wrap(t, a), rest))
  {
    var h := Header(a.shape, t, |a.data| * Size(t) + |junk|);
    var hb := HeaderBytes(h);
    var pb := PayloadBytes(t, a.data);
    var p := pb + junk;
    ConcatAssoc3(hb, pb, junk);
    ConcatAssoc3(hb, p, rest);
    assert input == hb + (p + rest);
    HeaderRoundTrip(h, p + rest, usizeMax);
    ReadExactConcat(p, rest);
    PayloadAligns(t, a, junk);
  }

  /** Writing an array to a stream with room for it succeeds, and reading back what was
      written recovers the array, whatever bytes follow it. */
  lemma WriteThenRead(s: Sink, t: DataType, a: NdArray, rest: seq<byte>, usizeMax: nat)
    requires a.Valid() && Holds(t, a.data)
    requires Representable(RecordHeader(t, a)) && FitsUsize(RecordHeader(t, a), usizeMax)
    requires |Encode(t, a)| <= s.room
    ensures WriteSane(s, t, a).error.None?
    ensures var out := WriteSane(s, t, a).sink.bytes[|s.bytes|..];
      && ReadSane(out + rest, usizeMax, t, Some(|a.shape|)) == Ok(Parsed(a, rest))
      && ReadSaneDyn(out + rest, usizeMax) == Ok(Parsed(Wrap(t, a), rest))
  {
    var w := WriteSane(s, t, a);
    assert w.sink.bytes[|s.bytes|..] == Encode(t, a);
    RecordRoundTrip(t, a, rest, usizeMax);
  }

  /** Reading a record at a rank other than its own fails with `ShapeError`. */
  lemma RankMismatch(t: DataType, a: NdArray, rest: seq<byte>, usizeMax: nat, rank: nat)
    requires a.Valid() && Holds(t, a.data)
    requires Representable(RecordHeader(t, a)) && FitsUsize(RecordHeader(t, a), usizeMax)
    requires rank != |a.shape|
    ensures ReadSane(Encode(t, a) + rest, usizeMax, t, Some(rank)) == Err(ShapeError)
  {
    RecordSteps(t, a, rest, usizeMax);
  }

  /** Reading a record as another element type fails with `WrongDataType` naming the
      record's own type. */
  lemma WrongTypeGuard(t: DataType, u: DataType, a: NdArray, rest: seq<byte>, usizeMax: nat,
                       rank: Option<nat>)
    requires a.Valid() && Holds(t, a.data)
    requires Representable(RecordHeader(t, a)) && FitsUsize(RecordHeader(t, a), usizeMax)
    requires u != t
    ensures ReadSane(Encode(t, a) + rest, usizeMax, u, rank) == Err(WrongDataType(t))
  {
    RecordSteps(t, a, rest, usizeMax);
  }

  /** A header cut short anywhere reads as `NotEnoughBytes`. The reader converts each size
      to a `usize` only after reading all of its bytes, so only the fields wholly before the
      cut must fit: the rank once the cut is past it, the dimensions once the cut is past all of
      them, and never the length. */
  lemma TruncatedHeader(h: Header, usizeMax: nat, k: nat)
    requires Representable(h)
    requires k < |HeaderBytes(h)|
    requires 8 <= k ==> |h.shape| <= usizeMax
    requires 8 + 8 * |h.shape| <= k ==> forall i :: 0 <= i < |h.shape| ==> h.shape[i] <= usizeMax
    ensures ReadHeader(HeaderBytes(h)[..k], usizeMax) == Err(NotEnoughBytes)
  {
    if 4 <= k < 8 + 8 * |h.shape| {
      TruncatedInShape(h, usizeMax, k);
    } else if 8 + 8 * |h.shape| <= k {
      TruncatedAfterShape(h, usizeMax, k);
    }
  }

  /** A cut in the rank or the dimensions. */
  lemma TruncatedInShape(h: Header, usizeMax: nat, k: nat)
    requires |h.shape| <= U32_MAX
    requires 4 <= k < 8 + 8 * |h.shape|
    requires 8 <= k ==> |h.shape| <= usizeMax
    ensures ReadHeader(HeaderBytes(h)[..k], usizeMax) == Err(NotEnoughBytes)
  {
    var hb := HeaderBytes(h);
    var input := hb[..k];
    var rank := |h.shape|;
    assert input[..4] == MAGIC;
    var m := input[4..];
    if k >= 8 {
      assert m[..4] == ToLe(rank, 4);
      ParseU32SizeOfToLe(rank, usizeMax);
      assert ParseU32Size(m[..4], usizeMax) == Ok(rank);
      assert |m[4..]| < rank * 8;
    }
  }

  /** A cut in the type code or the length. */
  lemma TruncatedAfterShape(h: Header, usizeMax: nat, k: nat)
    requires Representable(h)
    requires |h.shape| <= usizeMax
    requires forall i :: 0 <= i < |h.shape| ==> h.shape[i] <= usizeMax
    requires 8 + 8 * |h.shape| <= k < |HeaderBytes(h)|
    ensures ReadHeader(HeaderBytes(h)[..k], usizeMax) == Err(NotEnoughBytes)
  {
    var hb := HeaderBytes(h);
    var input := hb[..k];
    var rank := |h.shape|;
    var dims := Reversed(h.shape);
    assert input[..4] == MAGIC;
    var m := input[4..];
    assert m[..4] == ToLe(rank, 4);
    ParseU32SizeOfToLe(rank, usizeMax);
    assert ParseU32Size(m[..4], usizeMax) == Ok(rank);
    var m2 := m[4..];
    assert m2[..rank * 8] == DimsBytes(dims);
    ReversedBounded(h.shape, U64_MAX);
    ReversedBounded(h.shape, usizeMax);
    ParseDimsOfBytes(dims, usizeMax);
    var m3 := m2[rank * 8..];
    assert m3 == hb[8 + 8 * rank..k];
    if k > 8 + 8 * rank {
      assert m3[..1] == [DataTypeCode(h.dataType)];
      CodeRoundTrip(h.dataType);
      assert ParseDataType(m3[..1][0]) == Ok(h.dataType);
      assert |m3[1..]| < 8;
    }
  }

  /** A short payload is reported as `NotEnoughBytes` even when the element type is also
      wrong: the payload is read before the type is compared. */
  lemma ShortPayloadBeforeType(h: Header, rest: seq<byte>, usizeMax: nat, t: DataType,
                               rank: Option<nat>)
    requires Representable(h) && FitsUsize(h, usizeMax)
    requires |rest| < h.dataLength
    ensures ReadSane(HeaderBytes(h) + rest, usizeMax, t, rank) == Err(NotEnoughBytes)
    ensures ReadSaneDyn(HeaderBytes(h) + rest, usizeMax) == Err(NotEnoughBytes)
  {
    HeaderRoundTrip(h, rest, usizeMax);
  }

  /** With the whole payload present, a header naming another element type gives
      `WrongDataType` carrying the header's type, before the payload's size is compared with
      the shape. */
  lemma FullPayloadWrongType(h: Header, rest: seq<byte>, usizeMax: nat, t: DataType,
                             rank: Option<nat>)
    requires Representable(h) && FitsUsize(h, usizeMax)
    requires |rest| >= h.dataLength
    requires h.dataType != t
    ensures ReadSane(HeaderBytes(h) + rest, usizeMax, t, rank) == Err(WrongDataType(h.dataType))
  {
    HeaderRoundTrip(h, rest, usizeMax);
  }

  /** A record cut short anywhere reads as `NotEnoughBytes`, whichever element type and rank
      the caller asks for: a cut in the payload is detected before the element type is
      compared. */
  lemma TruncatedRecord(t: DataType, a: NdArray, usizeMax: nat, k: nat, u: DataType,
                        rank: Option<nat>)
    requires Holds(t, a.data)
    requires Representable(RecordHeader(t, a))
    requires k < |Encode(t, a)|
    requires 8 <= k ==> |a.shape| <= usizeMax
    requires 8 + 8 * |a.shape| <= k ==> forall i :: 0 <= i < |a.shape| ==> a.shape[i] <= usizeMax
    requires 17 + 8 * |a.shape| <= k ==> FitsUsize(RecordHeader(t, a), usizeMax)
    ensures ReadSane(Encode(t, a)[..k], usizeMax, u, rank) == Err(NotEnoughBytes)
    ensures ReadSaneDyn(Encode(t, a)[..k], usizeMax) == Err(NotEnoughBytes)
  {
    var h := RecordHeader(t, a);
    var hb := HeaderBytes(h);
    var p := PayloadBytes(t, a.data);
    var e := Encode(t, a);
    if k < |hb| {
      assert e[..k] == hb[..k];
      TruncatedHeader(h, usizeMax, k);
    } else {
      var cut := p[..k - |hb|];
      assert e[..k] == hb + cut;
      HeaderRoundTrip(h, cut, usizeMax);
      assert ReadHeader(e[..k], usizeMax) == Ok(Parsed(h, cut));
      assert ReadExact(cut, h.dataLength) == Err(NotEnoughBytes);
    }
  }

  /** A header whose type code names no element type reads as `InvalidDataType` carrying that
      code, once the fields before it are valid. */
  lemma InvalidTypeCode(dims: seq<nat>, c: byte, tail: seq<byte>, usizeMax: nat)
    requires |dims| <= U32_MAX && |dims| <= usizeMax
    requires forall i :: 0 <= i < |dims| ==> dims[i] <= U64_MAX && dims[i] <= usizeMax
    requires c >= 8
    ensures ReadHeader(MAGIC + (ToLe(|dims|, 4) + (DimsBytes(dims) + ([c] + tail))), usizeMax)
         == Err(InvalidDataType(c))
  {
    var rank := |dims|;
    var a3 := [c] + tail;
    var a2 := DimsBytes(dims) + a3;
    var a1 := ToLe(rank, 4) + a2;
    ReadExactConcat(MAGIC, a1);
    ReadExactConcat(ToLe(rank, 4), a2);
    ReadExactConcat(DimsBytes(dims), a3);
    ReadExactConcat([c], tail);
    ParseU32SizeOfToLe(rank, usizeMax);
    assert ParseU32Size(ToLe(rank, 4), usizeMax) == Ok(rank);
    assert |DimsBytes(dims)| == rank * 8;
    ParseDimsOfBytes(dims, usizeMax);
    assert ParseDataType(([c] + tail)[..1][0]) == Err(c);
  }

  /** The 2 x 3 array of `i32` [[1, 2, 3], [4, 5, 6]]: its dimensions go on the wire
      innermost first, and its payload is the elements in row-major order. */
  function Example(): (a: NdArray)
    ensures a.Valid() && Holds(I32, a.data)
  {
    NdArray([2, 3], [1, 2, 3, 4, 5, 6])
  }

  /** The example reads back dynamically as an `i32` array, reads back typed at its own rank,
      is refused with `ShapeError` at rank 3, and cut to 10 bytes is `NotEnoughBytes`. */
  lemma ExampleReads()
    ensures ReadSaneDyn(Encode(I32, Example()), U64_MAX) == Ok(Parsed(ArrayI32(Example()), []))
    ensures ReadSane(Encode(I32, Example()), U64_MAX, I32, Some(2)) == Ok(Parsed(Example(), []))
    ensures ReadSane(Encode(I32, Example()), U64_MAX, I32, Some(3)) == Err(ShapeError)
    ensures ReadSaneDyn(Encode(I32, Example())[..10], U64_MAX) == Err(NotEnoughBytes)
  {
    var a := Example();
    var e := Encode(I32, a);
    assert e + [] == e;
    RecordRoundTrip(I32, a, [], U64_MAX);
    RankMismatch(I32, a, [], U64_MAX, 3);
    TruncatedRecord(I32, a, U64_MAX, 10, I32, None);
  }
}
