/** The SANE reader (src/read.rs): the header, then the payload, then the checks of the
    element type and of the shape against the decoded elements. Input is the remaining bytes of
    the stream; a successful read also returns the bytes after the record, untouched. */
module Read {
  import opened Results
  import opened LittleEndian
  import opened Data
  import opened Format

  /** Why reading stopped. `ReadError` is part of the error type but never produced. */
  datatype ParseError =
    | NotSANE
    | InvalidDataType(code: byte)
    | NotEnoughBytes
    | CannotConvertToUSize
    | ReadError
    | ShapeError
    | WrongDataType(dataType: DataType)

  /** A decoded value and the input that follows it. */
  datatype Parsed<+T> = Parsed(value: T, rest: seq<byte>)

  /** `read_exact`: the next n bytes, or `NotEnoughBytes` when fewer remain. */
  function ReadExact(input: seq<byte>, n: nat): (r: Result<Parsed<seq<byte>>, ParseError>)
    ensures r.Err? <==> |input| < n
    ensures r.Err? ==> r.error == NotEnoughBytes
    ensures r.Ok? ==> |r.value.value| == n && input == r.value.value + r.value.rest
  {
    if |input| < n then Err(NotEnoughBytes) else Ok(Parsed(input[..n], input[n..]))
  }

  /** `parse_u32_size`: a 4-byte little-endian count, which must fit the platform's `usize`. */
  function ParseU32Size(bs: seq<byte>, usizeMax: nat): (r: Result<nat, ParseError>)
    requires |bs| == 4
    ensures r.Ok? <==> FromLe(bs) <= usizeMax
    ensures r.Ok? ==> r.value <= usizeMax && r.value <= U32_MAX && ToLe(r.value, 4) == bs
    ensures r.Err? ==> r.error == CannotConvertToUSize
  {
    ToLeFromLe(bs);
    var v := FromLe(bs);
    if v <= usizeMax then Ok(v) else Err(CannotConvertToUSize)
  }

  /** `parse_u64_size`: an 8-byte little-endian count, which must fit the platform's `usize`. */
  function ParseU64Size(bs: seq<byte>, usizeMax: nat): (r: Result<nat, ParseError>)
    requires |bs| == 8
    ensures r.Ok? <==> FromLe(bs) <= usizeMax
    ensures r.Ok? ==> r.value <= usizeMax && r.value <= U64_MAX && ToLe(r.value, 8) == bs
    ensures r.Err? ==> r.error == CannotConvertToUSize
  {
    ToLeFromLe(bs);
    var v := FromLe(bs);
    if v <= usizeMax then Ok(v) else Err(CannotConvertToUSize)
  }

  /** The dimension fields in wire order, each parsed with `parse_u64_size`; the first
      dimension that does not fit a `usize` stops the parse. */
  function ParseDims(bs: seq<byte>, usizeMax: nat): (r: Result<seq<nat>, ParseError>)
    requires |bs| % 8 == 0
    ensures r.Err? ==> r.error == CannotConvertToUSize
    ensures r.Ok? ==> DimsBytes(r.value) == bs
    ensures r.Ok? ==> forall i :: 0 <= i < |r.value| ==> r.value[i] <= usizeMax
    ensures r.Ok? ==> forall i :: 0 <= i < |r.value| ==> r.value[i] <= U64_MAX
    decreases |bs|
  {
    if |bs| == 0 then Ok([])
    else
      var d :- ParseU64Size(bs[..8], usizeMax);
      var ds :- ParseDims(bs[8..], usizeMax);
      assert bs == bs[..8] + bs[8..];
      Ok([d] + ds)
  }

  /** `read_header`: magic, rank, dimensions (returned in logical order), type code and
      payload length. A short input gives `NotEnoughBytes` before the magic is even compared;
      whatever it accepts is exactly the encoding of the header it returns. */
  function ReadHeader(input: seq<byte>, usizeMax: nat): (r: Result<Parsed<Header>, ParseError>)
    ensures |input| < 4 ==> r == Err(NotEnoughBytes)
    ensures |input| >= 4 && input[..4] != MAGIC ==> r == Err(NotSANE)
    ensures r.Ok? ==> input == HeaderBytes(r.value.value) + r.value.rest
    ensures r.Ok? ==> Representable(r.value.value) && FitsUsize(r.value.value, usizeMax)
    ensures r.Err? ==> || r.error == NotEnoughBytes || r.error == NotSANE
                       || r.error == CannotConvertToUSize || r.error.InvalidDataType?
  {
    var magic :- ReadExact(input, 4);
    if magic.value != MAGIC then Err(NotSANE)
    else
      var rankBytes :- ReadExact(magic.rest, 4);
      var rank :- ParseU32Size(rankBytes.value, usizeMax);
      var dimBytes :- ReadExact(rankBytes.rest, rank * 8);
      var dims :- ParseDims(dimBytes.value, usizeMax);
      var shape := Reversed(dims);
      var code :- ReadExact(dimBytes.rest, 1);
      match ParseDataType(code.value[0])
      case Err(c) => Err(InvalidDataType(c))
      case Ok(t) =>
        var lengthBytes :- ReadExact(code.rest, 8);
        var length :- ParseU64Size(lengthBytes.value, usizeMax);
        var h := Header(shape, t, length);
        assert |dims| == rank;
        assert code.value == [DataTypeCode(t)];
        assert input == magic.value + (rankBytes.value + (dimBytes.value
          + (code.value + (lengthBytes.value + lengthBytes.rest))));
        HeaderOfWireDims(input, h, dims, lengthBytes.rest);
        HeaderBoundsOfWireDims(h, dims, usizeMax);
        Ok(Parsed(h, lengthBytes.rest))
  }


  /** A header whose shape is the reverse of the wire-order dimensions encodes to the fields. */
  lemma HeaderOfWireDims(input: seq<byte>, h: Header, dims: seq<nat>, rest: seq<byte>)
    requires input == MAGIC + (ToLe(|dims|, 4) + (DimsBytes(dims)
      + ([DataTypeCode(h.dataType)] + (ToLe(h.dataLength, 8) + rest))))
    requires h.shape == Reversed(dims)
    ensures input == HeaderBytes(h) + rest
  {
    ReversedTwice(dims);
    ConcatAssoc(MAGIC, ToLe(|dims|, 4), DimsBytes(dims), [DataTypeCode(h.dataType)],
                ToLe(h.dataLength, 8), rest);
  }

  /** Bounds on the wire-order dimensions hold of the logical shape. */
  lemma HeaderBoundsOfWireDims(h: Header, dims: seq<nat>, usizeMax: nat)
    requires |dims| <= usizeMax && |dims| <= U32_MAX
    requires forall i :: 0 <= i < |dims| ==> dims[i] <= usizeMax
    requires forall i :: 0 <= i < |dims| ==> dims[i] <= U64_MAX
    requires h.dataLength <= usizeMax && h.dataLength <= U64_MAX
    requires h.shape == Reversed(dims)
    ensures Representable(h) && FitsUsize(h, usizeMax)
  {
    ReversedBounded(dims, usizeMax);
    ReversedBounded(dims, U64_MAX);
  }

  /** The `sane_from_le_bytes` loop: consecutive groups of Size(t) bytes, each decoded with
      `from_le_bytes`; a trailing group shorter than Size(t) is dropped. The elements decoded
      are exactly the ones whose payload is the bytes up to that trailing group. */
  function SaneFromLeBytes(t: DataType, bs: seq<byte>): (r: seq<int>)
    ensures |r| == |bs| / Size(t)
    ensures Holds(t, r)
    ensures PayloadBytes(t, r) == bs[..|r| * Size(t)]
    decreases |bs|
  {
    var sz := Size(t);
    if |bs| < sz then []
    else
      var x := ElemFromLe(t, bs[..sz]);
      var xs := SaneFromLeBytes(t, bs[sz..]);
      LoopStep(t, bs, x, xs);
      [x] + xs
  }

  /** One turn of the loop: the element decoded from the first group, followed by the
      elements of the remaining bytes, are the elements of all the bytes. */
  lemma LoopStep(t: DataType, bs: seq<byte>, x: int, xs: seq<int>)
    requires |bs| >= Size(t)
    requires InRange(t, x) && ElemToLe(t, x) == bs[..Size(t)]
    requires |xs| == (|bs| - Size(t)) / Size(t) && Holds(t, xs)
    requires |xs| * Size(t) <= |bs| - Size(t)
    requires PayloadBytes(t, xs) == bs[Size(t)..][..|xs| * Size(t)]
    ensures |[x] + xs| == |bs| / Size(t) && Holds(t, [x] + xs)
    ensures (|xs| + 1) * Size(t) <= |bs|
    ensures PayloadBytes(t, [x] + xs) == bs[..(|xs| + 1) * Size(t)]
  {
    var sz := Size(t);
    var r := [x] + xs;
    assert r[0] == x && r[1..] == xs;
    GroupCount(|bs|, sz);
    GroupsOneMore(|xs|, sz);
    assert PayloadBytes(t, r) == ElemToLe(t, x) + PayloadBytes(t, xs);
    SliceSplit(bs, sz, |xs| * sz);
  }

  /** One more group of k bytes is k more bytes. */
  lemma GroupsOneMore(q: nat, k: nat)
    ensures (q + 1) * k == k + q * k
  {
  }

  /** The first m + n bytes are the first m, then the n after them. */
  lemma SliceSplit(bs: seq<byte>, m: nat, n: nat)
    requires m + n <= |bs|
    ensures bs[..m + n] == bs[..m] + bs[m..][..n]
  {
  }

  /** Removing one group of k bytes removes one from the number of whole groups. */
  lemma GroupCount(n: nat, k: nat)
    requires k == 1 || k == 4 || k == 8
    requires n >= k
    ensures (n - k) / k + 1 == n / k
  {
  }

  /** The whole groups of k bytes in n bytes leave fewer than k bytes over. */
  lemma GroupBounds(n: nat, k: nat)
    requires k == 1 || k == 4 || k == 8
    ensures (n / k) * k <= n < (n / k) * k + k
  {
  }

  /** `ReadSane::from_le_bytes`: the bytes themselves for u8, the `sane_from_le_bytes` loop
      for every other element type. */
  function FromLeBytes(t: DataType, bs: seq<byte>): (r: seq<int>)
    ensures |r| == |bs| / Size(t)
    ensures Holds(t, r)
    ensures PayloadBytes(t, r) == bs[..|r| * Size(t)]
  {
    if t == U8 then PayloadOfBytes(bs); bs else SaneFromLeBytes(t, bs)
  }

  /** For u8 the shortcut agrees with the general loop. */
  lemma U8FromLeBytesIsLoop(bs: seq<byte>)
    ensures SaneFromLeBytes(U8, bs) == bs
  {
    PayloadOfBytes(bs);
    var r := SaneFromLeBytes(U8, bs);
    assert r[..|r|] == r;
    PayloadBytesInjective(U8, r, bs);
  }

  /** `align_array`: the decoded elements shaped as the header says. ndarray's `from_shape`
      with the default strides views the first Product(shape) elements of the decoded ones, so
      surplus elements are dropped; `ShapeError` when there are too few. */
  function AlignArray(t: DataType, shape: seq<nat>, bytes: seq<byte>): (r: Result<NdArray, ParseError>)
    ensures r.Ok? <==> Product(shape) * Size(t) <= |bytes|
    ensures r.Ok? ==> r.value.shape == shape && r.value.Valid() && Holds(t, r.value.data)
    ensures r.Ok? ==> PayloadBytes(t, r.value.data) == bytes[..Product(shape) * Size(t)]
    ensures r.Err? ==> r.error == ShapeError
  {
    var values := FromLeBytes(t, bytes);
    GroupsFit(Product(shape), |bytes|, Size(t));
    if |values| < Product(shape) then Err(ShapeError) else Ok(ViewPrefix(t, shape, bytes, values))
  }

  /** The array of the given shape over the first Product(shape) decoded elements. */
  function ViewPrefix(t: DataType, shape: seq<nat>, bytes: seq<byte>, values: seq<int>)
    : (a: NdArray)
    requires values == FromLeBytes(t, bytes) && Product(shape) <= |values|
    ensures a.shape == shape && a.Valid() && Holds(t, a.data)
    ensures Product(shape) * Size(t) <= |bytes|
    ensures PayloadBytes(t, a.data) == bytes[..Product(shape) * Size(t)]
  {
    var n := Product(shape);
    UsedPrefix(t, bytes, values, n);
    NdArray(shape, values[..n])
  }

  /** The encoding of the first n decoded elements is, like that of all of them, a prefix of
      the bytes. */
  lemma UsedPrefix(t: DataType, bytes: seq<byte>, values: seq<int>, n: nat)
    requires Holds(t, values) && n <= |values|
    requires PayloadBytes(t, values) <= bytes
    ensures Holds(t, values[..n]) && PayloadBytes(t, values[..n]) <= bytes
  {
    PayloadPrefix(t, values, n);
  }

  /** p whole groups of k bytes fit in n bytes exactly when n holds at least p groups. */
  lemma GroupsFit(p: nat, n: nat, k: nat)
    requires k == 1 || k == 4 || k == 8
    ensures p <= n / k <==> p * k <= n
  {
  }

  /** Multiplying by the same factor keeps the order. */
  lemma MulMonotone(a: nat, b: nat, k: nat)
    requires a <= b
    ensures a * k <= b * k
  {
  }

  /** `align_array_shape`: `align_array`, then the conversion to the caller's static rank
      (`None` for a dynamic rank), which fails with `ShapeError` when the ranks differ. */
  function AlignArrayShape(t: DataType, shape: seq<nat>, bytes: seq<byte>, rank: Option<nat>)
    : (r: Result<NdArray, ParseError>)
    ensures r.Ok? <==> Product(shape) * Size(t) <= |bytes| && (rank.None? || rank.value == |shape|)
    ensures r.Ok? ==> r.value.shape == shape && r.value.Valid() && Holds(t, r.value.data)
    ensures r.Ok? ==> PayloadBytes(t, r.value.data) == bytes[..Product(shape) * Size(t)]
    ensures r.Err? ==> r.error == ShapeError
  {
    var a :- AlignArray(t, shape, bytes);
    if rank.Some? && rank.value != |shape| then Err(ShapeError) else Ok(a)
  }

  /** rest is what remains of input after at least one byte has been consumed. */
  predicate StrictSuffix(rest: seq<byte>, input: seq<byte>)
  {
    |rest| < |input| && input[|input| - |rest|..] == rest
  }

  /** The bytes after a non-empty header and a payload are a strict suffix of the input. */
  lemma RecordSuffix(input: seq<byte>, hb: seq<byte>, afterHeader: seq<byte>, p: seq<byte>,
                     rest: seq<byte>)
    requires input == hb + afterHeader && afterHeader == p + rest && |hb| > 0
    ensures StrictSuffix(rest, input)
  {
    assert input == (hb + p) + rest;
  }

  /** `read_sane`: a record whose elements must be of type t and whose rank must be rank
      (when given). The whole payload is read before the element type is compared. */
  function ReadSane(input: seq<byte>, usizeMax: nat, t: DataType, rank: Option<nat>)
    : (r: Result<Parsed<NdArray>, ParseError>)
    ensures r.Ok? ==> r.value.value.Valid() && Holds(t, r.value.value.data)
    ensures r.Ok? && rank.Some? ==> |r.value.value.shape| == rank.value
    ensures r.Ok? ==> StrictSuffix(r.value.rest, input)
    ensures r.Err? ==> !r.error.ReadError?
  {
    var header :- ReadHeader(input, usizeMax);
    var h := header.value;
    var payload :- ReadExact(header.rest, h.dataLength);
    if h.dataType != t then Err(WrongDataType(h.dataType))
    else
      var a :- AlignArrayShape(t, h.shape, payload.value, rank);
      RecordSuffix(input, HeaderBytes(h), header.rest, payload.value, payload.rest);
      Ok(Parsed(a, payload.rest))
  }

  /** `read_sane_dyn`: a record of whatever element type its header names, wrapped in the
      matching `Sane` case. It never reports `WrongDataType`. */
  function ReadSaneDyn(input: seq<byte>, usizeMax: nat): (r: Result<Parsed<Sane>, ParseError>)
    ensures r.Ok? ==> r.value.value.value.Valid()
    ensures r.Ok? ==> Holds(r.value.value.ElementType(), r.value.value.value.data)
    ensures r.Ok? ==> StrictSuffix(r.value.rest, input)
    ensures r.Err? ==> !r.error.WrongDataType? && !r.error.ReadError?
  {
    var header :- ReadHeader(input, usizeMax);
    var h := header.value;
    var payload :- ReadExact(header.rest, h.dataLength);
    var a :- AlignArray(h.dataType, h.shape, payload.value);
    RecordSuffix(input, HeaderBytes(h), header.rest, payload.value, payload.rest);
    Ok(Parsed(Wrap(h.dataType, a), payload.rest))
  }

  /** The dynamically typed reader is the typed reader at the header's own element type and a
      dynamic rank, with the array wrapped in the matching case. */
  lemma DynIsTypedAtHeaderType(input: seq<byte>, usizeMax: nat)
    ensures ReadHeader(input, usizeMax).Err? ==>
      ReadSaneDyn(input, usizeMax) == Err(ReadHeader(input, usizeMax).error)
    ensures ReadHeader(input, usizeMax).Ok? ==>
      var t := ReadHeader(input, usizeMax).value.value.dataType;
      ReadSaneDyn(input, usizeMax) == match ReadSane(input, usizeMax, t, None)
        case Ok(p) => Ok(Parsed(Wrap(t, p.value), p.rest))
        case Err(e) => Err(e)
  {
  }

  /** input is a record of a whose payload is followed by junk, then by rest. */
  ghost predicate RecordWithJunk(input: seq<byte>, t: DataType, a: NdArray, junk: seq<byte>,
                                 rest: seq<byte>)
    requires Holds(t, a.data)
  {
    input == HeaderBytes(Header(a.shape, t, |a.data| * Size(t) + |junk|))
             + PayloadBytes(t, a.data) + junk + rest
  }

  /** Whatever `read_sane` accepts is a header, the payload encoding of the returned elements,
      the ignored rest of the declared payload (surplus elements and a trailing partial one),
      and the returned rest. */
  lemma ReadSaneAccepts(input: seq<byte>, usizeMax: nat, t: DataType, rank: Option<nat>,
                        a: NdArray, rest: seq<byte>)
    requires ReadSane(input, usizeMax, t, rank) == Ok(Parsed(a, rest))
    ensures exists junk: seq<byte> :: RecordWithJunk(input, t, a, junk, rest)
  {
    var header := ReadHeader(input, usizeMax).value;
    var h := header.value;
    var payload := ReadExact(header.rest, h.dataLength).value;
    assert a == AlignArrayShape(t, h.shape, payload.value, rank).value;
    assert rest == payload.rest;
    assert input == HeaderBytes(h) + (payload.value + rest);
    GroupBounds(|payload.value|, Size(t));
    MulMonotone(|a.data|, |payload.value| / Size(t), Size(t));
    var junk := JunkAfterPayload(input, h, payload.value, rest, t, a);
  }

  /** Splits an accepted payload into the encoding of its elements and the ignored tail. */
  lemma JunkAfterPayload(input: seq<byte>, h: Header, p: seq<byte>, rest: seq<byte>,
                         t: DataType, a: NdArray)
    returns (junk: seq<byte>)
    requires Holds(t, a.data)
    requires input == HeaderBytes(h) + (p + rest)
    requires h == Header(a.shape, t, |p|)
    requires |a.data| * Size(t) <= |p|
    requires PayloadBytes(t, a.data) == p[..|a.data| * Size(t)]
    ensures |junk| == |p| - |a.data| * Size(t) && RecordWithJunk(input, t, a, junk, rest)
  {
    var n := |a.data| * Size(t);
    var pb := PayloadBytes(t, a.data);
    junk := p[n..];
    assert p == p[..n] + junk;
    assert h == Header(a.shape, t, n + |junk|);
    ConcatAssoc3(pb, junk, rest);
    ConcatAssoc3(HeaderBytes(h), pb + junk, rest);
    ConcatAssoc3(HeaderBytes(h), pb, junk);
  }
}
