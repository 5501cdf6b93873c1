# SANE array codec — a Dafny model

SANE ("Simple Array of Numbers Encoding") stores one n-dimensional numeric array as a single
binary record with two parts.

- The header holds:
  - the ASCII magic `SANE`;
  - the rank, as a little-endian `u32`;
  - every dimension as a little-endian `u64`, innermost dimension first;
  - a one-byte element-type code;
  - the payload length in bytes, as a little-endian `u64`.
- The payload holds every element as little-endian bytes, in row-major order.

This project models the Rust crate's codec core: the type-code registry (`src/data.rs`), the
writer (`src/write.rs`) and the reader (`src/read.rs`).

The modules follow the crate's files:

- `LittleEndian` defines bytes, the unsigned little-endian conversions `ToLe`/`FromLe` and
  their round trips.
- `Results` defines `Option` and `Result`.
- `Data` defines the element types and their codes, `parse_data_type`/`data_type_code`, the
  array and header records, the dynamically typed `Sane` value, and shape reversal.
- `Format` is a reference definition of the wire bytes of one record. It also holds each
  element's `to_le_bytes` and `from_le_bytes`:
  - signed integers are their own value, encoded in two's complement;
  - unsigned integers and floats are their bit pattern.
- `Write` models `write_header`, `write_data` and `write_sane`.
  - The output stream is a `Sink` that accepts a fixed number of further bytes, so that the
    I/O error `Failed` is reachable.
  - Each writer is a straight-line list of steps, each one a `write_all` or a `try_from`
    range check. `Run` performs the steps and stops at the first error, as Rust's `?` does.
- `Read` models `read_header`, the `from_le_bytes` loop, `align_array`, `align_array_shape`,
  `read_sane` and `read_sane_dyn`.
  - The stream is the sequence of its remaining bytes.
  - A successful read also returns the bytes after the record.
  - The platform's `usize` is a parameter `usizeMax`, so that `CannotConvertToUSize` is
    reachable.
  - `read_sane`'s static dimension type becomes an optional rank. `None` stands for `IxDyn`.
- `RoundTrip` proves the writer and the reader against each other:
  - writing then reading gives the array back and leaves the following bytes alone;
  - the reader accepts exactly such records, allowing surplus payload bytes within the
    declared length, which it ignores;
  - truncation, a wrong element type, a wrong rank and an unknown type code are each
    rejected with the code's error;
  - the crate's 2 × 3 `i32` example reads back as the unit tests expect.

Two quirks of the code itself, neither of them documented by the crate:

- **The fast path is dead code.** `write_data`, `align_array` and `align_array_shape` choose
  an unsafe fast path under `cfg!(endianness = "little")`. rustc sets no cfg key named
  `endianness` (the key is `target_endian`), so that condition is always false. The
  per-element path (`to_le_bytes` / `sane_from_le_bytes`) therefore always runs, and it is
  the one modelled.
- **An import that does not resolve.** `src/read.rs` imports `get_data_type`, but
  `src/data.rs` defines only `parse_data_type`. The model uses `parse_data_type`, the
  evident intent.

## Model

| member | source | states |
|---|---|---|
| Data.ParseDataType | src/data.rs:26-38 | codes 0..7 decode to a type whose code is the input; every code of 8 or more is an error carrying the code unchanged |
| Data.DataTypeCode | src/data.rs:41-52 | every element type's wire code is below 8, the range `parse_data_type` accepts |
| Data.Size | src/read.rs:10 | every element type is 1, 4 or 8 bytes wide, the `size_of` widths the payload is grouped by |
| Data.CodeRoundTrip | src/data.rs:133-135 | parsing the code of any element type gives that type back |
| Data.CodeInjective | src/data.rs:41-52 | distinct element types have distinct wire codes |
| Data.Wrap | src/data.rs:56-65 | the `Sane` case built for type t reports element type t and holds the given array |
| Data.UnwrapWrap | src/data.rs:56-65 | every `Sane` value is the wrapping of its own array at its own element type |
| Data.ReversedTwice | src/read.rs:128 | reversing the wire-order dimensions undoes the writer's reversal |
| Data.ReversedBounded | src/write.rs:98-102 | every dimension fits a bound in logical order exactly when every one fits it in wire order |
| LittleEndian.FromLeToLe | src/write.rs:96 | reading back n little-endian bytes of a value below 256^n gives the value |
| LittleEndian.ToLeFromLe | src/read.rs:102 | re-encoding the value of n bytes gives the same n bytes |
| Format.ElemToLe | src/write.rs:16-62 | an element's `to_le_bytes` is exactly `size_of` its type bytes long; `Format.ElemRoundTrip` shows it loses nothing |
| Format.ElemFromLe | src/read.rs:7-20 | the decoded element is in its type's range, and its encoding is exactly the bytes it was decoded from |
| Format.ElemRoundTrip | src/write.rs:16-62 | decoding an element's `to_le_bytes` gives the element back, for every type, negative values included |
| Format.ElemToLeInjective | src/write.rs:16-62 | two in-range elements with equal encodings are equal |
| Format.PayloadBytesInjective | src/write.rs:120-124 | two element sequences with the same payload bytes are equal |
| Format.PayloadOfBytes | src/read.rs:68-72 | the payload of a `u8` array is its elements themselves |
| Format.HeaderBytes | src/write.rs:90-110 | the header is 17 + 8·rank bytes: magic, rank, the dimensions reversed, the type code and the length, each at its offset |
| Write.Run | src/write.rs:94-108 | the stream receives a prefix of the steps' bytes; it receives all of them exactly when no check fails and there is room; any error other than the first failed check is `Failed`, for want of room |
| Write.HeaderRangeError | src/write.rs:95-106 | no range error exactly when the rank fits a u32 and every dimension and the byte length fit a u64 |
| Write.DimSteps | src/write.rs:98-102 | the dimension writes emit the dimension fields; they fail only with `DimTooLarge`, and only when some dimension exceeds a u64 |
| Write.HeaderSteps | src/write.rs:90-110 | the header's writes emit exactly the reference header bytes, and the first failed check is the header's first range error |
| Write.DataSteps | src/write.rs:112-126 | the payload's writes emit exactly the reference payload and contain no range check |
| Write.WriteHeader | src/write.rs:90-110 | `write_header` writes a prefix of the header; all of it exactly when the fields fit and there is room; with room, the error is the first range error; `ShapeTooLong` leaves only the magic written |
| Write.WriteData | src/write.rs:112-126 | `write_data` writes a prefix of the payload, all of it exactly when there is room, and fails only with `Failed` |
| Write.WriteSane | src/write.rs:129-133 | `write_sane` writes a prefix of the record; the full record exactly when the header fits and there is room; the error otherwise is the first range error, or `Failed` for want of room |
| Read.ReadExact | src/read.rs:111 | `read_exact` fails with `NotEnoughBytes` exactly when fewer than n bytes remain, and otherwise splits off exactly n bytes |
| Read.ParseU32Size | src/read.rs:101-103 | the rank is accepted exactly when it fits a `usize`; it is then below 2^32 and re-encodes to the same bytes; otherwise `CannotConvertToUSize` |
| Read.ParseU64Size | src/read.rs:105-107 | a size is accepted exactly when it fits a `usize`; it is then below 2^64 and re-encodes to the same bytes; otherwise `CannotConvertToUSize` |
| Read.ParseDims | src/read.rs:121-127 | the parsed dimensions re-encode to the bytes they came from and all fit a `usize`; the only error is `CannotConvertToUSize` |
| Read.ReadHeader | src/read.rs:109-140 | fewer than 4 bytes gives `NotEnoughBytes` and a wrong magic gives `NotSANE`; an accepted header is exactly the encoding of the returned header, followed by the returned rest; the returned header fits both its wire widths and `usize` |
| Read.SaneFromLeBytes | src/read.rs:7-20 | one element per whole group of Size(t) bytes, each in range; the elements' encoding is exactly the input up to the dropped trailing partial group |
| Read.FromLeBytes | src/read.rs:22-72 | the same guarantee for every element type, the `u8` identity included |
| Read.U8FromLeBytesIsLoop | src/read.rs:68-72 | the `u8` identity shortcut agrees with the general loop |
| Read.AlignArray | src/read.rs:142-154 | succeeds exactly when the payload holds at least the shape's product of whole elements, giving an array of that shape whose encoding is the first that many elements' worth of the payload (surplus elements are dropped); fails only with `ShapeError` |
| Read.ViewPrefix | src/read.rs:151 | the view `from_shape` takes over the decoded elements: an array of the requested shape whose encoding is that prefix of the payload |
| Read.AlignArrayShape | src/read.rs:156-171 | as `align_array`, and additionally fails with `ShapeError` when a static rank is asked for and differs from the header's rank |
| Read.ReadSane | src/read.rs:173-182 | an accepted array is well-shaped and of type t, with the rank asked for; the rest is a strict suffix of the input; `ReadError` is never produced |
| Read.ReadSaneDyn | src/read.rs:185-201 | an accepted value is well-shaped and holds elements of its own case's type; the rest is a strict suffix; neither `WrongDataType` nor `ReadError` is produced |
| RoundTrip.ShortPayloadBeforeType | src/read.rs:175-178 | after a well-formed header, a payload shorter than the header's length is `NotEnoughBytes` even when the element type is also wrong, for both readers |
| RoundTrip.FullPayloadWrongType | src/read.rs:177-179 | with the payload present, a header of another type gives `WrongDataType` carrying the header's type |
| Read.DynIsTypedAtHeaderType | src/read.rs:185-201 | `read_sane_dyn` equals `read_sane` at the header's own type with a dynamic rank, wrapped in the matching case |
| Read.ReadSaneAccepts | src/read.rs:173-182 | whatever `read_sane` accepts is a header whose length covers the payload of the returned elements and some ignored bytes, then that payload, the ignored bytes, and the returned rest |
| Read.JunkAfterPayload | src/read.rs:175-180 | an accepted payload splits into the encoding of the decoded elements and the ignored remainder of the declared length |
| RoundTrip.ParseDimsOfBytes | src/read.rs:119-127 | encoded dimensions parse back to themselves when all fit a `usize`, and give `CannotConvertToUSize` when one does not |
| RoundTrip.HeaderRoundTrip | src/read.rs:109-140 | a representable header, followed by any bytes, reads back as itself, leaving those bytes; when a field does not fit `usize` the result is `CannotConvertToUSize` |
| RoundTrip.PayloadRoundTrip | src/read.rs:7-20 | decoding a payload, followed by fewer than one element of extra bytes, gives the elements back |
| Format.PayloadPrefix | src/write.rs:120-124 | the payload of the first k elements is a prefix of the payload of all of them |
| RoundTrip.PayloadAligns | src/read.rs:142-154 | `align_array` of a valid array's payload followed by any bytes gives the array back |
| RoundTrip.SurplusElementDropped | src/read.rs:150-152 | one `i32` of shape [1] over eight payload bytes keeps the first element and drops the second |
| RoundTrip.PaddedRecordReads | src/read.rs:173-201 | the converse of `Read.ReadSaneAccepts`: a header whose length covers a valid array's payload plus any surplus, then the payload, the surplus and any bytes, reads back as the array through both readers, leaving those bytes |
| RoundTrip.RecordRoundTrip | src/read.rs:173-201 | a valid array's record, followed by any bytes, reads back as the array and leaves those bytes, typed at its own rank, typed at a dynamic rank, and dynamically as its type's case |
| RoundTrip.WriteThenRead | src/write.rs:129-133 | writing to a stream with room succeeds, and reading what was written recovers the array through both readers |
| RoundTrip.RankMismatch | src/lib.rs:47-58 | reading a record at a rank other than its own gives `ShapeError` |
| RoundTrip.WrongTypeGuard | src/read.rs:177-179 | reading a record as another element type gives `WrongDataType` naming the record's type |
| RoundTrip.TruncatedHeader | src/read.rs:109-134 | a header cut short anywhere reads as `NotEnoughBytes`; only the sizes wholly before the cut need fit a `usize` (the rank past byte 8, the dimensions once all of them are read, never the length) |
| RoundTrip.TruncatedRecord | src/read.rs:173-188 | a record cut short anywhere reads as `NotEnoughBytes` through both readers, whatever type and rank are asked for; only the sizes wholly before the cut need fit a `usize` |
| RoundTrip.InvalidTypeCode | src/read.rs:129-131 | valid fields followed by a type code of 8 or more read as `InvalidDataType` carrying that code |
| RoundTrip.ExampleReads | src/lib.rs:24-58 | the 2 × 3 `i32` array reads back dynamically as `ArrayI32`, reads back typed at rank 2, and is refused with `ShapeError` at rank 3, as the crate's three example tests expect; cut to 10 bytes it is `NotEnoughBytes`, since `read_exact` of the dimension bytes fails (src/read.rs:119-120) |

## Left out

- Streams are byte sequences. The `Read`/`Write` traits, `Cursor` and the `std::io::Error`
  values inside `Failed`, `NotEnoughBytes` and `ReadError` are not modelled, and neither are
  the `TryFromIntError`/`ShapeError` payloads; each error is modelled by its variant alone.
- `ReadError` is declared but never constructed by the code, so no model operation produces it.
- A failed `write_all` is modelled as writing nothing of its chunk. Real streams may accept
  part of a chunk before failing; the model's guarantee that the stream holds a prefix of the
  record is unaffected.
- The unsafe little-endian fast paths of `write_data` (`src/write.rs:115-118`) and of the two
  `align_array` functions are not modelled. They are guarded by `cfg!(endianness = "little")`,
  which is never true.
- Floating-point values are modelled as their IEEE bit patterns. `to_le_bytes` and
  `from_le_bytes` move those bits unchanged, and no arithmetic is done on them.
- ndarray is external and is not part of this model. `ArrayView::from_shape` with the
  default strides is modelled by the check it makes on a slice: it succeeds when the slice holds at
  least as many elements as the shape's product and views the first that many, so a payload
  with surplus whole elements is accepted and the surplus dropped. Its `isize` overflow check
  on the product is not modelled, and neither is `into_dimensionality` beyond the rank
  comparison.
- Machine integer widths are modelled for every wire field (u32 rank, u64 dimensions and
  length) and for `usize` through `usizeMax`. Two overflows are not modelled:
  - the `usize` overflow of `shape_length * 8` in `read_header`, which can only happen on a
    32-bit platform;
  - the overflow of `array.len() * size_of::<A>()` in `write_header`.
- Allocation failure for a huge `data_length` is not modelled. The model reports
  `NotEnoughBytes` as the code does when the stream is shorter.
- The quickcheck `Arbitrary` instance for `DataType` and the `Display`/`Error` impls are not
  modelled: they are test generators and message text.
- `examples/write_arrays.rs` is a demonstration program and is not modelled.
- RoundTrip.ExampleReads: the exact 57 bytes of the example record are not spelled out; its
  reads are derived from the general round trip.
