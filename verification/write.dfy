/** The SANE writer (src/write.rs): the header fields, then every element, each written with
    `write_all`, each range-checked with `try_from` just before it is written. */
module Write {
  import opened Results
  import opened LittleEndian
  import opened Data
  import opened Format

  /** Why writing stopped: the stream refused bytes, or a value does not fit its wire field. */
  datatype WriteError = Failed | ShapeTooLong | DimTooLarge | TooMuchData

  /** The output stream: the bytes it has accepted, and how many more bytes it accepts before
      a `write_all` fails. */
  datatype Sink = Sink(bytes: seq<byte>, room: nat)

  /** The stream after a write, and the error that ended the write, if any. */
  datatype Written = Written(sink: Sink, error: Option<WriteError>)

  /** One action of the writer: `write_all` of a chunk, or a `try_from` range check that fails
      with err when ok is false. */
  datatype Step = Emit(chunk: seq<byte>) | Check(ok: bool, err: WriteError)

  /** All bytes the steps would write if nothing failed. */
  function Emitted(steps: seq<Step>): seq<byte>
  {
    if |steps| == 0 then []
    else (match steps[0] case Emit(c) => c case Check(_, _) => []) + Emitted(steps[1..])
  }

  /** The error of the first range check that fails, if any. */
  function FirstFailure(steps: seq<Step>): Option<WriteError>
  {
    if |steps| == 0 then None
    else match steps[0]
      case Check(ok, e) => if !ok then Some(e) else FirstFailure(steps[1..])
      case Emit(_) => FirstFailure(steps[1..])
  }

  lemma {:induction false} EmittedAppend(a: seq<Step>, b: seq<Step>)
    ensures Emitted(a + b) == Emitted(a) + Emitted(b)
  {
    if |a| > 0 {
      assert (a + b)[1..] == a[1..] + b;
      EmittedAppend(a[1..], b);
    } else {
      assert a + b == b;
    }
  }

  lemma {:induction false} FirstFailureAppend(a: seq<Step>, b: seq<Step>)
    ensures FirstFailure(a + b) == if FirstFailure(a).Some? then FirstFailure(a) else FirstFailure(b)
  {
    if |a| > 0 {
      assert (a + b)[1..] == a[1..] + b;
      FirstFailureAppend(a[1..], b);
    } else {
      assert a + b == b;
    }
  }

  /** out is pre followed by a prefix of more: what a stream that held pre holds after a
      write of more that may have stopped early. */
  predicate Appended(out: seq<byte>, pre: seq<byte>, more: seq<byte>)
  {
    |pre| <= |out| && out[..|pre|] == pre && out[|pre|..] <= more
  }

  /** Bytes appended after pre + chunk are appended after pre, following chunk. */
  lemma AppendedAfter(out: seq<byte>, pre: seq<byte>, chunk: seq<byte>, more: seq<byte>)
    requires Appended(out, pre + chunk, more)
    ensures Appended(out, pre, chunk + more)
  {
    assert out[..|pre|] == (pre + chunk)[..|pre|];
    assert out[|pre|..] == chunk + out[|pre + chunk|..];
  }

  /** Performs the steps in order and stops at the first failure, as the `?` operator does.
      The stream then holds a prefix of the bytes the steps emit; it holds all of them exactly
      when no check fails and the stream has room for them; an error other than the first
      failing check is a write failure, which happens only when the stream runs out of room. */
  function Run(s: Sink, steps: seq<Step>): (w: Written)
    ensures Appended(w.sink.bytes, s.bytes, Emitted(steps))
    ensures w.sink.room + |w.sink.bytes| == s.room + |s.bytes|
    ensures w.error.None? <==> FirstFailure(steps).None? && |Emitted(steps)| <= s.room
    ensures w.error.None? ==> w.sink.bytes == s.bytes + Emitted(steps)
    ensures |Emitted(steps)| <= s.room ==> w.error == FirstFailure(steps)
    ensures w.error != FirstFailure(steps) ==> w.error == Some(Failed) && s.room < |Emitted(steps)|
    decreases |steps|
  {
    assert Appended(s.bytes, s.bytes, Emitted(steps)) by {
      assert s.bytes[|s.bytes|..] == [];
    }
    if |steps| == 0 then Written(s, None)
    else match steps[0]
      case Emit(chunk) =>
        assert Emitted(steps) == chunk + Emitted(steps[1..]);
        if |chunk| <= s.room then
          var w := Run(Sink(s.bytes + chunk, s.room - |chunk|), steps[1..]);
          AppendedAfter(w.sink.bytes, s.bytes, chunk, Emitted(steps[1..]));
          w
        else Written(s, Some(Failed))
      case Check(ok, err) =>
        assert Emitted(steps) == Emitted(steps[1..]);
        if ok then Run(s, steps[1..]) else Written(s, Some(err))
  }

  /** The first range error the header's fields raise, in the order the writer checks them. */
  function HeaderRangeError(h: Header): (r: Option<WriteError>)
    ensures r.None? <==> Representable(h)
  {
    if |h.shape| > U32_MAX then Some(ShapeTooLong)
    else if exists i :: 0 <= i < |h.shape| && h.shape[i] > U64_MAX then Some(DimTooLarge)
    else if h.dataLength > U64_MAX then Some(TooMuchData)
    else None
  }

  /** One check-then-write pair per dimension, in the order given. */
  function DimSteps(dims: seq<nat>): (r: seq<Step>)
    ensures Emitted(r) == DimsBytes(dims)
    ensures FirstFailure(r).None? <==> forall i :: 0 <= i < |dims| ==> dims[i] <= U64_MAX
    ensures FirstFailure(r).Some? ==> FirstFailure(r) == Some(DimTooLarge)
  {
    if |dims| == 0 then []
    else
      var first := [Check(dims[0] <= U64_MAX, DimTooLarge), Emit(ToLe(dims[0], 8))];
      var r := first + DimSteps(dims[1..]);
      EmittedAppend(first, DimSteps(dims[1..]));
      FirstFailureAppend(first, DimSteps(dims[1..]));
      assert forall i :: 1 <= i < |dims| ==> dims[i] == dims[1..][i - 1];
      r
  }

  /** The magic, the rank's range check and the rank. */
  function RankSteps(rank: nat): (r: seq<Step>)
    ensures Emitted(r) == MAGIC + ToLe(rank, 4)
    ensures FirstFailure(r) == if rank <= U32_MAX then None else Some(ShapeTooLong)
  {
    var r := [Emit(MAGIC), Check(rank <= U32_MAX, ShapeTooLong), Emit(ToLe(rank, 4))];
    assert Emitted(r[2..]) == ToLe(rank, 4);
    assert Emitted(r[1..]) == ToLe(rank, 4);
    assert FirstFailure(r[2..]) == None;
    r
  }

  /** The type code, the length's range check and the length. */
  function LengthSteps(t: DataType, byteLength: nat): (r: seq<Step>)
    ensures Emitted(r) == [DataTypeCode(t)] + ToLe(byteLength, 8)
    ensures FirstFailure(r) == if byteLength <= U64_MAX then None else Some(TooMuchData)
  {
    var r := [Emit([DataTypeCode(t)]), Check(byteLength <= U64_MAX, TooMuchData),
              Emit(ToLe(byteLength, 8))];
    assert Emitted(r[2..]) == ToLe(byteLength, 8);
    assert Emitted(r[1..]) == ToLe(byteLength, 8);
    assert FirstFailure(r[2..]) == None;
    r
  }

  /** The header's writes and checks, in the order of `write_header`. */
  function HeaderSteps(t: DataType, shape: seq<nat>, count: nat): (r: seq<Step>)
    ensures Emitted(r) == HeaderBytes(Header(shape, t, count * Size(t)))
    ensures FirstFailure(r) == HeaderRangeError(Header(shape, t, count * Size(t)))
  {
    var byteLength := count * Size(t);
    var front := RankSteps(|shape|);
    var dims := DimSteps(Reversed(shape));
    var back := LengthSteps(t, byteLength);
    EmittedAppend(front, dims);
    EmittedAppend(front + dims, back);
    FirstFailureAppend(front, dims);
    FirstFailureAppend(front + dims, back);
    ReversedBounded(shape, U64_MAX);
    var e := MAGIC + ToLe(|shape|, 4) + DimsBytes(Reversed(shape));
    assert e + ([DataTypeCode(t)] + ToLe(byteLength, 8))
        == e + [DataTypeCode(t)] + ToLe(byteLength, 8);
    front + dims + back
  }

  /** The payload's writes: one `write_all` per element, in row-major order. */
  function DataSteps(t: DataType, xs: seq<int>): (r: seq<Step>)
    requires Holds(t, xs)
    ensures Emitted(r) == PayloadBytes(t, xs)
    ensures FirstFailure(r).None?
  {
    if |xs| == 0 then []
    else
      var first := [Emit(ElemToLe(t, xs[0]))];
      EmittedAppend(first, DataSteps(t, xs[1..]));
      FirstFailureAppend(first, DataSteps(t, xs[1..]));
      first + DataSteps(t, xs[1..])
  }

  /** `write_header`: the header of an array of count elements of type t with the given shape.
      The stream receives a prefix of the header's bytes; all of them when every field fits its
      width and the stream has room; with room to spare, the error is the first range error; a
      rank too large for a u32 is reported after the magic has already been written. */
  function WriteHeader(s: Sink, t: DataType, shape: seq<nat>, count: nat): (w: Written)
    ensures var h := Header(shape, t, count * Size(t));
      && Appended(w.sink.bytes, s.bytes, HeaderBytes(h))
      && w.sink.room + |w.sink.bytes| == s.room + |s.bytes|
      && (w.error.None? <==> Representable(h) && |HeaderBytes(h)| <= s.room)
      && (w.error.None? ==> w.sink.bytes == s.bytes + HeaderBytes(h))
      && (|HeaderBytes(h)| <= s.room ==> w.error == HeaderRangeError(h))
      && (w.error != HeaderRangeError(h) ==> w.error == Some(Failed))
    ensures w.error == Some(ShapeTooLong) ==> w.sink.bytes == s.bytes + MAGIC
  {
    var steps := HeaderSteps(t, shape, count);
    assert steps[0] == Emit(MAGIC);
    assert steps[1] == Check(|shape| <= U32_MAX, ShapeTooLong);
    if |shape| > U32_MAX && 4 <= s.room then
      var s' := Sink(s.bytes + MAGIC, s.room - 4);
      assert Run(s, steps) == Run(s', steps[1..]);
      assert steps[1..][0] == Check(false, ShapeTooLong);
      Run(s, steps)
    else
      Run(s, steps)
  }

  /** `write_data` on the per-element path: the elements' encodings in row-major order. The
      only possible error is a write failure for want of room. */
  function WriteData(s: Sink, t: DataType, xs: seq<int>): (w: Written)
    requires Holds(t, xs)
    ensures Appended(w.sink.bytes, s.bytes, PayloadBytes(t, xs))
    ensures w.sink.room + |w.sink.bytes| == s.room + |s.bytes|
    ensures w.error.None? <==> |PayloadBytes(t, xs)| <= s.room
    ensures w.error.None? ==> w.sink.bytes == s.bytes + PayloadBytes(t, xs)
    ensures w.error.Some? ==> w.error == Some(Failed)
  {
    Run(s, DataSteps(t, xs))
  }

  /** A write that stopped within a also stopped within a + b. */
  lemma AppendedMore(out: seq<byte>, pre: seq<byte>, a: seq<byte>, b: seq<byte>)
    requires Appended(out, pre, a)
    ensures Appended(out, pre, a + b)
  {
    assert (a + b)[..|out[|pre|..]|] == a[..|out[|pre|..]|];
  }

  /** `write_sane`: the header, then the payload, stopping at the first error. */
  function WriteSane(s: Sink, t: DataType, a: NdArray): (w: Written)
    requires Holds(t, a.data)
    ensures Appended(w.sink.bytes, s.bytes, Encode(t, a))
    ensures w.sink.room + |w.sink.bytes| == s.room + |s.bytes|
    ensures w.error.None? <==> Representable(RecordHeader(t, a)) && |Encode(t, a)| <= s.room
    ensures w.error.None? ==> w.sink.bytes == s.bytes + Encode(t, a)
    ensures |Encode(t, a)| <= s.room ==> w.error == HeaderRangeError(RecordHeader(t, a))
    ensures w.error != HeaderRangeError(RecordHeader(t, a)) ==>
      w.error == Some(Failed) && s.room < |Encode(t, a)|
    ensures w.error == Some(ShapeTooLong) ==> w.sink.bytes == s.bytes + MAGIC
  {
    var h := RecordHeader(t, a);
    var hb := HeaderBytes(h);
    var pb := PayloadBytes(t, a.data);
    var e := Encode(t, a);
    assert e == hb + pb && |e| == |hb| + |pb|;
    var w := WriteHeader(s, t, a.shape, |a.data|);
    if w.error.Some? then
      AppendedMore(w.sink.bytes, s.bytes, hb, pb);
      assert !(Representable(h) && |e| <= s.room);
      w
    else
      assert Representable(h) && HeaderRangeError(h).None? && w.sink.room == s.room - |hb|;
      var w2 := WriteData(w.sink, t, a.data);
      AppendedAfter(w2.sink.bytes, s.bytes, hb, pb);
      assert w2.error.None? <==> |e| <= s.room;
      ConcatAssoc3(s.bytes, hb, pb);
      w2
  }
}
