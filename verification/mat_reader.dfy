/**
  `MatReader`: reads a MAT-file from its start. Besides the source it keeps
  the byte-swap flag, which reading the header sets, the header it has read,
  if any, and the position of the next top-level tag, which each
  `ReadNextElementTag` advances. The functions below say what each composite
  operation does to that state; the class carries them out step by step.
*/
module MatReaders {
  import opened Base
  import opened MatDataTypes
  import opened ElementTags
  import opened Sources
  import opened Text
  import opened Elements
  import opened Headers
  import Codec

  /** The byte-order word of a file written on a machine of the reader's own order. */
  const NativeIndicator: int16 := 19785
  /** The byte-order word of a file written in the other order. */
  const SwappedIndicator: int16 := 18765

  /** What the reader knows between calls. */
  datatype ReaderState = ReaderState(src: Source, swap: bool, hasHeader: bool, nextTagPos: nat)

  /** A result and the reader state it leaves. */
  datatype Outcome<+T> = Outcome(result: Result<T>, state: ReaderState)

  /** The byte-order word decides the swap flag; any other value is invalid data. */
  function SwapForIndicator(indicator: int16): Result<bool>
  {
    if indicator == NativeIndicator then Ok(false)
    else if indicator == SwappedIndicator then Ok(true)
    else Err(InvalidData)
  }

  /** The result of `ReadHeader` and where it leaves the source and the swap flag. */
  datatype HeaderRead = HeaderRead(result: Result<HeaderFields>, after: Source, swap: bool)

  /** The four parts of the header as read: the untrimmed text, the version and the byte-order word. */
  datatype RawHeader = RawHeader(text: string, version: int16, indicator: int16)

  /**
    From the start of the file: 116 characters, 8 bytes skipped on the outer
    stream, then two 16-bit words read with the swap flag as it was.
  */
  function ReadRawHeaderSpec(start: Source, swap: bool, machineLittleEndian: bool): Step<RawHeader>
  {
    var text := Codec.ReadChars(start, 116);
    if text.result.Err? then Step(Err(text.result.error), text.after)
    else
      var skipped := text.after.(pos := text.after.pos + 8);
      var version := Codec.ReadInt16(skipped, swap, machineLittleEndian);
      if version.result.Err? then Step(Err(version.result.error), version.after)
      else
        var indicator := Codec.ReadInt16(version.after, swap, machineLittleEndian);
        if indicator.result.Err? then Step(Err(indicator.result.error), indicator.after)
        else Step(Ok(RawHeader(text.result.value, version.result.value, indicator.result.value)), indicator.after)
  }

  /** The source `ReadHeader` reads from: the gate closed and the outer stream back at its start. */
  function Rewound(s: Source): (t: Source)
    ensures !t.Gated() && t.pos == 0 && t.data == s.data
  {
    EndDecompress(s).(pos := 0)
  }

  /**
    `ReadHeader`: closes the gate, goes back to the start, reads the raw
    header, sets the swap flag from the byte-order word, and builds the
    header from the trimmed text, whose setter may still reject it after the
    flag has changed.
  */
  function ReadHeaderSpec(s: Source, swap: bool, machineLittleEndian: bool): HeaderRead
  {
    AdoptHeaderSpec(ReadRawHeaderSpec(Rewound(s), swap, machineLittleEndian), swap)
  }

  /** What `ReadHeader` makes of the raw header, or of the failure reading it. */
  function AdoptHeaderSpec(raw: Step<RawHeader>, swap: bool): HeaderRead
  {
    if raw.result.Err? then HeaderRead(Err(raw.result.error), raw.after, swap)
    else
      var h := raw.result.value;
      match SwapForIndicator(h.indicator)
      case Err(e) => HeaderRead(Err(e), raw.after, swap)
      case Ok(newSwap) =>
        var trimmed := Trim(h.text);
        if CheckText(trimmed).Err? then HeaderRead(Err(Argument), raw.after, newSwap)
        else HeaderRead(Ok(HeaderFields(trimmed, h.version, newSwap)), raw.after, newSwap)
  }

  /** The header read as the first step of `ReadNextElementTag` when none is cached. */
  function EnsureHeader(st: ReaderState, machineLittleEndian: bool): Outcome<()>
  {
    if st.hasHeader then Outcome(Ok(()), st)
    else
      var h := ReadHeaderSpec(st.src, st.swap, machineLittleEndian);
      if h.result.Err? then Outcome(Err(h.result.error), st.(src := h.after, swap := h.swap))
      else Outcome(Ok(()), ReaderState(h.after, h.swap, true, h.after.pos))
  }

  /**
    Opening a compressed element's payload: 2 bytes of zlib header are
    skipped on the outer stream and the other `DataSize - 2` bytes are
    inflated; reads come from the inflated bytes from then on.
  */
  function OpenCompressedSpec(s: Source, tag: MatElementTag, inflate: seq<byte> -> seq<byte>): Step<()>
  {
    BeginDecompress(s.(pos := s.pos + 2), Wrap32(ToInt32(tag.dataSize) - 2), inflate)
  }

  /**
    The part of `ReadNextElementTag` after the header: go to the next tag
    position on the outer stream; at or past the end there is no element;
    otherwise read the tag, move the next tag position on by `8 + DataSize`
    in 32-bit unsigned arithmetic, and for a compressed element return the
    tag inside it.
  */
  function NextTagSpec(st: ReaderState, machineLittleEndian: bool, inflate: seq<byte> -> seq<byte>): Outcome<Option<MatElementTag>>
  {
    var s := EndDecompress(st.src).(pos := st.nextTagPos);
    if s.pos >= |s.data| then Outcome(Ok(None), st.(src := s))
    else TagAtSpec(st.(src := s), machineLittleEndian, inflate)
  }

  /** The tag at the current position, before the end of the stream. */
  function TagAtSpec(st: ReaderState, machineLittleEndian: bool, inflate: seq<byte> -> seq<byte>): Outcome<Option<MatElementTag>>
  {
    var tag := Codec.ReadElementTag(st.src, st.swap, machineLittleEndian);
    if tag.result.Err? then Outcome(Err(tag.result.error), st.(src := tag.after))
    else FollowTagSpec(st.(src := tag.after), tag.result.value, machineLittleEndian, inflate)
  }

  /**
    Once tag `t` is read: the next tag position moves on by `8 + DataSize`,
    and a compressed element is opened to read the tag inside it.
  */
  function FollowTagSpec(st: ReaderState, t: MatElementTag, machineLittleEndian: bool, inflate: seq<byte> -> seq<byte>): Outcome<Option<MatElementTag>>
  {
    var next := st.nextTagPos + WrapU32(8 + t.dataSize);
    if t.dataType != MiCompressed then Outcome(Ok(Some(t)), st.(nextTagPos := next))
    else
      var gated := OpenCompressedSpec(st.src, t, inflate);
      if gated.result.Err? then Outcome(Err(gated.result.error), st.(src := gated.after, nextTagPos := next))
      else
        var inner := Codec.ReadElementTag(gated.after, st.swap, machineLittleEndian);
        if inner.result.Err? then Outcome(Err(inner.result.error), st.(src := inner.after, nextTagPos := next))
        else Outcome(Ok(Some(inner.result.value)), st.(src := inner.after, nextTagPos := next))
  }

  /** `ReadNextElementTag`: the header if none is cached, then the next tag. */
  function ReadNextElementTagSpec(st: ReaderState, machineLittleEndian: bool, inflate: seq<byte> -> seq<byte>): Outcome<Option<MatElementTag>>
  {
    var h := EnsureHeader(st, machineLittleEndian);
    if h.result.Err? then Outcome(Err(h.result.error), h.state)
    else NextTagSpec(h.state, machineLittleEndian, inflate)
  }

  /**
    `ReadMatrixHeader`: the flags tag and the two flag words, the dimensions
    tag and `(int)DataSize / 4` 32-bit integers, the name tag and
    `(int)DataSize` characters, with no padding skipped in between.
  */
  function ReadMatrixHeaderSpec(s: Source, swap: bool, machineLittleEndian: bool): Step<MatMatrixHeader>
  {
    var flagsTag := Codec.ReadElementTag(s, swap, machineLittleEndian);
    if flagsTag.result.Err? then Step(Err(flagsTag.result.error), flagsTag.after)
    else
      var flags := Codec.ReadArrayFlags(flagsTag.after, swap, machineLittleEndian);
      if flags.result.Err? then Step(Err(flags.result.error), flags.after)
      else MatrixHeaderDimsSpec(flags.after, flags.result.value, swap, machineLittleEndian)
  }

  /** The rest of `ReadMatrixHeader` once the flags are read: the dimensions tag and the dimensions. */
  function MatrixHeaderDimsSpec(s: Source, flags: MatArrayFlags, swap: bool, machineLittleEndian: bool): Step<MatMatrixHeader>
  {
    var dimsTag := Codec.ReadElementTag(s, swap, machineLittleEndian);
    if dimsTag.result.Err? then Step(Err(dimsTag.result.error), dimsTag.after)
    else
      var dims := Codec.ReadInt32Array(dimsTag.after, DivT(ToInt32(dimsTag.result.value.dataSize), 4), swap, machineLittleEndian);
      if dims.result.Err? then Step(Err(dims.result.error), dims.after)
      else MatrixHeaderNameSpec(dims.after, flags, dims.result.value, swap, machineLittleEndian)
  }

  /** The rest of `ReadMatrixHeader` once the dimensions are read: the name tag and the name. */
  function MatrixHeaderNameSpec(s: Source, flags: MatArrayFlags, dims: seq<int32>, swap: bool, machineLittleEndian: bool): Step<MatMatrixHeader>
  {
    var nameTag := Codec.ReadElementTag(s, swap, machineLittleEndian);
    if nameTag.result.Err? then Step(Err(nameTag.result.error), nameTag.after)
    else
      var name := Codec.ReadChars(nameTag.after, ToInt32(nameTag.result.value.dataSize));
      if name.result.Err? then Step(Err(name.result.error), name.after)
      else Step(Ok(MatMatrixHeader(flags, dims, name.result.value)), name.after)
  }

  class MatReader {
    const data: seq<byte>
    const inflate: seq<byte> -> seq<byte>
    const machineLittleEndian: bool
    var pos: nat
    var gate: Gate
    var requiresByteSwapping: bool
    var header: MatHeader?
    var nextTagPos: nat
    var disposed: bool

    function Src(): Source
      reads this
    {
      Source(data, pos, gate)
    }

    function State(): ReaderState
      reads this
    {
      ReaderState(Src(), requiresByteSwapping, header != null, nextTagPos)
    }

    /** A reader at the start of the given bytes, with no header read yet. */
    constructor (data: seq<byte>, inflate: seq<byte> -> seq<byte>, machineLittleEndian: bool)
      ensures State() == ReaderState(Source(data, 0, Direct), false, false, 0)
      ensures this.inflate == inflate && this.machineLittleEndian == machineLittleEndian && !disposed
    {
      this.data := data;
      this.inflate := inflate;
      this.machineLittleEndian := machineLittleEndian;
      pos := 0;
      gate := Direct;
      requiresByteSwapping := false;
      header := null;
      nextTagPos := 0;
      disposed := false;
    }

    /** The `RequiresByteSwapping` setter. */
    method SetRequiresByteSwapping(value: bool)
      modifies this
      ensures requiresByteSwapping == value
      ensures Src() == old(Src()) && header == old(header) && nextTagPos == old(nextTagPos) && disposed == old(disposed)
    {
      requiresByteSwapping := value;
    }

    /** `CurrentStream.Read` followed by the short-read check. */
    method ReadRaw(n: nat) returns (r: Result<seq<byte>>)
      modifies this
      ensures Step(r, Src()) == Sources.ReadRaw(old(Src()), n)
      ensures requiresByteSwapping == old(requiresByteSwapping) && header == old(header)
      ensures nextTagPos == old(nextTagPos) && disposed == old(disposed)
    {
      var rem := Src().Remaining();
      var got := if n <= |rem| then n else |rem|;
      match gate {
        case Direct => pos := pos + got;
        case Inflating(inflated, at) => gate := Inflating(inflated, at + got);
      }
      if got < n {
        return Err(EndOfStream);
      }
      return Ok(rem[..n]);
    }

    /** The typed reads (`ReadByte`, `ReadUInt16` ... `ReadDouble`) through `ReadByteArray`. */
    method ReadValue(k: Codec.NumKind) returns (r: Result<Num>)
      modifies this
      ensures Step(r, Src()) == Guarded(old(disposed), old(Src()), Codec.ReadValue(old(Src()), k, requiresByteSwapping, machineLittleEndian))
      ensures requiresByteSwapping == old(requiresByteSwapping) && header == old(header)
      ensures nextTagPos == old(nextTagPos) && disposed == old(disposed)
    {
      if disposed {
        return Err(ObjectDisposed);
      }
      var raw := ReadRaw(Codec.Width(k));
      if raw.Err? {
        return Err(raw.error);
      }
      return Ok(Codec.Convert(Codec.Swapped(raw.value, requiresByteSwapping), k, machineLittleEndian));
    }

    /** `ReadUInt32`. */
    method ReadUInt32() returns (r: Result<uint32>)
      modifies this
      ensures Step(r, Src()) == Guarded(old(disposed), old(Src()), Codec.ReadUInt32(old(Src()), requiresByteSwapping, machineLittleEndian))
      ensures requiresByteSwapping == old(requiresByteSwapping) && header == old(header)
      ensures nextTagPos == old(nextTagPos) && disposed == old(disposed)
    {
      ghost var s := Src();
      Codec.ReadUInt32Typed(s, requiresByteSwapping, machineLittleEndian);
      var v := ReadValue(Codec.UInt32);
      if v.Err? {
        return Err(v.error);
      }
      return Ok(v.value.value);
    }

    /** `ReadInt16`. */
    method ReadInt16() returns (r: Result<int16>)
      modifies this
      ensures Step(r, Src()) == Guarded(old(disposed), old(Src()), Codec.ReadInt16(old(Src()), requiresByteSwapping, machineLittleEndian))
      ensures requiresByteSwapping == old(requiresByteSwapping) && header == old(header)
      ensures nextTagPos == old(nextTagPos) && disposed == old(disposed)
    {
      ghost var s := Src();
      var v := ReadValue(Codec.Int16);
      if v.Err? {
        return Err(v.error);
      }
      assert Codec.ReadInt16(s, requiresByteSwapping, machineLittleEndian).result == Ok(v.value.value);
      return Ok(v.value.value);
    }

    /** `ReadInt32`. */
    method ReadInt32() returns (r: Result<int32>)
      modifies this
      ensures Step(r, Src()) == Guarded(old(disposed), old(Src()), Codec.ReadInt32(old(Src()), requiresByteSwapping, machineLittleEndian))
      ensures requiresByteSwapping == old(requiresByteSwapping) && header == old(header)
      ensures nextTagPos == old(nextTagPos) && disposed == old(disposed)
    {
      ghost var s := Src();
      var v := ReadValue(Codec.Int32);
      if v.Err? {
        return Err(v.error);
      }
      assert Codec.ReadInt32(s, requiresByteSwapping, machineLittleEndian).result == Ok(v.value.value);
      return Ok(v.value.value);
    }

    /** `ReadInt32Array(count)`: an array of `count` integers filled one read at a time. */
    method ReadInt32Array(count: int) returns (r: Result<seq<int32>>)
      modifies this
      ensures Step(r, Src()) == Guarded(old(disposed), old(Src()), Codec.ReadInt32Array(old(Src()), count, requiresByteSwapping, machineLittleEndian))
      ensures requiresByteSwapping == old(requiresByteSwapping) && header == old(header)
      ensures nextTagPos == old(nextTagPos) && disposed == old(disposed)
    {
      if disposed {
        return Err(ObjectDisposed);
      }
      if count < 0 {
        return Err(Overflow);
      }
      r := ReadInt32s(count);
    }

    /** The loop of `ReadInt32Array`. */
    method ReadInt32s(count: nat) returns (r: Result<seq<int32>>)
      requires !disposed
      modifies this
      ensures Step(r, Src()) == Codec.ReadInt32s(old(Src()), count, requiresByteSwapping, machineLittleEndian)
      ensures requiresByteSwapping == old(requiresByteSwapping) && header == old(header)
      ensures nextTagPos == old(nextTagPos) && !disposed
    {
      ghost var swap := requiresByteSwapping;
      ghost var cur := Src();
      ghost var spec := Codec.ReadInt32s(cur, count, swap, machineLittleEndian);
      ghost var rest := spec;
      var result := new int32[count];
      var ii := 0;
      ghost var left := count;
      PrependNothing(spec);
      while ii < count
        invariant 0 <= ii <= count && left == count - ii
        invariant requiresByteSwapping == swap && header == old(header)
        invariant nextTagPos == old(nextTagPos) && !disposed && cur == Src()
        invariant rest == Codec.ReadInt32s(cur, left, swap, machineLittleEndian)
        invariant spec == Prepend(result[..ii], rest)
      {
        var e;
        e, cur, rest, left := ReadInt32Into(result, ii, left, spec, swap, cur, rest);
        if e.Some? {
          return Err(e.value);
        }
        ii := ii + 1;
      }
      assert result[..count] + [] == result[..];
      return Ok(result[..]);
    }

    /** One pass of the loop of `ReadInt32Array`. */
    method ReadInt32Into(result: array<int32>, ii: nat, ghost left: nat, ghost spec: Step<seq<int32>>, ghost swap: bool,
                         ghost cur: Source, ghost rest: Step<seq<int32>>)
      returns (e: Option<Error>, ghost next: Source, ghost nextRest: Step<seq<int32>>, ghost nextLeft: nat)
      requires !disposed && requiresByteSwapping == swap && cur == Src() && ii < result.Length && left == result.Length - ii
      requires rest == Codec.ReadInt32s(cur, left, swap, machineLittleEndian)
      requires spec == Prepend(result[..ii], rest)
      modifies this, result
      ensures requiresByteSwapping == swap && header == old(header)
      ensures nextTagPos == old(nextTagPos) && !disposed && next == Src()
      ensures e.Some? ==> spec == Step(Err(e.value), next)
      ensures e.None? ==> nextLeft == left - 1 && nextRest == Codec.ReadInt32s(next, nextLeft, swap, machineLittleEndian)
      ensures e.None? ==> spec == Prepend(result[..ii + 1], nextRest)
    {
      var v := ReadInt32();
      next := Src();
      nextLeft := left - 1;
      nextRest := Codec.ReadInt32s(next, nextLeft, swap, machineLittleEndian);
      if v.Err? {
        Codec.ReadInt32sFails(cur, left, swap, machineLittleEndian, v.error, next);
        return Some(v.error), next, nextRest, nextLeft;
      }
      Codec.ReadInt32sUnfold(cur, left, nextLeft, swap, machineLittleEndian, v.value, next);
      ghost var prefix := result[..ii];
      PrependStep(spec, prefix, rest, v.value, nextRest);
      result[ii] := v.value;
      assert result[..ii + 1] == prefix + [v.value];
      return None, next, nextRest, nextLeft;
    }

    /** `ReadChars(count)` and `ReadString(count)`: one byte per character, from the active stream. */
    method ReadString(count: int) returns (r: Result<string>)
      modifies this
      ensures Step(r, Src()) == Guarded(old(disposed), old(Src()), Codec.ReadChars(old(Src()), count))
      ensures requiresByteSwapping == old(requiresByteSwapping) && header == old(header)
      ensures nextTagPos == old(nextTagPos) && disposed == old(disposed)
    {
      if disposed {
        return Err(ObjectDisposed);
      }
      if count < 0 {
        return Err(Overflow);
      }
      var buffer := ReadRaw(count);
      if buffer.Err? {
        return Err(buffer.error);
      }
      return Ok(DecodeChars(buffer.value));
    }

    /** `ReadElementTag`: a packed tag when the first word is above 256, otherwise two words. */
    method ReadElementTag() returns (r: Result<MatElementTag>)
      modifies this
      ensures Step(r, Src()) == Guarded(old(disposed), old(Src()), Codec.ReadElementTag(old(Src()), requiresByteSwapping, machineLittleEndian))
      ensures requiresByteSwapping == old(requiresByteSwapping) && header == old(header)
      ensures nextTagPos == old(nextTagPos) && disposed == old(disposed)
    {
      if disposed {
        return Err(ObjectDisposed);
      }
      var first := ReadUInt32();
      if first.Err? {
        return Err(first.error);
      }
      var w := first.value;
      if w > 256 {
        return Ok(MatElementTag(w % 0x1_0000, w / 0x1_0000));
      }
      var size := ReadUInt32();
      if size.Err? {
        return Err(size.error);
      }
      return Ok(MatElementTag(w, size.value));
    }

    /** `Skip(count)`: a seek of the outer stream, whether or not the gate is open. */
    method Skip(count: int) returns (r: Result<()>)
      modifies this
      ensures Step(r, Src()) == Guarded(old(disposed), old(Src()), SeekOuter(old(Src()), count))
      ensures requiresByteSwapping == old(requiresByteSwapping) && header == old(header)
      ensures nextTagPos == old(nextTagPos) && disposed == old(disposed)
    {
      if disposed {
        return Err(ObjectDisposed);
      }
      if pos + count < 0 {
        return Err(SeekBeforeBegin);
      }
      pos := pos + count;
      return Ok(());
    }

    /** `BeginDecompress(count)`: reads `count` outer bytes and reads their inflated form from then on. */
    method BeginDecompress(count: int) returns (r: Result<()>)
      modifies this
      ensures Step(r, Src()) == Guarded(old(disposed), old(Src()), Sources.BeginDecompress(old(Src()), count, inflate))
      ensures requiresByteSwapping == old(requiresByteSwapping) && header == old(header)
      ensures nextTagPos == old(nextTagPos) && disposed == old(disposed)
    {
      if disposed {
        return Err(ObjectDisposed);
      }
      if count < 0 {
        return Err(Overflow);
      }
      var outer := Src().OuterRemaining();
      if |outer| < count {
        pos := pos + |outer|;
        return Err(EndOfStream);
      }
      pos := pos + count;
      gate := Inflating(inflate(outer[..count]), 0);
      return Ok(());
    }

    /** `EndDecompress`: reads come from the outer stream again. */
    method EndDecompress() returns (r: Result<()>)
      modifies this
      ensures Step(r, Src()) == Guarded(old(disposed), old(Src()), Step(Ok(()), Sources.EndDecompress(old(Src()))))
      ensures requiresByteSwapping == old(requiresByteSwapping) && header == old(header)
      ensures nextTagPos == old(nextTagPos) && disposed == old(disposed)
    {
      if disposed {
        return Err(ObjectDisposed);
      }
      gate := Direct;
      return Ok(());
    }

    /** The reads of `ReadHeader` after the rewind, up to the byte-order word. */
    method ReadRawHeader() returns (r: Result<RawHeader>)
      requires !disposed
      modifies this
      ensures Step(r, Src()) == ReadRawHeaderSpec(old(Src()), requiresByteSwapping, machineLittleEndian)
      ensures requiresByteSwapping == old(requiresByteSwapping) && header == old(header)
      ensures nextTagPos == old(nextTagPos) && disposed == old(disposed)
    {
      var text := ReadString(116);
      if text.Err? {
        return Err(text.error);
      }
      var skipped := Skip(8);
      var version := ReadInt16();
      if version.Err? {
        return Err(version.error);
      }
      var indicator := ReadInt16();
      if indicator.Err? {
        return Err(indicator.error);
      }
      return Ok(RawHeader(text.value, version.value, indicator.value));
    }

    /**
      `ReadHeader`. On success the header is cached and the next tag is
      expected right after it; a failure leaves the cached header as it was.
    */
    method ReadHeader() returns (r: Result<MatHeader>)
      modifies this
      ensures old(disposed) ==> r == Err(ObjectDisposed) && State() == old(State())
      ensures !old(disposed) ==>
        var spec := ReadHeaderSpec(old(Src()), old(requiresByteSwapping), machineLittleEndian);
        && Src() == spec.after && requiresByteSwapping == spec.swap
        && (r.Err? ==> Err(r.error) == spec.result && header == old(header) && nextTagPos == old(nextTagPos))
        && (r.Ok? ==>
              && spec.result.Ok? && fresh(r.value) && header == r.value
              && nextTagPos == spec.after.pos && r.value.Fields() == spec.result.value)
      ensures disposed == old(disposed)
    {
      if disposed {
        return Err(ObjectDisposed);
      }
      Rewind();
      var raw := ReadRawHeader();
      r := AdoptHeader(raw);
    }

    /** The start of `ReadHeader`: the gate closed and the outer stream back at its start. */
    method Rewind()
      requires !disposed
      modifies this
      ensures Src() == Rewound(old(Src()))
      ensures requiresByteSwapping == old(requiresByteSwapping) && header == old(header)
      ensures nextTagPos == old(nextTagPos) && !disposed
    {
      var closed := EndDecompress();
      if pos != 0 {
        pos := 0;
      }
    }

    /**
      The end of `ReadHeader`: the byte-order word sets the swap flag, then
      the header is built from the trimmed text and cached.
    */
    method AdoptHeader(raw: Result<RawHeader>) returns (r: Result<MatHeader>)
      modifies this
      ensures var spec := AdoptHeaderSpec(Step(raw, old(Src())), old(requiresByteSwapping));
        && Src() == spec.after && requiresByteSwapping == spec.swap
        && (r.Err? ==> Err(r.error) == spec.result && header == old(header) && nextTagPos == old(nextTagPos))
        && (r.Ok? ==>
              && spec.result.Ok? && fresh(r.value) && header == r.value
              && nextTagPos == spec.after.pos && r.value.Fields() == spec.result.value)
      ensures disposed == old(disposed)
    {
      if raw.Err? {
        return Err(raw.error);
      }
      if raw.value.indicator == NativeIndicator {
        requiresByteSwapping := false;
      } else if raw.value.indicator == SwappedIndicator {
        requiresByteSwapping := true;
      } else {
        return Err(InvalidData);
      }
      var created := MatHeader.Create(Trim(raw.value.text), raw.value.version, requiresByteSwapping);
      if created.Err? {
        return Err(created.error);
      }
      header := created.value;
      nextTagPos := pos;
      return Ok(header);
    }

    /** The compressed-element step of `ReadNextElementTag`: skip the zlib header and inflate the rest. */
    method OpenCompressed(tag: MatElementTag) returns (r: Result<()>)
      requires !disposed
      modifies this
      ensures Step(r, Src()) == OpenCompressedSpec(old(Src()), tag, inflate)
      ensures requiresByteSwapping == old(requiresByteSwapping) && header == old(header)
      ensures nextTagPos == old(nextTagPos) && disposed == old(disposed)
    {
      pos := pos + 2;
      r := BeginDecompress(Wrap32(ToInt32(tag.dataSize) - 2));
    }

    /** `ReadNextElementTag` once a header is cached. */
    method NextTag() returns (r: Result<Option<MatElementTag>>)
      requires !disposed
      modifies this
      ensures Outcome(r, State()) == NextTagSpec(old(State()), machineLittleEndian, inflate)
      ensures header == old(header) && disposed == old(disposed)
    {
      var closed := EndDecompress();
      if pos != nextTagPos {
        pos := nextTagPos;
      }
      if pos >= |data| {
        return Ok(None);
      }
      r := TagAt();
    }

    /** The tag at the current position, which is before the end of the stream. */
    method TagAt() returns (r: Result<Option<MatElementTag>>)
      requires !disposed
      modifies this
      ensures Outcome(r, State()) == TagAtSpec(old(State()), machineLittleEndian, inflate)
      ensures header == old(header) && disposed == old(disposed)
    {
      var tag := ReadElementTag();
      if tag.Err? {
        return Err(tag.error);
      }
      r := FollowTag(tag.value);
    }

    /** What follows reading tag `t`. */
    method FollowTag(t: MatElementTag) returns (r: Result<Option<MatElementTag>>)
      requires !disposed
      modifies this
      ensures Outcome(r, State()) == FollowTagSpec(old(State()), t, machineLittleEndian, inflate)
      ensures header == old(header) && disposed == old(disposed)
    {
      nextTagPos := nextTagPos + WrapU32(8 + t.dataSize);
      if t.dataType != MiCompressed {
        return Ok(Some(t));
      }
      var gated := OpenCompressed(t);
      if gated.Err? {
        return Err(gated.error);
      }
      var inner := ReadElementTag();
      if inner.Err? {
        return Err(inner.error);
      }
      return Ok(Some(inner.value));
    }

    /**
      `ReadNextElementTag`: `None` stands for the null the code returns at the
      end of the stream.
    */
    method ReadNextElementTag() returns (r: Result<Option<MatElementTag>>)
      modifies this
      ensures old(disposed) ==> r == Err(ObjectDisposed) && State() == old(State())
      ensures !old(disposed) ==> Outcome(r, State()) == ReadNextElementTagSpec(old(State()), machineLittleEndian, inflate)
      ensures disposed == old(disposed)
    {
      if disposed {
        return Err(ObjectDisposed);
      }
      if header == null {
        var h := ReadHeader();
        if h.Err? {
          return Err(h.error);
        }
      }
      r := NextTag();
    }

    /** `ReadMatrixHeader`: the three sub-elements of a matrix header, read back to back. */
    method ReadMatrixHeader() returns (r: Result<MatMatrixHeader>)
      modifies this
      ensures Step(r, Src()) == Guarded(old(disposed), old(Src()), ReadMatrixHeaderSpec(old(Src()), requiresByteSwapping, machineLittleEndian))
      ensures requiresByteSwapping == old(requiresByteSwapping) && header == old(header)
      ensures nextTagPos == old(nextTagPos) && disposed == old(disposed)
    {
      if disposed {
        return Err(ObjectDisposed);
      }
      var flagsTag := ReadElementTag();
      if flagsTag.Err? {
        return Err(flagsTag.error);
      }
      var flags := ReadUInt32();
      if flags.Err? {
        return Err(flags.error);
      }
      var ignored := ReadUInt32();
      if ignored.Err? {
        return Err(ignored.error);
      }
      var dimsTag := ReadElementTag();
      if dimsTag.Err? {
        return Err(dimsTag.error);
      }
      var dims := ReadInt32Array(DivT(ToInt32(dimsTag.value.dataSize), 4));
      if dims.Err? {
        return Err(dims.error);
      }
      var nameTag := ReadElementTag();
      if nameTag.Err? {
        return Err(nameTag.error);
      }
      var name := ReadString(ToInt32(nameTag.value.dataSize));
      if name.Err? {
        return Err(name.error);
      }
      return Ok(MatMatrixHeader(Codec.DecodeArrayFlags(flags.value), dims.value, name.value));
    }

    /** `Dispose`: every later operation throws `ObjectDisposedException`; disposing again does nothing. */
    method Dispose()
      modifies this
      ensures disposed && State() == old(State())
    {
      disposed := true;
    }
  }
}
