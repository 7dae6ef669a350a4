/**
  `MatFileReader`: reads one top-level element at a time through a stream
  reader. The header is read once, on the first call, by the static
  `ReadHeader`, which reports the byte order in the header it returns but
  does not apply it to the reader. A compressed element is opened and the
  element inside it read instead. A numeric matrix is decoded sub-element by
  sub-element; any other kind of element gives no result, and its payload is
  not skipped.

  The functions below say what each part of `ReadElement` does to the
  source; the class carries the parts out with the stream reader's methods.
*/
module FileReaders {
  import opened Base
  import opened ElementTags
  import opened Sources
  import opened Text
  import opened Elements
  import opened Headers
  import MatDataTypes
  import ByteOrder
  import Codec
  import MatReaders
  import StreamReaders

  /** What `ReadElement` depends on between calls: the source and whether a header is cached. */
  datatype FileState = FileState(src: Source, hasHeader: bool)

  /** A result and the state it leaves. */
  datatype FileOutcome<+T> = FileOutcome(result: Result<T>, state: FileState)

  /**
    The reads of the static `ReadHeader`, from wherever the reader is: 116
    characters, a skip of 8 bytes on the active stream, then two 16-bit
    words in the reader's own byte order.
  */
  function RawHeaderSpec(s: Source, swap: bool, machineLittleEndian: bool): Step<MatReaders.RawHeader>
  {
    var text := Codec.ReadChars(s, 116);
    if text.result.Err? then Step(Err(text.result.error), text.after)
    else
      var skipped := Codec.Skip(text.after, 8);
      if skipped.result.Err? then Step(Err(skipped.result.error), skipped.after)
      else
        var version := Codec.ReadInt16(skipped.after, swap, machineLittleEndian);
        if version.result.Err? then Step(Err(version.result.error), version.after)
        else
          var indicator := Codec.ReadInt16(version.after, swap, machineLittleEndian);
          if indicator.result.Err? then Step(Err(indicator.result.error), indicator.after)
          else Step(Ok(MatReaders.RawHeader(text.result.value, version.result.value, indicator.result.value)), indicator.after)
  }

  /**
    The static `ReadHeader`: the byte-order word must be one of the two
    known ones, and the trimmed text must pass the header's setter. The
    swap flag the word stands for is only recorded in the header.
  */
  function HeaderSpec(s: Source, swap: bool, machineLittleEndian: bool): Step<HeaderFields>
  {
    var h := MatReaders.AdoptHeaderSpec(RawHeaderSpec(s, swap, machineLittleEndian), swap);
    Step(h.result, h.after)
  }

  /**
    The top-level tag: for a compressed element, the tag at the start of its
    inflated payload.
  */
  function TopTagSpec(s: Source, swap: bool, machineLittleEndian: bool, inflate: seq<byte> -> seq<byte>): Step<MatElementTag>
  {
    var tag := Codec.ReadElementTag(s, swap, machineLittleEndian);
    if tag.result.Err? || tag.result.value.dataType != MatDataTypes.MiCompressed then tag
    else InnerTagSpec(tag.after, tag.result.value, swap, machineLittleEndian, inflate)
  }

  /**
    Inside a compressed element with tag `t`: skip the 2-byte zlib header,
    inflate the next `(int)DataSize - 2` outer bytes and read a tag from them.
  */
  function InnerTagSpec(s: Source, t: MatElementTag, swap: bool, machineLittleEndian: bool, inflate: seq<byte> -> seq<byte>): Step<MatElementTag>
  {
    var skipped := Codec.Skip(s, 2);
    if skipped.result.Err? then Step(Err(skipped.result.error), skipped.after)
    else
      var gated := BeginDecompress(skipped.after, Wrap32(ToInt32(t.dataSize) - 2), inflate);
      if gated.result.Err? then Step(Err(gated.result.error), gated.after)
      else Codec.ReadElementTag(gated.after, swap, machineLittleEndian)
  }

  /** The inner tag read stops when the compressed bytes cannot be taken. */
  lemma InnerGateFails(s: Source, t: MatElementTag, swap: bool, machineLittleEndian: bool, inflate: seq<byte> -> seq<byte>, skipped: Step<()>, gated: Step<()>)
    requires skipped == Codec.Skip(s, 2) && skipped.result.Ok?
    requires gated == BeginDecompress(skipped.after, Wrap32(ToInt32(t.dataSize) - 2), inflate) && gated.result.Err?
    ensures InnerTagSpec(s, t, swap, machineLittleEndian, inflate) == Step(Err(gated.result.error), gated.after)
  {
    var count := Wrap32(ToInt32(t.dataSize) - 2);
    assert gated == BeginDecompress(Codec.Skip(s, 2).after, count, inflate);
  }

  /** Otherwise the inner tag is the first tag of the inflated bytes. */
  lemma InnerGateOpens(s: Source, t: MatElementTag, swap: bool, machineLittleEndian: bool, inflate: seq<byte> -> seq<byte>, skipped: Step<()>, gated: Step<()>)
    requires skipped == Codec.Skip(s, 2) && skipped.result.Ok?
    requires gated == BeginDecompress(skipped.after, Wrap32(ToInt32(t.dataSize) - 2), inflate) && gated.result.Ok?
    ensures InnerTagSpec(s, t, swap, machineLittleEndian, inflate) == Codec.ReadElementTag(gated.after, swap, machineLittleEndian)
  {
    var count := Wrap32(ToInt32(t.dataSize) - 2);
    assert gated == BeginDecompress(Codec.Skip(s, 2).after, count, inflate);
  }

  /** A matrix element's payload, first part: the flags sub-element's tag and its two words. */
  function MatrixSpec(s: Source, tag: MatElementTag, swap: bool, machineLittleEndian: bool): Step<MiMatrix>
  {
    var flagsTag := Codec.ReadElementTag(s, swap, machineLittleEndian);
    if flagsTag.result.Err? then Step(Err(flagsTag.result.error), flagsTag.after)
    else
      var flags := Codec.ReadArrayFlags(flagsTag.after, swap, machineLittleEndian);
      if flags.result.Err? then Step(Err(flags.result.error), flags.after)
      else DimensionsSpec(flags.after, tag, flags.result.value, swap, machineLittleEndian)
  }

  /** Second part: the dimensions tag, `(int)DataSize / 4` 32-bit integers, then the padding. */
  function DimensionsSpec(s: Source, tag: MatElementTag, flags: MatArrayFlags, swap: bool, machineLittleEndian: bool): Step<MiMatrix>
  {
    var dimsTag := Codec.ReadElementTag(s, swap, machineLittleEndian);
    if dimsTag.result.Err? then Step(Err(dimsTag.result.error), dimsTag.after)
    else
      var t := dimsTag.result.value;
      var dims := Codec.ReadInt32Array(dimsTag.after, DivT(ToInt32(t.dataSize), 4), swap, machineLittleEndian);
      if dims.result.Err? then Step(Err(dims.result.error), dims.after)
      else
        var padded := Codec.Skip(dims.after, t.PaddingBytes());
        if padded.result.Err? then Step(Err(padded.result.error), padded.after)
        else NameSpec(padded.after, tag, flags, dims.result.value, swap, machineLittleEndian)
  }

  /** Third part: the name tag, `(int)DataSize` characters, then the padding. */
  function NameSpec(s: Source, tag: MatElementTag, flags: MatArrayFlags, dims: seq<int32>, swap: bool, machineLittleEndian: bool): Step<MiMatrix>
  {
    var nameTag := Codec.ReadElementTag(s, swap, machineLittleEndian);
    if nameTag.result.Err? then Step(Err(nameTag.result.error), nameTag.after)
    else
      var t := nameTag.result.value;
      var name := Codec.ReadChars(nameTag.after, ToInt32(t.dataSize));
      if name.result.Err? then Step(Err(name.result.error), name.after)
      else
        var padded := Codec.Skip(name.after, t.PaddingBytes());
        if padded.result.Err? then Step(Err(padded.result.error), padded.after)
        else ValuesSpec(padded.after, tag, flags, dims, name.result.value, swap, machineLittleEndian)
  }

  /** Last part: the values tag, `NumValues` values of its kind, then the padding; the matrix is built. */
  function ValuesSpec(s: Source, tag: MatElementTag, flags: MatArrayFlags, dims: seq<int32>, name: string, swap: bool, machineLittleEndian: bool): Step<MiMatrix>
  {
    var valuesTag := Codec.ReadElementTag(s, swap, machineLittleEndian);
    if valuesTag.result.Err? then Step(Err(valuesTag.result.error), valuesTag.after)
    else
      var t := valuesTag.result.value;
      var values := Codec.ReadValuesForTag(valuesTag.after, t, swap, machineLittleEndian);
      if values.result.Err? then Step(Err(values.result.error), values.after)
      else
        var padded := Codec.Skip(values.after, t.PaddingBytes());
        if padded.result.Err? then Step(Err(padded.result.error), padded.after)
        else Step(Ok(MiMatrix(tag, flags, name, dims, values.result.value)), padded.after)
  }

  /** One element once the gate is closed: a matrix, or nothing for any other kind. */
  function ElementSpec(s: Source, swap: bool, machineLittleEndian: bool, inflate: seq<byte> -> seq<byte>): Step<Option<MiMatrix>>
  {
    var top := TopTagSpec(s, swap, machineLittleEndian, inflate);
    if top.result.Err? then Step(Err(top.result.error), top.after)
    else if top.result.value.dataType != MatDataTypes.MiMatrix then Step(Ok(None), top.after)
    else
      var matrix := MatrixSpec(top.after, top.result.value, swap, machineLittleEndian);
      if matrix.result.Err? then Step(Err(matrix.result.error), matrix.after)
      else Step(Ok(Some(matrix.result.value)), matrix.after)
  }

  /** `ReadElement` once the header is cached: close the gate, then read one element. */
  function NextElementSpec(st: FileState, swap: bool, machineLittleEndian: bool, inflate: seq<byte> -> seq<byte>): FileOutcome<Option<MiMatrix>>
  {
    var e := ElementSpec(EndDecompress(st.src), swap, machineLittleEndian, inflate);
    FileOutcome(e.result, st.(src := e.after))
  }

  /**
    `ReadElement`: on a disposed reader the first read throws; otherwise the
    header if none is cached, then the next element.
  */
  function ReadElementSpec(st: FileState, disposed: bool, swap: bool, machineLittleEndian: bool, inflate: seq<byte> -> seq<byte>): FileOutcome<Option<MiMatrix>>
  {
    if disposed then FileOutcome(Err(ObjectDisposed), st)
    else if st.hasHeader then NextElementSpec(st, swap, machineLittleEndian, inflate)
    else
      var h := HeaderSpec(st.src, swap, machineLittleEndian);
      if h.result.Err? then FileOutcome(Err(h.result.error), FileState(h.after, false))
      else NextElementSpec(FileState(h.after, true), swap, machineLittleEndian, inflate)
  }

  class MatFileReader {
    const reader: StreamReaders.MatStreamReader
    var header: MatHeader?

    function State(): FileState
      reads this, reader
    {
      FileState(reader.Src(), header != null)
    }

    /** A file reader over a new stream reader at the start of the given bytes. */
    constructor (data: seq<byte>, inflate: seq<byte> -> seq<byte>, machineLittleEndian: bool, initial: ByteOrder.Endianness)
      ensures fresh(reader) && header == null
      ensures reader.Src() == Source(data, 0, Direct) && !reader.disposed
      ensures reader.inflate == inflate && reader.machineLittleEndian == machineLittleEndian && reader.endianness == initial
    {
      reader := new StreamReaders.MatStreamReader(data, inflate, machineLittleEndian, initial);
      header := null;
    }

    /**
      The static `ReadHeader`. The reader's byte order is left as it was,
      whatever the byte-order word says.
    */
    static method ReadHeader(reader: StreamReaders.MatStreamReader) returns (r: Result<MatHeader>)
      modifies reader
      ensures var spec := Guarded(old(reader.disposed), old(reader.Src()), HeaderSpec(old(reader.Src()), old(reader.Swap()), reader.machineLittleEndian));
        && reader.Src() == spec.after
        && (r.Ok? <==> spec.result.Ok?)
        && (r.Ok? ==> fresh(r.value) && r.value.Fields() == spec.result.value)
        && (r.Err? ==> spec.result == Err(r.error))
      ensures reader.endianness == old(reader.endianness) && reader.disposed == old(reader.disposed)
    {
      var text := reader.ReadString(116);
      if text.Err? {
        return Err(text.error);
      }
      var skipped := reader.Skip(8);
      if skipped.Err? {
        return Err(skipped.error);
      }
      var version := reader.ReadInt16();
      if version.Err? {
        return Err(version.error);
      }
      var indicator := reader.ReadInt16();
      if indicator.Err? {
        return Err(indicator.error);
      }
      var swap := MatReaders.SwapForIndicator(indicator.value);
      if swap.Err? {
        return Err(swap.error);
      }
      r := MatHeader.Create(Trim(text.value), version.value, swap.value);
    }

    /**
      `ReadElement`. The header is read on the first call only; the byte
      order of the reader never changes.
    */
    method ReadElement() returns (r: Result<Option<MiMatrix>>)
      modifies this, reader
      ensures FileOutcome(r, State()) == ReadElementSpec(old(State()), old(reader.disposed), old(reader.Swap()), reader.machineLittleEndian, reader.inflate)
      ensures old(header) != null ==> header == old(header)
      ensures old(header) == null && header != null ==>
        fresh(header) && header.Fields() == HeaderSpec(old(reader.Src()), old(reader.Swap()), reader.machineLittleEndian).result.value
      ensures reader.endianness == old(reader.endianness) && reader.disposed == old(reader.disposed)
    {
      if header == null {
        var h := ReadHeader(reader);
        if h.Err? {
          return Err(h.error);
        }
        header := h.value;
      }
      r := ReadNext();
    }

    /** `ReadElement` after the header: close the gate and read one element. */
    method ReadNext() returns (r: Result<Option<MiMatrix>>)
      modifies reader
      ensures Step(r, reader.Src()) == Guarded(old(reader.disposed), old(reader.Src()),
        ElementSpec(EndDecompress(old(reader.Src())), old(reader.Swap()), reader.machineLittleEndian, reader.inflate))
      ensures reader.endianness == old(reader.endianness) && reader.disposed == old(reader.disposed)
    {
      var closed := reader.EndDecompress();
      if closed.Err? {
        return Err(closed.error);
      }
      var tag := ReadTopTag();
      if tag.Err? {
        return Err(tag.error);
      }
      if tag.value.dataType != MatDataTypes.MiMatrix {
        return Ok(None);
      }
      var matrix := ReadMatrix(tag.value);
      if matrix.Err? {
        return Err(matrix.error);
      }
      return Ok(Some(matrix.value));
    }

    /** The top-level tag, or for a compressed element the tag inside it. */
    method ReadTopTag() returns (r: Result<MatElementTag>)
      requires !reader.disposed
      modifies reader
      ensures Step(r, reader.Src()) == TopTagSpec(old(reader.Src()), old(reader.Swap()), reader.machineLittleEndian, reader.inflate)
      ensures reader.endianness == old(reader.endianness) && !reader.disposed
    {
      r := reader.ReadElementTag();
      if r.Err? || r.value.dataType != MatDataTypes.MiCompressed {
        return;
      }
      r := ReadInnerTag(r.value);
    }

    /** The compressed branch: skip 2, open the gate for `(int)DataSize - 2` bytes, read a tag. */
    method ReadInnerTag(t: MatElementTag) returns (r: Result<MatElementTag>)
      requires !reader.disposed
      modifies reader
      ensures Step(r, reader.Src()) == InnerTagSpec(old(reader.Src()), t, old(reader.Swap()), reader.machineLittleEndian, reader.inflate)
      ensures reader.endianness == old(reader.endianness) && !reader.disposed
    {
      ghost var s0, swap := reader.Src(), reader.Swap();
      // A forward skip never fails: a seek only fails before the start of the stream.
      var skipped := reader.Skip(2);
      ghost var s1 := reader.Src();
      var gated := reader.BeginDecompress(Wrap32(ToInt32(t.dataSize) - 2));
      ghost var s2 := reader.Src();
      if gated.Err? {
        InnerGateFails(s0, t, swap, reader.machineLittleEndian, reader.inflate, Step(skipped, s1), Step(gated, s2));
        return Err(gated.error);
      }
      InnerGateOpens(s0, t, swap, reader.machineLittleEndian, reader.inflate, Step(skipped, s1), Step(gated, s2));
      r := reader.ReadElementTag();
    }

    /** The matrix branch, first part: the flags. */
    method ReadMatrix(tag: MatElementTag) returns (r: Result<MiMatrix>)
      requires !reader.disposed
      modifies reader
      ensures Step(r, reader.Src()) == MatrixSpec(old(reader.Src()), tag, old(reader.Swap()), reader.machineLittleEndian)
      ensures reader.endianness == old(reader.endianness) && !reader.disposed
    {
      var flagsTag := reader.ReadElementTag();
      if flagsTag.Err? {
        return Err(flagsTag.error);
      }
      var flags := reader.ReadArrayFlags();
      if flags.Err? {
        return Err(flags.error);
      }
      r := ReadDimensions(tag, flags.value);
    }

    /** Second part: the dimensions and their padding. */
    method ReadDimensions(tag: MatElementTag, flags: MatArrayFlags) returns (r: Result<MiMatrix>)
      requires !reader.disposed
      modifies reader
      ensures Step(r, reader.Src()) == DimensionsSpec(old(reader.Src()), tag, flags, old(reader.Swap()), reader.machineLittleEndian)
      ensures reader.endianness == old(reader.endianness) && !reader.disposed
    {
      var dimsTag := reader.ReadElementTag();
      if dimsTag.Err? {
        return Err(dimsTag.error);
      }
      var dims := reader.ReadInt32Array(DivT(ToInt32(dimsTag.value.dataSize), 4));
      if dims.Err? {
        return Err(dims.error);
      }
      var padded := reader.Skip(dimsTag.value.PaddingBytes());
      if padded.Err? {
        return Err(padded.error);
      }
      r := ReadName(tag, flags, dims.value);
    }

    /** Third part: the name and its padding. */
    method ReadName(tag: MatElementTag, flags: MatArrayFlags, dims: seq<int32>) returns (r: Result<MiMatrix>)
      requires !reader.disposed
      modifies reader
      ensures Step(r, reader.Src()) == NameSpec(old(reader.Src()), tag, flags, dims, old(reader.Swap()), reader.machineLittleEndian)
      ensures reader.endianness == old(reader.endianness) && !reader.disposed
    {
      var nameTag := reader.ReadElementTag();
      if nameTag.Err? {
        return Err(nameTag.error);
      }
      var name := reader.ReadString(ToInt32(nameTag.value.dataSize));
      if name.Err? {
        return Err(name.error);
      }
      var padded := reader.Skip(nameTag.value.PaddingBytes());
      if padded.Err? {
        return Err(padded.error);
      }
      r := ReadMatrixValues(tag, flags, dims, name.value);
    }

    /** Last part: the values and their padding, and the matrix built from all parts. */
    method ReadMatrixValues(tag: MatElementTag, flags: MatArrayFlags, dims: seq<int32>, name: string) returns (r: Result<MiMatrix>)
      requires !reader.disposed
      modifies reader
      ensures Step(r, reader.Src()) == ValuesSpec(old(reader.Src()), tag, flags, dims, name, old(reader.Swap()), reader.machineLittleEndian)
      ensures reader.endianness == old(reader.endianness) && !reader.disposed
    {
      var valuesTag := reader.ReadElementTag();
      if valuesTag.Err? {
        return Err(valuesTag.error);
      }
      var values := ReadValuesForTag(valuesTag.value);
      if values.Err? {
        return Err(values.error);
      }
      var padded := reader.Skip(valuesTag.value.PaddingBytes());
      if padded.Err? {
        return Err(padded.error);
      }
      return Ok(MiMatrix(tag, flags, name, dims, values.value));
    }

    /**
      `ReadValuesForTag`: `NumValues` values read with the decoder for the
      tag's kind; a kind without a decoder throws `ArgumentOutOfRangeException`.
    */
    method ReadValuesForTag(tag: MatElementTag) returns (r: Result<seq<Num>>)
      requires !reader.disposed
      modifies reader
      ensures Step(r, reader.Src()) == Codec.ReadValuesForTag(old(reader.Src()), tag, old(reader.Swap()), reader.machineLittleEndian)
      ensures reader.endianness == old(reader.endianness) && !reader.disposed
    {
      var kind := Codec.ValueKind(tag.dataType);
      if kind.None? {
        return Err(ArgumentOutOfRange);
      }
      var count := tag.NumValues();
      if count.Err? {
        return Err(count.error);
      }
      r := reader.ReadArray(kind.value, count.value);
    }

    /** `Dispose`: disposes the stream reader, after which every read throws. */
    method Dispose()
      modifies reader
      ensures reader.disposed && reader.Src() == old(reader.Src()) && reader.endianness == old(reader.endianness)
    {
      reader.Dispose();
    }
  }
}
