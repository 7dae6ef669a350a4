/**
  What the functions of `MatReaders` imply about a file: where the header's
  fields lie and how the byte-order word sets the swap flag, that the header
  is read once, what happens at the end of the stream, where the next tag is
  expected and how a compressed element is opened.
*/
module MatReaderFacts {
  import opened Base
  import opened MatDataTypes
  import opened ElementTags
  import opened Sources
  import opened Text
  import opened Headers
  import opened Elements
  import opened ByteOrder
  import opened MatReaders
  import Codec
  import FileReaderFacts

  /**
    The header is the first 128 bytes, whatever the position and gate: 116
    characters, 8 ignored bytes, then the version at offset 124 and the
    byte-order word at 126, both decoded with the swap flag the reader had.
    A file shorter than that ends the stream; a complete header leaves the
    outer stream at offset 128.
  */
  lemma HeaderLayout(s: Source, swap: bool, machineLittleEndian: bool)
    ensures var raw := ReadRawHeaderSpec(Rewound(s), swap, machineLittleEndian);
      && (raw.result.Ok? <==> |s.data| >= 128)
      && (raw.result.Err? ==> raw.result.error == EndOfStream)
      && (raw.result.Ok? ==>
            && raw.result.value.text == DecodeChars(s.data[..116])
            && Integer(raw.result.value.version) == Codec.Denotes(s.data[124..126], Codec.Int16, machineLittleEndian != swap)
            && Integer(raw.result.value.indicator) == Codec.Denotes(s.data[126..128], Codec.Int16, machineLittleEndian != swap)
            && raw.after == Source(s.data, 128, Direct))
  {
    var start := Rewound(s);
    assert start == Source(s.data, 0, Direct);
    assert start.Remaining() == s.data;
    var text := Codec.ReadChars(start, 116);
    if text.result.Ok? {
      var skipped := text.after.(pos := text.after.pos + 8);
      assert skipped.pos == 124 && !skipped.Gated();
      if |s.data| >= 126 {
        assert skipped.Remaining() == s.data[124..];
        assert s.data[124..][..2] == s.data[124..126];
        var version := Codec.ReadInt16(skipped, swap, machineLittleEndian);
        assert version.after.Remaining() == s.data[126..] && !version.after.Gated();
        assert version.after.pos == 126;
        if |s.data| >= 128 {
          assert s.data[126..][..2] == s.data[126..128];
        }
      }
    }
  }

  /** The byte-order word as a machine of the given order writes 19785: the characters 'I' and 'M'. */
  function IndicatorBytes(littleEndian: bool): seq<byte>
  {
    if littleEndian then [0x49, 0x4D] else [0x4D, 0x49]
  }

  lemma IndicatorRead(fileLittleEndian: bool, readLittleEndian: bool)
    ensures Codec.Denotes(IndicatorBytes(fileLittleEndian), Codec.Int16, readLittleEndian)
         == Integer(if fileLittleEndian == readLittleEndian then NativeIndicator as int else SwappedIndicator as int)
  {
    var bs := IndicatorBytes(fileLittleEndian);
    assert Reverse(bs) == [bs[1], bs[0]] by { ReverseTwo(bs); }
    assert LittleEndianValue([0x49, 0x4D]) == 0x4D49 by { LittleEndianTwo(0x49, 0x4D); }
    assert LittleEndianValue([0x4D, 0x49]) == 0x494D by { LittleEndianTwo(0x4D, 0x49); }
  }

  lemma ReverseTwo(bs: seq<byte>)
    requires |bs| == 2
    ensures Reverse(bs) == [bs[1], bs[0]]
  {
    assert Reverse(bs[1..]) == bs[1..] by { assert |bs[1..]| == 1; }
  }

  lemma LittleEndianTwo(a: byte, b: byte)
    ensures LittleEndianValue([a, b]) == a as int + 256 * b as int
  {
    assert [a, b][1..] == [b];
    assert [b][1..] == [];
  }

  /**
    A reader whose swap flag is clear (a new one) sets it exactly when the
    file was written in the other byte order than the machine's.
  */
  lemma FreshReaderSwap(s: Source, machineLittleEndian: bool, fileLittleEndian: bool)
    requires |s.data| >= 128 && s.data[126..128] == IndicatorBytes(fileLittleEndian)
    ensures ReadHeaderSpec(s, false, machineLittleEndian).swap == (fileLittleEndian != machineLittleEndian)
  {
    HeaderLayout(s, false, machineLittleEndian);
    IndicatorRead(fileLittleEndian, machineLittleEndian);
  }

  /**
    The version and byte-order word are read with the flag the reader
    already has, so reading the header of a file in the other byte order a
    second time reads the word swapped and clears the flag again.
  */
  lemma RereadClearsSwap(s: Source, machineLittleEndian: bool, fileLittleEndian: bool)
    requires |s.data| >= 128 && s.data[126..128] == IndicatorBytes(fileLittleEndian)
    requires fileLittleEndian != machineLittleEndian
    ensures var first := ReadHeaderSpec(s, false, machineLittleEndian);
      first.swap && !ReadHeaderSpec(first.after, first.swap, machineLittleEndian).swap
  {
    FreshReaderSwap(s, machineLittleEndian, fileLittleEndian);
    var first := ReadHeaderSpec(s, false, machineLittleEndian);
    HeaderLayout(first.after, true, machineLittleEndian);
    IndicatorRead(fileLittleEndian, !machineLittleEndian);
  }

  /**
    How `ReadHeader` ends once the 128 bytes are read: a byte-order word
    other than the two known ones is invalid data and leaves the flag; a
    known one sets the flag even when the setter then rejects the trimmed
    text; otherwise the header holds the trimmed text and the version.
  */
  lemma HeaderOutcome(s: Source, swap: bool, machineLittleEndian: bool)
    requires |s.data| >= 128
    ensures var raw := ReadRawHeaderSpec(Rewound(s), swap, machineLittleEndian).result.value;
      var h := ReadHeaderSpec(s, swap, machineLittleEndian);
      var text := Trim(DecodeChars(s.data[..116]));
      && h.after == Source(s.data, 128, Direct)
      && (SwapForIndicator(raw.indicator).Err? ==> h.result == Err(InvalidData) && h.swap == swap)
      && (SwapForIndicator(raw.indicator).Ok? ==> h.swap == SwapForIndicator(raw.indicator).value)
      && (SwapForIndicator(raw.indicator).Ok? && !ValidText(text) ==> h.result == Err(Argument))
      && (SwapForIndicator(raw.indicator).Ok? && ValidText(text) ==> h.result == Ok(HeaderFields(text, raw.version, h.swap)))
  {
    HeaderLayout(s, swap, machineLittleEndian);
  }

  /** Once a header is cached it is not read again, and a successful call caches one. */
  lemma HeaderReadOnce(st: ReaderState, machineLittleEndian: bool, inflate: seq<byte> -> seq<byte>)
    ensures st.hasHeader ==> ReadNextElementTagSpec(st, machineLittleEndian, inflate) == NextTagSpec(st, machineLittleEndian, inflate)
    ensures ReadNextElementTagSpec(st, machineLittleEndian, inflate).result.Ok? ==>
      ReadNextElementTagSpec(st, machineLittleEndian, inflate).state.hasHeader
  {
    var h := EnsureHeader(st, machineLittleEndian);
    if h.result.Ok? {
      NextTagKeeps(h.state, machineLittleEndian, inflate);
    }
  }

  /** Looking for the next tag keeps the swap flag and whether a header is cached. */
  lemma NextTagKeeps(st: ReaderState, machineLittleEndian: bool, inflate: seq<byte> -> seq<byte>)
    ensures var o := NextTagSpec(st, machineLittleEndian, inflate);
      o.state.swap == st.swap && o.state.hasHeader == st.hasHeader
  {
    if st.nextTagPos < |st.src.data| {
      NextTagReads(st, machineLittleEndian, inflate);
      TagAtAdvances(st.(src := Source(st.src.data, st.nextTagPos, Direct)), machineLittleEndian, inflate);
    }
  }

  /**
    At or past the end of the stream there is no next element: the reader
    only closes the gate and moves to the next tag position, so asking again
    gives the same answer and the same state.
  */
  lemma EndOfElements(st: ReaderState, machineLittleEndian: bool, inflate: seq<byte> -> seq<byte>)
    requires st.nextTagPos >= |st.src.data|
    ensures var o := NextTagSpec(st, machineLittleEndian, inflate);
      && o.result == Ok(None)
      && o.state == st.(src := Source(st.src.data, st.nextTagPos, Direct))
      && NextTagSpec(o.state, machineLittleEndian, inflate) == o
  {
  }

  /** Before the end of the stream, the next tag is the one at the next tag position on the outer stream. */
  lemma NextTagReads(st: ReaderState, machineLittleEndian: bool, inflate: seq<byte> -> seq<byte>)
    requires st.nextTagPos < |st.src.data|
    ensures NextTagSpec(st, machineLittleEndian, inflate)
         == TagAtSpec(st.(src := Source(st.src.data, st.nextTagPos, Direct)), machineLittleEndian, inflate)
  {
    assert EndDecompress(st.src).(pos := st.nextTagPos) == Source(st.src.data, st.nextTagPos, Direct);
  }

  /** Reading a tag moves the next tag position on by `8 + DataSize`, unless the tag cannot be read. */
  lemma TagAtAdvances(st: ReaderState, machineLittleEndian: bool, inflate: seq<byte> -> seq<byte>)
    ensures var tag := Codec.ReadElementTag(st.src, st.swap, machineLittleEndian);
      var o := TagAtSpec(st, machineLittleEndian, inflate);
      && o.state.swap == st.swap && o.state.hasHeader == st.hasHeader
      && (tag.result.Err? ==> o.result == Err(tag.result.error) && o.state.nextTagPos == st.nextTagPos)
      && (tag.result.Ok? ==> o.state.nextTagPos == st.nextTagPos + WrapU32(8 + tag.result.value.dataSize))
  {
    var tag := Codec.ReadElementTag(st.src, st.swap, machineLittleEndian);
    if tag.result.Ok? {
      TagAtFollows(st, machineLittleEndian, inflate);
      FollowTagAdvances(st.(src := tag.after), tag.result.value, machineLittleEndian, inflate);
    }
  }

  /** Following a tag moves the next tag position on by `8 + DataSize`, whether or not its payload can be opened. */
  lemma FollowTagAdvances(st: ReaderState, t: MatElementTag, machineLittleEndian: bool, inflate: seq<byte> -> seq<byte>)
    ensures var o := FollowTagSpec(st, t, machineLittleEndian, inflate);
      && o.state.swap == st.swap && o.state.hasHeader == st.hasHeader
      && o.state.nextTagPos == st.nextTagPos + WrapU32(8 + t.dataSize)
  {
  }

  /** A tag that was read is followed as `FollowTagSpec` says, from where the tag ended. */
  lemma TagAtFollows(st: ReaderState, machineLittleEndian: bool, inflate: seq<byte> -> seq<byte>)
    requires Codec.ReadElementTag(st.src, st.swap, machineLittleEndian).result.Ok?
    ensures var tag := Codec.ReadElementTag(st.src, st.swap, machineLittleEndian);
      TagAtSpec(st, machineLittleEndian, inflate) == FollowTagSpec(st.(src := tag.after), tag.result.value, machineLittleEndian, inflate)
  {
  }

  /**
    Where the next tag is expected after a tag of `DataSize` n is read at
    position p: at p + 8 + n in 32-bit unsigned arithmetic. For an 8-byte
    tag that is right after its n data bytes; for a packed 4-byte tag it is 4
    bytes past them. A tag that cannot be read leaves the position as it was.
  */
  lemma NextTagPosition(st: ReaderState, machineLittleEndian: bool, inflate: seq<byte> -> seq<byte>)
    requires st.nextTagPos < |st.src.data|
    ensures var p := st.nextTagPos;
      var tag := Codec.ReadElementTag(Source(st.src.data, p, Direct), st.swap, machineLittleEndian);
      var o := NextTagSpec(st, machineLittleEndian, inflate);
      && o.state.swap == st.swap && o.state.hasHeader == st.hasHeader
      && (tag.result.Err? ==> o.result == Err(tag.result.error) && o.state.nextTagPos == p)
      && (tag.result.Ok? ==> o.state.nextTagPos == p + WrapU32(8 + tag.result.value.dataSize))
      && (tag.result.Ok? && tag.after.pos == p + 4 ==> o.state.nextTagPos == tag.after.pos + tag.result.value.dataSize + 4)
      && (tag.result.Ok? && tag.after.pos == p + 8 && 8 + tag.result.value.dataSize < TwoTo32 ==>
            o.state.nextTagPos == tag.after.pos + tag.result.value.dataSize)
  {
    var at := Source(st.src.data, st.nextTagPos, Direct);
    NextTagReads(st, machineLittleEndian, inflate);
    TagAtAdvances(st.(src := at), machineLittleEndian, inflate);
    var tag := Codec.ReadElementTag(at, st.swap, machineLittleEndian);
    if tag.result.Ok? {
      var n := tag.result.value.dataSize;
      if tag.after.pos == at.pos + 4 {
        PackedTagSize(at, st.swap, machineLittleEndian);
        assert WrapU32(8 + n) == tag.after.pos + n + 4 - st.nextTagPos;
      }
      if tag.after.pos == at.pos + 8 && 8 + n < TwoTo32 {
        assert WrapU32(8 + n) == tag.after.pos + n - st.nextTagPos;
      }
    }
  }

  /** A tag that took 4 bytes is a packed one, whose size fits in 16 bits. */
  lemma PackedTagSize(s: Source, swap: bool, machineLittleEndian: bool)
    requires !s.Gated() && s.pos <= |s.data|
    requires var tag := Codec.ReadElementTag(s, swap, machineLittleEndian);
      tag.result.Ok? && tag.after.pos == s.pos + 4
    ensures Codec.ReadElementTag(s, swap, machineLittleEndian).result.value.dataSize < 0x1_0000
  {
    Codec.ReadElementTagForms(s, swap, machineLittleEndian);
    var rem := s.Remaining();
    Pow256Values();
  }

  /**
    After the 8-byte tag of a compressed element of size n from 2 to
    2^31 - 1 whose bytes are all there: its two zlib header bytes are
    skipped, the other n - 2 bytes are inflated and the element inside is
    read from them, and the outer stream is left right after the element.
  */
  lemma FollowCompressed(st: ReaderState, t: MatElementTag, machineLittleEndian: bool, inflate: seq<byte> -> seq<byte>)
    requires !st.src.Gated() && t.dataType == MiCompressed
    requires 2 <= t.dataSize < 0x8000_0000 && st.src.pos + t.dataSize <= |st.src.data|
    ensures var q := st.src.pos;
      var n := t.dataSize as int;
      var gated := Source(st.src.data, q + n, Inflating(inflate(st.src.data[q + 2..q + n]), 0));
      var inner := Codec.ReadElementTag(gated, st.swap, machineLittleEndian);
      var o := FollowTagSpec(st, t, machineLittleEndian, inflate);
      && o.state == st.(src := inner.after, nextTagPos := st.nextTagPos + 8 + n)
      && inner.after.pos == q + n && inner.after.Gated()
      && o.result == if inner.result.Ok? then Ok(Some(inner.result.value)) else Err(inner.result.error)
  {
    var q := st.src.pos;
    var n := t.dataSize as int;
    var gated := Source(st.src.data, q + n, Inflating(inflate(st.src.data[q + 2..q + n]), 0));
    OpenCompressedGates(st.src, t, inflate);
    FollowOpened(st, t, gated, machineLittleEndian, inflate);
    Codec.ReadElementTagKeeps(gated, st.swap, machineLittleEndian);
  }

  /** Once a compressed element's payload is open, the tag returned is the one read from it. */
  lemma FollowOpened(st: ReaderState, t: MatElementTag, gated: Source, machineLittleEndian: bool, inflate: seq<byte> -> seq<byte>)
    requires t.dataType == MiCompressed && OpenCompressedSpec(st.src, t, inflate) == Step(Ok(()), gated)
    ensures var inner := Codec.ReadElementTag(gated, st.swap, machineLittleEndian);
      var o := FollowTagSpec(st, t, machineLittleEndian, inflate);
      && o.state == st.(src := inner.after, nextTagPos := st.nextTagPos + WrapU32(8 + t.dataSize))
      && o.result == if inner.result.Ok? then Ok(Some(inner.result.value)) else Err(inner.result.error)
  {
  }

  /** The compressed payload is the `DataSize - 2` bytes after the zlib header; reads then come from their inflated form. */
  lemma OpenCompressedGates(s: Source, t: MatElementTag, inflate: seq<byte> -> seq<byte>)
    requires !s.Gated() && 2 <= t.dataSize < 0x8000_0000 && s.pos + t.dataSize <= |s.data|
    ensures OpenCompressedSpec(s, t, inflate)
         == Step(Ok(()), Source(s.data, s.pos + t.dataSize as int, Inflating(inflate(s.data[s.pos + 2..s.pos + t.dataSize as int]), 0)))
  {
    var n := t.dataSize as int;
    var skipped := s.(pos := s.pos + 2);
    assert Wrap32(ToInt32(t.dataSize) - 2) == n - 2;
    assert skipped.OuterRemaining()[..n - 2] == s.data[s.pos + 2..s.pos + n];
  }

  /**
    When the tag at the next tag position is read, looking for the next tag
    follows it; with `FollowCompressed` this says what a compressed element
    at the next tag position yields.
  */
  lemma NextTagFollows(st: ReaderState, t: MatElementTag, after: Source, machineLittleEndian: bool, inflate: seq<byte> -> seq<byte>)
    requires st.nextTagPos < |st.src.data|
    requires Codec.ReadElementTag(Source(st.src.data, st.nextTagPos, Direct), st.swap, machineLittleEndian) == Step(Ok(t), after)
    ensures NextTagSpec(st, machineLittleEndian, inflate) == FollowTagSpec(st.(src := after), t, machineLittleEndian, inflate)
  {
    NextTagReads(st, machineLittleEndian, inflate);
  }

  /** The flags sub-element of a matrix header: its first stored word is decoded as the flags. */
  lemma HeaderFlagsStage(s: Source, flagBytes: seq<byte>, more: seq<byte>, swap: bool, machineLittleEndian: bool)
    returns (t: Source)
    requires |flagBytes| == 8
    requires s.Remaining() == FileReaderFacts.SubElement(MiUInt32, flagBytes, machineLittleEndian != swap) + more
    ensures ReadMatrixHeaderSpec(s, swap, machineLittleEndian)
      == MatrixHeaderDimsSpec(t, Codec.DecodeArrayFlags(Codec.Word(flagBytes, machineLittleEndian != swap)), swap, machineLittleEndian)
    ensures t.Remaining() == more
  {
    FileReaderFacts.SubElementTag(s, MiUInt32, flagBytes, more, swap, machineLittleEndian);
    var flagsTag := Codec.ReadElementTag(s, swap, machineLittleEndian);
    assert Zeros(FormatPadding(8)) + more == more;
    FileReaderFacts.FlagsRead(flagsTag.after, flagBytes, more, swap, machineLittleEndian);
    t := Codec.ReadArrayFlags(flagsTag.after, swap, machineLittleEndian).after;
  }

  /**
    The dimensions sub-element of a matrix header: the stored 32-bit
    integers, after which the reader stands at the sub-element's padding.
  */
  lemma HeaderDimsStage(s: Source, flags: MatArrayFlags, dimBytes: seq<byte>, more: seq<byte>, swap: bool, machineLittleEndian: bool)
    returns (t: Source, dims: seq<int32>)
    requires 0 < |dimBytes| < 0x8000_0000 && |dimBytes| % 4 == 0
    requires s.Remaining() == FileReaderFacts.SubElement(MiInt32, dimBytes, machineLittleEndian != swap) + more
    ensures MatrixHeaderDimsSpec(s, flags, swap, machineLittleEndian) == MatrixHeaderNameSpec(t, flags, dims, swap, machineLittleEndian)
    ensures t.Remaining() == Zeros(FormatPadding(|dimBytes| as uint32)) + more
    ensures |dimBytes| % 8 == 0 ==> t.Remaining() == more
    ensures FileReaderFacts.DimensionsStored(dims, dimBytes, machineLittleEndian != swap)
  {
    var n := |dimBytes|;
    assert n % 8 == 0 ==> Zeros(FormatPadding(n as uint32)) + more == more;
    FileReaderFacts.SubElementTag(s, MiInt32, dimBytes, more, swap, machineLittleEndian);
    var dimsTag := Codec.ReadElementTag(s, swap, machineLittleEndian);
    var rest := Zeros(FormatPadding(n as uint32)) + more;
    assert DivT(ToInt32(n as uint32), 4) == n / 4;
    FileReaderFacts.Int32sRead(dimsTag.after, dimBytes, rest, swap, machineLittleEndian);
    var read := Codec.ReadInt32Array(dimsTag.after, n / 4, swap, machineLittleEndian);
    t, dims := read.after, read.result.value;
  }

  /** The name sub-element of a matrix header: the stored bytes as characters, the padding left unread. */
  lemma HeaderNameStage(s: Source, flags: MatArrayFlags, dims: seq<int32>, nameBytes: seq<byte>, more: seq<byte>, swap: bool, machineLittleEndian: bool)
    requires 0 < |nameBytes| < 0x8000_0000
    requires s.Remaining() == FileReaderFacts.SubElement(MiInt8, nameBytes, machineLittleEndian != swap) + more
    ensures var r := MatrixHeaderNameSpec(s, flags, dims, swap, machineLittleEndian);
      && r.result == Ok(MatMatrixHeader(flags, dims, DecodeChars(nameBytes)))
      && r.after.Remaining() == Zeros(FormatPadding(|nameBytes| as uint32)) + more
  {
    var m := |nameBytes|;
    FileReaderFacts.SubElementTag(s, MiInt8, nameBytes, more, swap, machineLittleEndian);
    var rest := Zeros(FormatPadding(m as uint32)) + more;
    assert (nameBytes + rest)[..m] == nameBytes && (nameBytes + rest)[m..] == rest;
  }

  /** A matrix header's three sub-elements as the format stores them: flags, dimensions and name. */
  function HeaderPayload(flagBytes: seq<byte>, dimBytes: seq<byte>, nameBytes: seq<byte>, littleEndian: bool): seq<byte>
    requires |flagBytes| == 8 && 0 < |dimBytes| < 0x8000_0000 && 0 < |nameBytes| < 0x8000_0000
  {
    FileReaderFacts.SubElement(MiUInt32, flagBytes, littleEndian)
      + (FileReaderFacts.SubElement(MiInt32, dimBytes, littleEndian) + FileReaderFacts.SubElement(MiInt8, nameBytes, littleEndian))
  }

  /** A matrix header holds what its three sub-elements store. */
  predicate HeaderDecoded(h: MatMatrixHeader, flagBytes: seq<byte>, dimBytes: seq<byte>, nameBytes: seq<byte>, littleEndian: bool)
    requires |flagBytes| == 8
  {
    && h.flags == Codec.DecodeArrayFlags(Codec.Word(flagBytes, littleEndian))
    && FileReaderFacts.DimensionsStored(h.dimensions, dimBytes, littleEndian)
    && h.name == DecodeChars(nameBytes)
  }

  lemma WholeWords(n: nat)
    requires n % 8 == 0
    ensures n % 4 == 0
  {
  }

  /**
    A matrix header laid out as the format stores it, with a dimensions
    sub-element that needs no padding, is decoded field by field; the name's
    padding is left unread.
  */
  lemma MatrixHeaderLayout(s: Source, flagBytes: seq<byte>, dimBytes: seq<byte>, nameBytes: seq<byte>, more: seq<byte>,
                           swap: bool, machineLittleEndian: bool)
    requires |flagBytes| == 8
    requires 0 < |dimBytes| < 0x8000_0000 && |dimBytes| % 8 == 0
    requires 0 < |nameBytes| < 0x8000_0000
    requires s.Remaining() == HeaderPayload(flagBytes, dimBytes, nameBytes, machineLittleEndian != swap) + more
    ensures var r := ReadMatrixHeaderSpec(s, swap, machineLittleEndian);
      && r.result.Ok? && HeaderDecoded(r.result.value, flagBytes, dimBytes, nameBytes, machineLittleEndian != swap)
      && r.after.Remaining() == Zeros(FormatPadding(|nameBytes| as uint32)) + more
  {
    var le := machineLittleEndian != swap;
    var a := FileReaderFacts.SubElement(MiUInt32, flagBytes, le);
    var b := FileReaderFacts.SubElement(MiInt32, dimBytes, le);
    var c := FileReaderFacts.SubElement(MiInt8, nameBytes, le);
    var flags := Codec.DecodeArrayFlags(Codec.Word(flagBytes, le));
    Regroup(a, b + c, more);
    var t1 := HeaderFlagsStage(s, flagBytes, (b + c) + more, swap, machineLittleEndian);
    Regroup(b, c, more);
    WholeWords(|dimBytes|);
    var t2, dims := HeaderDimsStage(t1, flags, dimBytes, c + more, swap, machineLittleEndian);
    HeaderNameStage(t2, flags, dims, nameBytes, more, swap, machineLittleEndian);
  }

  /**
    After three dimensions (12 bytes, stored with 4 bytes of padding) the
    reader, which skips no padding, takes the zero padding word as the first
    word of the name's tag: a tag of kind 0 whose size is the real name tag's
    first word.
  */
  lemma PaddingReadAsNameTag(t: Source, nameBytes: seq<byte>, more: seq<byte>, swap: bool, machineLittleEndian: bool)
    requires 1 <= |nameBytes| <= 4
    requires t.Remaining() == Zeros(4) + (FileReaderFacts.SubElement(MiInt8, nameBytes, machineLittleEndian != swap) + more)
    ensures var r := Codec.ReadElementTag(t, swap, machineLittleEndian);
      && r.result == Ok(MatElementTag(0, (|nameBytes| * 0x1_0000 + MiInt8) as uint32))
      && r.after.Remaining() == nameBytes + (Zeros(4 - |nameBytes|) + more)
  {
    var le := machineLittleEndian != swap;
    var w := (|nameBytes| * 0x1_0000 + MiInt8) as uint32;
    var tail := nameBytes + (Zeros(4 - |nameBytes|) + more);
    var rem := t.Remaining();
    assert rem == Codec.EncodeWord(0, le) + (Codec.EncodeWord(w, le) + tail) by {
      ZeroWord(le);
      SmallNameWords(nameBytes, more, le);
    }
    FileReaderFacts.TagWords(rem, 0, w, tail, le);
    Codec.ReadElementTagForms(t, swap, machineLittleEndian);
  }

  /** A zero word is stored as four zero bytes in either order. */
  lemma ZeroWord(le: bool)
    ensures Codec.EncodeWord(0, le) == Zeros(4)
  {
    Pow256Values();
    assert LittleEndianBytes(0, 4) == Zeros(4);
  }

  /** A short name is stored as its packed tag word, the bytes and zero padding to 4. */
  lemma SmallNameWords(nameBytes: seq<byte>, more: seq<byte>, le: bool)
    requires 1 <= |nameBytes| <= 4
    ensures FileReaderFacts.SubElement(MiInt8, nameBytes, le) + more
      == Codec.EncodeWord((|nameBytes| * 0x1_0000 + MiInt8) as uint32, le) + (nameBytes + (Zeros(4 - |nameBytes|) + more))
  {
    var head := Codec.EncodeWord((|nameBytes| * 0x1_0000 + MiInt8) as uint32, le);
    Regroup(head + nameBytes, Zeros(4 - |nameBytes|), more);
    Regroup(head, nameBytes, Zeros(4 - |nameBytes|) + more);
  }

  /** The name stage over a misread tag: the name's length is the misread size, so a short stream ends the read. */
  lemma MisreadNameStage(t: Source, flags: MatArrayFlags, dims: seq<int32>, nameBytes: seq<byte>, more: seq<byte>, swap: bool, machineLittleEndian: bool)
    requires 1 <= |nameBytes| <= 4
    requires t.Remaining() == Zeros(4) + (FileReaderFacts.SubElement(MiInt8, nameBytes, machineLittleEndian != swap) + more)
    ensures var r := MatrixHeaderNameSpec(t, flags, dims, swap, machineLittleEndian);
      && (r.result.Ok? ==> |r.result.value.name| == |nameBytes| * 0x1_0000 + MiInt8)
      && (|more| < 0xFFFC ==> r.result == Err(EndOfStream))
  {
    PaddingReadAsNameTag(t, nameBytes, more, swap, machineLittleEndian);
    var nameTag := Codec.ReadElementTag(t, swap, machineLittleEndian);
    assert |nameTag.after.Remaining()| == 4 + |more|;
  }

  /** Three dimensions followed by a short name: the name is read from the padding on. */
  lemma PaddedDimsStage(t: Source, flags: MatArrayFlags, dimBytes: seq<byte>, nameBytes: seq<byte>, more: seq<byte>, swap: bool, machineLittleEndian: bool)
    requires |dimBytes| == 12 && 1 <= |nameBytes| <= 4
    requires var le := machineLittleEndian != swap;
      t.Remaining() == FileReaderFacts.SubElement(MiInt32, dimBytes, le) + (FileReaderFacts.SubElement(MiInt8, nameBytes, le) + more)
    ensures var r := MatrixHeaderDimsSpec(t, flags, swap, machineLittleEndian);
      && (r.result.Ok? ==> |r.result.value.name| == |nameBytes| * 0x1_0000 + MiInt8)
      && (|more| < 0xFFFC ==> r.result == Err(EndOfStream))
  {
    var c := FileReaderFacts.SubElement(MiInt8, nameBytes, machineLittleEndian != swap);
    assert FormatPadding(12) == 4;
    var t2, dims := HeaderDimsStage(t, flags, dimBytes, c + more, swap, machineLittleEndian);
    MisreadNameStage(t2, flags, dims, nameBytes, more, swap, machineLittleEndian);
  }

  /**
    So a header whose dimensions need padding never yields the stored name:
    the name read has the length of the misread size, and when fewer bytes
    than that follow, the read ends at the end of the stream.
  */
  lemma PaddedDimensionsMisreadName(s: Source, flagBytes: seq<byte>, dimBytes: seq<byte>, nameBytes: seq<byte>, more: seq<byte>,
                                    swap: bool, machineLittleEndian: bool)
    requires |flagBytes| == 8 && |dimBytes| == 12 && 1 <= |nameBytes| <= 4
    requires s.Remaining() == HeaderPayload(flagBytes, dimBytes, nameBytes, machineLittleEndian != swap) + more
    ensures var r := ReadMatrixHeaderSpec(s, swap, machineLittleEndian);
      && (r.result.Ok? ==> |r.result.value.name| == |nameBytes| * 0x1_0000 + MiInt8 && r.result.value.name != DecodeChars(nameBytes))
      && (|more| < 0xFFFC ==> r.result == Err(EndOfStream))
  {
    var le := machineLittleEndian != swap;
    var a := FileReaderFacts.SubElement(MiUInt32, flagBytes, le);
    var b := FileReaderFacts.SubElement(MiInt32, dimBytes, le);
    var c := FileReaderFacts.SubElement(MiInt8, nameBytes, le);
    var flags := Codec.DecodeArrayFlags(Codec.Word(flagBytes, le));
    Regroup(a, b + c, more);
    var t1 := HeaderFlagsStage(s, flagBytes, (b + c) + more, swap, machineLittleEndian);
    Regroup(b, c, more);
    PaddedDimsStage(t1, flags, dimBytes, nameBytes, more, swap, machineLittleEndian);
  }
}
