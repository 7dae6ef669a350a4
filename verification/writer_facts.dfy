/**
  What the readers make of the writer's output: tags and `MiUInt32` arrays
  read back as written when read little-endian, the header reads back with
  its text and version and no byte swapping, and a tag with no data is the
  one form that does not survive the trip.
*/
module WriterFacts {
  import opened Base
  import opened ByteOrder
  import opened Text
  import opened ElementTags
  import opened Headers
  import opened Sources
  import opened Elements
  import MatDataTypes
  import MatReaders
  import Codec
  import opened Writers

  /** A written word is the word a little-endian read finds. */
  lemma ReadWrittenWord(s: Source, w: uint32, more: seq<byte>, swap: bool, machineLittleEndian: bool)
    requires machineLittleEndian != swap && s.Remaining() == UInt32Bytes(w) + more
    ensures var r := Codec.ReadUInt32(s, swap, machineLittleEndian);
      r.result == Ok(w) && r.after.Remaining() == more
  {
    Codec.FirstWord(s, swap, machineLittleEndian);
    Codec.WordOfEncoded(w, true, more);
    assert s.Remaining()[4..] == more;
  }

  /** A written word above 256 reads back as a packed tag. */
  lemma ReadPackedTag(s: Source, w: uint32, more: seq<byte>, swap: bool, machineLittleEndian: bool)
    requires machineLittleEndian != swap && s.Remaining() == UInt32Bytes(w) + more && w > 256
    ensures var r := Codec.ReadElementTag(s, swap, machineLittleEndian);
      r.result == Ok(MatElementTag(w % 0x1_0000, w / 0x1_0000)) && r.after.Remaining() == more
  {
    ReadWrittenWord(s, w, more, swap, machineLittleEndian);
  }

  /** Two written words, the first at most 256, read back as a kind and a size. */
  lemma ReadTwoWordTag(s: Source, kind: uint32, size: uint32, more: seq<byte>, swap: bool, machineLittleEndian: bool)
    requires machineLittleEndian != swap && s.Remaining() == UInt32Bytes(kind) + (UInt32Bytes(size) + more)
    requires kind <= 256
    ensures var r := Codec.ReadElementTag(s, swap, machineLittleEndian);
      r.result == Ok(MatElementTag(kind, size)) && r.after.Remaining() == more
  {
    ReadWrittenWord(s, kind, UInt32Bytes(size) + more, swap, machineLittleEndian);
    var first := Codec.ReadUInt32(s, swap, machineLittleEndian);
    ReadWrittenWord(first.after, size, more, swap, machineLittleEndian);
  }

  /**
    A tag with 1 to 4 bytes of data and a kind below 2^16, or with more than
    4 bytes and a kind of at most 256, reads back as itself and consumes
    exactly the bytes written for it.
  */
  lemma TagRoundTrip(s: Source, t: MatElementTag, more: seq<byte>, swap: bool, machineLittleEndian: bool)
    requires machineLittleEndian != swap && s.Remaining() == TagBytes(t) + more
    requires (1 <= t.dataSize <= 4 && t.dataType < 0x1_0000) || (4 < t.dataSize && t.dataType <= 256)
    ensures var r := Codec.ReadElementTag(s, swap, machineLittleEndian);
      r.result == Ok(t) && r.after.Remaining() == more
  {
    if t.dataSize <= 4 {
      var w := PackedTagWord(t);
      PackedTagWordValue(t);
      assert w % 0x1_0000 == t.dataType && w / 0x1_0000 == t.dataSize;
      ReadPackedTag(s, w, more, swap, machineLittleEndian);
    } else {
      Regroup(UInt32Bytes(t.dataType), UInt32Bytes(t.dataSize), more);
      ReadTwoWordTag(s, t.dataType, t.dataSize, more, swap, machineLittleEndian);
    }
  }

  /**
    A tag with no data is written as its bare kind, which a reader takes for
    the first word of the two-word form: it reads the next word as the size,
    or fails at the end of the stream.
  */
  lemma EmptyTagMisread(s: Source, t: MatElementTag, more: seq<byte>, swap: bool, machineLittleEndian: bool)
    requires machineLittleEndian != swap && s.Remaining() == TagBytes(t) + more
    requires t.dataSize == 0 && t.dataType <= 256
    ensures var r := Codec.ReadElementTag(s, swap, machineLittleEndian);
      && (|more| < 4 ==> r.result == Err(EndOfStream))
      && (|more| >= 4 ==> r.result == Ok(MatElementTag(t.dataType, Codec.Word(more, true))) && r.after.Remaining() == more[4..])
  {
    PackedTagWordValue(t);
    ReadWrittenWord(s, t.dataType, more, swap, machineLittleEndian);
    var first := Codec.ReadUInt32(s, swap, machineLittleEndian);
    if |more| >= 4 {
      Codec.FirstWord(first.after, swap, machineLittleEndian);
    }
  }

  /** The stored values decode, four bytes each, to themselves. */
  lemma {:induction false} WordsDecode(vs: seq<uint32>)
    ensures Codec.DecodeValues(Words(vs), Codec.UInt32, true) == seq(|vs|, i requires 0 <= i < |vs| => Integer(vs[i]))
  {
    if vs != [] {
      var bs := Words(vs);
      Codec.DecodeValuesCons(bs, Codec.UInt32, true);
      assert bs[..4] == UInt32Bytes(vs[0]) && bs[4..] == Words(vs[1..]);
      Pow256Values();
      ValueOfBytes(vs[0], 4);
      assert Codec.Denotes(bs[..4], Codec.UInt32, true) == Integer(vs[0]);
      WordsDecode(vs[1..]);
    }
  }

  /** An array of fewer than 2^29 values: its tag holds the `MiUInt32` code and four bytes per value. */
  lemma UInt32ArrayTag(s: Source, vs: seq<uint32>, more: seq<byte>, swap: bool, machineLittleEndian: bool)
    requires machineLittleEndian != swap && s.Remaining() == UInt32ArrayBytes(vs) + more
    requires 4 * |vs| < 0x8000_0000
    ensures var r := Codec.ReadElementTag(s, swap, machineLittleEndian);
      && r.result == Ok(MatElementTag(MatDataTypes.MiUInt32, 4 * |vs|))
      && r.after.Remaining() == Words(vs) + more
  {
    var head, size := UInt32Bytes(MatDataTypes.MiUInt32), UInt32Bytes(ByteCount(|vs|));
    assert ByteCount(|vs|) == 4 * |vs|;
    assert s.Remaining() == head + (size + (Words(vs) + more)) by {
      Regroup(head + size, Words(vs), more);
      Regroup(head, size, Words(vs) + more);
    }
    ReadTwoWordTag(s, MatDataTypes.MiUInt32, ByteCount(|vs|), Words(vs) + more, swap, machineLittleEndian);
  }

  /** `count` 32-bit values take four bytes each. */
  lemma WordsSpan(count: nat)
    ensures Codec.Span(Codec.UInt32, count) == 4 * count
  {
    Codec.SpanIsProduct(Codec.UInt32, count);
    assert Codec.Width(Codec.UInt32) == 4;
  }

  /** A `MiUInt32` tag of 4·count bytes holds count values. */
  lemma UInt32TagCount(count: nat)
    requires 4 * count < 0x8000_0000
    ensures MatElementTag(MatDataTypes.MiUInt32, 4 * count).NumValues() == Ok(count)
  {
    assert MatDataTypes.GetDataTypeSize(MatDataTypes.MiUInt32) == 4;
    assert DivT(4 * count, 4) == count;
  }

  /** For such a tag `ReadValuesForTag` reads count 32-bit values. */
  lemma UInt32TagReads(s: Source, count: nat, swap: bool, machineLittleEndian: bool)
    requires 4 * count < 0x8000_0000
    ensures Codec.ReadValuesForTag(s, MatElementTag(MatDataTypes.MiUInt32, 4 * count), swap, machineLittleEndian)
         == Codec.ReadValues(s, Codec.UInt32, count, swap, machineLittleEndian)
  {
    UInt32TagCount(count);
    assert Codec.ValueKind(MatDataTypes.MiUInt32) == Some(Codec.UInt32);
  }

  /** Written values read back, little-endian, as themselves. */
  lemma ReadWrittenWords(s: Source, vs: seq<uint32>, more: seq<byte>, swap: bool, machineLittleEndian: bool)
    requires machineLittleEndian != swap && s.Remaining() == Words(vs) + more
    ensures var r := Codec.ReadValues(s, Codec.UInt32, |vs|, swap, machineLittleEndian);
      && r.result == Ok(seq(|vs|, i requires 0 <= i < |vs| => Integer(vs[i])))
      && r.after.Remaining() == more
  {
    var n := Codec.Span(Codec.UInt32, |vs|);
    WordsSpan(|vs|);
    var rem := s.Remaining();
    assert rem[..n] == Words(vs) && rem[n..] == more;
    Codec.ReadValuesDecodes(s, Codec.UInt32, |vs|, swap, machineLittleEndian);
    WordsDecode(vs);
  }

  /** After that tag, the values are read back as written and exactly their bytes are consumed. */
  lemma UInt32ArrayValues(s: Source, vs: seq<uint32>, more: seq<byte>, swap: bool, machineLittleEndian: bool)
    requires machineLittleEndian != swap && s.Remaining() == Words(vs) + more
    requires 4 * |vs| < 0x8000_0000
    ensures var r := Codec.ReadValuesForTag(s, MatElementTag(MatDataTypes.MiUInt32, 4 * |vs|), swap, machineLittleEndian);
      && r.result == Ok(seq(|vs|, i requires 0 <= i < |vs| => Integer(vs[i])))
      && r.after.Remaining() == more
  {
    UInt32TagReads(s, |vs|, swap, machineLittleEndian);
    ReadWrittenWords(s, vs, more, swap, machineLittleEndian);
  }

  /** `WriteUInt32` followed by a tag read and `ReadValuesForTag` gives back the values. */
  lemma UInt32ArrayRoundTrip(s: Source, vs: seq<uint32>, more: seq<byte>, swap: bool, machineLittleEndian: bool)
    requires machineLittleEndian != swap && s.Remaining() == UInt32ArrayBytes(vs) + more
    requires 4 * |vs| < 0x8000_0000
    ensures var tag := Codec.ReadElementTag(s, swap, machineLittleEndian);
      && tag.result.Ok?
      && var r := Codec.ReadValuesForTag(tag.after, tag.result.value, swap, machineLittleEndian);
      && r.result == Ok(seq(|vs|, i requires 0 <= i < |vs| => Integer(vs[i])))
      && r.after.Remaining() == more
  {
    UInt32ArrayTag(s, vs, more, swap, machineLittleEndian);
    var tag := Codec.ReadElementTag(s, swap, machineLittleEndian);
    UInt32ArrayValues(tag.after, vs, more, swap, machineLittleEndian);
  }

  /** The 128 header bytes of an ASCII text of at most 116 characters, part by part. */
  lemma HeaderLayout(text: string, version: int16, more: seq<byte>)
    requires IsAscii(text) && |text| <= 116
    ensures var d := HeaderBytes(text, version) + more;
      && |d| == 128 + |more|
      && DecodeChars(d[..116]) == PadRight(text, 116)
      && d[124..126] == Int16Bytes(version)
      && d[126..128] == Int16Bytes(MatReaders.NativeIndicator)
      && d[128..] == more
  {
    var padded := PadRight(text, 116);
    assert IsAscii(padded) by {
      forall i | 0 <= i < |padded| ensures padded[i] as int < 0x80 {
        if i < |text| {
          assert padded[..|text|][i] == text[i];
        }
      }
    }
    AsciiRoundTrip(padded);
    var chars := EncodeChars(padded);
    var d := HeaderBytes(text, version) + more;
    assert d == chars + (Zeros(8) + (Int16Bytes(version) + (Int16Bytes(MatReaders.NativeIndicator) + more)));
    assert d[..116] == chars;
  }

  /** The version and byte-order words as a reader decodes them in either byte order. */
  lemma Int16Words(version: int16)
    ensures Codec.Denotes(Int16Bytes(version), Codec.Int16, true) == Integer(version)
    ensures Codec.Denotes(Int16Bytes(MatReaders.NativeIndicator), Codec.Int16, true) == Integer(MatReaders.NativeIndicator)
    ensures Codec.Denotes(Int16Bytes(MatReaders.NativeIndicator), Codec.Int16, false) == Integer(MatReaders.SwappedIndicator)
  {
    Pow256Values();
    ValueOfBytes(if version < 0 then version + 0x1_0000 else version, 2);
    ValueOfBytes(MatReaders.NativeIndicator, 2);
    var ind := Int16Bytes(MatReaders.NativeIndicator);
    assert ind == [0x49, 0x4D];
    assert Reverse(ind) == [0x4D, 0x49];
    assert LittleEndianValue([0x4D, 0x49]) == 0x494D by {
      assert [0x4D, 0x49][1..] == [0x49];
    }
  }

  /** The 116 text bytes of a header read as the padded text. */
  lemma HeaderTextRead(d: seq<byte>, text: string)
    requires |d| >= 116 && DecodeChars(d[..116]) == PadRight(text, 116)
    ensures Codec.ReadChars(Source(d, 0, Direct), 116) == Step(Ok(PadRight(text, 116)), Source(d, 116, Direct))
  {
    var start := Source(d, 0, Direct);
    assert start.Remaining() == d;
  }

  /** A 16-bit word at a position of the outer stream, decoded in the effective byte order. */
  lemma Int16At(d: seq<byte>, p: nat, bs: seq<byte>, swap: bool, machineLittleEndian: bool)
    requires p + 2 <= |d| && d[p..p + 2] == bs
    ensures var r := Codec.ReadInt16(Source(d, p, Direct), swap, machineLittleEndian);
      && r.result.Ok?
      && Integer(r.result.value) == Codec.Denotes(bs, Codec.Int16, machineLittleEndian != swap)
      && r.after == Source(d, p + 2, Direct)
  {
    var s := Source(d, p, Direct);
    assert s.Remaining()[..2] == bs;
  }

  /**
    The raw header of written bytes, read from the start in any byte order:
    the padded text, then the version and byte-order words as that order
    decodes them, ending after byte 128.
  */
  lemma RawHeaderOfWritten(s: Source, text: string, version: int16, more: seq<byte>, swap: bool, machineLittleEndian: bool)
    requires IsAscii(text) && |text| <= 116 && s.data == HeaderBytes(text, version) + more
    ensures var r := MatReaders.ReadRawHeaderSpec(MatReaders.Rewound(s), swap, machineLittleEndian);
      var le := machineLittleEndian != swap;
      && r.result.Ok?
      && r.result.value.text == PadRight(text, 116)
      && Integer(r.result.value.version) == Codec.Denotes(Int16Bytes(version), Codec.Int16, le)
      && Integer(r.result.value.indicator) == Codec.Denotes(Int16Bytes(MatReaders.NativeIndicator), Codec.Int16, le)
      && r.after == Source(s.data, 128, Direct)
  {
    var d := s.data;
    HeaderLayout(text, version, more);
    assert MatReaders.Rewound(s) == Source(d, 0, Direct);
    HeaderTextRead(d, text);
    Int16At(d, 124, Int16Bytes(version), swap, machineLittleEndian);
    Int16At(d, 126, Int16Bytes(MatReaders.NativeIndicator), swap, machineLittleEndian);
  }

  /**
    A written header read little-endian gives back the text (when it has no
    white space at either end and the setter accepts it), the version and
    no byte swapping; read big-endian the byte-order word reads as the
    swapped one and the reader keeps swapping.
  */
  lemma HeaderRoundTrip(s: Source, text: string, version: int16, more: seq<byte>, swap: bool, machineLittleEndian: bool)
    requires IsAscii(text) && ValidText(text) && !IsWhiteSpace(text[0]) && !IsWhiteSpace(text[|text| - 1])
    requires s.data == HeaderBytes(text, version) + more
    ensures var h := MatReaders.ReadHeaderSpec(s, swap, machineLittleEndian);
      && (machineLittleEndian != swap ==>
            h == MatReaders.HeaderRead(Ok(HeaderFields(text, version, false)), Source(s.data, 128, Direct), false))
      && (machineLittleEndian == swap ==>
            h.result.Ok? && h.result.value.text == text && h.result.value.endianIndicator && h.swap)
  {
    var raw := MatReaders.ReadRawHeaderSpec(MatReaders.Rewound(s), swap, machineLittleEndian);
    RawHeaderOfWritten(s, text, version, more, swap, machineLittleEndian);
    Int16Words(version);
    TrimPadRight(text, 116);
    var h := raw.result.value;
    assert Trim(h.text) == text;
    if machineLittleEndian != swap {
      assert h.indicator == MatReaders.NativeIndicator && h.version == version;
    } else {
      assert h.indicator == MatReaders.SwappedIndicator;
    }
    AdoptWritten(raw, swap, text);
  }

  /** A raw header with a valid trimmed text and either byte-order word is adopted, setting the swap flag from the word. */
  lemma AdoptWritten(raw: Step<MatReaders.RawHeader>, swap: bool, text: string)
    requires raw.result.Ok? && Trim(raw.result.value.text) == text && ValidText(text)
    ensures var h := raw.result.value;
      && (h.indicator == MatReaders.NativeIndicator ==>
            MatReaders.AdoptHeaderSpec(raw, swap) == MatReaders.HeaderRead(Ok(HeaderFields(text, h.version, false)), raw.after, false))
      && (h.indicator == MatReaders.SwappedIndicator ==>
            MatReaders.AdoptHeaderSpec(raw, swap) == MatReaders.HeaderRead(Ok(HeaderFields(text, h.version, true)), raw.after, true))
  {
  }
}
