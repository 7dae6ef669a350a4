/**
  What the functions of `FileReaders` imply: how the static header read
  relates to `MatReader.ReadHeader`, that the header is read once, that an
  element of another kind leaves its payload unread, how a compressed element
  is opened, and that a matrix laid out the way the MAT-file format lays it
  out is decoded field by field.
*/
module FileReaderFacts {
  import opened Base
  import MatDataTypes
  import opened ElementTags
  import opened Sources
  import opened Text
  import opened Elements
  import opened Headers
  import MatReaders
  import Codec
  import FileReaders

  /**
    At the start of an ungated stream the static `ReadHeader` reads what
    `MatReader.ReadHeader` reads and gives the same header, the same failure
    and the same position; unlike the latter it keeps the swap flag it had.
  */
  lemma StaticHeaderMatches(s: Source, swap: bool, machineLittleEndian: bool)
    requires !s.Gated() && s.pos == 0
    ensures var fromFile := FileReaders.HeaderSpec(s, swap, machineLittleEndian);
      var instance := MatReaders.ReadHeaderSpec(s, swap, machineLittleEndian);
      fromFile.result == instance.result && fromFile.after == instance.after
  {
    assert MatReaders.Rewound(s) == s;
    var text := Codec.ReadChars(s, 116);
    if text.result.Ok? {
      assert Codec.Skip(text.after, 8) == Step(Ok(()), text.after.(pos := text.after.pos + 8));
    }
    assert FileReaders.RawHeaderSpec(s, swap, machineLittleEndian) == MatReaders.ReadRawHeaderSpec(s, swap, machineLittleEndian);
  }

  /**
    `ReadElement` reads the header only while none is cached: a disposed
    reader fails first; with a header cached, only the next element is read.
    A successful call leaves a header cached, and a failed header read leaves
    none, so the next call reads a header again from where the failure left
    the stream.
  */
  lemma FileHeaderOnce(st: FileReaders.FileState, swap: bool, machineLittleEndian: bool, inflate: seq<byte> -> seq<byte>)
    ensures FileReaders.ReadElementSpec(st, true, swap, machineLittleEndian, inflate) == FileReaders.FileOutcome(Err(ObjectDisposed), st)
    ensures st.hasHeader ==>
      FileReaders.ReadElementSpec(st, false, swap, machineLittleEndian, inflate) == FileReaders.NextElementSpec(st, swap, machineLittleEndian, inflate)
    ensures var o := FileReaders.ReadElementSpec(st, false, swap, machineLittleEndian, inflate);
      && (o.result.Ok? || st.hasHeader ==> o.state.hasHeader)
      && (!st.hasHeader && FileReaders.HeaderSpec(st.src, swap, machineLittleEndian).result.Err? ==> !o.state.hasHeader)
  {
  }

  /**
    An element of any kind other than a matrix, uncompressed and with an
    8-byte tag, gives no result and leaves the stream at its payload: the next
    call reads the payload's first bytes as a tag.
  */
  lemma NonMatrixNotSkipped(s: Source, swap: bool, machineLittleEndian: bool, inflate: seq<byte> -> seq<byte>)
    requires !s.Gated() && |s.Remaining()| >= 8
    requires var w := Codec.Word(s.Remaining(), machineLittleEndian != swap);
      w <= 256 && w != MatDataTypes.MiMatrix && w != MatDataTypes.MiCompressed
    ensures var e := FileReaders.ElementSpec(s, swap, machineLittleEndian, inflate);
      e.result == Ok(None) && e.after.Remaining() == s.Remaining()[8..] && e.after.pos == s.pos + 8
  {
    Codec.ReadElementTagForms(s, swap, machineLittleEndian);
    var tag := Codec.ReadElementTag(s, swap, machineLittleEndian);
    assert tag.after.Remaining() == s.Remaining()[8..];
    assert s.pos + 8 <= |s.data|;
  }

  /**
    Inside a compressed element of `n` bytes, with all of them present: the
    two zlib header bytes are skipped and the other `n - 2` inflated, and the
    tag read is the one at the start of the inflated bytes, while the outer
    stream waits right after the element.
  */
  lemma InnerTagOpens(s: Source, t: MatElementTag, compressed: seq<byte>, swap: bool, machineLittleEndian: bool,
                      inflate: seq<byte> -> seq<byte>)
    requires !s.Gated() && 2 <= |compressed| < 0x8000_0000 && t.dataSize as int == |compressed|
    requires |compressed| <= |s.OuterRemaining()| && s.OuterRemaining()[..|compressed|] == compressed
    ensures FileReaders.InnerTagSpec(s, t, swap, machineLittleEndian, inflate) ==
      Codec.ReadElementTag(Source(s.data, s.pos + |compressed|, Inflating(inflate(compressed[2..]), 0)), swap, machineLittleEndian)
  {
    var n := |compressed|;
    var outer := s.OuterRemaining();
    var skipped := s.(pos := s.pos + 2);
    assert Codec.Skip(s, 2) == Step(Ok(()), skipped);
    var gated := Source(s.data, s.pos + n, Inflating(inflate(compressed[2..]), 0));
    assert BeginDecompress(skipped, Wrap32(ToInt32(t.dataSize) - 2), inflate) == Step(Ok(()), gated) by {
      assert Wrap32(ToInt32(t.dataSize) - 2) == n - 2;
      assert skipped.OuterRemaining() == outer[2..];
      assert outer[2..][..n - 2] == compressed[2..];
    }
    InnerUnfold(s, t, swap, machineLittleEndian, inflate, skipped, gated);
  }

  /** `InnerTagSpec` once the skip and the opening of the gate succeed. */
  lemma InnerUnfold(s: Source, t: MatElementTag, swap: bool, machineLittleEndian: bool, inflate: seq<byte> -> seq<byte>,
                    skipped: Source, gated: Source)
    requires Codec.Skip(s, 2) == Step(Ok(()), skipped)
    requires BeginDecompress(skipped, Wrap32(ToInt32(t.dataSize) - 2), inflate) == Step(Ok(()), gated)
    ensures FileReaders.InnerTagSpec(s, t, swap, machineLittleEndian, inflate) == Codec.ReadElementTag(gated, swap, machineLittleEndian)
  {
    var skip := Codec.Skip(s, 2);
    assert skip.result.Ok? && skip.after == skipped;
    var begun := BeginDecompress(skipped, Wrap32(ToInt32(t.dataSize) - 2), inflate);
    assert begun.result.Ok? && begun.after == gated;
    assert FileReaders.InnerTagSpec(s, t, swap, machineLittleEndian, inflate) == Codec.ReadElementTag(begun.after, swap, machineLittleEndian);
  }

  /** `TopTagSpec` once a compressed element's tag is read. */
  lemma TopUnfold(s: Source, swap: bool, machineLittleEndian: bool, inflate: seq<byte> -> seq<byte>, t: MatElementTag, tagged: Source)
    requires Codec.ReadElementTag(s, swap, machineLittleEndian) == Step(Ok(t), tagged)
    requires t.dataType == MatDataTypes.MiCompressed
    ensures FileReaders.TopTagSpec(s, swap, machineLittleEndian, inflate) == FileReaders.InnerTagSpec(tagged, t, swap, machineLittleEndian, inflate)
  {
  }

  /**
    A sub-element as the MAT-file format stores it: a payload of 1 to 4 bytes
    in the small form (one word holding the length in its high half and the
    kind in its low half, then the payload padded to 4 bytes); any other
    payload after a two-word tag and padded to a multiple of 8 bytes.
  */
  function SubElement(kind: uint32, payload: seq<byte>, littleEndian: bool): seq<byte>
    requires kind < 0x1_0000 && |payload| < TwoTo32
  {
    if 1 <= |payload| <= 4 then
      Codec.EncodeWord((|payload| * 0x1_0000 + kind) as uint32, littleEndian) + payload + Zeros(4 - |payload|)
    else
      Codec.EncodeWord(kind, littleEndian) + Codec.EncodeWord(|payload| as uint32, littleEndian)
        + payload + Zeros(FormatPadding(|payload| as uint32))
  }

  /**
    The payload lengths the reader handles as the format lays them out: at
    most 8 bytes, or a multiple of 8 (elsewhere its padding is a skip backwards).
  */
  predicate Aligned(n: nat)
  {
    n <= 8 || n % 8 == 0
  }

  /** A sub-element whose payload is neither empty nor too long for the reader's `int` arithmetic. */
  predicate Fits(kind: uint32, payload: seq<byte>)
  {
    kind <= 256 && 0 < |payload| < 0x8000_0000 && Aligned(|payload|)
  }

  /** Every stored sub-element fills whole 8-byte units. */
  lemma SubElementLength(kind: uint32, payload: seq<byte>, littleEndian: bool)
    requires kind < 0x1_0000 && 0 < |payload| < TwoTo32
    ensures |SubElement(kind, payload, littleEndian)| % 8 == 0
    ensures |payload| > 4 && |payload| % 8 == 0 ==> |SubElement(kind, payload, littleEndian)| == 8 + |payload|
  {
    var n := |payload|;
    if n <= 4 {
      assert |SubElement(kind, payload, littleEndian)| == 8;
    } else {
      var p := FormatPadding(n as uint32);
      assert |SubElement(kind, payload, littleEndian)| == 8 + (n + p);
      assert n % 8 == 0 ==> p == 0;
    }
  }

  /** The small form's word splits back into the length and the kind. */
  lemma PackedWord(n: nat, kind: uint32)
    requires 1 <= n <= 4 && kind <= 256
    ensures var w := n * 0x1_0000 + kind; w > 256 && w % 0x1_0000 == kind && w / 0x1_0000 == n
  {
  }

  /**
    The tag of a stored sub-element reads back as its kind and its length in
    either form, and leaves the payload and its padding to be read; reading
    it moves only the active stream.
  */
  lemma SubElementTag(s: Source, kind: uint32, payload: seq<byte>, more: seq<byte>, swap: bool, machineLittleEndian: bool)
    requires kind <= 256 && 0 < |payload| < TwoTo32
    requires s.Remaining() == SubElement(kind, payload, machineLittleEndian != swap) + more
    ensures var r := Codec.ReadElementTag(s, swap, machineLittleEndian);
      && r.result == Ok(MatElementTag(kind, |payload| as uint32))
      && r.after.Remaining() == payload + (Zeros(FormatPadding(|payload| as uint32)) + more)
      && r.after.data == s.data && r.after.Gated() == s.Gated() && (s.Gated() ==> r.after.pos == s.pos)
  {
    var le := machineLittleEndian != swap;
    var n := |payload|;
    Codec.ReadElementTagForms(s, swap, machineLittleEndian);
    if n <= 4 {
      SmallTag(s.Remaining(), kind, payload, more, le);
    } else {
      NormalTag(s.Remaining(), kind, payload, more, le);
    }
  }

  lemma SmallTag(rem: seq<byte>, kind: uint32, payload: seq<byte>, more: seq<byte>, le: bool)
    requires kind <= 256 && 1 <= |payload| <= 4
    requires rem == SubElement(kind, payload, le) + more
    ensures |rem| >= 4 && Codec.Word(rem, le) > 256
    ensures Codec.Word(rem, le) % 0x1_0000 == kind && Codec.Word(rem, le) / 0x1_0000 == |payload|
    ensures rem[4..] == payload + (Zeros(FormatPadding(|payload| as uint32)) + more)
  {
    var n := |payload|;
    PackedWord(n, kind);
    var w := (n * 0x1_0000 + kind) as uint32;
    var tail := payload + (Zeros(4 - n) + more);
    var head := Codec.EncodeWord(w, le);
    assert |head| == 4 && rem == head + tail by {
      assert SubElement(kind, payload, le) == head + payload + Zeros(4 - n);
      Regroup(head + payload, Zeros(4 - n), more);
      Regroup(head, payload, Zeros(4 - n) + more);
    }
    assert Codec.Word(rem, le) == w by {
      Codec.WordOfEncoded(w, le, tail);
    }
    assert rem[4..] == tail;
    assert FormatPadding(n as uint32) == 4 - n;
  }

  lemma NormalTag(rem: seq<byte>, kind: uint32, payload: seq<byte>, more: seq<byte>, le: bool)
    requires kind <= 256 && 4 < |payload| < TwoTo32
    requires rem == SubElement(kind, payload, le) + more
    ensures |rem| >= 8 && Codec.Word(rem, le) == kind && Codec.Word(rem[4..], le) == |payload|
    ensures rem[8..] == payload + (Zeros(FormatPadding(|payload| as uint32)) + more)
  {
    var n := |payload| as uint32;
    var tail := payload + (Zeros(FormatPadding(n)) + more);
    assert rem == Codec.EncodeWord(kind, le) + (Codec.EncodeWord(n, le) + tail);
    TagWords(rem, kind, n, tail, le);
  }

  /** Two stored words read back as themselves, and what follows them is left. */
  lemma TagWords(rem: seq<byte>, first: uint32, second: uint32, tail: seq<byte>, le: bool)
    requires rem == Codec.EncodeWord(first, le) + (Codec.EncodeWord(second, le) + tail)
    ensures |rem| >= 8 && Codec.Word(rem, le) == first && Codec.Word(rem[4..], le) == second && rem[8..] == tail
  {
    Codec.WordOfEncoded(first, le, Codec.EncodeWord(second, le) + tail);
    assert rem[4..] == Codec.EncodeWord(second, le) + tail;
    Codec.WordOfEncoded(second, le, tail);
  }

  /**
    The reader's padding after a sub-element of an aligned length is the
    format's, and skipping it after the payload lands on what follows.
  */
  lemma PaddingSkipped(s: Source, kind: uint32, n: nat, more: seq<byte>)
    requires 0 < n < 0x8000_0000 && Aligned(n)
    requires s.Remaining() == Zeros(FormatPadding(n as uint32)) + more
    ensures var r := Codec.Skip(s, MatElementTag(kind, n as uint32).PaddingBytes());
      && r.result.Ok? && r.after.Remaining() == more
      && r.after.data == s.data && r.after.Gated() == s.Gated() && (s.Gated() ==> r.after.pos == s.pos)
  {
    PaddingMatchesFormatExactly(MatElementTag(kind, n as uint32));
    Codec.SkipPassesOver(s, FormatPadding(n as uint32));
  }

  /** `t` is `s` after reads and skips of the active stream only. */
  predicate ActiveOnly(s: Source, t: Source)
  {
    t.data == s.data && t.Gated() == s.Gated() && (s.Gated() ==> t.pos == s.pos)
  }

  /**
    The flags sub-element: its 8 bytes are read and the first of their words
    is decoded as the flags.
  */
  lemma FlagsStage(s: Source, tag: MatElementTag, flagBytes: seq<byte>, more: seq<byte>, swap: bool, machineLittleEndian: bool)
    returns (t: Source)
    requires |flagBytes| == 8
    requires s.Remaining() == SubElement(MatDataTypes.MiUInt32, flagBytes, machineLittleEndian != swap) + more
    ensures FileReaders.MatrixSpec(s, tag, swap, machineLittleEndian) ==
      FileReaders.DimensionsSpec(t, tag, Codec.DecodeArrayFlags(Codec.Word(flagBytes, machineLittleEndian != swap)), swap, machineLittleEndian)
    ensures t.Remaining() == more && ActiveOnly(s, t)
  {
    var le := machineLittleEndian != swap;
    var flags := Codec.DecodeArrayFlags(Codec.Word(flagBytes, le));
    var flagsTag := Codec.ReadElementTag(s, swap, machineLittleEndian);
    assert flagsTag == Step(Ok(MatElementTag(MatDataTypes.MiUInt32, 8)), flagsTag.after)
      && flagsTag.after.Remaining() == flagBytes + more && ActiveOnly(s, flagsTag.after) by {
      SubElementTag(s, MatDataTypes.MiUInt32, flagBytes, more, swap, machineLittleEndian);
      assert Zeros(FormatPadding(8)) + more == more;
    }
    var read := Codec.ReadArrayFlags(flagsTag.after, swap, machineLittleEndian);
    assert read == Step(Ok(flags), read.after) && read.after.Remaining() == more && ActiveOnly(s, read.after) by {
      FlagsRead(flagsTag.after, flagBytes, more, swap, machineLittleEndian);
    }
    t := read.after;
    FlagsUnfold(s, tag, swap, machineLittleEndian, MatElementTag(MatDataTypes.MiUInt32, 8), flagsTag.after, flags, t);
  }

  /** The flags are the first of 8 stored bytes' two words, and exactly those bytes are read. */
  lemma FlagsRead(s: Source, bytes: seq<byte>, rest: seq<byte>, swap: bool, machineLittleEndian: bool)
    requires |bytes| == 8 && s.Remaining() == bytes + rest
    ensures var r := Codec.ReadArrayFlags(s, swap, machineLittleEndian);
      && r.result == Ok(Codec.DecodeArrayFlags(Codec.Word(bytes, machineLittleEndian != swap)))
      && r.after.Remaining() == rest && ActiveOnly(s, r.after)
  {
    Codec.ReadArrayFlagsConsumesEight(s, swap, machineLittleEndian);
    assert (bytes + rest)[..4] == bytes[..4];
    var first := Codec.ReadUInt32(s, swap, machineLittleEndian);
    assert ActiveOnly(s, first.after);
  }

  /** `MatrixSpec` once the flags tag and the flags are read. */
  lemma FlagsUnfold(s: Source, tag: MatElementTag, swap: bool, machineLittleEndian: bool,
                    t: MatElementTag, tagged: Source, flags: MatArrayFlags, read: Source)
    requires Codec.ReadElementTag(s, swap, machineLittleEndian) == Step(Ok(t), tagged)
    requires Codec.ReadArrayFlags(tagged, swap, machineLittleEndian) == Step(Ok(flags), read)
    ensures FileReaders.MatrixSpec(s, tag, swap, machineLittleEndian) == FileReaders.DimensionsSpec(read, tag, flags, swap, machineLittleEndian)
  {
  }

  /**
    The dimensions sub-element: a quarter as many 32-bit integers as it has
    bytes, each the one stored in its slot.
  */
  lemma DimsStage(s: Source, tag: MatElementTag, flags: MatArrayFlags, dimBytes: seq<byte>, more: seq<byte>, swap: bool, machineLittleEndian: bool)
    returns (t: Source, dims: seq<int32>)
    requires Fits(MatDataTypes.MiInt32, dimBytes) && |dimBytes| % 4 == 0
    requires s.Remaining() == SubElement(MatDataTypes.MiInt32, dimBytes, machineLittleEndian != swap) + more
    ensures FileReaders.DimensionsSpec(s, tag, flags, swap, machineLittleEndian) ==
      FileReaders.NameSpec(t, tag, flags, dims, swap, machineLittleEndian)
    ensures t.Remaining() == more && ActiveOnly(s, t)
    ensures DimensionsStored(dims, dimBytes, machineLittleEndian != swap)
  {
    var n := |dimBytes|;
    SubElementTag(s, MatDataTypes.MiInt32, dimBytes, more, swap, machineLittleEndian);
    var dimsTag := Codec.ReadElementTag(s, swap, machineLittleEndian);
    var after := dimsTag.after;
    var rest := Zeros(FormatPadding(n as uint32)) + more;
    assert after.Remaining() == dimBytes + rest;
    assert DivT(ToInt32(n as uint32), 4) == n / 4;
    Int32sRead(after, dimBytes, rest, swap, machineLittleEndian);
    var read := Codec.ReadInt32Array(after, n / 4, swap, machineLittleEndian);
    dims := read.result.value;
    PaddingSkipped(read.after, MatDataTypes.MiInt32, n, more);
    t := Codec.Skip(read.after, MatElementTag(MatDataTypes.MiInt32, n as uint32).PaddingBytes()).after;
  }

  /** Reading 32-bit integers over bytes of a multiple of 4 gives them decoded, and stops right after them. */
  lemma Int32sRead(s: Source, bytes: seq<byte>, rest: seq<byte>, swap: bool, machineLittleEndian: bool)
    requires |bytes| % 4 == 0 && s.Remaining() == bytes + rest
    ensures var r := Codec.ReadInt32Array(s, |bytes| / 4, swap, machineLittleEndian);
      var decoded := Codec.DecodeValues(bytes, Codec.Int32, machineLittleEndian != swap);
      && r.result.Ok? && r.after.Remaining() == rest && ActiveOnly(s, r.after)
      && |r.result.value| == |bytes| / 4 == |decoded|
      && forall i :: 0 <= i < |r.result.value| ==> decoded[i] == Integer(r.result.value[i])
  {
    var count := |bytes| / 4;
    Codec.SpanIsProduct(Codec.Int32, count);
    assert Codec.Span(Codec.Int32, count) == |bytes|;
    assert s.Remaining()[..|bytes|] == bytes && s.Remaining()[|bytes|..] == rest;
    Codec.ReadValuesDecodes(s, Codec.Int32, count, swap, machineLittleEndian);
    Codec.ReadValuesFrame(s, Codec.Int32, count, swap, machineLittleEndian);
    var values := Codec.ReadValues(s, Codec.Int32, count, swap, machineLittleEndian);
    assert values.result.Ok? && values.result.value == Codec.DecodeValues(bytes, Codec.Int32, machineLittleEndian != swap);
    assert values.after.Remaining() == rest;
    Codec.ReadInt32sAgrees(s, count, swap, machineLittleEndian);
    assert Codec.ReadInt32Array(s, count, swap, machineLittleEndian) == Codec.ReadInt32s(s, count, swap, machineLittleEndian);
  }

  /** The name sub-element: one character per byte. */
  lemma NameStage(s: Source, tag: MatElementTag, flags: MatArrayFlags, dims: seq<int32>, nameBytes: seq<byte>, more: seq<byte>, swap: bool, machineLittleEndian: bool)
    returns (t: Source)
    requires Fits(MatDataTypes.MiInt8, nameBytes)
    requires s.Remaining() == SubElement(MatDataTypes.MiInt8, nameBytes, machineLittleEndian != swap) + more
    ensures FileReaders.NameSpec(s, tag, flags, dims, swap, machineLittleEndian) ==
      FileReaders.ValuesSpec(t, tag, flags, dims, DecodeChars(nameBytes), swap, machineLittleEndian)
    ensures t.Remaining() == more && ActiveOnly(s, t)
  {
    var n := |nameBytes|;
    var nt := MatElementTag(MatDataTypes.MiInt8, n as uint32);
    var rest := Zeros(FormatPadding(n as uint32)) + more;
    var nameTag := Codec.ReadElementTag(s, swap, machineLittleEndian);
    assert nameTag == Step(Ok(nt), nameTag.after) && nameTag.after.Remaining() == nameBytes + rest
      && ActiveOnly(s, nameTag.after) by {
      SubElementTag(s, MatDataTypes.MiInt8, nameBytes, more, swap, machineLittleEndian);
    }
    var name := Codec.ReadChars(nameTag.after, n);
    assert name == Step(Ok(DecodeChars(nameBytes)), name.after) && name.after.Remaining() == rest
      && ActiveOnly(s, name.after) by {
      assert (nameBytes + rest)[..n] == nameBytes && (nameBytes + rest)[n..] == rest;
    }
    var padded := Codec.Skip(name.after, nt.PaddingBytes());
    assert padded == Step(Ok(()), padded.after) && padded.after.Remaining() == more
      && ActiveOnly(s, padded.after) by {
      PaddingSkipped(name.after, MatDataTypes.MiInt8, n, more);
    }
    t := padded.after;
    NameUnfold(s, tag, flags, dims, swap, machineLittleEndian, nt, nameTag.after, DecodeChars(nameBytes), name.after, t);
  }

  /** With a fixed width `w`, whole values spanning at most `n` bytes and less than one value short of them span all `n`. */
  lemma WholeValues(count: nat, w: nat, n: nat)
    requires w == 1 || w == 2 || w == 4 || w == 8
    requires n % w == 0 && count * w <= n < count * w + w
    ensures count * w == n
  {
  }

  /** The values of a tag whose length is a whole number of them are those bytes decoded, and nothing more is read. */
  lemma ValuesRead(s: Source, t: MatElementTag, bytes: seq<byte>, rest: seq<byte>, swap: bool, machineLittleEndian: bool)
    requires Codec.ValueKind(t.dataType).Some? && t.dataSize as int == |bytes| < 0x8000_0000
    requires |bytes| % Codec.Width(Codec.ValueKind(t.dataType).value) == 0
    requires s.Remaining() == bytes + rest
    ensures var r := Codec.ReadValuesForTag(s, t, swap, machineLittleEndian);
      && r.result == Ok(Codec.DecodeValues(bytes, Codec.ValueKind(t.dataType).value, machineLittleEndian != swap))
      && r.after.Remaining() == rest && ActiveOnly(s, r.after)
  {
    var k := Codec.ValueKind(t.dataType).value;
    Codec.ReadValuesForTagReads(s, t, swap, machineLittleEndian);
    var count := t.NumValues().value;
    Codec.SpanIsProduct(k, count);
    WholeValues(count, Codec.Width(k), |bytes|);
    assert s.Remaining()[..|bytes|] == bytes && s.Remaining()[|bytes|..] == rest;
    Codec.ReadValuesFrame(s, k, count, swap, machineLittleEndian);
    assert Codec.ReadValuesForTag(s, t, swap, machineLittleEndian) == Codec.ReadValues(s, k, count, swap, machineLittleEndian);
  }

  /**
    The values sub-element: a numeric kind whose length is a whole number of
    values; the matrix is complete and the stream is right after it.
  */
  lemma ValuesStage(s: Source, tag: MatElementTag, flags: MatArrayFlags, dims: seq<int32>, name: string,
                    kind: uint32, valueBytes: seq<byte>, more: seq<byte>, swap: bool, machineLittleEndian: bool)
    requires Codec.ValueKind(kind).Some? && Fits(kind, valueBytes)
    requires |valueBytes| % Codec.Width(Codec.ValueKind(kind).value) == 0
    requires s.Remaining() == SubElement(kind, valueBytes, machineLittleEndian != swap) + more
    ensures var r := FileReaders.ValuesSpec(s, tag, flags, dims, name, swap, machineLittleEndian);
      && r.result == Ok(MiMatrix(tag, flags, name, dims,
                                 Codec.DecodeValues(valueBytes, Codec.ValueKind(kind).value, machineLittleEndian != swap)))
      && r.after.Remaining() == more && ActiveOnly(s, r.after)
  {
    var decoded := Codec.DecodeValues(valueBytes, Codec.ValueKind(kind).value, machineLittleEndian != swap);
    var tagged, read, padded := ValuesSteps(s, kind, valueBytes, more, swap, machineLittleEndian);
    ValuesUnfold(s, tag, flags, dims, name, swap, machineLittleEndian, MatElementTag(kind, |valueBytes| as uint32),
                 tagged, decoded, read, padded);
  }

  /** The three reads of a stored values sub-element, and where each leaves the stream. */
  lemma ValuesSteps(s: Source, kind: uint32, valueBytes: seq<byte>, more: seq<byte>, swap: bool, machineLittleEndian: bool)
    returns (tagged: Source, read: Source, padded: Source)
    requires Codec.ValueKind(kind).Some? && Fits(kind, valueBytes)
    requires |valueBytes| % Codec.Width(Codec.ValueKind(kind).value) == 0
    requires s.Remaining() == SubElement(kind, valueBytes, machineLittleEndian != swap) + more
    ensures var t := MatElementTag(kind, |valueBytes| as uint32);
      && Codec.ReadElementTag(s, swap, machineLittleEndian) == Step(Ok(t), tagged)
      && Codec.ReadValuesForTag(tagged, t, swap, machineLittleEndian) ==
           Step(Ok(Codec.DecodeValues(valueBytes, Codec.ValueKind(kind).value, machineLittleEndian != swap)), read)
      && Codec.Skip(read, t.PaddingBytes()) == Step(Ok(()), padded)
    ensures padded.Remaining() == more && ActiveOnly(s, padded)
  {
    var n := |valueBytes|;
    var t := MatElementTag(kind, n as uint32);
    var rest := Zeros(FormatPadding(n as uint32)) + more;
    SubElementTag(s, kind, valueBytes, more, swap, machineLittleEndian);
    tagged := Codec.ReadElementTag(s, swap, machineLittleEndian).after;
    ValuesRead(tagged, t, valueBytes, rest, swap, machineLittleEndian);
    read := Codec.ReadValuesForTag(tagged, t, swap, machineLittleEndian).after;
    PaddingSkipped(read, kind, n, more);
    padded := Codec.Skip(read, t.PaddingBytes()).after;
  }

  /** `ValuesSpec` once its three reads are known to succeed. */
  lemma ValuesUnfold(s: Source, tag: MatElementTag, flags: MatArrayFlags, dims: seq<int32>, name: string, swap: bool, machineLittleEndian: bool,
                     t: MatElementTag, tagged: Source, values: seq<Num>, read: Source, padded: Source)
    requires Codec.ReadElementTag(s, swap, machineLittleEndian) == Step(Ok(t), tagged)
    requires Codec.ReadValuesForTag(tagged, t, swap, machineLittleEndian) == Step(Ok(values), read)
    requires Codec.Skip(read, t.PaddingBytes()) == Step(Ok(()), padded)
    ensures FileReaders.ValuesSpec(s, tag, flags, dims, name, swap, machineLittleEndian) == Step(Ok(MiMatrix(tag, flags, name, dims, values)), padded)
  {
  }

  /** `NameSpec` once its three reads are known to succeed. */
  lemma NameUnfold(s: Source, tag: MatElementTag, flags: MatArrayFlags, dims: seq<int32>, swap: bool, machineLittleEndian: bool,
                   t: MatElementTag, tagged: Source, name: string, read: Source, padded: Source)
    requires Codec.ReadElementTag(s, swap, machineLittleEndian) == Step(Ok(t), tagged)
    requires Codec.ReadChars(tagged, ToInt32(t.dataSize)) == Step(Ok(name), read)
    requires Codec.Skip(read, t.PaddingBytes()) == Step(Ok(()), padded)
    ensures FileReaders.NameSpec(s, tag, flags, dims, swap, machineLittleEndian) == FileReaders.ValuesSpec(padded, tag, flags, dims, name, swap, machineLittleEndian)
  {
  }

  /** The dimensions as read are the 32-bit integers stored in `dimBytes`, one per 4 bytes. */
  predicate DimensionsStored(dims: seq<int32>, dimBytes: seq<byte>, littleEndian: bool)
  {
    var decoded := Codec.DecodeValues(dimBytes, Codec.Int32, littleEndian);
    && |dims| == |dimBytes| / 4 == |decoded|
    && forall i :: 0 <= i < |dims| ==> decoded[i] == Integer(dims[i])
  }

  /**
    The four sub-elements of a numeric matrix as the reader can take them: 8
    flag bytes, whole 32-bit dimensions, a name that is not empty, and whole
    values of a numeric kind, each of a length the reader pads correctly.
  */
  predicate MatrixFits(flagBytes: seq<byte>, dimBytes: seq<byte>, nameBytes: seq<byte>, kind: uint32, valueBytes: seq<byte>)
  {
    && |flagBytes| == 8
    && Fits(MatDataTypes.MiInt32, dimBytes) && |dimBytes| % 4 == 0
    && Fits(MatDataTypes.MiInt8, nameBytes)
    && Codec.ValueKind(kind).Some? && Fits(kind, valueBytes)
    && |valueBytes| % Codec.Width(Codec.ValueKind(kind).value) == 0
  }

  /** A matrix's payload: flags, dimensions, name and values, one stored sub-element each. */
  function MatrixPayload(flagBytes: seq<byte>, dimBytes: seq<byte>, nameBytes: seq<byte>, kind: uint32, valueBytes: seq<byte>, littleEndian: bool): seq<byte>
    requires MatrixFits(flagBytes, dimBytes, nameBytes, kind, valueBytes)
  {
    SubElement(MatDataTypes.MiUInt32, flagBytes, littleEndian)
      + (SubElement(MatDataTypes.MiInt32, dimBytes, littleEndian)
      + (SubElement(MatDataTypes.MiInt8, nameBytes, littleEndian)
      + SubElement(kind, valueBytes, littleEndian)))
  }

  /** A matrix holds what the four sub-elements store, under the tag it was read with. */
  predicate Decoded(m: MiMatrix, tag: MatElementTag, flagBytes: seq<byte>, dimBytes: seq<byte>, nameBytes: seq<byte>,
                    kind: uint32, valueBytes: seq<byte>, littleEndian: bool)
    requires MatrixFits(flagBytes, dimBytes, nameBytes, kind, valueBytes)
  {
    && m.tag == tag
    && m.flags == Codec.DecodeArrayFlags(Codec.Word(flagBytes, littleEndian))
    && DimensionsStored(m.dimensions, dimBytes, littleEndian)
    && m.name == DecodeChars(nameBytes)
    && m.values == Codec.DecodeValues(valueBytes, Codec.ValueKind(kind).value, littleEndian)
  }

  /**
    A matrix payload laid out as the format lays it out is decoded field by
    field, and the stream is left right after it.
  */
  lemma MatrixLayout(s: Source, tag: MatElementTag, flagBytes: seq<byte>, dimBytes: seq<byte>, nameBytes: seq<byte>,
                     kind: uint32, valueBytes: seq<byte>, more: seq<byte>, swap: bool, machineLittleEndian: bool)
    requires MatrixFits(flagBytes, dimBytes, nameBytes, kind, valueBytes)
    requires s.Remaining() == MatrixPayload(flagBytes, dimBytes, nameBytes, kind, valueBytes, machineLittleEndian != swap) + more
    ensures var r := FileReaders.MatrixSpec(s, tag, swap, machineLittleEndian);
      && r.result.Ok? && r.after.Remaining() == more && ActiveOnly(s, r.after)
      && Decoded(r.result.value, tag, flagBytes, dimBytes, nameBytes, kind, valueBytes, machineLittleEndian != swap)
  {
    var le := machineLittleEndian != swap;
    var a := SubElement(MatDataTypes.MiUInt32, flagBytes, le);
    var b := SubElement(MatDataTypes.MiInt32, dimBytes, le);
    var c := SubElement(MatDataTypes.MiInt8, nameBytes, le);
    var d := SubElement(kind, valueBytes, le);
    var flags := Codec.DecodeArrayFlags(Codec.Word(flagBytes, le));
    var name := DecodeChars(nameBytes);
    Regroup(a, b + (c + d), more);
    var t1 := FlagsStage(s, tag, flagBytes, (b + (c + d)) + more, swap, machineLittleEndian);
    Regroup(b, c + d, more);
    var t2, dims := DimsStage(t1, tag, flags, dimBytes, (c + d) + more, swap, machineLittleEndian);
    Regroup(c, d, more);
    var t3 := NameStage(t2, tag, flags, dims, nameBytes, d + more, swap, machineLittleEndian);
    assert FileReaders.MatrixSpec(s, tag, swap, machineLittleEndian) == FileReaders.ValuesSpec(t3, tag, flags, dims, name, swap, machineLittleEndian);
    ValuesStage(t3, tag, flags, dims, name, kind, valueBytes, more, swap, machineLittleEndian);
  }

  /** A stored matrix element's tag: the matrix kind and the payload's length, in the 8-byte form. */
  lemma MatrixTag(s: Source, flagBytes: seq<byte>, dimBytes: seq<byte>, nameBytes: seq<byte>,
                  kind: uint32, valueBytes: seq<byte>, more: seq<byte>, swap: bool, machineLittleEndian: bool)
    returns (tagged: Source)
    requires MatrixFits(flagBytes, dimBytes, nameBytes, kind, valueBytes)
    requires var payload := MatrixPayload(flagBytes, dimBytes, nameBytes, kind, valueBytes, machineLittleEndian != swap);
      |payload| < TwoTo32 && s.Remaining() == SubElement(MatDataTypes.MiMatrix, payload, machineLittleEndian != swap) + more
    ensures var payload := MatrixPayload(flagBytes, dimBytes, nameBytes, kind, valueBytes, machineLittleEndian != swap);
      && Codec.ReadElementTag(s, swap, machineLittleEndian) == Step(Ok(MatElementTag(MatDataTypes.MiMatrix, |payload| as uint32)), tagged)
      && tagged.Remaining() == payload + more && ActiveOnly(s, tagged)
  {
    var le := machineLittleEndian != swap;
    var payload := MatrixPayload(flagBytes, dimBytes, nameBytes, kind, valueBytes, le);
    assert payload + (Zeros(FormatPadding(|payload| as uint32)) + more) == payload + more by {
      PayloadLength(flagBytes, dimBytes, nameBytes, kind, valueBytes, le);
      assert FormatPadding(|payload| as uint32) == 0;
      assert Zeros(0) + more == more;
    }
    assert |payload| > 4 by {
      PayloadLength(flagBytes, dimBytes, nameBytes, kind, valueBytes, le);
    }
    var rem := s.Remaining();
    assert |rem| >= 8 && Codec.Word(rem, le) == MatDataTypes.MiMatrix && Codec.Word(rem[4..], le) == |payload|
      && rem[8..] == payload + more by {
      NormalTag(rem, MatDataTypes.MiMatrix, payload, more, le);
    }
    Codec.ReadElementTagForms(s, swap, machineLittleEndian);
    tagged := Codec.ReadElementTag(s, swap, machineLittleEndian).after;
  }

  /** A matrix payload fills whole 8-byte units, at least one per sub-element. */
  lemma PayloadLength(flagBytes: seq<byte>, dimBytes: seq<byte>, nameBytes: seq<byte>, kind: uint32, valueBytes: seq<byte>, le: bool)
    requires MatrixFits(flagBytes, dimBytes, nameBytes, kind, valueBytes)
    ensures var n := |MatrixPayload(flagBytes, dimBytes, nameBytes, kind, valueBytes, le)|;
      n % 8 == 0 && n >= 32
  {
    var a := SubElement(MatDataTypes.MiUInt32, flagBytes, le);
    var b := SubElement(MatDataTypes.MiInt32, dimBytes, le);
    var c := SubElement(MatDataTypes.MiInt8, nameBytes, le);
    var d := SubElement(kind, valueBytes, le);
    assert |a| % 8 == 0 && |a| >= 8 by { SubElementLength(MatDataTypes.MiUInt32, flagBytes, le); }
    assert |b| % 8 == 0 && |b| >= 8 by { SubElementLength(MatDataTypes.MiInt32, dimBytes, le); }
    assert |c| % 8 == 0 && |c| >= 8 by { SubElementLength(MatDataTypes.MiInt8, nameBytes, le); }
    assert |d| % 8 == 0 && |d| >= 8 by { SubElementLength(kind, valueBytes, le); }
    assert |MatrixPayload(flagBytes, dimBytes, nameBytes, kind, valueBytes, le)| == |a| + |b| + |c| + |d|;
    Units(|a|, |b|, |c|, |d|);
  }

  lemma Units(a: nat, b: nat, c: nat, d: nat)
    requires a % 8 == 0 && b % 8 == 0 && c % 8 == 0 && d % 8 == 0
    requires a >= 8 && b >= 8 && c >= 8 && d >= 8
    ensures (a + b + c + d) % 8 == 0 && a + b + c + d >= 32
  {
  }

  /** `ElementSpec` once a matrix tag and the matrix are read. */
  lemma ElementUnfold(s: Source, swap: bool, machineLittleEndian: bool, inflate: seq<byte> -> seq<byte>,
                      t: MatElementTag, tagged: Source, m: MiMatrix, read: Source)
    requires FileReaders.TopTagSpec(s, swap, machineLittleEndian, inflate) == Step(Ok(t), tagged)
    requires t.dataType == MatDataTypes.MiMatrix
    requires FileReaders.MatrixSpec(tagged, t, swap, machineLittleEndian) == Step(Ok(m), read)
    ensures FileReaders.ElementSpec(s, swap, machineLittleEndian, inflate) == Step(Ok(Some(m)), read)
  {
  }

  /**
    A numeric matrix stored as a top-level element, as the format stores it,
    is read back with every field it stores, and the stream is left at the
    next element.
  */
  lemma ElementMatrix(s: Source, flagBytes: seq<byte>, dimBytes: seq<byte>, nameBytes: seq<byte>,
                      kind: uint32, valueBytes: seq<byte>, more: seq<byte>, swap: bool, machineLittleEndian: bool,
                      inflate: seq<byte> -> seq<byte>)
    requires MatrixFits(flagBytes, dimBytes, nameBytes, kind, valueBytes)
    requires var payload := MatrixPayload(flagBytes, dimBytes, nameBytes, kind, valueBytes, machineLittleEndian != swap);
      |payload| < TwoTo32 && s.Remaining() == SubElement(MatDataTypes.MiMatrix, payload, machineLittleEndian != swap) + more
    ensures var e := FileReaders.ElementSpec(s, swap, machineLittleEndian, inflate);
      var payload := MatrixPayload(flagBytes, dimBytes, nameBytes, kind, valueBytes, machineLittleEndian != swap);
      && e.result.Ok? && e.result.value.Some? && e.after.Remaining() == more && ActiveOnly(s, e.after)
      && Decoded(e.result.value.value, MatElementTag(MatDataTypes.MiMatrix, |payload| as uint32),
                 flagBytes, dimBytes, nameBytes, kind, valueBytes, machineLittleEndian != swap)
  {
    var le := machineLittleEndian != swap;
    var payload := MatrixPayload(flagBytes, dimBytes, nameBytes, kind, valueBytes, le);
    var t := MatElementTag(MatDataTypes.MiMatrix, |payload| as uint32);
    var tagged := MatrixTag(s, flagBytes, dimBytes, nameBytes, kind, valueBytes, more, swap, machineLittleEndian);
    assert FileReaders.TopTagSpec(s, swap, machineLittleEndian, inflate) == Step(Ok(t), tagged);
    MatrixLayout(tagged, t, flagBytes, dimBytes, nameBytes, kind, valueBytes, more, swap, machineLittleEndian);
    var matrix := FileReaders.MatrixSpec(tagged, t, swap, machineLittleEndian);
    ElementUnfold(s, swap, machineLittleEndian, inflate, t, tagged, matrix.result.value, matrix.after);
  }

  /**
    A numeric matrix stored inside a compressed element (an 8-byte tag, then
    the compressed bytes, with no padding) is read back from the inflated
    bytes; once the gate is closed, reading resumes right after the
    compressed element.
  */
  lemma CompressedMatrix(s: Source, compressed: seq<byte>, rest: seq<byte>,
                         flagBytes: seq<byte>, dimBytes: seq<byte>, nameBytes: seq<byte>,
                         kind: uint32, valueBytes: seq<byte>, more: seq<byte>, swap: bool, machineLittleEndian: bool,
                         inflate: seq<byte> -> seq<byte>)
    requires !s.Gated() && 2 <= |compressed| < 0x8000_0000
    requires var le := machineLittleEndian != swap;
      s.Remaining() == Codec.EncodeWord(MatDataTypes.MiCompressed, le)
                         + (Codec.EncodeWord(|compressed| as uint32, le) + (compressed + rest))
    requires MatrixFits(flagBytes, dimBytes, nameBytes, kind, valueBytes)
    requires var payload := MatrixPayload(flagBytes, dimBytes, nameBytes, kind, valueBytes, machineLittleEndian != swap);
      && |payload| < TwoTo32
      && inflate(compressed[2..]) == SubElement(MatDataTypes.MiMatrix, payload, machineLittleEndian != swap) + more
    ensures var e := FileReaders.ElementSpec(s, swap, machineLittleEndian, inflate);
      var payload := MatrixPayload(flagBytes, dimBytes, nameBytes, kind, valueBytes, machineLittleEndian != swap);
      && e.result.Ok? && e.result.value.Some?
      && Decoded(e.result.value.value, MatElementTag(MatDataTypes.MiMatrix, |payload| as uint32),
                 flagBytes, dimBytes, nameBytes, kind, valueBytes, machineLittleEndian != swap)
      && e.after.Gated() && e.after.Remaining() == more
      && EndDecompress(e.after).Remaining() == rest
  {
    var after := CompressedTag(s, compressed, rest, swap, machineLittleEndian);
    CompressedElement(s, after, compressed, rest, flagBytes, dimBytes, nameBytes, kind, valueBytes, more,
                      swap, machineLittleEndian, inflate);
  }

  /** `CompressedMatrix` once the compressed element's own tag is read. */
  lemma CompressedElement(s: Source, after: Source, compressed: seq<byte>, rest: seq<byte>,
                          flagBytes: seq<byte>, dimBytes: seq<byte>, nameBytes: seq<byte>,
                          kind: uint32, valueBytes: seq<byte>, more: seq<byte>, swap: bool, machineLittleEndian: bool,
                          inflate: seq<byte> -> seq<byte>)
    requires 2 <= |compressed| < 0x8000_0000
    requires Codec.ReadElementTag(s, swap, machineLittleEndian) ==
      Step(Ok(MatElementTag(MatDataTypes.MiCompressed, |compressed| as uint32)), after)
    requires !after.Gated() && after.data == s.data && after.pos + |compressed| <= |after.data|
    requires after.data[after.pos..] == compressed + rest && after.data[after.pos..][..|compressed|] == compressed
    requires MatrixFits(flagBytes, dimBytes, nameBytes, kind, valueBytes)
    requires var payload := MatrixPayload(flagBytes, dimBytes, nameBytes, kind, valueBytes, machineLittleEndian != swap);
      && |payload| < TwoTo32
      && inflate(compressed[2..]) == SubElement(MatDataTypes.MiMatrix, payload, machineLittleEndian != swap) + more
    ensures var e := FileReaders.ElementSpec(s, swap, machineLittleEndian, inflate);
      var payload := MatrixPayload(flagBytes, dimBytes, nameBytes, kind, valueBytes, machineLittleEndian != swap);
      && e.result.Ok? && e.result.value.Some?
      && Decoded(e.result.value.value, MatElementTag(MatDataTypes.MiMatrix, |payload| as uint32),
                 flagBytes, dimBytes, nameBytes, kind, valueBytes, machineLittleEndian != swap)
      && e.after.Gated() && e.after.Remaining() == more
      && EndDecompress(e.after).Remaining() == rest
  {
    var le := machineLittleEndian != swap;
    var payload := MatrixPayload(flagBytes, dimBytes, nameBytes, kind, valueBytes, le);
    var gated := CompressedOpens(s, after, compressed, swap, machineLittleEndian, inflate);
    GateResumes(after.data, after.pos, compressed, rest, gated);
    assert gated.Remaining() == SubElement(MatDataTypes.MiMatrix, payload, le) + more;
    var e := FileReaders.ElementSpec(s, swap, machineLittleEndian, inflate);
    assert && e.result.Ok? && e.result.value.Some?
           && Decoded(e.result.value.value, MatElementTag(MatDataTypes.MiMatrix, |payload| as uint32),
                      flagBytes, dimBytes, nameBytes, kind, valueBytes, le)
           && e.after.Remaining() == more && ActiveOnly(gated, e.after) by {
      GatedMatrix(s, gated, flagBytes, dimBytes, nameBytes, kind, valueBytes, more, swap, machineLittleEndian, inflate);
    }
    assert EndDecompress(e.after) == EndDecompress(gated);
  }

  /** Closing a gate opened over the first bytes of `data[pos..]` resumes right after them. */
  lemma GateResumes(data: seq<byte>, pos: nat, compressed: seq<byte>, rest: seq<byte>, gated: Source)
    requires pos <= |data| && data[pos..] == compressed + rest
    requires gated.data == data && gated.pos == pos + |compressed|
    ensures EndDecompress(gated).Remaining() == rest
  {
    DropDrop(data, pos, |compressed|);
    assert (compressed + rest)[|compressed|..] == rest;
  }

  /**
    When the top-level tag read leads to a stored matrix sub-element, the
    element read is that matrix, and the stream stays in the same gate.
  */
  lemma GatedMatrix(s: Source, g: Source, flagBytes: seq<byte>, dimBytes: seq<byte>, nameBytes: seq<byte>,
                    kind: uint32, valueBytes: seq<byte>, more: seq<byte>, swap: bool, machineLittleEndian: bool,
                    inflate: seq<byte> -> seq<byte>)
    requires FileReaders.TopTagSpec(s, swap, machineLittleEndian, inflate) == Codec.ReadElementTag(g, swap, machineLittleEndian)
    requires MatrixFits(flagBytes, dimBytes, nameBytes, kind, valueBytes)
    requires var payload := MatrixPayload(flagBytes, dimBytes, nameBytes, kind, valueBytes, machineLittleEndian != swap);
      |payload| < TwoTo32 && g.Remaining() == SubElement(MatDataTypes.MiMatrix, payload, machineLittleEndian != swap) + more
    ensures var e := FileReaders.ElementSpec(s, swap, machineLittleEndian, inflate);
      var payload := MatrixPayload(flagBytes, dimBytes, nameBytes, kind, valueBytes, machineLittleEndian != swap);
      && e.result.Ok? && e.result.value.Some?
      && Decoded(e.result.value.value, MatElementTag(MatDataTypes.MiMatrix, |payload| as uint32),
                 flagBytes, dimBytes, nameBytes, kind, valueBytes, machineLittleEndian != swap)
      && e.after.Remaining() == more && ActiveOnly(g, e.after)
  {
    var le := machineLittleEndian != swap;
    var payload := MatrixPayload(flagBytes, dimBytes, nameBytes, kind, valueBytes, le);
    var t := MatElementTag(MatDataTypes.MiMatrix, |payload| as uint32);
    var tagged := MatrixTag(g, flagBytes, dimBytes, nameBytes, kind, valueBytes, more, swap, machineLittleEndian);
    var matrix := FileReaders.MatrixSpec(tagged, t, swap, machineLittleEndian);
    assert && matrix.result.Ok? && matrix.after.Remaining() == more && ActiveOnly(tagged, matrix.after)
           && Decoded(matrix.result.value, t, flagBytes, dimBytes, nameBytes, kind, valueBytes, le) by {
      MatrixLayout(tagged, t, flagBytes, dimBytes, nameBytes, kind, valueBytes, more, swap, machineLittleEndian);
    }
    ElementUnfold(s, swap, machineLittleEndian, inflate, t, tagged, matrix.result.value, matrix.after);
  }

  /**
    Once a compressed element's 8-byte tag is read, with all its bytes
    present, the element opens on the inflated form of those bytes after
    the 2-byte zlib header.
  */
  lemma CompressedOpens(s: Source, after: Source, compressed: seq<byte>, swap: bool, machineLittleEndian: bool,
                        inflate: seq<byte> -> seq<byte>)
    returns (gated: Source)
    requires 2 <= |compressed| < 0x8000_0000
    requires Codec.ReadElementTag(s, swap, machineLittleEndian) ==
      Step(Ok(MatElementTag(MatDataTypes.MiCompressed, |compressed| as uint32)), after)
    requires !after.Gated() && after.pos + |compressed| <= |after.data| && after.data[after.pos..][..|compressed|] == compressed
    ensures FileReaders.TopTagSpec(s, swap, machineLittleEndian, inflate) == Codec.ReadElementTag(gated, swap, machineLittleEndian)
    ensures gated == Source(after.data, after.pos + |compressed|, Inflating(inflate(compressed[2..]), 0))
    ensures gated.Gated() && gated.Remaining() == inflate(compressed[2..])
  {
    var t := MatElementTag(MatDataTypes.MiCompressed, |compressed| as uint32);
    gated := Source(after.data, after.pos + |compressed|, Inflating(inflate(compressed[2..]), 0));
    assert after.OuterRemaining() == after.data[after.pos..];
    TopUnfold(s, swap, machineLittleEndian, inflate, t, after);
    InnerTagOpens(after, t, compressed, swap, machineLittleEndian, inflate);
  }

  /** The 8-byte tag of a compressed element, read outside the gate. */
  lemma CompressedTag(s: Source, compressed: seq<byte>, rest: seq<byte>, swap: bool, machineLittleEndian: bool)
    returns (after: Source)
    requires !s.Gated() && |compressed| < TwoTo32
    requires var le := machineLittleEndian != swap;
      s.Remaining() == Codec.EncodeWord(MatDataTypes.MiCompressed, le)
                         + (Codec.EncodeWord(|compressed| as uint32, le) + (compressed + rest))
    ensures Codec.ReadElementTag(s, swap, machineLittleEndian) ==
      Step(Ok(MatElementTag(MatDataTypes.MiCompressed, |compressed| as uint32)), after)
    ensures !after.Gated() && after.data == s.data && after.pos <= |s.data|
    ensures after.OuterRemaining() == s.data[after.pos..] == compressed + rest
    ensures after.pos + |compressed| <= |after.data| && after.data[after.pos..][..|compressed|] == compressed
  {
    var le := machineLittleEndian != swap;
    TagWords(s.Remaining(), MatDataTypes.MiCompressed, |compressed| as uint32, compressed + rest, le);
    Codec.ReadElementTagForms(s, swap, machineLittleEndian);
    after := Codec.ReadElementTag(s, swap, machineLittleEndian).after;
  }

  lemma DropDrop<T>(xs: seq<T>, i: nat, j: nat)
    requires i + j <= |xs|
    ensures xs[i..][j..] == xs[i + j..]
  {
  }
}
