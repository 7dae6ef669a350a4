/**
  The element tag: a (kind, payload length) pair, and the two quantities the
  readers derive from it, the value count and the padding after the payload.
  Both are computed the way the C# getters compute them: through the unchecked
  cast of the `uint` length to `int`, with C#'s truncating `/` and `%`.
*/
module ElementTags {
  import opened Base
  import opened MatDataTypes

  datatype MatElementTag = MatElementTag(dataType: uint32, dataSize: uint32)
  {
    /** `(int)DataSize / GetDataTypeSize()`; int.MinValue / -1 throws. */
    function NumValues(): Result<int32>
    {
      var w := GetDataTypeSize(dataType);
      var n := ToInt32(dataSize);
      if w == -1 && n == -0x8000_0000 then Err(Overflow)
      else
        assert -0x8000_0000 <= DivT(n, w) < 0x8000_0000 by { DivTBound(n, w); }
        Ok(DivT(n, w))
    }

    /**
      `4 - (int)DataSize` for a payload of at most 4 bytes, otherwise
      `(int)(8 - DataSize) % 8` with the subtraction done in `uint`.
    */
    function PaddingBytes(): int
    {
      if dataSize <= 4 then 4 - dataSize
      else RemT(ToInt32(WrapU32(8 - dataSize)), 8)
    }
  }

  /** The padding the MAT-file format prescribes: up to 4 bytes for a small element, else to a multiple of 8. */
  function FormatPadding(dataSize: uint32): (p: nat)
    ensures dataSize <= 4 ==> dataSize + p == 4
    ensures dataSize > 4 ==> p < 8 && (dataSize + p) % 8 == 0
  {
    if dataSize <= 4 then 4 - dataSize else (8 - dataSize % 8) % 8
  }

  lemma DivTBound(n: int32, w: int)
    requires w == 1 || w == 2 || w == 4 || w == 8 || (w == -1 && n != -0x8000_0000)
    ensures -0x8000_0000 <= DivT(n, w) < 0x8000_0000
  {
  }

  /** For a numeric kind, the value count is the number of whole values the payload holds. */
  lemma NumValuesBounds(t: MatElementTag)
    requires t.dataType in NumericCodes && t.dataSize < 0x8000_0000
    ensures t.NumValues().Ok?
    ensures var n, w := t.NumValues().value, GetDataTypeSize(t.dataType);
      0 <= n && n * w <= t.dataSize < (n + 1) * w
  {
    var w := GetDataTypeSize(t.dataType);
    assert DivT(t.dataSize, w) == t.dataSize / w;
  }

  /** A numeric kind whose length has the top bit set gets a count of zero or less, which no read accepts. */
  lemma NumValuesOfHugeLength(t: MatElementTag)
    requires t.dataType in NumericCodes && t.dataSize >= 0x8000_0000
    ensures t.NumValues().Ok? && t.NumValues().value <= 0
  {
  }

  /** A kind without a width gives the negated length, not an error, except for length 2^31. */
  lemma NumValuesOfWidthlessKind(t: MatElementTag)
    requires GetDataTypeSize(t.dataType) == -1
    ensures t.NumValues().Ok? <==> t.dataSize != 0x8000_0000
    ensures t.NumValues().Ok? ==> t.NumValues().value == -ToInt32(t.dataSize)
  {
  }

  /** A payload of at most 4 bytes is padded up to exactly 4. */
  lemma PaddingOfSmallElement(t: MatElementTag)
    requires t.dataSize <= 4
    ensures 0 <= t.PaddingBytes() <= 4 && t.dataSize + t.PaddingBytes() == 4
  {
  }

  /** Beyond 8 bytes the `uint` subtraction `8 - DataSize` wraps; read as an `int` it is negative up to 2^31 + 8. */
  lemma WrappedDifference(ds: int)
    requires 8 < ds < TwoTo32
    ensures ds <= 0x8000_0008 ==> ToInt32(WrapU32(8 - ds)) == 8 - ds
    ensures ds > 0x8000_0008 ==> ToInt32(WrapU32(8 - ds)) == TwoTo32 + 8 - ds
  {
    assert WrapU32(8 - ds) == TwoTo32 + 8 - ds;
  }

  /** A longer payload plus its padding is always a multiple of 8, even where the padding is negative. */
  lemma PaddingAlignsLargeElement(t: MatElementTag)
    requires t.dataSize > 4
    ensures (t.dataSize + t.PaddingBytes()) % 8 == 0
  {
    PaddingBytesRegimes(t);
  }

  /** Between 8 and 2^31 + 8 bytes the truncating `%` of the negative difference is zero or negative. */
  lemma PaddingOfMidSizeElement(ds: int)
    requires 8 < ds <= 0x8000_0008
    ensures RemT(ToInt32(WrapU32(8 - ds)), 8) == -(ds % 8)
  {
    WrappedDifference(ds);
    var q := (ds - 8) / 8;
    assert ds - 8 == 8 * q + (ds - 8) % 8;
    assert ds == 8 * (q + 1) + (ds - 8) % 8;
  }

  /** Beyond 2^31 + 8 bytes the wrapped difference is positive and the remainder is the format's padding. */
  lemma PaddingOfHugeElement(ds: int)
    requires 0x8000_0008 < ds < TwoTo32
    ensures RemT(ToInt32(WrapU32(8 - ds)), 8) == (8 - ds % 8) % 8
  {
    WrappedDifference(ds);
    var q := ds / 8;
    assert ds == 8 * q + ds % 8;
    assert TwoTo32 + 8 - ds == 8 * (0x2000_0001 - q) - ds % 8;
  }

  /**
    The three regimes of the padding: the format's value up to 8 bytes, a value
    in [-7, 0] (a backwards skip) up to 2^31 + 8 bytes, and the format's value
    again beyond, where the `uint` subtraction wraps to a non-negative `int`.
  */
  lemma PaddingBytesRegimes(t: MatElementTag)
    ensures 5 <= t.dataSize <= 8 ==> t.PaddingBytes() == 8 - t.dataSize && 0 <= t.PaddingBytes() <= 3
    ensures 8 < t.dataSize <= 0x8000_0008 ==> t.PaddingBytes() == -(t.dataSize % 8) && -7 <= t.PaddingBytes() <= 0
    ensures 0x8000_0008 < t.dataSize ==> t.PaddingBytes() == FormatPadding(t.dataSize)
  {
    var ds: int := t.dataSize;
    if 8 < ds <= 0x8000_0008 {
      PaddingOfMidSizeElement(ds);
    } else if 0x8000_0008 < ds {
      PaddingOfHugeElement(ds);
    }
  }

  /** The padding agrees with the format's exactly when the length is small, aligned or beyond 2^31 + 8. */
  lemma PaddingMatchesFormatExactly(t: MatElementTag)
    ensures t.PaddingBytes() == FormatPadding(t.dataSize)
        <==> t.dataSize <= 8 || t.dataSize % 8 == 0 || t.dataSize > 0x8000_0008
  {
    PaddingBytesRegimes(t);
  }

  /** A three-value int32 dimensions payload (12 bytes) is followed by a skip of -4 bytes. */
  lemma PaddingOfTwelveBytes()
    ensures MatElementTag(MiInt32, 12).PaddingBytes() == -4
    ensures FormatPadding(12) == 4
  {
    WrappedDifference(12);
  }
}
