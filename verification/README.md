# SharpMat in Dafny

A model of SharpMat, a C# reader and writer for MATLAB Level-5 MAT-files.

A MAT-file starts with a 128-byte header:
- 116 bytes of descriptive text;
- 8 ignored bytes;
- a 16-bit version;
- a 16-bit byte-order indicator (19785, or 18765 when byte-swapped).

The header is followed by data elements. Each element starts with a tag that gives its kind and byte count. A tag is either packed into one 32-bit word, when the first word is above 256, or split over two words. A compressed element (kind 15) holds a 2-byte zlib header (section 2.2 of RFC 1950) followed by deflate data (RFC 1951). A numeric matrix (kind 14) holds four sub-elements: array flags, dimensions, name and values.

The model covers:

- **Codes and tags** (`data_type.dfy`, `element_tag.dfy`):
  - the data-kind codes and their byte widths;
  - a tag's value count;
  - a tag's padding, with the C# `uint` wrap and truncating `%` written out.
- **Values** (`base.dfy`, `text.dfy`, `byte_order.dfy`, `elements.dfy`, `header.dfy`):
  - C#'s unchecked casts;
  - `Trim` and `PadRight`;
  - byte order and `BitConverter`;
  - the matrix and its coordinate lookup;
  - the `MatHeader` class and its validating setter.
- **Byte source** (`source.dfy`, `codec.dfy`):
  - The byte source is the outer stream plus an optional inflated buffer, the "gate".
  - Every read is specified as a pure function over this source.
  - Each read takes all the bytes it asks for, or fails with an end of stream.
- **Stateful readers** (`stream_reader.dfy`, `mat_reader.dfy`, `file_reader.dfy`):
  - `MatStreamReader`, `MatReader` and `MatFileReader` are classes.
  - Each method is proved equal to the pure function of the state before it.
  - The array reads are loops with invariants over arrays.
- **Reader properties** (`mat_reader_facts.dfy`, `file_reader_facts.dfy`):
  - the header rules;
  - the next-tag bookkeeping;
  - the compressed gate;
  - a whole matrix element decodes to exactly its stored flags, dimensions, name and values.
  - `MatReader.ReadMatrixHeader` decodes a stored matrix header when its dimensions fill whole 8-byte words. It skips no padding after the dimensions, so three dimensions make it misread the padding as the name's tag.
  - a value stored in the byte order a reader is told reads back as itself on either machine.
- **Writer** (`writer.dfy`, `writer_facts.dfy`):
  - `MatWriter` is a class over a byte buffer with a position, which a write overwrites or extends.
  - The round trips prove that the readers recover the header, a tag and a `uint32` array that the writer wrote.

The source's quirks are kept as written, and lemmas state each one:
- Padding is negative for most element sizes above 8.
- A zero-size tag does not read back as written.
- `MiInt8` is read unsigned and `MiUInt16` signed.
- `GetValue` uses the fixed index formula `3*c0 + 2*c1 + c2`.
- `MatReader.Skip` ignores the gate.
- `nextTagPos` moves by `8 + DataSize`, whatever the tag's form.

The machine's byte order is the parameter `machineLittleEndian`. The inflater is the function parameter `inflate`, applied to the compressed bytes that follow the 2-byte zlib header.

## Model

| member | source | states |
|---|---|---|
| Base.ToInt32 | SharpMat/MatElementTag.cs:57 | the unchecked `(int)` cast of a `uint`: the same number below 2^31, otherwise that number minus 2^32; non-negative exactly below 2^31 |
| Base.WrapU32 | SharpMat/MatElementTag.cs:57 | unsigned 32-bit wrap-around, which leaves any value in range unchanged |
| Base.Wrap32 | SharpMat/MatFileReader.cs:36 | signed 32-bit wrap-around of `int` arithmetic, which leaves any value in range unchanged |
| Base.RemT | SharpMat/MatElementTag.cs:57 | C#'s truncating `%`: the remainder lies strictly between `-b` and `b` |
| MatDataTypes.GetDataTypeSize | SharpMat/MatDataTypeExtensions.cs:5-26 | the width is one of -1, 1, 2, 4, 8, and it is positive exactly for the ten numeric kinds (`MiInt8` to `MiUInt64`) |
| MatDataTypes.NamedCodesAreSmall | SharpMat/MatDataType.cs:5-19 | every named code is in 1..18, so it is at most 256 (never a packed tag word) and below 2^16 |
| MatDataTypes.NamedCodesAreDistinct | SharpMat/MatDataType.cs:3-20 | the fifteen named codes are pairwise distinct |
| MatDataTypes.UnnamedCodes | SharpMat/MatDataType.cs:3-20 | codes 0, 8, 10, 11 and those above 18 have no name, and their width is -1 |
| MatDataTypes.NonNumericNamedKindsHaveNoWidth | SharpMat/MatDataTypeExtensions.cs:23-24 | matrix, compressed and the three UTF kinds have width -1 |
| ElementTags.FormatPadding | SharpMat/MatElementTag.cs:45-48 | the padding the format intends: a packed element fills 4 bytes, any other element is padded by less than 8 to a multiple of 8 |
| ElementTags.MatElementTag.NumValues | SharpMat/MatElementTag.cs:40-43 | `(int)DataSize / GetDataTypeSize()` in C# arithmetic: the size cast to a signed 32-bit number, truncating division, and the overflow of `int.MinValue / -1`; what it promises is stated by the three `NumValues*` lemmas below |
| ElementTags.MatElementTag.PaddingBytes | SharpMat/MatElementTag.cs:49-59 | `4 - (int)DataSize` for at most 4 bytes, else `(int)(8 - DataSize) % 8` with the subtraction in unsigned 32-bit and a truncating remainder; its regimes and where it agrees with the format are `PaddingBytesRegimes` and `PaddingMatchesFormatExactly` |
| ElementTags.NumValuesBounds | SharpMat/MatElementTag.cs:40-43 | for a numeric kind and a size below 2^31, the count `n` satisfies `n*w <= DataSize < (n+1)*w` |
| ElementTags.NumValuesOfHugeLength | SharpMat/MatElementTag.cs:42 | a numeric kind with a size of 2^31 or more gives a count of at most 0, through the `(int)` cast |
| ElementTags.NumValuesOfWidthlessKind | SharpMat/MatElementTag.cs:42 | for a kind of width -1 the count is `-(int)DataSize` and not an error; the only failure is the overflow at size 2^31 |
| ElementTags.PaddingOfSmallElement | SharpMat/MatElementTag.cs:53-56 | when `DataSize <= 4`, the padding is `4 - DataSize`, so the two add up to 4 |
| ElementTags.PaddingAlignsLargeElement | SharpMat/MatElementTag.cs:57 | when `DataSize > 4`, `DataSize + PaddingBytes` is a multiple of 8 |
| ElementTags.PaddingOfMidSizeElement | SharpMat/MatElementTag.cs:57 | for sizes in 9..2^31+8, the wrapped truncating remainder is `-(DataSize % 8)` |
| ElementTags.PaddingOfHugeElement | SharpMat/MatElementTag.cs:57 | for sizes above 2^31+8, the same expression gives the intended `(8 - DataSize % 8) % 8` |
| ElementTags.PaddingBytesRegimes | SharpMat/MatElementTag.cs:49-59 | the three regimes: `8 - DataSize` in 0..3 for sizes 5..8; a value in -7..0 up to 2^31+8; the intended padding above that |
| ElementTags.PaddingMatchesFormatExactly | SharpMat/MatElementTag.cs:49-59 | the padding equals the intended one if and only if the size is at most 8, a multiple of 8, or above 2^31+8 |
| ElementTags.PaddingOfTwelveBytes | SharpMat/MatElementTag.cs:57 | a concrete case: 12 bytes of `MiInt32` give padding -4 where the format needs 4 |
| Elements.MiMatrix.GetValue | SharpMat/MiMatrix.cs:28-36 | a wrong coordinate count is an argument error; any value returned is one of the matrix's values and needs at least 3 coordinates |
| Elements.NumDimensionsIsLength | SharpMat/MiMatrix.cs:13-26 | a matrix's dimension count is the length of the list it was built with, and its name is the given name |
| Elements.GetValueNeedsThreeAxes | SharpMat/MiMatrix.cs:35 | on a matrix with fewer than 3 dimensions every lookup fails, and with matching coordinates it is an index error |
| Elements.GetValueIndex | SharpMat/MiMatrix.cs:35 | with matching coordinates and an in-range `3*c0 + 2*c1 + c2`, the lookup returns the value at that index |
| Elements.GetValueOutOfRange | SharpMat/MiMatrix.cs:35 | with matching coordinates, the lookup fails exactly when the 32-bit index is outside the values |
| Elements.GetValueOnTwoByTwo | SharpMat/MiMatrix.cs:35 | on a 2x2 matrix every in-range lookup fails |
| Text.TrimStart | SharpMat/MatReader.cs:145 | drops exactly the leading whitespace: the result is a suffix of the input, starts with a non-space, and only whitespace is removed |
| Text.TrimEnd | SharpMat/MatReader.cs:145 | drops exactly the trailing whitespace: the result is a prefix of the input, ends with a non-space, and only whitespace is removed |
| Text.PadRight | SharpMat/MatWriter.cs:31 | the text followed by spaces up to the width; a longer text is kept whole |
| Text.DecodeChars | SharpMat/MatStreamReader.cs:397 | one character per byte, with the byte as its code |
| Text.EncodeChar | SharpMat/MatWriter.cs:22 | UTF-8: 1 to 4 bytes, a single byte exactly for code points below 0x80, and that byte is the code |
| Text.AsciiRoundTrip | SharpMat/MatWriter.cs:31 | ASCII text written as UTF-8 takes one byte per character and reads back unchanged |
| Text.TrimPadRight | SharpMat/MatWriter.cs:31 | trimming a padded text gives the text back when it neither starts nor ends with whitespace |
| ByteOrder.RequiresByteSwapping | SharpMat/MatStreamReader.cs:118-125 | the reader swaps when little-endian is declared on a big-endian machine or big-endian on a little-endian one; `SwappingRule` states it as a rule |
| ByteOrder.SwappingRule | SharpMat/MatStreamReader.cs:118-125 | swapping is needed exactly for a declared order that differs from the machine's; `Default` never swaps |
| ByteOrder.Reverse | SharpMat/MatStreamReader.cs:443 | the reversed buffer: the same length, element `i` taken from position `n-1-i` |
| ByteOrder.ReverseReverse | SharpMat/MatStreamReader.cs:443 | reversing twice gives the original buffer |
| ByteOrder.ValueOfBytes | SharpMat/MatStreamReader.cs:426-429 | little-endian encoding followed by decoding gives the value back |
| ByteOrder.BytesOfValue | SharpMat/MatStreamReader.cs:426-429 | decoding followed by encoding gives the bytes back |
| ByteOrder.ToUnsigned | SharpMat/MatStreamReader.cs:426-429 | `BitConverter`'s unsigned reading in the machine's order is below `256^n` |
| ByteOrder.Signed | SharpMat/MatStreamReader.cs:426-429 | the two's-complement reading lies in `[-2^(8n-1), 2^(8n-1))` and differs from the unsigned one by 0 or `256^n` |
| ByteOrder.UnsignedRoundTrip | SharpMat/MatStreamReader.cs:426-444 | an unsigned value written in the machine's order reads back unchanged |
| ByteOrder.SignedRoundTrip | SharpMat/MatStreamReader.cs:426-444 | a signed value written in the machine's order reads back unchanged |
| ByteOrder.EncodeAsOrders | SharpMat/MatStreamReader.cs:110-125 | writing in a declared order gives little-endian bytes, their reverse, or the machine's order for `Default` |
| ByteOrder.EncodeAs | SharpMat/MatStreamReader.cs:110-125 | an unsigned value stored in a declared order has exactly n bytes; `EncodeAsOrders` says which bytes, `Codec.DeclaredOrderRoundTrip` that a reader told that order reads it back |
| ByteOrder.EncodeSignedAs | SharpMat/MatStreamReader.cs:110-125 | a signed value stored in a declared order has exactly n bytes; `Codec.DeclaredOrderSignedRoundTrip` reads it back |
| ByteOrder.DeclaredOrderBytes | SharpMat/MatStreamReader.cs:435-444 | undoing the swap the declared order implies, then reading in the machine's order, gives back the value's little-endian bytes on either machine |
| Sources.Source.Consume | SharpMat/MatStreamReader.cs:130-136 | taking bytes from the active stream: the inflated buffer when the gate is open (the outer position stays put), otherwise the outer stream |
| Sources.ReadRaw | SharpMat/MatStreamReader.cs:435-441 | a read succeeds exactly when enough bytes remain, yields the next `n` bytes and moves past them; a short read is an end of stream that drains the active stream |
| Sources.ReadRawConcat | SharpMat/MatStreamReader.cs:435-441 | reading `n` bytes and then `m` bytes is reading `n + m` bytes |
| Sources.SeekOuter | SharpMat/MatReader.cs:282 | seeking the outer stream moves it by the offset, or fails before its start and leaves it unchanged |
| Sources.SkipInflated | SharpMat/MatStreamReader.cs:189-195 | with the gate open, skipping consumes that many inflated bytes (all of them at most) and leaves the outer position alone |
| Sources.EndDecompress | SharpMat/MatStreamReader.cs:470-478 | closing the gate keeps the outer stream and position |
| Sources.BeginDecompress | SharpMat/MatStreamReader.cs:455-465 | `count` outer bytes read and their inflation made the active stream; `BeginDecompressConsumes` states it |
| Sources.BeginDecompressConsumes | SharpMat/MatStreamReader.cs:455-465 | opening the gate for `c` bytes succeeds exactly when `0 <= c` and `c` outer bytes remain; it takes exactly those bytes, and reads then come from their inflated form |
| Sources.EndDecompressResumes | SharpMat/MatStreamReader.cs:455-478 | whatever is read or skipped inside the gate, closing it resumes right after the `c` compressed bytes, and closing twice is closing once |
| Codec.ReadByteArray | SharpMat/MatStreamReader.cs:435-444 | the next `n` bytes of the active stream, reversed exactly when swapping, or an end of stream if fewer remain |
| Codec.ConvertSwapped | SharpMat/MatStreamReader.cs:426-444 | converting the possibly reversed bytes in the machine's order reads them in the effective order (machine order unless swapping) |
| Codec.ReadValue | SharpMat/MatStreamReader.cs:426-429 | a fixed-width number read from the next bytes in the effective order, or an end of stream |
| Codec.Convert | SharpMat/MatStreamReader.cs:426-429 | the `BitConverter` conversion each typed read applies to the bytes `ReadByteArray` returns; `ConvertSwapped` proves it is the effective-order meaning `Denotes` of the stored bytes |
| Codec.DeclaredOrderRoundTrip | SharpMat/MatStreamReader.cs:426-444 | an unsigned 16-, 32- or 64-bit value stored in the order the reader was told reads back as itself on either machine, and the stream is left right after it |
| Codec.DeclaredOrderSignedRoundTrip | SharpMat/MatStreamReader.cs:426-444 | the same for signed 16-, 32- and 64-bit values, negative ones included |
| Codec.ReadValues | SharpMat/MatStreamReader.cs:410-415 | `count` reads in order, stopping at the first that fails; its results are stated by `ReadValuesFrame`, `ReadValuesFails` and `ReadValuesDecodes` |
| Codec.ReadArray | SharpMat/MatStreamReader.cs:407-416 | `new T[count]` fails for a negative count, otherwise the `ReadValues` loop; the stream reader's `ReadArray` method is proved equal to it |
| Codec.ReadValuesFrame | SharpMat/MatStreamReader.cs:407-416 | reading `n` values yields exactly `n` values or an end of stream, and moves only the active stream |
| Codec.ReadValuesUnfold | SharpMat/MatStreamReader.cs:407-416 | the first of `n` values is the first sequential read and the rest are the next `n - 1` reads |
| Codec.ReadValuesFails | SharpMat/MatStreamReader.cs:407-416 | the array read fails with the first failing element read |
| Codec.ReadValuesDecodes | SharpMat/MatStreamReader.cs:407-416 | reading `n` values succeeds exactly when `n*w` bytes remain, and yields those bytes decoded in order |
| Codec.DecodeValuesIndex | SharpMat/MatStreamReader.cs:407-416 | the `i`-th decoded value is the `i`-th group of `w` bytes |
| Codec.ReadUInt32 | SharpMat/MatStreamReader.cs:251-255 | four bytes as the word they hold in the effective byte order, or end of stream; `ReadUInt32Typed` proves it equals the typed read through `BitConverter` |
| Codec.ReadUInt32Typed | SharpMat/MatStreamReader.cs:251-255 | the typed `uint32` read agrees with the generic 4-byte unsigned read |
| Codec.ReadInt16 | SharpMat/MatStreamReader.cs:287-291 | the two's-complement 16-bit number in the next two bytes, in the effective order |
| Codec.ReadInt32 | SharpMat/MatStreamReader.cs:305-309 | the two's-complement 32-bit number in the next four bytes, in the effective order, or an end of stream |
| Codec.ReadInt32s | SharpMat/MatReader.cs:393-396 | `count` 32-bit reads in order, stopping at the first that fails; stated by `ReadInt32sUnfold`, `ReadInt32sFails` and `ReadInt32sAgrees` |
| Codec.ReadInt32Array | SharpMat/MatReader.cs:389-398 | a negative count overflows allocating the array, otherwise `ReadInt32s` |
| Codec.ReadInt32sUnfold | SharpMat/MatReader.cs:389-398 | the int32 array loop: the first element is one `ReadInt32`, followed by the remaining count |
| Codec.ReadInt32sFails | SharpMat/MatReader.cs:389-398 | the loop fails with the first failing `ReadInt32` |
| Codec.ReadInt32sAgrees | SharpMat/MatStreamReader.cs:314-318 | the int32 array read gives the same numbers and stream as the generic array read of the int32 kind |
| Codec.ReadByte | SharpMat/MatStreamReader.cs:215-219 | the next byte, never swapped, or an end of stream |
| Codec.ReadChar | SharpMat/MatStreamReader.cs:377-381 | the next byte as a character, or an end of stream |
| Codec.Skip | SharpMat/MatStreamReader.cs:182-196 | a seek on the outer stream when no gate is open, inflated bytes consumed one by one when one is; `SkipPassesOver` states both |
| Codec.SkipPassesOver | SharpMat/MatStreamReader.cs:182-196 | with the gate closed, skipping seeks the outer stream and fails only before its start; with the gate open, it consumes inflated bytes and keeps the outer position |
| Codec.WordOfEncoded | SharpMat/MatStreamReader.cs:251-255 | a word encoded in an order decodes back in that order |
| Codec.ReadElementTag | SharpMat/MatStreamReader.cs:158-175 | a first word above 256 is a packed tag, otherwise the kind followed by a size word; `ReadElementTagForms` states both forms and the end-of-stream cases |
| Codec.ReadElementTagForms | SharpMat/MatStreamReader.cs:158-175 | a first word above 256 is a packed tag: kind in the low half, size in the high half, 4 bytes consumed; otherwise the size is the second word and 8 bytes are consumed; short input is an end of stream |
| Codec.ReadElementTagKeeps | SharpMat/MatStreamReader.cs:158-175 | inside the gate, reading a tag leaves the outer position unchanged |
| Codec.DecodeArrayFlags | SharpMat/MatReader.cs:226-230 | the complex, global and logical bits and the class byte of the flags word; `ArrayFlagsRoundTrip` proves they are recovered from any word that encodes them |
| Codec.ReadArrayFlags | SharpMat/MatStreamReader.cs:142-152 | the flags word decoded and a second word read and discarded; `ReadArrayFlagsConsumesEight` states it |
| Codec.ArrayFlagsRoundTrip | SharpMat/MatStreamReader.cs:142-152 | complex is bit 11, global bit 10, logical bit 9, and the class the low byte: these fields are recovered from any word that encodes them, whatever its upper bits |
| Codec.ReadArrayFlagsConsumesEight | SharpMat/MatStreamReader.cs:142-152 | reading the flags consumes exactly 8 bytes, decodes the first word and discards the second |
| Codec.ReadChars | SharpMat/MatStreamReader.cs:387-398 | a negative count fails; otherwise the next `count` bytes as characters, or an end of stream |
| Codec.ValueKind | SharpMat/MatFileReader.cs:66-91 | the element type `ReadValuesForTag` decodes each kind with; `ValueKindMatchesWidths` and `SignednessQuirks` state it |
| Codec.ReadValuesForTag | SharpMat/MatFileReader.cs:66-92 | `NumValues` values of the tag's kind, an out-of-range error for any other kind; `ReadValuesForTagReads` states it |
| Codec.ValueKindMatchesWidths | SharpMat/MatFileReader.cs:66-91 | `ReadValuesForTag` dispatches exactly the ten numeric kinds onto nine decoders, each with the width `GetDataTypeSize` gives them |
| Codec.SignednessQuirks | SharpMat/MatFileReader.cs:70-76 | `MiInt8` is read as unsigned bytes (0xFF is 255) and `MiUInt16` as signed 16-bit (0xFFFF is -1) |
| Codec.ReadValuesForTagReads | SharpMat/MatFileReader.cs:66-92 | a non-numeric kind is an out-of-range error that reads nothing; a numeric kind reads `NumValues` values, all the whole values the size holds |
| Headers.ValidText | SharpMat/MatHeader.cs:31-38 | a descriptive text of 4 to 115 characters |
| Headers.CheckText | SharpMat/MatHeader.cs:29-40 | the setter accepts exactly a text of 4..115 characters and keeps it verbatim; otherwise it is an argument error |
| Headers.MatHeader.constructor | SharpMat/MatHeader.cs:16-21 | the internal constructor stores the text, version and indicator it is given |
| Headers.MatHeader.Create | SharpMat/MatHeader.cs:16-21 | construction succeeds exactly for valid text and yields a fresh header with the given fields; otherwise it is an argument error |
| Headers.MatHeader.CreateWithText | SharpMat/MatHeader.cs:12-14 | the public constructor gives version 256 and no byte swap, and rejects invalid text |
| Headers.MatHeader.SetDescriptiveText | SharpMat/MatHeader.cs:29-40 | an accepted text is stored; a rejected one leaves the previous text in place |
| Headers.TextLengthBounds | SharpMat/MatHeader.cs:31-38 | boundary cases: lengths 3 and 116 are rejected, 4 and 115 accepted |
| StreamReaders.MatStreamReader.constructor | SharpMat/MatStreamReader.cs:83-101 | a reader at the start of the stream, gate closed, not disposed, with the given byte order |
| StreamReaders.MatStreamReader.SetEndianness | SharpMat/MatStreamReader.cs:110-113 | sets the declared order, and with it the swap flag, without moving the stream |
| StreamReaders.MatStreamReader.ReadRaw | SharpMat/MatStreamReader.cs:438 | the method reads exactly what `Sources.ReadRaw` specifies |
| StreamReaders.MatStreamReader.ReadByteArray | SharpMat/MatStreamReader.cs:435-444 | result and new stream are those of `Codec.ReadByteArray` with the current swap flag |
| StreamReaders.MatStreamReader.ReadValue | SharpMat/MatStreamReader.cs:426-429 | fails as disposed, or reads as `Codec.ReadValue` does |
| StreamReaders.MatStreamReader.ReadUInt32 | SharpMat/MatStreamReader.cs:251-255 | fails as disposed, or reads as `Codec.ReadUInt32` does |
| StreamReaders.MatStreamReader.ReadInt16 | SharpMat/MatStreamReader.cs:287-291 | fails as disposed, or reads as `Codec.ReadInt16` does |
| StreamReaders.MatStreamReader.ReadInt32 | SharpMat/MatStreamReader.cs:305-309 | fails as disposed, or reads as `Codec.ReadInt32` does |
| StreamReaders.MatStreamReader.ReadByte | SharpMat/MatStreamReader.cs:215-219 | fails as disposed, or reads one byte as `Codec.ReadByte` does |
| StreamReaders.MatStreamReader.ReadArray | SharpMat/MatStreamReader.cs:407-416 | fails as disposed, or with an overflow for a negative count; otherwise it fills an array in a loop with the values of `Codec.ReadValues` |
| StreamReaders.MatStreamReader.ReadValues | SharpMat/MatStreamReader.cs:410-415 | the loop over the array gives `Codec.ReadValues` for the count |
| StreamReaders.MatStreamReader.ReadInto | SharpMat/MatStreamReader.cs:413 | one loop step: the element read is stored and the rest of the specification is the remaining count |
| StreamReaders.MatStreamReader.ReadInt32Array | SharpMat/MatStreamReader.cs:314-318 | fails as disposed, or reads as `Codec.ReadInt32Array` does |
| StreamReaders.MatStreamReader.ReadInt32s | SharpMat/MatStreamReader.cs:410-415 | the int32 loop gives `Codec.ReadInt32s` for the count |
| StreamReaders.MatStreamReader.ReadInt32Into | SharpMat/MatStreamReader.cs:413 | one int32 loop step, stored into the array |
| StreamReaders.MatStreamReader.ReadChars | SharpMat/MatStreamReader.cs:387-398 | fails as disposed, or reads as `Codec.ReadChars` does |
| StreamReaders.MatStreamReader.ReadString | SharpMat/MatStreamReader.cs:205-210 | the characters of `ReadChars` as a string |
| StreamReaders.MatStreamReader.ReadChar | SharpMat/MatStreamReader.cs:377-381 | fails as disposed, or reads one character |
| StreamReaders.MatStreamReader.ReadElementTag | SharpMat/MatStreamReader.cs:158-175 | fails as disposed, or reads a tag as `Codec.ReadElementTag` does |
| StreamReaders.MatStreamReader.ReadArrayFlags | SharpMat/MatStreamReader.cs:142-152 | fails as disposed, or reads the flags as `Codec.ReadArrayFlags` does |
| StreamReaders.MatStreamReader.ReadInflatedByte | SharpMat/MatStreamReader.cs:193 | `DeflateStream.ReadByte`: the next inflated byte, or -1 when none is left |
| StreamReaders.MatStreamReader.Skip | SharpMat/MatStreamReader.cs:182-196 | fails as disposed, or skips as `Codec.Skip` does: a seek outside the gate, a byte loop inside it |
| StreamReaders.MatStreamReader.BeginDecompress | SharpMat/MatStreamReader.cs:455-465 | fails as disposed, or opens the gate as `Sources.BeginDecompress` does |
| StreamReaders.MatStreamReader.EndDecompress | SharpMat/MatStreamReader.cs:470-478 | fails as disposed, or closes the gate |
| StreamReaders.MatStreamReader.Dispose | SharpMat/MatStreamReader.cs:487-506 | sets the disposed flag and changes nothing else, so a second call is a no-op |
| MatReaders.Rewound | SharpMat/MatReader.cs:138-142 | the gate closed and the outer stream back at position 0 |
| MatReaders.SwapForIndicator | SharpMat/MatReader.cs:156-166 | 19785 means no swap, 18765 swap, and any other word is invalid data; `IndicatorRead` and `FreshReaderSwap` state what a header makes of it |
| MatReaders.ReadRawHeaderSpec | SharpMat/MatReader.cs:144-156 | 116 characters, 8 skipped bytes, the version and the byte-order word; `HeaderLayout` says where they lie |
| MatReaders.ReadHeaderSpec | SharpMat/MatReader.cs:134-171 | rewind, read the raw header, set the swap flag and validate the text; `HeaderOutcome` and `RereadClearsSwap` state its outcomes |
| MatReaders.AdoptHeaderSpec | SharpMat/MatReader.cs:156-170 | the swap flag is set before the text is checked, so a rejected text still changes it |
| MatReaders.EnsureHeader | SharpMat/MatReader.cs:183-186 | the header is read only when none is cached; `HeaderReadOnce` states it |
| MatReaders.OpenCompressedSpec | SharpMat/MatReader.cs:207-209 | 2 bytes skipped on the outer stream and `(int)DataSize - 2` bytes inflated; `OpenCompressedGates` states where the streams are after it |
| MatReaders.NextTagSpec | SharpMat/MatReader.cs:188-213 | close the gate, go to the next tag position, null at the end, else the tag there; `EndOfElements`, `NextTagReads` and `NextTagFollows` state it |
| MatReaders.TagAtSpec | SharpMat/MatReader.cs:199-213 | read a tag, then follow it; `TagAtAdvances` and `TagAtFollows` state it |
| MatReaders.FollowTagSpec | SharpMat/MatReader.cs:203-213 | the next tag position grows by `8 + DataSize`, and a compressed tag is opened; `FollowTagAdvances`, `FollowCompressed` and `FollowOpened` state it |
| MatReaders.ReadNextElementTagSpec | SharpMat/MatReader.cs:178-214 | the header when none is cached, then the next tag |
| MatReaders.ReadMatrixHeaderSpec | SharpMat/MatReader.cs:220-231 | the flags tag and the two flag words, then the dimensions and the name; `MatrixHeaderLayout` states what it decodes from a stored header |
| MatReaders.MatrixHeaderDimsSpec | SharpMat/MatReader.cs:234-235 | the dimensions tag and `(int)DataSize / 4` 32-bit integers, with no padding skipped |
| MatReaders.MatrixHeaderNameSpec | SharpMat/MatReader.cs:238-249 | the name tag and `(int)DataSize` characters, then the header |
| MatReaders.MatReader.constructor | SharpMat/MatReader.cs:89-107 | a reader at the start of the stream, with no header cached, no swap and next tag position 0 |
| MatReaders.MatReader.SetRequiresByteSwapping | SharpMat/MatReader.cs:113-116 | sets the public swap flag and nothing else |
| MatReaders.MatReader.ReadRaw | SharpMat/MatReader.cs:437 | reads exactly what `Sources.ReadRaw` specifies, keeping every other field |
| MatReaders.MatReader.ReadValue | SharpMat/MatReader.cs:425-428 | fails as disposed, or reads as `Codec.ReadValue` does |
| MatReaders.MatReader.ReadUInt32 | SharpMat/MatReader.cs:320-324 | fails as disposed, or reads as `Codec.ReadUInt32` does |
| MatReaders.MatReader.ReadInt16 | SharpMat/MatReader.cs:338-342 | fails as disposed, or reads as `Codec.ReadInt16` does |
| MatReaders.MatReader.ReadInt32 | SharpMat/MatReader.cs:347-351 | fails as disposed, or reads as `Codec.ReadInt32` does |
| MatReaders.MatReader.ReadInt32Array | SharpMat/MatReader.cs:389-398 | fails as disposed or for a negative count, or fills an array with `Codec.ReadInt32s` |
| MatReaders.MatReader.ReadInt32s | SharpMat/MatReader.cs:393-396 | the loop gives `Codec.ReadInt32s` for the count |
| MatReaders.MatReader.ReadInt32Into | SharpMat/MatReader.cs:395 | one loop step, stored into the array |
| MatReaders.MatReader.ReadString | SharpMat/MatReader.cs:292-297 | fails as disposed, or reads as `Codec.ReadChars` does |
| MatReaders.MatReader.ReadElementTag | SharpMat/MatReader.cs:256-271 | fails as disposed, or reads a tag as `Codec.ReadElementTag` does |
| MatReaders.MatReader.Skip | SharpMat/MatReader.cs:278-283 | fails as disposed, or always seeks the outer stream, even with the gate open |
| MatReaders.MatReader.BeginDecompress | SharpMat/MatReader.cs:454-464 | fails as disposed, or opens the gate as `Sources.BeginDecompress` does |
| MatReaders.MatReader.EndDecompress | SharpMat/MatReader.cs:469-477 | fails as disposed, or closes the gate |
| MatReaders.MatReader.ReadRawHeader | SharpMat/MatReader.cs:144-156 | the 116 text characters, 8 skipped bytes, the version and the indicator, read in the current order |
| MatReaders.MatReader.ReadHeader | SharpMat/MatReader.cs:134-171 | fails as disposed; otherwise it rewinds, reads the header and sets the swap flag from the indicator; on success it caches a fresh header and sets the next tag position after the 128 bytes; on failure it keeps the cached header |
| MatReaders.MatReader.Rewind | SharpMat/MatReader.cs:138-142 | closes the gate and returns the outer stream to position 0 |
| MatReaders.MatReader.AdoptHeader | SharpMat/MatReader.cs:156-170 | 19785 clears the swap flag and 18765 sets it; any other indicator is invalid data; an accepted header is cached with the next tag position |
| MatReaders.MatReader.OpenCompressed | SharpMat/MatReader.cs:205-211 | skips the 2-byte zlib header and opens the gate for `DataSize - 2` bytes |
| MatReaders.MatReader.NextTag | SharpMat/MatReader.cs:188-213 | closes the gate and moves to the next tag position; at or past the end the result is "no element"; otherwise it reads a tag |
| MatReaders.MatReader.TagAt | SharpMat/MatReader.cs:199-213 | reads the tag, then follows it |
| MatReaders.MatReader.FollowTag | SharpMat/MatReader.cs:203-213 | advances the next tag position by `8 + DataSize`, and for a compressed tag returns the inner tag read through the gate |
| MatReaders.MatReader.ReadNextElementTag | SharpMat/MatReader.cs:178-214 | fails as disposed; reads the header first when none is cached, then the next tag |
| MatReaders.MatReader.ReadMatrixHeader | SharpMat/MatReader.cs:220-250 | fails as disposed; otherwise the flags tag and 8 flag bytes, the dims tag and `DataSize/4` int32s, the name tag and `DataSize` characters, with no padding skipped, so a stored header decodes (MatReaderFacts.MatrixHeaderLayout) only when the dimensions fill whole 8-byte words (MatReaderFacts.PaddedDimensionsMisreadName) |
| MatReaders.MatReader.Dispose | SharpMat/MatReader.cs:486-505 | sets the disposed flag and changes nothing else |
| MatReaderFacts.HeaderLayout | SharpMat/MatReader.cs:144-156 | the header read succeeds exactly when the stream holds 128 bytes: text from bytes 0..115, version from 124..125, indicator from 126..127, leaving the stream at 128 |
| MatReaderFacts.IndicatorRead | SharpMat/MatReader.cs:153-166 | the indicator written in one order reads 19785 in the same order and 18765 in the other |
| MatReaderFacts.FreshReaderSwap | SharpMat/MatReader.cs:156-166 | a reader that does not swap yet decides to swap exactly when the file's order differs from the machine's |
| MatReaderFacts.RereadClearsSwap | SharpMat/MatReader.cs:156-166 | reading the header of a foreign-order file a second time clears the swap flag, because the indicator is then read swapped and the flag is set absolutely |
| MatReaderFacts.HeaderOutcome | SharpMat/MatReader.cs:134-170 | the header's outcome: an unknown indicator is invalid data with the flag unchanged; invalid trimmed text is an argument error; otherwise the trimmed text, version and new flag |
| MatReaderFacts.HeaderReadOnce | SharpMat/MatReader.cs:183-186 | with a header cached, the header is not read again; after a successful call a header is cached |
| MatReaderFacts.NextTagKeeps | SharpMat/MatReader.cs:188-213 | reading the next tag changes neither the swap flag nor the cached header |
| MatReaderFacts.EndOfElements | SharpMat/MatReader.cs:194-197 | at or past the end the result is "no element", not an error, and repeating the call gives the same |
| MatReaderFacts.NextTagReads | SharpMat/MatReader.cs:189-199 | before the end the tag is read at the next tag position, with the gate closed |
| MatReaderFacts.TagAtAdvances | SharpMat/MatReader.cs:199-203 | a failed tag read keeps the next tag position; a successful one moves it by `8 + DataSize` with 32-bit wrap |
| MatReaderFacts.FollowTagAdvances | SharpMat/MatReader.cs:203 | following a tag moves the next tag position by `8 + DataSize`, whatever happens after |
| MatReaderFacts.TagAtFollows | SharpMat/MatReader.cs:199-213 | reading the tag and then following it is what `TagAt` does |
| MatReaderFacts.NextTagPosition | SharpMat/MatReader.cs:202-203 | the position moves by `8 + DataSize` from where the tag started; for a packed tag it ends 4 bytes past the element |
| MatReaderFacts.PackedTagSize | SharpMat/MatReader.cs:261-265 | a tag that took 4 bytes has a size below 2^16 |
| MatReaderFacts.FollowCompressed | SharpMat/MatReader.cs:205-211 | a compressed tag opens the gate over bytes `pos+2 .. pos+DataSize` and returns the inner tag read from their inflated form |
| MatReaderFacts.FollowOpened | SharpMat/MatReader.cs:205-213 | once a compressed payload is open, the result is the inner tag read through the gate |
| MatReaderFacts.OpenCompressedGates | SharpMat/MatReader.cs:207-209 | opening a compressed payload leaves the outer stream after it and reads from the inflation of its bytes after the zlib header |
| MatReaderFacts.NextTagFollows | SharpMat/MatReader.cs:188-213 | the next tag is the tag read at the next tag position, followed |
| MatReaderFacts.HeaderFlagsStage | SharpMat/MatReader.cs:224-231 | a stored flags sub-element: the flags are its first word decoded, and the stream is left after its 8 bytes |
| MatReaderFacts.HeaderDimsStage | SharpMat/MatReader.cs:234-235 | a stored dimensions sub-element: the stored 32-bit integers, with the stream left at its padding, which is empty for a multiple of 8 bytes |
| MatReaderFacts.HeaderNameStage | SharpMat/MatReader.cs:238-249 | a stored name sub-element: the header holds the flags, the dimensions and the name bytes as characters, and the name's padding stays unread |
| MatReaderFacts.MatrixHeaderLayout | SharpMat/MatReader.cs:220-250 | a header stored as the format lays it out, with dimensions of a multiple of 8 bytes, decodes to its flags, dimensions and name |
| MatReaderFacts.PaddingReadAsNameTag | SharpMat/MatReader.cs:234-238 | after 12 bytes of dimensions the zero padding word is read as a tag of kind 0 whose size is the name tag's packed word |
| MatReaderFacts.MisreadNameStage | SharpMat/MatReader.cs:238-239 | over that tag the name has the misread length, and a stream shorter than that ends the read |
| MatReaderFacts.PaddedDimsStage | SharpMat/MatReader.cs:234-239 | three dimensions and then a name of 1 to 4 bytes give a name of the misread length |
| MatReaderFacts.PaddedDimensionsMisreadName | SharpMat/MatReader.cs:234-239 | with three dimensions a header never holds its stored name, and with fewer than 65532 bytes after the name it fails with end of stream |
| FileReaders.RawHeaderSpec | SharpMat/MatFileReader.cs:96-109 | 116 characters, 8 bytes skipped on the active stream, the version and the byte-order word, from wherever the reader stands |
| FileReaders.HeaderSpec | SharpMat/MatFileReader.cs:94-122 | the static header read; `StaticHeaderMatches` proves it equals `MatReader.ReadHeader` at the start of a file |
| FileReaders.TopTagSpec | SharpMat/MatFileReader.cs:32-38 | the tag at the reader, or the tag inside a compressed element; `TopUnfold` and `InnerTagOpens` state it |
| FileReaders.InnerTagSpec | SharpMat/MatFileReader.cs:35-37 | skip 2 bytes, inflate `(int)DataSize - 2` bytes, read a tag; `InnerUnfold`, `InnerGateFails` and `InnerGateOpens` state it |
| FileReaders.MatrixSpec | SharpMat/MatFileReader.cs:42-43 | the flags tag and flags, then the rest of the matrix; `FlagsStage` states what it decodes |
| FileReaders.DimensionsSpec | SharpMat/MatFileReader.cs:45-47 | the dimensions tag, `(int)DataSize / 4` integers and the padding; `DimsStage` |
| FileReaders.NameSpec | SharpMat/MatFileReader.cs:49-51 | the name tag, `(int)DataSize` characters and the padding; `NameStage` |
| FileReaders.ValuesSpec | SharpMat/MatFileReader.cs:53-58 | the values tag, the values and the padding, then the matrix; `ValuesStage` |
| FileReaders.ElementSpec | SharpMat/MatFileReader.cs:32-63 | a matrix, or null for any other kind; `NonMatrixNotSkipped` and `ElementMatrix` state it |
| FileReaders.NextElementSpec | SharpMat/MatFileReader.cs:31-63 | close the gate, then one element |
| FileReaders.ReadElementSpec | SharpMat/MatFileReader.cs:24-64 | the header once, then the next element; `FileHeaderOnce` states it |
| FileReaders.InnerGateFails | SharpMat/MatFileReader.cs:36 | a failure to open the gate for `(int)DataSize - 2` bytes is the failure of the compressed tag |
| FileReaders.InnerGateOpens | SharpMat/MatFileReader.cs:35-37 | once the gate is open, the result is the inner tag read through it |
| FileReaders.MatFileReader.constructor | SharpMat/MatFileReader.cs:14-17 | a fresh reader at the start of the stream, with no header cached |
| FileReaders.MatFileReader.ReadHeader | SharpMat/MatFileReader.cs:94-122 | the static header read returns a fresh header with the specified fields; it neither rewinds nor changes the reader's byte order |
| FileReaders.MatFileReader.ReadElement | SharpMat/MatFileReader.cs:24-64 | reads the header only when none is cached (the cached header is kept), then the next element as specified |
| FileReaders.MatFileReader.ReadNext | SharpMat/MatFileReader.cs:31-63 | closes the gate, reads the top tag and, for a matrix, the matrix; any other kind gives null without skipping |
| FileReaders.MatFileReader.ReadTopTag | SharpMat/MatFileReader.cs:32-38 | the top tag, or the inner tag of a compressed element |
| FileReaders.MatFileReader.ReadInnerTag | SharpMat/MatFileReader.cs:35-37 | skips 2 bytes, opens the gate for `(int)DataSize - 2` bytes and reads the inner tag |
| FileReaders.MatFileReader.ReadMatrix | SharpMat/MatFileReader.cs:40-58 | the flags tag and flags, then dimensions, name and values |
| FileReaders.MatFileReader.ReadDimensions | SharpMat/MatFileReader.cs:45-47 | the dims tag, `DataSize/4` int32s and the padding |
| FileReaders.MatFileReader.ReadName | SharpMat/MatFileReader.cs:49-51 | the name tag, `DataSize` characters and the padding |
| FileReaders.MatFileReader.ReadMatrixValues | SharpMat/MatFileReader.cs:53-58 | the values tag, its values and the padding, and the matrix built from all four parts |
| FileReaders.MatFileReader.ReadValuesForTag | SharpMat/MatFileReader.cs:66-92 | reads as `Codec.ReadValuesForTag` does |
| FileReaders.MatFileReader.Dispose | SharpMat/MatFileReader.cs:124-139 | disposes the underlying reader and changes nothing else |
| FileReaderFacts.StaticHeaderMatches | SharpMat/MatFileReader.cs:94-122 | on a stream at position 0, the static header read gives the same result and stream as `MatReader.ReadHeader` |
| FileReaderFacts.FileHeaderOnce | SharpMat/MatFileReader.cs:26-29 | a disposed reader fails first; with a header cached, only the element is read; success leaves a header cached, and a failed header read leaves none |
| FileReaderFacts.NonMatrixNotSkipped | SharpMat/MatFileReader.cs:60-63 | any other uncompressed kind gives null, with the stream right after its 8-byte tag and the payload not skipped |
| FileReaderFacts.InnerTagOpens | SharpMat/MatFileReader.cs:33-38 | a compressed element's inner tag is the tag read from the inflation of its payload after the zlib header |
| FileReaderFacts.InnerUnfold | SharpMat/MatFileReader.cs:35-37 | after the skip and the gate, the inner tag is the tag read through the gate |
| FileReaderFacts.TopUnfold | SharpMat/MatFileReader.cs:32-38 | for a compressed top tag, the tag used is the inner one |
| FileReaderFacts.SubElementLength | SharpMat/MatElementTag.cs:49-59 | a sub-element as the format stores it fills whole 8-byte units, and a normal one of aligned size takes `8 + size` bytes |
| FileReaderFacts.SubElementTag | SharpMat/MatStreamReader.cs:158-175 | a stored sub-element's tag reads back as its kind and size, leaving its payload and padding |
| FileReaderFacts.PaddingSkipped | SharpMat/MatFileReader.cs:47 | for a size up to 8 or a multiple of 8, skipping `PaddingBytes` passes exactly over the stored padding |
| FileReaderFacts.FlagsStage | SharpMat/MatFileReader.cs:42-43 | the flags sub-element decodes to the flags of its first word |
| FileReaderFacts.FlagsRead | SharpMat/MatStreamReader.cs:142-152 | reading flags from 8 bytes decodes their first word and leaves the rest |
| FileReaderFacts.FlagsUnfold | SharpMat/MatFileReader.cs:42-43 | the matrix read is the flags tag, the flags, then the rest |
| FileReaderFacts.DimsStage | SharpMat/MatFileReader.cs:45-47 | the dimensions sub-element gives the int32s it stores, one per 4 bytes |
| FileReaderFacts.Int32sRead | SharpMat/MatFileReader.cs:46 | reading `n/4` int32s from `n` bytes gives them in order and leaves the rest |
| FileReaderFacts.NameStage | SharpMat/MatFileReader.cs:49-51 | the name sub-element gives its bytes as characters |
| FileReaderFacts.ValuesRead | SharpMat/MatFileReader.cs:55 | a values payload of whole values decodes to exactly those values |
| FileReaderFacts.ValuesStage | SharpMat/MatFileReader.cs:53-58 | the values sub-element gives the matrix with the decoded values and leaves the stream after its padding |
| FileReaderFacts.ValuesSteps | SharpMat/MatFileReader.cs:53-56 | the values tag, the values and the padding, step by step |
| FileReaderFacts.ValuesUnfold | SharpMat/MatFileReader.cs:53-58 | after the values tag, values and padding, the result is the matrix of all four parts |
| FileReaderFacts.NameUnfold | SharpMat/MatFileReader.cs:49-51 | after the name tag, characters and padding, the values follow |
| FileReaderFacts.MatrixLayout | SharpMat/MatFileReader.cs:40-58 | a matrix payload of four stored sub-elements decodes to exactly its flags, dimensions, name and values, and the stream is left after it |
| FileReaderFacts.MatrixTag | SharpMat/MatFileReader.cs:32 | a stored matrix element's tag reads back as kind 14 with the payload length |
| FileReaderFacts.ElementUnfold | SharpMat/MatFileReader.cs:40-58 | a matrix tag followed by a matrix read gives that matrix |
| FileReaderFacts.ElementMatrix | SharpMat/MatFileReader.cs:24-64 | an uncompressed stored matrix element reads back as a matrix with exactly its stored parts, with the stream after it |
| FileReaderFacts.CompressedMatrix | SharpMat/MatFileReader.cs:31-58 | a compressed element whose payload inflates to a stored matrix reads back as that matrix; closing the gate resumes after the compressed bytes |
| FileReaderFacts.CompressedElement | SharpMat/MatFileReader.cs:31-58 | the same, from the point after the compressed tag |
| FileReaderFacts.GateResumes | SharpMat/MatStreamReader.cs:470-478 | closing the gate resumes right after the compressed bytes |
| FileReaderFacts.GatedMatrix | SharpMat/MatFileReader.cs:40-58 | a stored matrix read through the gate gives the matrix of its parts |
| FileReaderFacts.CompressedOpens | SharpMat/MatFileReader.cs:33-38 | a compressed tag opens the gate over the inflation of its payload after the zlib header |
| FileReaderFacts.CompressedTag | SharpMat/MatFileReader.cs:32 | a two-word compressed tag reads back with its length, leaving the compressed bytes |
| Writers.BitOr | SharpMat/MatWriter.cs:46 | bitwise OR over a bit width, below `2^bits` |
| Writers.BitOrDisjoint | SharpMat/MatWriter.cs:46 | OR of a shifted high part and a low part that fits below the shift is their sum |
| Writers.PackedTagWord | SharpMat/MatWriter.cs:46 | `((DataSize << 16) & 0xFFFF0000) | (uint)DataType` on 32 bits; `PackedTagWordValue` states its value |
| Writers.PackedTagWordValue | SharpMat/MatWriter.cs:44-48 | for a size of at most 4 and a kind below 2^16, the packed word is `size * 2^16 + kind` |
| Writers.UInt32Bytes | SharpMat/MatWriter.cs:47 | `BinaryWriter.Write(uint)`: 4 bytes, little-endian |
| Writers.Int16Bytes | SharpMat/MatWriter.cs:33-34 | `BinaryWriter.Write(short)`: 2 bytes, little-endian two's complement |
| Writers.Words | SharpMat/MatWriter.cs:69-73 | each value as 4 little-endian bytes, in order |
| Writers.OverwriteBytes | SharpMat/MatWriter.cs:76-77 | after a write at a position, the written bytes are there and every other byte is unchanged (or zero in a gap) |
| Writers.OverwriteAppend | SharpMat/MatWriter.cs:69-73 | writing `x` and then `y` right after it is writing `x + y` |
| Writers.OverwritePatch | SharpMat/MatWriter.cs:75-78 | seeking back into written bytes and writing over a same-length part replaces just that part |
| Writers.OverwriteAtEnd | SharpMat/MatWriter.cs:56-59 | a write at the end of the stream appends |
| Writers.WriteNextWord | SharpMat/MatWriter.cs:69-73 | one loop step: writing the next value extends the written words by that value |
| Writers.HeaderBytes | SharpMat/MatWriter.cs:29-35 | the padded text, 8 zero bytes, the version and 19785; `WriterFacts.HeaderLayout` and `WriterFacts.HeaderRoundTrip` state them |
| Writers.TagBytes | SharpMat/MatWriter.cs:41-54 | one packed word for at most 4 bytes of data, else the kind and the size; `WriterFacts.TagRoundTrip` reads them back |
| Writers.ByteCount | SharpMat/MatWriter.cs:77 | `(uint)count * 4` in unchecked 32-bit arithmetic |
| Writers.UInt32ArrayBytes | SharpMat/MatWriter.cs:61-79 | the `MiUInt32` code, the byte count and the values; `WriterFacts.UInt32ArrayRoundTrip` reads them back |
| Writers.Overwrite | SharpMat/MatWriter.cs:58 | a `MemoryStream` write at a position; `OverwriteBytes` states it byte by byte |
| Writers.MatWriter.constructor | SharpMat/MatWriter.cs:20-23 | a writer over the given stream at the given position |
| Writers.MatWriter.Write | SharpMat/MatWriter.cs:58 | writes the bytes at the position and moves past them |
| Writers.MatWriter.Seek | SharpMat/MatWriter.cs:76 | moves the position and leaves the bytes unchanged |
| Writers.MatWriter.WriteHeader | SharpMat/MatWriter.cs:29-35 | writes the text padded to 116 characters (UTF-8), 8 zero bytes, the version and always 19785, whatever the header's indicator, and moves past them |
| Writers.MatWriter.WriteElementTag | SharpMat/MatWriter.cs:41-54 | one packed word for a size of at most 4, otherwise the kind and size words |
| Writers.MatWriter.WriteByte | SharpMat/MatWriter.cs:56-59 | writes exactly one byte and moves one on |
| Writers.MatWriter.WriteUInt32 | SharpMat/MatWriter.cs:61-79 | the loop writes the `MiUInt32` code, then each value; the size word is patched to `4 * count` afterwards, and the writer ends after the last value |
| WriterFacts.ReadWrittenWord | SharpMat/MatStreamReader.cs:251-255 | a word written little-endian reads back unchanged by a reader in little-endian effective order |
| WriterFacts.ReadPackedTag | SharpMat/MatStreamReader.cs:164-167 | a written word above 256 reads as a packed tag after 4 bytes |
| WriterFacts.ReadTwoWordTag | SharpMat/MatStreamReader.cs:169-172 | a written kind of at most 256 and a size read as a normal tag after 8 bytes |
| WriterFacts.TagRoundTrip | SharpMat/MatWriter.cs:41-54 | a written tag reads back unchanged, with the stream after it: for sizes 1..4 with a kind below 2^16, and for sizes above 4 with a kind up to 256 |
| WriterFacts.EmptyTagMisread | SharpMat/MatWriter.cs:44-47 | a size-0 tag is written as the bare kind, which the reader takes for a normal tag: it reads the next word as the size, or fails at the end |
| WriterFacts.WordsDecode | SharpMat/MatWriter.cs:69-73 | the written words decode to the values, in order |
| WriterFacts.UInt32ArrayTag | SharpMat/MatWriter.cs:61-66 | a written array's tag reads as `MiUInt32` with size `4 * count` |
| WriterFacts.UInt32TagCount | SharpMat/MatElementTag.cs:40-43 | that tag's value count is the number of values written |
| WriterFacts.UInt32TagReads | SharpMat/MatFileReader.cs:79-80 | reading values for that tag reads `count` unsigned 32-bit values |
| WriterFacts.ReadWrittenWords | SharpMat/MatWriter.cs:69-73 | the written words read back as the values |
| WriterFacts.UInt32ArrayValues | SharpMat/MatWriter.cs:61-79 | the values after the written tag read back in order |
| WriterFacts.UInt32ArrayRoundTrip | SharpMat/MatWriter.cs:61-79 | a written array reads back, as tag and values, as exactly the values written, with the stream after it |
| WriterFacts.HeaderLayout | SharpMat/MatWriter.cs:29-35 | the written header is 128 bytes: the padded text in bytes 0..115, version at 124, indicator at 126 |
| WriterFacts.Int16Words | SharpMat/MatWriter.cs:33-34 | the written version reads back; the indicator reads 19785 little-endian and 18765 big-endian |
| WriterFacts.HeaderTextRead | SharpMat/MatWriter.cs:31 | the written text reads back as the padded text |
| WriterFacts.RawHeaderOfWritten | SharpMat/MatWriter.cs:29-35 | a written header reads back raw as padded text, version and indicator, leaving the stream at 128 |
| WriterFacts.HeaderRoundTrip | SharpMat/MatWriter.cs:29-35 | a written header with ASCII text and no outer whitespace reads back as that text and version with no swap; a big-endian reader reads the same text with the swap flag set |
| WriterFacts.AdoptWritten | SharpMat/MatWriter.cs:34 | the two indicator values the writer can produce give no swap (19785) or swap (18765) |

## Left out

- Deflate decoding (RFC 1951) is not modelled. The inflater is a function parameter applied to the compressed bytes. A `DeflateStream` that delivers fewer bytes than asked is treated as an end of stream.
- The inflater is total: corrupt compressed data, on which `DeflateStream` throws `InvalidDataException`, is not modelled. The model inflates it to some byte sequence and reads on.
- Text length is counted in Unicode scalar values (Dafny's `char`), where C#'s `Length` and `PadRight` count UTF-16 code units. Headers.ValidText and Text.PadRight therefore differ from `MatHeader.Text`'s check and `WriteHeader`'s padding for characters above U+FFFF. For example, 115 characters including one emoji are accepted by the model but rejected by the source, because they are 116 code units.
- Text encodings are simplified:
  - The readers take one byte per character (`Encoding.GetChars` of a single-byte encoding).
  - The writer encodes UTF-8.
  - The header round trip therefore covers ASCII text only.
- Floating point is not interpreted. Singles and doubles are kept as their byte groups, and `Convert.ToDouble` is the identity on integers.
- Stream I/O is replaced by a byte sequence with a position:
  - `Stream.Seek` and `Position` are modelled.
  - `File.OpenRead`, the file-name constructor of `MatFileReader`, null-argument checks, `CanRead`, closing the underlying stream (`leaveOpen`) and `GC.SuppressFinalize` are not.
- The writer's stream is a memory stream: a write replaces bytes, extends past the end, and a gap is zero-filled. Flushing, disposing and stream errors are not modelled.
- `MatFileReader` is modelled over `MatStreamReader`, the only reader that has the methods it calls (`ReadArrayFlags`, `ReadBytes`, `ReadInt16Array`, …).
- The typed array wrappers (`ReadBytes`, `ReadUInt16Array`, `ReadUInt32Array`, `ReadInt64Array`, `ReadUInt64Array`, `ReadSingles`, `ReadDoubles` and the single-value `ReadUInt16`, `ReadUInt64`, `ReadInt64`, `ReadSingle`, `ReadDouble`) are one generic `ReadArray`/`ReadValue` over a numeric kind.
- The `IBinaryReader` interface, the command-line program and the tests are not part of this model.
- The machine's byte order is a parameter rather than `BitConverter.IsLittleEndian`.
- `WriteUInt32` takes a sequence where the source takes any `IEnumerable<uint>`. The count is a 64-bit `long` that the source casts to `uint` before multiplying; the model wraps `count` and `4 * count` to 32 bits.
- WriterFacts.TagRoundTrip: stated for kinds below 2^16 with a size of 1..4 and kinds up to 256 otherwise, which covers every named kind. Other kinds do not round-trip in the source either.
- WriterFacts.HeaderRoundTrip: stated for ASCII text of 4..115 characters that neither starts nor ends with whitespace. `Trim` changes any other text.
- WriterFacts.UInt32ArrayRoundTrip: stated for arrays of fewer than 2^29 values, where `4 * count` fits the reader's `int` arithmetic.
- FileReaderFacts.MatrixLayout: stated for non-empty sub-elements whose sizes are at most 8 or a multiple of 8. For other sizes the padding skip moves backwards (ElementTags.PaddingBytesRegimes), and the element does not decode as laid out.
- FileReaderFacts.ElementMatrix, FileReaderFacts.CompressedMatrix: the same restriction as MatrixLayout.
- MatReaderFacts.MatrixHeaderLayout: stated for dimensions of a multiple of 8 bytes. `ReadMatrixHeader` skips no padding after the dimensions, so any other size misreads the name; MatReaderFacts.PaddedDimensionsMisreadName shows this for three dimensions.
