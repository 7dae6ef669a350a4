/**
  `MatWriter`: writes a header, element tags, single bytes and `MiUInt32`
  arrays through a `BinaryWriter`, which stores every number least
  significant byte first whatever the machine, and encodes characters as
  UTF-8. The stream is its bytes and a position; a write replaces the bytes
  at the position and extends the stream when it runs past the end.
*/
module Writers {
  import opened Base
  import opened ByteOrder
  import opened Text
  import opened ElementTags
  import opened Headers
  import MatDataTypes
  import MatReaders
  import Codec

  function Pow2(n: nat): (p: nat)
    ensures p >= 1
  {
    if n == 0 then 1 else 2 * Pow2(n - 1)
  }

  lemma {:induction false} Pow2Sum(m: nat, n: nat)
    ensures Pow2(m + n) == Pow2(m) * Pow2(n)
  {
    if m > 0 {
      Pow2Sum(m - 1, n);
    }
  }

  lemma Pow2Values()
    ensures Pow2(16) == 0x1_0000 && Pow2(32) == 0x1_0000_0000
  {
    assert Pow2(8) == 0x100;
    Pow2Sum(8, 8);
    Pow2Sum(16, 16);
  }

  /** The C# `|` on the low `bits` bits of two numbers, one bit at a time. */
  function BitOr(a: nat, b: nat, bits: nat): (r: nat)
    ensures r < Pow2(bits)
  {
    if bits == 0 then 0
    else 2 * BitOr(a / 2, b / 2, bits - 1) + (if a % 2 == 1 || b % 2 == 1 then 1 else 0)
  }

  /** Or'ing in nothing keeps a number that fits. */
  lemma {:induction false} BitOrZero(a: nat, bits: nat)
    requires a < Pow2(bits)
    ensures BitOr(a, 0, bits) == a
  {
    if bits > 0 {
      BitOrZero(a / 2, bits - 1);
    }
  }

  /** A number whose low k bits are clear, or'ed with a number below 2^k, is their sum. */
  lemma {:induction false} BitOrDisjoint(h: nat, b: nat, k: nat, bits: nat)
    requires k <= bits && b < Pow2(k) && h * Pow2(k) < Pow2(bits)
    ensures BitOr(h * Pow2(k), b, bits) == h * Pow2(k) + b
  {
    if k == 0 {
      BitOrZero(h, bits);
    } else {
      assert h * Pow2(k) == 2 * (h * Pow2(k - 1));
      assert h * Pow2(k - 1) < Pow2(bits - 1);
      BitOrDisjoint(h, b / 2, k - 1, bits - 1);
    }
  }

  /**
    The packed word `((DataSize << 16) & 0xFFFF0000) | (uint)DataType` on 32
    bits: the shift drops what passes bit 31 and leaves the low half clear,
    so the mask changes nothing.
  */
  function PackedTagWord(t: MatElementTag): uint32
  {
    Pow2Values();
    BitOr(WrapU32(t.dataSize * 0x1_0000), t.dataType, 32)
  }

  /** For a size of at most 4 and a kind below 2^16 the packed word holds the size above the kind. */
  lemma PackedTagWordValue(t: MatElementTag)
    requires t.dataSize <= 4 && t.dataType < 0x1_0000
    ensures PackedTagWord(t) == t.dataSize * 0x1_0000 + t.dataType
  {
    Pow2Values();
    var high := t.dataSize * 0x1_0000;
    assert high < 0x1_0000_0000;
    assert WrapU32(high) == high;
    BitOrDisjoint(t.dataSize, t.dataType, 16, 32);
  }

  /** `BinaryWriter.Write(uint)`. */
  function UInt32Bytes(w: uint32): (bs: seq<byte>)
    ensures |bs| == 4
  {
    Codec.EncodeWord(w, true)
  }

  /** `BinaryWriter.Write(short)`: the two's-complement pattern, low byte first. */
  function Int16Bytes(v: int16): (bs: seq<byte>)
    ensures |bs| == 2
  {
    Pow256Values();
    LittleEndianBytes(if v < 0 then v + 0x1_0000 else v, 2)
  }

  /** The bytes `WriteHeader` emits: the text padded to 116 characters, 8 zero bytes, the version, 19785. */
  function HeaderBytes(text: string, version: int16): seq<byte>
  {
    EncodeChars(PadRight(text, 116)) + Zeros(8) + Int16Bytes(version) + Int16Bytes(MatReaders.NativeIndicator)
  }

  /** The bytes `WriteElementTag` emits: one packed word for at most 4 bytes of data, else kind and size. */
  function TagBytes(t: MatElementTag): seq<byte>
  {
    if t.dataSize <= 4 then UInt32Bytes(PackedTagWord(t))
    else UInt32Bytes(t.dataType) + UInt32Bytes(t.dataSize)
  }

  /** The values stored one after the other. */
  function Words(vs: seq<uint32>): (bs: seq<byte>)
    ensures |bs| == 4 * |vs|
  {
    if vs == [] then [] else UInt32Bytes(vs[0]) + Words(vs[1..])
  }

  /** The size word `WriteUInt32` patches in: `(uint)count * 4` in unchecked 32-bit arithmetic. */
  function ByteCount(count: nat): uint32
  {
    WrapU32(WrapU32(count) * 4)
  }

  /** The bytes `WriteUInt32` leaves behind: the `MiUInt32` code, the byte count, the values. */
  function UInt32ArrayBytes(vs: seq<uint32>): seq<byte>
  {
    UInt32Bytes(MatDataTypes.MiUInt32) + UInt32Bytes(ByteCount(|vs|)) + Words(vs)
  }

  /**
    A write of `bs` at `pos`: those bytes are replaced, the stream grows when
    the write ends past its end, and a gap left by a seek past the end reads
    as zeros.
  */
  function Overwrite(data: seq<byte>, pos: nat, bs: seq<byte>): seq<byte>
  {
    var filled := if pos <= |data| then data else data + Zeros(pos - |data|);
    filled[..pos] + bs + (if pos + |bs| <= |filled| then filled[pos + |bs|..] else [])
  }

  /** Byte by byte: the written bytes, the old bytes around them, zeros in a gap. */
  lemma OverwriteBytes(data: seq<byte>, pos: nat, bs: seq<byte>)
    ensures var r := Overwrite(data, pos, bs);
      && |r| == (if pos + |bs| <= |data| then |data| else pos + |bs|)
      && forall i :: 0 <= i < |r| ==>
           r[i] == if pos <= i < pos + |bs| then bs[i - pos] else if i < |data| then data[i] else 0
  {
  }

  /** Two writes in a row write their concatenation. */
  lemma OverwriteAppend(data: seq<byte>, pos: nat, x: seq<byte>, y: seq<byte>)
    ensures Overwrite(Overwrite(data, pos, x), pos + |x|, y) == Overwrite(data, pos, x + y)
  {
    var a := Overwrite(Overwrite(data, pos, x), pos + |x|, y);
    var b := Overwrite(data, pos, x + y);
    OverwriteBytes(data, pos, x);
    OverwriteBytes(Overwrite(data, pos, x), pos + |x|, y);
    OverwriteBytes(data, pos, x + y);
    assert |a| == |b|;
    forall i | 0 <= i < |a|
      ensures a[i] == b[i]
    {
      if pos <= i < pos + |x| {
        assert (x + y)[i - pos] == x[i - pos];
      } else if pos + |x| <= i < pos + |x| + |y| {
        assert (x + y)[i - pos] == y[i - pos - |x|];
      }
    }
  }

  /** Writing over the middle of an earlier write replaces that part of it. */
  lemma OverwritePatch(data: seq<byte>, pos: nat, x: seq<byte>, z: seq<byte>, v: seq<byte>, y: seq<byte>)
    requires |z| == |y|
    ensures Overwrite(Overwrite(data, pos, x + z + v), pos + |x|, y) == Overwrite(data, pos, x + y + v)
  {
    var a := Overwrite(Overwrite(data, pos, x + z + v), pos + |x|, y);
    var b := Overwrite(data, pos, x + y + v);
    OverwriteBytes(data, pos, x + z + v);
    OverwriteBytes(Overwrite(data, pos, x + z + v), pos + |x|, y);
    OverwriteBytes(data, pos, x + y + v);
    assert |a| == |b|;
    forall i | 0 <= i < |a|
      ensures a[i] == b[i]
    {
      if pos <= i < pos + |x| {
        assert (x + z + v)[i - pos] == x[i - pos] == (x + y + v)[i - pos];
      } else if pos + |x| + |y| <= i < pos + |x| + |y| + |v| {
        assert (x + z + v)[i - pos] == v[i - pos - |x| - |y|] == (x + y + v)[i - pos];
      } else if pos + |x| <= i < pos + |x| + |y| {
        assert (x + y + v)[i - pos] == y[i - pos - |x|];
      }
    }
  }

  /** At the end of the stream a write appends. */
  lemma OverwriteAtEnd(data: seq<byte>, bs: seq<byte>)
    ensures Overwrite(data, |data|, bs) == data + bs
  {
    var r := Overwrite(data, |data|, bs);
    OverwriteBytes(data, |data|, bs);
    assert |r| == |data + bs|;
    forall i | 0 <= i < |r|
      ensures r[i] == (data + bs)[i]
    {
    }
  }

  /** Adding one more value adds its four bytes at the end. */
  lemma {:induction false} WordsSnoc(vs: seq<uint32>, w: uint32)
    ensures Words(vs + [w]) == Words(vs) + UInt32Bytes(w)
  {
    if vs == [] {
      assert [] + [w] == [w];
      assert Words([w]) == UInt32Bytes(w) + Words([]);
    } else {
      assert (vs + [w])[1..] == vs[1..] + [w];
      WordsSnoc(vs[1..], w);
    }
  }

  /** One more value written after the values so far. */
  lemma WriteNextWord(data: seq<byte>, pos: nat, head: seq<byte>, vs: seq<uint32>, count: nat)
    requires count < |vs|
    ensures Overwrite(Overwrite(data, pos, head + Words(vs[..count])), pos + |head| + 4 * count, UInt32Bytes(vs[count]))
         == Overwrite(data, pos, head + Words(vs[..count + 1]))
  {
    OverwriteAppend(data, pos, head + Words(vs[..count]), UInt32Bytes(vs[count]));
    WordsSnoc(vs[..count], vs[count]);
    assert vs[..count + 1] == vs[..count] + [vs[count]];
  }

  class MatWriter {
    /** The bytes of the underlying stream. */
    var data: seq<byte>
    /** The stream position, where the next write goes. */
    var pos: nat

    /** `new MatWriter(stream)`: a writer over a stream with some bytes, at some position. */
    constructor (stream: seq<byte>, position: nat)
      ensures data == stream && pos == position
    {
      data := stream;
      pos := position;
    }

    /** One `BinaryWriter.Write` call: the bytes go at the position, which moves past them. */
    method Write(bs: seq<byte>)
      modifies this
      ensures data == Overwrite(old(data), old(pos), bs) && pos == old(pos) + |bs|
    {
      data := Overwrite(data, pos, bs);
      pos := pos + |bs|;
    }

    /** `BaseStream.Seek(position, SeekOrigin.Begin)`. */
    method Seek(position: nat)
      modifies this
      ensures data == old(data) && pos == position
    {
      pos := position;
    }

    /** `WriteHeader`: the header's text and version, and the native byte-order word. */
    method WriteHeader(header: MatHeader)
      modifies this
      ensures data == Overwrite(old(data), old(pos), HeaderBytes(header.descriptiveText, header.version))
      ensures pos == old(pos) + |HeaderBytes(header.descriptiveText, header.version)|
    {
      ghost var start := data;
      var text := EncodeChars(PadRight(header.descriptiveText, 116));
      Write(text);
      Write(Zeros(8));
      OverwriteAppend(start, old(pos), text, Zeros(8));
      Write(Int16Bytes(header.version));
      OverwriteAppend(start, old(pos), text + Zeros(8), Int16Bytes(header.version));
      Write(Int16Bytes(MatReaders.NativeIndicator));
      OverwriteAppend(start, old(pos), text + Zeros(8) + Int16Bytes(header.version), Int16Bytes(MatReaders.NativeIndicator));
    }

    /** `WriteElementTag`: the small form for at most 4 bytes of data, the two-word form otherwise. */
    method WriteElementTag(tag: MatElementTag)
      modifies this
      ensures data == Overwrite(old(data), old(pos), TagBytes(tag)) && pos == old(pos) + |TagBytes(tag)|
    {
      if tag.dataSize <= 4 {
        var tagValue := PackedTagWord(tag);
        Write(UInt32Bytes(tagValue));
      } else {
        Write(UInt32Bytes(tag.dataType));
        Write(UInt32Bytes(tag.dataSize));
        OverwriteAppend(old(data), old(pos), UInt32Bytes(tag.dataType), UInt32Bytes(tag.dataSize));
      }
    }

    /** `WriteByte`: that one byte. */
    method WriteByte(value: byte)
      modifies this
      ensures data == Overwrite(old(data), old(pos), [value]) && pos == old(pos) + 1
    {
      Write([value]);
    }

    /**
      `WriteUInt32`: the `MiUInt32` code, a zero size word, each value while
      counting them, then a seek back to put the byte count in the size word
      and a seek forward to the end of the values.
    */
    method WriteUInt32(values: seq<uint32>)
      modifies this
      ensures data == Overwrite(old(data), old(pos), UInt32ArrayBytes(values))
      ensures pos == old(pos) + |UInt32ArrayBytes(values)|
    {
      ghost var start := data;
      ghost var head := UInt32Bytes(MatDataTypes.MiUInt32);
      Write(UInt32Bytes(MatDataTypes.MiUInt32));
      var sizePosition := pos;
      Write(UInt32Bytes(0));
      OverwriteAppend(start, old(pos), head, UInt32Bytes(0));
      var count := 0;
      ghost var prefix := head + UInt32Bytes(0);
      while count < |values|
        invariant 0 <= count <= |values|
        invariant data == Overwrite(start, old(pos), prefix + Words(values[..count]))
        invariant pos == old(pos) + |prefix| + 4 * count && sizePosition == old(pos) + 4
      {
        WriteNextWord(start, old(pos), prefix, values, count);
        Write(UInt32Bytes(values[count]));
        count := count + 1;
      }
      assert values[..count] == values;
      var finalPosition := pos;
      Seek(sizePosition);
      Write(UInt32Bytes(ByteCount(count)));
      OverwritePatch(start, old(pos), head, UInt32Bytes(0), Words(values), UInt32Bytes(ByteCount(count)));
      Seek(finalPosition);
    }
  }
}
