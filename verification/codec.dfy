/**
  Decoding values from a source, as the stream readers do it: a value of
  width w is read as w raw bytes, reversed when the reader swaps, and handed
  to `BitConverter`, which reads them in the machine's order. Each function
  returns its result and the source after it; an exception leaves the source
  as the failing read left it.
*/
module Codec {
  import opened Base
  import opened MatDataTypes
  import opened ElementTags
  import opened ByteOrder
  import opened Sources
  import opened Text
  import opened Elements

  /** The element types the readers' typed reads produce. */
  datatype NumKind = UInt8 | UInt16 | UInt32 | UInt64 | Int16 | Int32 | Int64 | Single | Double

  function Width(k: NumKind): nat
  {
    match k
    case UInt8 => 1
    case UInt16 | Int16 => 2
    case UInt32 | Int32 | Single => 4
    case UInt64 | Int64 | Double => 8
  }

  function Swapped(bs: seq<byte>, swap: bool): seq<byte>
  {
    if swap then Reverse(bs) else bs
  }

  /**
    The number stored bytes denote in the given byte order: the reference
    meaning of a value in a file, independent of the machine.
  */
  function Denotes(bs: seq<byte>, k: NumKind, littleEndian: bool): Num
    requires |bs| == Width(k)
  {
    var le := if littleEndian then bs else Reverse(bs);
    match k
    case UInt8 => Integer(bs[0])
    case UInt16 | UInt32 | UInt64 => Integer(LittleEndianValue(le))
    case Int16 | Int32 | Int64 => Integer(Signed(LittleEndianValue(le), |bs|))
    case Single | Double => Float(le)
  }

  /**
    `ReadByteArray(n)`: the next n bytes of the active stream, reversed when
    the reader swaps; fewer than n bytes is an end-of-stream error.
  */
  function ReadByteArray(s: Source, n: nat, swap: bool): (r: Step<seq<byte>>)
    ensures r.after == ReadRaw(s, n).after
    ensures r.result.Ok? <==> n <= |s.Remaining()|
    ensures r.result.Ok? ==> r.result.value == Swapped(s.Remaining()[..n], swap)
    ensures r.result.Err? ==> r.result.error == EndOfStream
  {
    var raw := ReadRaw(s, n);
    if raw.result.Ok? then Step(Ok(Swapped(raw.result.value, swap)), raw.after)
    else Step(Err(raw.result.error), raw.after)
  }

  /**
    The conversion each typed read applies to the bytes `ReadByteArray`
    returned: `ReadByte` takes the byte itself, the others go through
    `BitConverter` in the machine's order.
  */
  function Convert(bs: seq<byte>, k: NumKind, machineLittleEndian: bool): Num
    requires |bs| == Width(k)
  {
    match k
    case UInt8 => Integer(bs[0])
    case UInt16 | UInt32 | UInt64 => Integer(ToUnsigned(bs, machineLittleEndian))
    case Int16 | Int32 | Int64 => Integer(ToSigned(bs, machineLittleEndian))
    case Single | Double => Float(MachineToLittleEndian(bs, machineLittleEndian))
  }

  /** Swapping and then converting in the machine's order reads the stored bytes little-endian exactly when the two differ. */
  lemma ConvertSwapped(bs: seq<byte>, k: NumKind, swap: bool, machineLittleEndian: bool)
    requires |bs| == Width(k)
    ensures Convert(Swapped(bs, swap), k, machineLittleEndian) == Denotes(bs, k, machineLittleEndian != swap)
  {
    ReverseReverse(bs);
    if k == UInt8 {
      assert Reverse(bs) == bs;
    }
  }

  /** One typed read (`ReadUInt16`, `ReadInt32`, `ReadDouble`, ...). */
  function ReadValue(s: Source, k: NumKind, swap: bool, machineLittleEndian: bool): (r: Step<Num>)
    ensures r.after == ReadRaw(s, Width(k)).after
    ensures r.result.Ok? <==> Width(k) <= |s.Remaining()|
    ensures r.result.Ok? ==> r.result.value == Denotes(s.Remaining()[..Width(k)], k, machineLittleEndian != swap)
    ensures r.result.Err? ==> r.result.error == EndOfStream
  {
    var b := ReadByteArray(s, Width(k), swap);
    if b.result.Ok? then
      ConvertSwapped(s.Remaining()[..Width(k)], k, swap, machineLittleEndian);
      Step(Ok(Convert(b.result.value, k, machineLittleEndian)), b.after)
    else Step(Err(b.result.error), b.after)
  }

  /**
    A value stored in the order a reader was told the data has reads back as
    itself: the swap the reader derives from that order undoes the layout,
    whatever the machine's order.
  */
  lemma DeclaredOrderRoundTrip(s: Source, e: Endianness, k: NumKind, v: nat, rest: seq<byte>, machineLittleEndian: bool)
    requires k == UInt16 || k == UInt32 || k == UInt64
    requires v < Pow256(Width(k))
    requires s.Remaining() == EncodeAs(e, v, Width(k), machineLittleEndian) + rest
    ensures var r := ReadValue(s, k, RequiresByteSwapping(e, machineLittleEndian), machineLittleEndian);
      r.result == Ok(Integer(v)) && r.after.Remaining() == rest
  {
    var n := Width(k);
    assert s.Remaining()[..n] == EncodeAs(e, v, n, machineLittleEndian);
    DeclaredOrderBytes(e, v, n, machineLittleEndian);
    ValueOfBytes(v, n);
  }

  /** The same for the signed kinds, negative values included. */
  lemma DeclaredOrderSignedRoundTrip(s: Source, e: Endianness, k: NumKind, v: int, rest: seq<byte>, machineLittleEndian: bool)
    requires k == Int16 || k == Int32 || k == Int64
    requires -(Half(Width(k)) as int) <= v < Half(Width(k))
    requires s.Remaining() == EncodeSignedAs(e, v, Width(k), machineLittleEndian) + rest
    ensures var r := ReadValue(s, k, RequiresByteSwapping(e, machineLittleEndian), machineLittleEndian);
      r.result == Ok(Integer(v)) && r.after.Remaining() == rest
  {
    var n := Width(k);
    var u := if v < 0 then v + Pow256(n) else v;
    assert s.Remaining()[..n] == EncodeSignedAs(e, v, n, machineLittleEndian) == EncodeAs(e, u, n, machineLittleEndian);
    DeclaredOrderBytes(e, u, n, machineLittleEndian);
    ValueOfBytes(u, n);
    assert Signed(u, n) == v;
  }

  /** The values stored back to back in `bs`, each `Width(k)` bytes. */
  function DecodeValues(bs: seq<byte>, k: NumKind, littleEndian: bool): (vs: seq<Num>)
    decreases |bs|
  {
    if |bs| < Width(k) then [] else [Denotes(bs[..Width(k)], k, littleEndian)] + DecodeValues(bs[Width(k)..], k, littleEndian)
  }

  /** `count` values read one after the other, stopping at the first failing read. */
  function ReadValues(s: Source, k: NumKind, count: nat, swap: bool, machineLittleEndian: bool): Step<seq<Num>>
    decreases count
  {
    if count == 0 then Step(Ok([]), s)
    else
      var first := ReadValue(s, k, swap, machineLittleEndian);
      if first.result.Err? then Step(Err(first.result.error), first.after)
      else
        var rest := ReadValues(first.after, k, count - 1, swap, machineLittleEndian);
        if rest.result.Err? then Step(Err(rest.result.error), rest.after)
        else Step(Ok([first.result.value] + rest.result.value), rest.after)
  }

  /** A run of reads keeps the stream and the gate; it yields `count` values or fails at the end of the stream. */
  lemma {:induction false} ReadValuesFrame(s: Source, k: NumKind, count: nat, swap: bool, machineLittleEndian: bool)
    decreases count
    ensures var r := ReadValues(s, k, count, swap, machineLittleEndian);
      && r.after.data == s.data && r.after.Gated() == s.Gated() && (s.Gated() ==> r.after.pos == s.pos)
      && (r.result.Ok? ==> |r.result.value| == count)
      && (r.result.Err? ==> r.result.error == EndOfStream && r.after.Remaining() == [])
  {
    if count > 0 {
      var first := ReadValue(s, k, swap, machineLittleEndian);
      if first.result.Ok? {
        ReadValuesFrame(first.after, k, count - 1, swap, machineLittleEndian);
      }
    }
  }

  /** One value read, then the rest: the shape a reading loop follows. */
  lemma ReadValuesUnfold(s: Source, k: NumKind, count: nat, less: nat, swap: bool, machineLittleEndian: bool, v: Num, after: Source)
    requires less + 1 == count && ReadValue(s, k, swap, machineLittleEndian) == Step(Ok(v), after)
    ensures ReadValues(s, k, count, swap, machineLittleEndian) == Prepend([v], ReadValues(after, k, less, swap, machineLittleEndian))
  {
  }

  /** The first read failing ends the whole run with its error. */
  lemma ReadValuesFails(s: Source, k: NumKind, count: nat, swap: bool, machineLittleEndian: bool, e: Error, after: Source)
    requires count > 0 && ReadValue(s, k, swap, machineLittleEndian) == Step(Err(e), after)
    ensures ReadValues(s, k, count, swap, machineLittleEndian) == Step(Err(e), after)
  {
  }

  /**
    What reading `n` values from bytes `rem` amounts to: success exactly when
    `n` values' worth of bytes remain; the values are those bytes decoded in
    the given byte order, and exactly those bytes are consumed.
  */
  predicate DecodesFrom(r: Step<seq<Num>>, rem: seq<byte>, k: NumKind, n: nat, littleEndian: bool)
  {
    && (r.result.Ok? <==> Span(k, n) <= |rem|)
    && (r.result.Ok? ==>
          && r.result.value == DecodeValues(rem[..Span(k, n)], k, littleEndian)
          && r.after.Remaining() == rem[Span(k, n)..])
  }

  /**
    Reading `count` values succeeds exactly when `count` values' worth of bytes
    remain; the values are those bytes decoded in the effective byte order and
    exactly those bytes are consumed. A failure is an end of stream that has
    consumed everything.
  */
  lemma {:induction false} ReadValuesDecodes(s: Source, k: NumKind, count: nat, swap: bool, machineLittleEndian: bool)
    decreases count
    ensures var r := ReadValues(s, k, count, swap, machineLittleEndian);
      var rem := s.Remaining();
      && (r.result.Ok? <==> Span(k, count) <= |rem|)
      && (r.result.Ok? ==>
            && r.result.value == DecodeValues(rem[..Span(k, count)], k, machineLittleEndian != swap)
            && r.after.Remaining() == rem[Span(k, count)..])
      && (r.result.Err? ==> r.result.error == EndOfStream && r.after.Remaining() == [])
  {
    ReadValuesDecodesFrom(s, k, count, swap, machineLittleEndian);
    ReadValuesFrame(s, k, count, swap, machineLittleEndian);
  }

  lemma {:induction false} ReadValuesDecodesFrom(s: Source, k: NumKind, count: nat, swap: bool, machineLittleEndian: bool)
    decreases count
    ensures DecodesFrom(ReadValues(s, k, count, swap, machineLittleEndian), s.Remaining(), k, count, machineLittleEndian != swap)
  {
    if count > 0 {
      var first := ReadValue(s, k, swap, machineLittleEndian);
      if first.result.Ok? {
        var less := count - 1;
        var rem := s.Remaining();
        var whole := ReadValues(s, k, count, swap, machineLittleEndian);
        var tail := ReadValues(first.after, k, less, swap, machineLittleEndian);
        assert DecodesFrom(tail, rem[Width(k)..], k, less, machineLittleEndian != swap) by {
          ReadValuesDecodesFrom(first.after, k, less, swap, machineLittleEndian);
          assert first.after.Remaining() == rem[Width(k)..];
        }
        assert whole == Prepend([first.result.value], tail) by {
          ReadValuesUnfold(s, k, count, less, swap, machineLittleEndian, first.result.value, first.after);
        }
        ReadValuesStep(rem, k, count, machineLittleEndian != swap, first.result.value, whole, tail);
      } else {
        assert Span(k, count) >= Width(k);
      }
    }
  }

  /** The inductive step: one value, then the rest from where it left off. */
  lemma ReadValuesStep(rem: seq<byte>, k: NumKind, count: nat, littleEndian: bool,
                       v: Num, whole: Step<seq<Num>>, tail: Step<seq<Num>>)
    requires count > 0 && Width(k) <= |rem| && v == Denotes(rem[..Width(k)], k, littleEndian)
    requires whole == Prepend([v], tail)
    requires DecodesFrom(tail, rem[Width(k)..], k, count - 1, littleEndian)
    ensures DecodesFrom(whole, rem, k, count, littleEndian)
  {
    var w := Width(k);
    assert Span(k, count) == w + Span(k, count - 1);
    if tail.result.Ok? {
      SliceAfterPrefix(rem, w, Span(k, count - 1));
      DecodeValuesCons(rem[..Span(k, count)], k, littleEndian);
    }
  }

  lemma SliceAfterPrefix(rem: seq<byte>, w: nat, n: nat)
    requires w + n <= |rem|
    ensures rem[..w + n][..w] == rem[..w]
    ensures rem[..w + n][w..] == rem[w..][..n]
    ensures rem[w + n..] == rem[w..][n..]
  {
  }

  lemma DecodeValuesCons(bs: seq<byte>, k: NumKind, littleEndian: bool)
    requires |bs| >= Width(k)
    ensures DecodeValues(bs, k, littleEndian)
        == [Denotes(bs[..Width(k)], k, littleEndian)] + DecodeValues(bs[Width(k)..], k, littleEndian)
  {
  }

  /** The bytes `count` values of kind k take: `count * Width(k)`. */
  function Span(k: NumKind, count: nat): nat
  {
    if count == 0 then 0 else Width(k) + Span(k, count - 1)
  }

  lemma {:induction false} SpanIsProduct(k: NumKind, count: nat)
    ensures Span(k, count) == count * Width(k)
  {
    if count > 0 {
      SpanIsProduct(k, count - 1);
    }
  }

  /** Every decoded value is the decoding of its own slot of `Width(k)` bytes. */
  lemma {:induction false} DecodeValuesIndex(bs: seq<byte>, k: NumKind, littleEndian: bool, n: nat)
    requires |bs| == n * Width(k)
    ensures |DecodeValues(bs, k, littleEndian)| == n
    ensures forall i :: 0 <= i < n ==>
      (i + 1) * Width(k) <= |bs| &&
      DecodeValues(bs, k, littleEndian)[i] == Denotes(bs[i * Width(k)..(i + 1) * Width(k)], k, littleEndian)
  {
    var w := Width(k);
    if n > 0 {
      assert |bs| == w + (n - 1) * w;
      DecodeValuesIndex(bs[w..], k, littleEndian, n - 1);
      var vs := DecodeValues(bs, k, littleEndian);
      forall i | 0 <= i < n
        ensures (i + 1) * w <= |bs| && vs[i] == Denotes(bs[i * w..(i + 1) * w], k, littleEndian)
      {
        if i > 0 {
          assert (i + 1) * w == w + i * w;
          assert i * w == w + (i - 1) * w;
          assert bs[w..][(i - 1) * w..i * w] == bs[i * w..(i + 1) * w];
        }
      }
    }
  }

  /** The readers' private `ReadArray(count, read)`: a negative count fails allocating the array. */
  function ReadArray(s: Source, k: NumKind, count: int, swap: bool, machineLittleEndian: bool): Step<seq<Num>>
  {
    if count < 0 then Step(Err(Overflow), s) else ReadValues(s, k, count, swap, machineLittleEndian)
  }

  /** `ReadUInt32`: four bytes as an unsigned number, the word they hold in the effective byte order. */
  function ReadUInt32(s: Source, swap: bool, machineLittleEndian: bool): Step<uint32>
  {
    var raw := ReadRaw(s, 4);
    if raw.result.Ok? then Step(Ok(Word(raw.result.value, machineLittleEndian != swap)), raw.after)
    else Step(Err(raw.result.error), raw.after)
  }

  /**
    The readers compute `ReadUInt32` as a typed read: the bytes, reversed
    when swapping, converted in the machine's order. That is the word the
    stored bytes hold in the effective order.
  */
  lemma ReadUInt32Typed(s: Source, swap: bool, machineLittleEndian: bool)
    ensures var r := ReadUInt32(s, swap, machineLittleEndian);
      var v := ReadValue(s, UInt32, swap, machineLittleEndian);
      && r.after == v.after && r.result.Ok? == v.result.Ok?
      && (r.result.Err? ==> r.result.error == v.result.error)
      && (r.result.Ok? ==> v.result.value == Integer(r.result.value))
  {
    var rem := s.Remaining();
    if 4 <= |rem| {
      assert rem[..4][..4] == rem[..4];
    }
  }

  /** `ReadInt16`: two bytes as a two's-complement number. */
  function ReadInt16(s: Source, swap: bool, machineLittleEndian: bool): (r: Step<int16>)
    ensures r.after == ReadRaw(s, 2).after
    ensures r.result.Ok? <==> 2 <= |s.Remaining()|
    ensures r.result.Ok? ==> Integer(r.result.value) == Denotes(s.Remaining()[..2], Int16, machineLittleEndian != swap)
  {
    var b := ReadValue(s, Int16, swap, machineLittleEndian);
    if b.result.Ok? then
      Pow256Values();
      var v := b.result.value.value;
      assert -0x8000 <= v < 0x8000 by { assert Half(2) == 0x8000; }
      Step(Ok(v), b.after)
    else Step(Err(b.result.error), b.after)
  }

  /** `ReadInt32`: four bytes as a two's-complement number. */
  function ReadInt32(s: Source, swap: bool, machineLittleEndian: bool): (r: Step<int32>)
    ensures r.after == ReadRaw(s, 4).after
    ensures r.result.Ok? <==> 4 <= |s.Remaining()|
    ensures r.result.Ok? ==> Integer(r.result.value) == Denotes(s.Remaining()[..4], Int32, machineLittleEndian != swap)
    ensures r.result.Err? ==> r.result.error == EndOfStream
  {
    var b := ReadValue(s, Int32, swap, machineLittleEndian);
    if b.result.Ok? then
      Pow256Values();
      var v := b.result.value.value;
      assert -0x8000_0000 <= v < 0x8000_0000 by { assert Half(4) == 0x8000_0000; }
      Step(Ok(v), b.after)
    else Step(Err(b.result.error), b.after)
  }

  /** `count` 32-bit integers read one after the other. */
  function ReadInt32s(s: Source, count: nat, swap: bool, machineLittleEndian: bool): Step<seq<int32>>
    decreases count
  {
    if count == 0 then Step(Ok([]), s)
    else
      var first := ReadInt32(s, swap, machineLittleEndian);
      if first.result.Err? then Step(Err(first.result.error), first.after)
      else
        var rest := ReadInt32s(first.after, count - 1, swap, machineLittleEndian);
        if rest.result.Err? then Step(Err(rest.result.error), rest.after)
        else Step(Ok([first.result.value] + rest.result.value), rest.after)
  }

  lemma ReadInt32sUnfold(s: Source, count: nat, less: nat, swap: bool, machineLittleEndian: bool, v: int32, after: Source)
    requires less + 1 == count && ReadInt32(s, swap, machineLittleEndian) == Step(Ok(v), after)
    ensures ReadInt32s(s, count, swap, machineLittleEndian) == Prepend([v], ReadInt32s(after, less, swap, machineLittleEndian))
  {
  }

  lemma ReadInt32sFails(s: Source, count: nat, swap: bool, machineLittleEndian: bool, e: Error, after: Source)
    requires count > 0 && ReadInt32(s, swap, machineLittleEndian) == Step(Err(e), after)
    ensures ReadInt32s(s, count, swap, machineLittleEndian) == Step(Err(e), after)
  {
  }

  /** `ReadInt32Array(count)`: a negative count fails allocating the array. */
  function ReadInt32Array(s: Source, count: int, swap: bool, machineLittleEndian: bool): Step<seq<int32>>
  {
    if count < 0 then Step(Err(Overflow), s) else ReadInt32s(s, count, swap, machineLittleEndian)
  }

  /** The typed 32-bit array read agrees with the generic one, value for value. */
  predicate AgreesWith(a: Step<seq<int32>>, b: Step<seq<Num>>)
  {
    && a.after == b.after && a.result.Ok? == b.result.Ok?
    && (a.result.Err? ==> a.result.error == b.result.error)
    && (a.result.Ok? ==>
          && |a.result.value| == |b.result.value|
          && forall i :: 0 <= i < |a.result.value| ==> b.result.value[i] == Integer(a.result.value[i]))
  }

  lemma {:induction false} ReadInt32sAgrees(s: Source, count: nat, swap: bool, machineLittleEndian: bool)
    decreases count
    ensures AgreesWith(ReadInt32s(s, count, swap, machineLittleEndian), ReadValues(s, Int32, count, swap, machineLittleEndian))
  {
    if count > 0 {
      var first := ReadInt32(s, swap, machineLittleEndian);
      var generic := ReadValue(s, Int32, swap, machineLittleEndian);
      assert first.after == generic.after && first.result.Ok? == generic.result.Ok?;
      if first.result.Ok? {
        ReadInt32sAgrees(first.after, count - 1, swap, machineLittleEndian);
        AgreesCons(first.result.value, generic.result.value,
          ReadInt32s(first.after, count - 1, swap, machineLittleEndian),
          ReadValues(first.after, Int32, count - 1, swap, machineLittleEndian));
      }
    }
  }

  lemma AgreesCons(x: int32, y: Num, a: Step<seq<int32>>, b: Step<seq<Num>>)
    requires y == Integer(x) && AgreesWith(a, b)
    ensures AgreesWith(Prepend([x], a),
      if b.result.Err? then Step(Err(b.result.error), b.after) else Step(Ok([y] + b.result.value), b.after))
  {
  }

  /**
    `ReadByte`: one byte, which no byte order changes.
  */
  function ReadByte(s: Source): (r: Step<byte>)
    ensures r.after == ReadRaw(s, 1).after
    ensures r.result.Ok? <==> 1 <= |s.Remaining()|
    ensures r.result.Ok? ==> r.result.value == s.Remaining()[0]
    ensures r.result.Err? ==> r.result.error == EndOfStream
  {
    var raw := ReadRaw(s, 1);
    if raw.result.Ok? then Step(Ok(raw.result.value[0]), raw.after)
    else Step(Err(raw.result.error), raw.after)
  }

  /** `ReadChar`: the first of `ReadChars(1)`. */
  function ReadChar(s: Source): (r: Step<char>)
    ensures r.after == ReadRaw(s, 1).after
    ensures r.result.Ok? <==> 1 <= |s.Remaining()|
    ensures r.result.Ok? ==> r.result.value as int == s.Remaining()[0] as int
  {
    var chars := ReadChars(s, 1);
    if chars.result.Ok? then Step(Ok(chars.result.value[0]), chars.after)
    else Step(Err(chars.result.error), chars.after)
  }

  /**
    `Skip(count)`: outside the gate a seek of the outer stream, which may
    throw; inside it `count` single-byte reads of the inflated stream, which
    stop quietly at its end.
  */
  function Skip(s: Source, count: int): Step<()>
  {
    if s.Gated() then Step(Ok(()), SkipInflated(s, count)) else SeekOuter(s, count)
  }

  /**
    A skip that stays within the active stream passes over exactly `count`
    bytes; only an outer seek before the start fails, and a gated skip never does.
  */
  lemma SkipPassesOver(s: Source, count: int)
    ensures var r := Skip(s, count);
      && (r.result.Err? <==> !s.Gated() && s.pos + count < 0)
      && (r.result.Err? ==> r.result.error == SeekBeforeBegin && r.after == s)
      && (0 <= count <= |s.Remaining()| ==> r.after.Remaining() == s.Remaining()[count..])
      && r.after.data == s.data && r.after.Gated() == s.Gated()
      && (s.Gated() ==> r.after.pos == s.pos)
  {
    if !s.Gated() && 0 <= count <= |s.Remaining()| && s.pos <= |s.data| {
      assert s.Remaining() == s.data[s.pos..];
      assert s.data[s.pos..][count..] == s.data[s.pos + count..];
    }
  }

  /** The 32-bit word at the front of some bytes, in the effective byte order. */
  function Word(bs: seq<byte>, littleEndian: bool): uint32
    requires |bs| >= 4
  {
    Pow256Values();
    LittleEndianValue(if littleEndian then bs[..4] else Reverse(bs[..4]))
  }

  /** The four bytes that store a word in the given byte order. */
  function EncodeWord(w: uint32, littleEndian: bool): (bs: seq<byte>)
    ensures |bs| == 4
  {
    Pow256Values();
    var le := LittleEndianBytes(w, 4);
    if littleEndian then le else Reverse(le)
  }

  /** A stored word reads back as itself, whatever follows it. */
  lemma WordOfEncoded(w: uint32, littleEndian: bool, more: seq<byte>)
    ensures Word(EncodeWord(w, littleEndian) + more, littleEndian) == w
  {
    Pow256Values();
    var le := LittleEndianBytes(w, 4);
    var bs := EncodeWord(w, littleEndian) + more;
    assert bs[..4] == EncodeWord(w, littleEndian);
    ReverseReverse(le);
    ValueOfBytes(w, 4);
  }

  /**
    `ReadElementTag`: a first word above 256 is a packed tag holding the kind
    in its low half and the size in its high half; otherwise the size is the
    next word.
  */
  function ReadElementTag(s: Source, swap: bool, machineLittleEndian: bool): Step<MatElementTag>
  {
    var first := ReadUInt32(s, swap, machineLittleEndian);
    if first.result.Err? then Step(Err(first.result.error), first.after)
    else
      var w := first.result.value;
      if w > 256 then Step(Ok(MatElementTag(w % 0x1_0000, w / 0x1_0000)), first.after)
      else
        var second := ReadUInt32(first.after, swap, machineLittleEndian);
        if second.result.Err? then Step(Err(second.result.error), second.after)
        else Step(Ok(MatElementTag(w, second.result.value)), second.after)
  }

  /**
    The two tag forms: with a first word above 256 exactly 4 bytes are
    consumed, otherwise exactly 8; too few bytes is an end of stream that
    consumes everything.
  */
  lemma ReadElementTagForms(s: Source, swap: bool, machineLittleEndian: bool)
    ensures var r := ReadElementTag(s, swap, machineLittleEndian);
      var rem := s.Remaining();
      var le := machineLittleEndian != swap;
      && (|rem| < 4 ==> r.result == Err(EndOfStream) && r.after.Remaining() == [])
      && (|rem| >= 4 && Word(rem, le) > 256 ==>
            && r.result == Ok(MatElementTag(Word(rem, le) % 0x1_0000, Word(rem, le) / 0x1_0000))
            && r.after.Remaining() == rem[4..])
      && (|rem| >= 4 && Word(rem, le) <= 256 && |rem| < 8 ==>
            r.result == Err(EndOfStream) && r.after.Remaining() == [])
      && (|rem| >= 8 && Word(rem, le) <= 256 ==>
            && r.result == Ok(MatElementTag(Word(rem, le), Word(rem[4..], le)))
            && r.after.Remaining() == rem[8..])
      && r.after.data == s.data && r.after.Gated() == s.Gated()
      && (s.Gated() ==> r.after.pos == s.pos)
  {
    var rem := s.Remaining();
    if |rem| >= 4 {
      FirstWord(s, swap, machineLittleEndian);
      if Word(rem, machineLittleEndian != swap) <= 256 && |rem| >= 8 {
        SecondWord(s, swap, machineLittleEndian);
      }
    }
  }

  /** Reading a tag moves only the active stream: inside the gate the outer position stays put. */
  lemma ReadElementTagKeeps(s: Source, swap: bool, machineLittleEndian: bool)
    ensures var r := ReadElementTag(s, swap, machineLittleEndian);
      r.after.data == s.data && r.after.Gated() == s.Gated() && (s.Gated() ==> r.after.pos == s.pos)
  {
    var first := ReadUInt32(s, swap, machineLittleEndian);
    assert first.after.data == s.data && first.after.Gated() == s.Gated() && (s.Gated() ==> first.after.pos == s.pos);
  }

  /** The first word of a tag is the word at the front of the remaining bytes. */
  lemma FirstWord(s: Source, swap: bool, machineLittleEndian: bool)
    requires |s.Remaining()| >= 4
    ensures var first := ReadUInt32(s, swap, machineLittleEndian);
      && first.result == Ok(Word(s.Remaining(), machineLittleEndian != swap))
      && first.after.Remaining() == s.Remaining()[4..]
  {
    var rem := s.Remaining();
    assert rem[..4][..4] == rem[..4];
  }

  /** The second word of a normal tag is the word after the first. */
  lemma SecondWord(s: Source, swap: bool, machineLittleEndian: bool)
    requires |s.Remaining()| >= 8
    ensures var first := ReadUInt32(s, swap, machineLittleEndian);
      var second := ReadUInt32(first.after, swap, machineLittleEndian);
      && second.result == Ok(Word(s.Remaining()[4..], machineLittleEndian != swap))
      && second.after.Remaining() == s.Remaining()[8..]
  {
    var rem := s.Remaining();
    var first := ReadUInt32(s, swap, machineLittleEndian);
    assert first.after.Remaining() == rem[4..];
    FirstWord(first.after, swap, machineLittleEndian);
    assert rem[4..][4..] == rem[8..];
  }

  /** Whether bit `k` of a word is set (a test against the single-bit mask 2^k). */
  function Bit(w: nat, mask: nat): bool
    requires mask > 0
  {
    (w / mask) % 2 == 1
  }

  /** The array-flags word: bit 11 complex, bit 10 global, bit 9 logical, the low byte the class. */
  function DecodeArrayFlags(flags: uint32): MatArrayFlags
  {
    MatArrayFlags(Bit(flags, 0x800), Bit(flags, 0x400), Bit(flags, 0x200), flags % 0x100)
  }

  /** A flags word assembled from its parts, as MATLAB writes it. */
  function EncodeArrayFlags(f: MatArrayFlags): uint32
    requires 0 <= f.arrayType < 0x100
  {
    f.arrayType + (if f.logical then 0x200 else 0) + (if f.global then 0x400 else 0) + (if f.complex then 0x800 else 0)
  }

  lemma DivideByMask(t: int, x: int, m: int)
    requires m == 0x100 || m == 0x200 || m == 0x400 || m == 0x800
    requires 0 <= t < m
    ensures (t + m * x) / m == x && (t + m * x) % m == t
  {
    if m == 0x100 {} else if m == 0x200 {} else if m == 0x400 {} else {}
  }

  lemma Parity(b: int, h: int)
    requires 0 <= b < 2
    ensures ((b + 2 * h) % 2 == 1) == (b == 1)
  {
  }

  /** Decoding recovers every part of an assembled flags word, whatever lies in the bits above. */
  lemma ArrayFlagsRoundTrip(f: MatArrayFlags, high: nat)
    requires 0 <= f.arrayType < 0x100 && high < 0x10_0000
    ensures DecodeArrayFlags(EncodeArrayFlags(f) + 0x1000 * high) == f
  {
    var c, g, l := if f.complex then 1 else 0, if f.global then 1 else 0, if f.logical then 1 else 0;
    var t := f.arrayType;
    var w := EncodeArrayFlags(f) + 0x1000 * high;
    assert w == t + 0x100 * (2 * l + 4 * g + 8 * c + 16 * high);
    DivideByMask(t, 2 * l + 4 * g + 8 * c + 16 * high, 0x100);
    assert w == t + 0x200 * (l + 2 * g + 4 * c + 8 * high);
    DivideByMask(t, l + 2 * g + 4 * c + 8 * high, 0x200);
    Parity(l, g + 2 * c + 4 * high);
    assert w == (t + 0x200 * l) + 0x400 * (g + 2 * c + 4 * high);
    DivideByMask(t + 0x200 * l, g + 2 * c + 4 * high, 0x400);
    Parity(g, c + 2 * high);
    assert w == (t + 0x200 * l + 0x400 * g) + 0x800 * (c + 2 * high);
    DivideByMask(t + 0x200 * l + 0x400 * g, c + 2 * high, 0x800);
    Parity(c, high);
  }

  /** `ReadArrayFlags`: the flags word, then a second word that is read and discarded. */
  function ReadArrayFlags(s: Source, swap: bool, machineLittleEndian: bool): Step<MatArrayFlags>
  {
    var first := ReadUInt32(s, swap, machineLittleEndian);
    if first.result.Err? then Step(Err(first.result.error), first.after)
    else
      var second := ReadUInt32(first.after, swap, machineLittleEndian);
      if second.result.Err? then Step(Err(second.result.error), second.after)
      else Step(Ok(DecodeArrayFlags(first.result.value)), second.after)
  }

  /** The flags sub-element consumes exactly 8 bytes, and only the first word matters. */
  lemma ReadArrayFlagsConsumesEight(s: Source, swap: bool, machineLittleEndian: bool)
    ensures var r := ReadArrayFlags(s, swap, machineLittleEndian);
      var rem := s.Remaining();
      && (r.result.Ok? <==> |rem| >= 8)
      && (r.result.Ok? ==>
            && r.result.value == DecodeArrayFlags(Word(rem, machineLittleEndian != swap))
            && r.after.Remaining() == rem[8..])
      && (r.result.Err? ==> r.result.error == EndOfStream && r.after.Remaining() == [])
  {
    var rem := s.Remaining();
    if |rem| >= 4 {
      assert rem[..4][..4] == rem[..4];
    }
  }

  /**
    `ReadChars(count)`: one byte per character. A negative count fails
    allocating the buffer; a short read is an end of stream.
  */
  function ReadChars(s: Source, count: int): (r: Step<string>)
    ensures count < 0 ==> r == Step(Err(Overflow), s)
    ensures 0 <= count ==> r.after == ReadRaw(s, count).after
    ensures r.result.Ok? <==> 0 <= count <= |s.Remaining()|
    ensures r.result.Ok? ==> r.result.value == DecodeChars(s.Remaining()[..count])
  {
    if count < 0 then Step(Err(Overflow), s)
    else
      var raw := ReadRaw(s, count);
      if raw.result.Ok? then Step(Ok(DecodeChars(raw.result.value)), raw.after)
      else Step(Err(raw.result.error), raw.after)
  }

  /**
    The element type a value kind is decoded with. `MiInt8` goes through
    `ReadBytes` and so is unsigned; `MiUInt16` goes through `ReadInt16Array`
    and so is signed.
  */
  function ValueKind(dataType: uint32): Option<NumKind>
  {
    if dataType == MiInt8 || dataType == MiUInt8 then Some(UInt8)
    else if dataType == MiInt16 || dataType == MiUInt16 then Some(Int16)
    else if dataType == MiInt32 then Some(Int32)
    else if dataType == MiUInt32 then Some(UInt32)
    else if dataType == MiSingle then Some(Single)
    else if dataType == MiDouble then Some(Double)
    else if dataType == MiInt64 then Some(Int64)
    else if dataType == MiUInt64 then Some(UInt64)
    else None
  }

  /** The dispatch covers exactly the kinds with a width, and decodes each with that width. */
  lemma ValueKindMatchesWidths(dataType: uint32)
    ensures ValueKind(dataType).Some? <==> dataType in NumericCodes
    ensures ValueKind(dataType).Some? ==> Width(ValueKind(dataType).value) == GetDataTypeSize(dataType)
  {
  }

  /** The signedness of two kinds is the opposite of their names'. */
  lemma SignednessQuirks()
    ensures ValueKind(MiInt8) == Some(UInt8) && ValueKind(MiUInt16) == Some(Int16)
    ensures Denotes([0xFF], UInt8, true) == Integer(255)
    ensures Denotes([0xFF, 0xFF], Int16, true) == Integer(-1)
  {
    assert LittleEndianValue([0xFF, 0xFF]) == 0xFFFF by {
      assert [0xFF, 0xFF][1..] == [0xFF];
    }
  }

  /**
    `MatFileReader.ReadValuesForTag`: `NumValues` values of the tag's kind;
    a kind without a decoder throws before anything is read.
  */
  function ReadValuesForTag(s: Source, tag: MatElementTag, swap: bool, machineLittleEndian: bool): Step<seq<Num>>
  {
    match ValueKind(tag.dataType)
    case None => Step(Err(ArgumentOutOfRange), s)
    case Some(k) =>
      match tag.NumValues()
      case Ok(n) => ReadArray(s, k, n, swap, machineLittleEndian)
      case Err(e) => Step(Err(e), s)
  }

  /**
    For a value kind, the tag's length rounded down to whole values is what is
    read, and the values are the ones stored there; any other kind throws
    `ArgumentOutOfRangeException` and leaves the source alone.
  */
  lemma ReadValuesForTagReads(s: Source, tag: MatElementTag, swap: bool, machineLittleEndian: bool)
    requires tag.dataSize < 0x8000_0000
    ensures var r := ReadValuesForTag(s, tag, swap, machineLittleEndian);
      && (ValueKind(tag.dataType).None? ==> r == Step(Err(ArgumentOutOfRange), s))
      && (ValueKind(tag.dataType).Some? ==>
            var k := ValueKind(tag.dataType).value;
            var n := tag.NumValues().value;
            var rem := s.Remaining();
            && tag.NumValues().Ok?
            && Span(k, n) <= tag.dataSize < Span(k, n) + Width(k)
            && (r.result.Ok? <==> Span(k, n) <= |rem|)
            && (r.result.Ok? ==>
                  && r.result.value == DecodeValues(rem[..Span(k, n)], k, machineLittleEndian != swap)
                  && r.after.Remaining() == rem[Span(k, n)..]))
  {
    if ValueKind(tag.dataType).Some? {
      ValueKindMatchesWidths(tag.dataType);
      NumValuesBounds(tag);
      SpanIsProduct(ValueKind(tag.dataType).value, tag.NumValues().value);
      ReadValuesDecodes(s, ValueKind(tag.dataType).value, tag.NumValues().value, swap, machineLittleEndian);
    }
  }
}
