/**
  `MatStreamReader`: a binary reader over a stream with a settable byte
  order and a decompression gate. Its state is the position in the outer
  stream, the gate, the byte order and whether it was disposed; the stream's
  bytes, the inflater and the machine's byte order are fixed when it is
  made. Every method does what the matching function of `Codec` says, on
  the source the reader was at, once the disposal check has passed.
*/
module StreamReaders {
  import opened Base
  import opened ByteOrder
  import opened Sources
  import opened Elements
  import opened ElementTags
  import Codec
  import Text

  class MatStreamReader {
    const data: seq<byte>
    const inflate: seq<byte> -> seq<byte>
    const machineLittleEndian: bool
    var pos: nat
    var gate: Gate
    var endianness: Endianness
    var disposed: bool

    /** The source the next read sees. */
    function Src(): Source
      reads this
    {
      Source(data, pos, gate)
    }

    /** The `RequiresByteSwapping` property. */
    function Swap(): bool
      reads this
    {
      RequiresByteSwapping(endianness, machineLittleEndian)
    }

    /**
      A reader at the start of the given bytes. The byte order the reader
      starts with is a parameter: it is the enumeration's zero value.
    */
    constructor (data: seq<byte>, inflate: seq<byte> -> seq<byte>, machineLittleEndian: bool, initial: Endianness)
      ensures Src() == Source(data, 0, Direct) && this.inflate == inflate
      ensures this.machineLittleEndian == machineLittleEndian
      ensures endianness == initial && !disposed
    {
      this.data := data;
      this.inflate := inflate;
      this.machineLittleEndian := machineLittleEndian;
      pos := 0;
      gate := Direct;
      endianness := initial;
      disposed := false;
    }

    /** The `Endianness` setter: later reads swap according to the new order. */
    method SetEndianness(e: Endianness)
      modifies this
      ensures endianness == e && Src() == old(Src()) && disposed == old(disposed)
      ensures Swap() == RequiresByteSwapping(e, machineLittleEndian)
    {
      endianness := e;
    }

    /**
      `CurrentStream.Read(buffer, 0, n)` followed by the short-read check: the
      active stream hands out at most n bytes, and fewer is an end of stream.
    */
    method ReadRaw(n: nat) returns (r: Result<seq<byte>>)
      modifies this
      ensures Step(r, Src()) == Sources.ReadRaw(old(Src()), n)
      ensures endianness == old(endianness) && disposed == old(disposed)
    {
      var rem := Src().Remaining();
      var got := if n <= |rem| then n else |rem|;
      match gate {
        case Direct => pos := pos + got;
        case Inflating(inflated, at) => gate := Inflating(inflated, at + got);
      }
      if got < n {
        return Err(EndOfStream);
      }
      return Ok(rem[..n]);
    }

    /** `ReadByteArray(n)`: n bytes, reversed when the reader swaps. */
    method ReadByteArray(n: nat) returns (r: Result<seq<byte>>)
      modifies this
      ensures Step(r, Src()) == Codec.ReadByteArray(old(Src()), n, old(Swap()))
      ensures endianness == old(endianness) && disposed == old(disposed)
    {
      var buffer := ReadRaw(n);
      if buffer.Err? {
        return Err(buffer.error);
      }
      return Ok(Codec.Swapped(buffer.value, Swap()));
    }

    /**
      The typed reads (`ReadUInt16` ... `ReadDouble`): `Width(k)` bytes from
      `ReadByteArray` converted in the machine's order.
    */
    method ReadValue(k: Codec.NumKind) returns (r: Result<Num>)
      modifies this
      ensures Step(r, Src()) == Guarded(old(disposed), old(Src()), Codec.ReadValue(old(Src()), k, old(Swap()), machineLittleEndian))
      ensures endianness == old(endianness) && disposed == old(disposed)
    {
      if disposed {
        return Err(ObjectDisposed);
      }
      var bytes := ReadByteArray(Codec.Width(k));
      if bytes.Err? {
        return Err(bytes.error);
      }
      return Ok(Codec.Convert(bytes.value, k, machineLittleEndian));
    }

    /** `ReadUInt32`. */
    method ReadUInt32() returns (r: Result<uint32>)
      modifies this
      ensures Step(r, Src()) == Guarded(old(disposed), old(Src()), Codec.ReadUInt32(old(Src()), old(Swap()), machineLittleEndian))
      ensures endianness == old(endianness) && disposed == old(disposed)
    {
      ghost var s := Src();
      Codec.ReadUInt32Typed(s, Swap(), machineLittleEndian);
      var v := ReadValue(Codec.UInt32);
      if v.Err? {
        return Err(v.error);
      }
      return Ok(v.value.value);
    }

    /** `ReadInt16`. */
    method ReadInt16() returns (r: Result<int16>)
      modifies this
      ensures Step(r, Src()) == Guarded(old(disposed), old(Src()), Codec.ReadInt16(old(Src()), old(Swap()), machineLittleEndian))
      ensures endianness == old(endianness) && disposed == old(disposed)
    {
      ghost var s := Src();
      var v := ReadValue(Codec.Int16);
      if v.Err? {
        return Err(v.error);
      }
      assert Codec.ReadInt16(s, Swap(), machineLittleEndian).result == Ok(v.value.value);
      return Ok(v.value.value);
    }

    /** `ReadInt32`. */
    method ReadInt32() returns (r: Result<int32>)
      modifies this
      ensures Step(r, Src()) == Guarded(old(disposed), old(Src()), Codec.ReadInt32(old(Src()), old(Swap()), machineLittleEndian))
      ensures endianness == old(endianness) && disposed == old(disposed)
    {
      ghost var s := Src();
      var v := ReadValue(Codec.Int32);
      if v.Err? {
        return Err(v.error);
      }
      assert Codec.ReadInt32(s, Swap(), machineLittleEndian).result == Ok(v.value.value);
      return Ok(v.value.value);
    }

    /** `ReadByte`: the single byte of `ReadByteArray(1)`. */
    method ReadByte() returns (r: Result<byte>)
      modifies this
      ensures Step(r, Src()) == Guarded(old(disposed), old(Src()), Codec.ReadByte(old(Src())))
      ensures endianness == old(endianness) && disposed == old(disposed)
    {
      if disposed {
        return Err(ObjectDisposed);
      }
      var bytes := ReadByteArray(1);
      if bytes.Err? {
        return Err(bytes.error);
      }
      return Ok(bytes.value[0]);
    }

    /**
      The private `ReadArray(count, read)` behind `ReadBytes`,
      `ReadUInt16Array` ... `ReadDoubles`: an array of `count` elements filled
      one read at a time; the first failing read ends it.
    */
    method ReadArray(k: Codec.NumKind, count: int) returns (r: Result<seq<Num>>)
      modifies this
      ensures Step(r, Src()) == Guarded(old(disposed), old(Src()), Codec.ReadArray(old(Src()), k, count, old(Swap()), machineLittleEndian))
      ensures endianness == old(endianness) && disposed == old(disposed)
    {
      if disposed {
        return Err(ObjectDisposed);
      }
      if count < 0 {
        return Err(Overflow);
      }
      r := ReadValues(k, count);
    }

    /** The loop of `ReadArray`: `count` values into a new array, stopping at the first failing read. */
    method ReadValues(k: Codec.NumKind, count: nat) returns (r: Result<seq<Num>>)
      requires !disposed
      modifies this
      ensures Step(r, Src()) == Codec.ReadValues(old(Src()), k, count, old(Swap()), machineLittleEndian)
      ensures endianness == old(endianness) && !disposed
    {
      ghost var swap := Swap();
      ghost var cur := Src();
      ghost var spec := Codec.ReadValues(cur, k, count, swap, machineLittleEndian);
      ghost var rest := spec;
      var result := new Num[count];
      var ii := 0;
      ghost var left := count;
      PrependNothing(spec);
      while ii < count
        invariant 0 <= ii <= count && left == count - ii
        invariant endianness == old(endianness) && !disposed && Swap() == swap && cur == Src()
        invariant rest == Codec.ReadValues(cur, k, left, swap, machineLittleEndian)
        invariant spec == Prepend(result[..ii], rest)
      {
        var e;
        e, cur, rest, left := ReadInto(k, result, ii, left, spec, swap, cur, rest);
        if e.Some? {
          return Err(e.value);
        }
        ii := ii + 1;
      }
      assert result[..count] + [] == result[..];
      return Ok(result[..]);
    }

    /** One pass of the loop of `ReadArray`: the next value goes into `result[ii]`. */
    method ReadInto(k: Codec.NumKind, result: array<Num>, ii: nat, ghost left: nat, ghost spec: Step<seq<Num>>, ghost swap: bool,
                  ghost cur: Source, ghost rest: Step<seq<Num>>)
      returns (e: Option<Error>, ghost next: Source, ghost nextRest: Step<seq<Num>>, ghost nextLeft: nat)
      requires !disposed && Swap() == swap && cur == Src() && ii < result.Length && left == result.Length - ii
      requires rest == Codec.ReadValues(cur, k, left, swap, machineLittleEndian)
      requires spec == Prepend(result[..ii], rest)
      modifies this, result
      ensures endianness == old(endianness) && !disposed && Swap() == swap && next == Src()
      ensures e.Some? ==> spec == Step(Err(e.value), next)
      ensures e.None? ==> nextLeft == left - 1 && nextRest == Codec.ReadValues(next, k, nextLeft, swap, machineLittleEndian)
      ensures e.None? ==> spec == Prepend(result[..ii + 1], nextRest)
    {
      var v := ReadValue(k);
      next := Src();
      nextLeft := left - 1;
      nextRest := Codec.ReadValues(next, k, nextLeft, swap, machineLittleEndian);
      if v.Err? {
        Codec.ReadValuesFails(cur, k, left, swap, machineLittleEndian, v.error, next);
        return Some(v.error), next, nextRest, nextLeft;
      }
      Codec.ReadValuesUnfold(cur, k, left, nextLeft, swap, machineLittleEndian, v.value, next);
      ghost var prefix := result[..ii];
      PrependStep(spec, prefix, rest, v.value, nextRest);
      result[ii] := v.value;
      assert result[..ii + 1] == prefix + [v.value];
      return None, next, nextRest, nextLeft;
    }

    /** `ReadInt32Array(count)`: the same loop over 32-bit integer reads. */
    method ReadInt32Array(count: int) returns (r: Result<seq<int32>>)
      modifies this
      ensures Step(r, Src()) == Guarded(old(disposed), old(Src()), Codec.ReadInt32Array(old(Src()), count, old(Swap()), machineLittleEndian))
      ensures endianness == old(endianness) && disposed == old(disposed)
    {
      if disposed {
        return Err(ObjectDisposed);
      }
      if count < 0 {
        return Err(Overflow);
      }
      r := ReadInt32s(count);
    }

    /** The loop of `ReadInt32Array`. */
    method ReadInt32s(count: nat) returns (r: Result<seq<int32>>)
      requires !disposed
      modifies this
      ensures Step(r, Src()) == Codec.ReadInt32s(old(Src()), count, old(Swap()), machineLittleEndian)
      ensures endianness == old(endianness) && !disposed
    {
      ghost var swap := Swap();
      ghost var cur := Src();
      ghost var spec := Codec.ReadInt32s(cur, count, swap, machineLittleEndian);
      ghost var rest := spec;
      var result := new int32[count];
      var ii := 0;
      ghost var left := count;
      PrependNothing(spec);
      while ii < count
        invariant 0 <= ii <= count && left == count - ii
        invariant endianness == old(endianness) && !disposed && Swap() == swap && cur == Src()
        invariant rest == Codec.ReadInt32s(cur, left, swap, machineLittleEndian)
        invariant spec == Prepend(result[..ii], rest)
      {
        var e;
        e, cur, rest, left := ReadInt32Into(result, ii, left, spec, swap, cur, rest);
        if e.Some? {
          return Err(e.value);
        }
        ii := ii + 1;
      }
      assert result[..count] + [] == result[..];
      return Ok(result[..]);
    }

    /** One pass of the loop of `ReadInt32Array`. */
    method ReadInt32Into(result: array<int32>, ii: nat, ghost left: nat, ghost spec: Step<seq<int32>>, ghost swap: bool,
                  ghost cur: Source, ghost rest: Step<seq<int32>>)
      returns (e: Option<Error>, ghost next: Source, ghost nextRest: Step<seq<int32>>, ghost nextLeft: nat)
      requires !disposed && Swap() == swap && cur == Src() && ii < result.Length && left == result.Length - ii
      requires rest == Codec.ReadInt32s(cur, left, swap, machineLittleEndian)
      requires spec == Prepend(result[..ii], rest)
      modifies this, result
      ensures endianness == old(endianness) && !disposed && Swap() == swap && next == Src()
      ensures e.Some? ==> spec == Step(Err(e.value), next)
      ensures e.None? ==> nextLeft == left - 1 && nextRest == Codec.ReadInt32s(next, nextLeft, swap, machineLittleEndian)
      ensures e.None? ==> spec == Prepend(result[..ii + 1], nextRest)
    {
      var v := ReadInt32();
      next := Src();
      nextLeft := left - 1;
      nextRest := Codec.ReadInt32s(next, nextLeft, swap, machineLittleEndian);
      if v.Err? {
        Codec.ReadInt32sFails(cur, left, swap, machineLittleEndian, v.error, next);
        return Some(v.error), next, nextRest, nextLeft;
      }
      Codec.ReadInt32sUnfold(cur, left, nextLeft, swap, machineLittleEndian, v.value, next);
      ghost var prefix := result[..ii];
      PrependStep(spec, prefix, rest, v.value, nextRest);
      result[ii] := v.value;
      assert result[..ii + 1] == prefix + [v.value];
      return None, next, nextRest, nextLeft;
    }

    /** `ReadChars(count)`: one byte per character, from the active stream. */
    method ReadChars(count: int) returns (r: Result<string>)
      modifies this
      ensures Step(r, Src()) == Guarded(old(disposed), old(Src()), Codec.ReadChars(old(Src()), count))
      ensures endianness == old(endianness) && disposed == old(disposed)
    {
      if disposed {
        return Err(ObjectDisposed);
      }
      if count < 0 {
        return Err(Overflow);
      }
      var buffer := ReadRaw(count);
      if buffer.Err? {
        return Err(buffer.error);
      }
      return Ok(Text.DecodeChars(buffer.value));
    }

    /** `ReadString(count)`: the characters of `ReadChars(count)`. */
    method ReadString(count: int) returns (r: Result<string>)
      modifies this
      ensures Step(r, Src()) == Guarded(old(disposed), old(Src()), Codec.ReadChars(old(Src()), count))
      ensures endianness == old(endianness) && disposed == old(disposed)
    {
      r := ReadChars(count);
    }

    /** `ReadChar`: the first of `ReadChars(1)`. */
    method ReadChar() returns (r: Result<char>)
      modifies this
      ensures Step(r, Src()) == Guarded(old(disposed), old(Src()), Codec.ReadChar(old(Src())))
      ensures endianness == old(endianness) && disposed == old(disposed)
    {
      var chars := ReadChars(1);
      if chars.Err? {
        return Err(chars.error);
      }
      return Ok(chars.value[0]);
    }

    /** `ReadElementTag`: a packed tag when the first word is above 256, otherwise two words. */
    method ReadElementTag() returns (r: Result<MatElementTag>)
      modifies this
      ensures Step(r, Src()) == Guarded(old(disposed), old(Src()), Codec.ReadElementTag(old(Src()), old(Swap()), machineLittleEndian))
      ensures endianness == old(endianness) && disposed == old(disposed)
    {
      if disposed {
        return Err(ObjectDisposed);
      }
      var first := ReadUInt32();
      if first.Err? {
        return Err(first.error);
      }
      var w := first.value;
      if w > 256 {
        return Ok(MatElementTag(w % 0x1_0000, w / 0x1_0000));
      }
      var size := ReadUInt32();
      if size.Err? {
        return Err(size.error);
      }
      return Ok(MatElementTag(w, size.value));
    }

    /** `ReadArrayFlags`: the flags word decoded, the second word discarded. */
    method ReadArrayFlags() returns (r: Result<MatArrayFlags>)
      modifies this
      ensures Step(r, Src()) == Guarded(old(disposed), old(Src()), Codec.ReadArrayFlags(old(Src()), old(Swap()), machineLittleEndian))
      ensures endianness == old(endianness) && disposed == old(disposed)
    {
      var flags := ReadUInt32();
      if flags.Err? {
        return Err(flags.error);
      }
      var ignored := ReadUInt32();
      if ignored.Err? {
        return Err(ignored.error);
      }
      return Ok(Codec.DecodeArrayFlags(flags.value));
    }

    /** `DeflateStream.ReadByte`: the next inflated byte, or -1 at the end. */
    method ReadInflatedByte() returns (b: int)
      requires gate.Inflating?
      modifies this
      ensures Src() == SkipInflated(old(Src()), 1)
      ensures b == -1 <==> old(Src().Remaining()) == []
      ensures b != -1 ==> b == old(Src().Remaining())[0]
      ensures endianness == old(endianness) && disposed == old(disposed)
    {
      var rem := Src().Remaining();
      if rem == [] {
        return -1;
      }
      gate := gate.(at := gate.at + 1);
      return rem[0] as int;
    }

    /** `Skip(count)`: an outer seek, or `count` inflated single-byte reads while the gate is open. */
    method Skip(count: int) returns (r: Result<()>)
      modifies this
      ensures Step(r, Src()) == Guarded(old(disposed), old(Src()), Codec.Skip(old(Src()), count))
      ensures endianness == old(endianness) && disposed == old(disposed)
    {
      if disposed {
        return Err(ObjectDisposed);
      }
      if gate.Direct? {
        if pos + count < 0 {
          return Err(SeekBeforeBegin);
        }
        pos := pos + count;
        return Ok(());
      }
      ghost var target := SkipInflated(Src(), count);
      var ii := 0;
      while ii < count
        invariant gate.Inflating? && endianness == old(endianness) && !disposed
        invariant 0 <= ii && (count >= 0 ==> ii <= count)
        invariant target == SkipInflated(Src(), count - ii)
      {
        ghost var before := Src();
        var ignored := ReadInflatedByte();
        assert SkipInflated(before, count - ii) == SkipInflated(Src(), count - ii - 1);
        ii := ii + 1;
      }
      return Ok(());
    }

    /**
      `BeginDecompress(count)`: reads `count` bytes of the outer stream,
      whichever stream is active, and reads their inflated form from then on.
    */
    method BeginDecompress(count: int) returns (r: Result<()>)
      modifies this
      ensures Step(r, Src()) == Guarded(old(disposed), old(Src()), Sources.BeginDecompress(old(Src()), count, inflate))
      ensures endianness == old(endianness) && disposed == old(disposed)
    {
      if disposed {
        return Err(ObjectDisposed);
      }
      if count < 0 {
        return Err(Overflow);
      }
      var outer := Src().OuterRemaining();
      if |outer| < count {
        pos := pos + |outer|;
        return Err(EndOfStream);
      }
      pos := pos + count;
      gate := Inflating(inflate(outer[..count]), 0);
      return Ok(());
    }

    /** `EndDecompress`: reads come from the outer stream again. */
    method EndDecompress() returns (r: Result<()>)
      modifies this
      ensures Step(r, Src()) == Guarded(old(disposed), old(Src()), Step(Ok(()), Sources.EndDecompress(old(Src()))))
      ensures endianness == old(endianness) && disposed == old(disposed)
    {
      if disposed {
        return Err(ObjectDisposed);
      }
      gate := Direct;
      return Ok(());
    }

    /** `Dispose`: every later operation throws `ObjectDisposedException`; disposing again does nothing. */
    method Dispose()
      modifies this
      ensures disposed && Src() == old(Src()) && endianness == old(endianness)
    {
      disposed := true;
    }
  }
}
