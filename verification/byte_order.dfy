/**
  Byte order. A reader declares the order of the data it reads; the machine
  has its own order, which `BitConverter` uses to turn bytes into numbers.
  The readers reverse each value's bytes when the two differ. The machine's
  order is a parameter of the model.
*/
module ByteOrder {
  import opened Base

  /** The byte order a stream reader is told the data has. */
  datatype Endianness = BigEndian | LittleEndian | Default

  /** Whether the bytes of each value must be reversed before `BitConverter` reads them. */
  function RequiresByteSwapping(e: Endianness, machineLittleEndian: bool): bool
  {
    (e == LittleEndian && !machineLittleEndian) || (e == BigEndian && machineLittleEndian)
  }

  /** A reader swaps exactly when it was given a definite order and that order is not the machine's. */
  lemma SwappingRule(e: Endianness, machineLittleEndian: bool)
    ensures RequiresByteSwapping(e, machineLittleEndian)
        <==> e != Default && ((e == LittleEndian) != machineLittleEndian)
    ensures !RequiresByteSwapping(Default, machineLittleEndian)
  {
  }

  function Pow256(n: nat): (p: nat)
    ensures p >= 1
  {
    if n == 0 then 1 else 256 * Pow256(n - 1)
  }

  lemma Pow256Values()
    ensures Pow256(1) == 0x100 && Pow256(2) == 0x1_0000
    ensures Pow256(4) == 0x1_0000_0000 && Pow256(8) == 0x1_0000_0000_0000_0000
  {
    assert Pow256(2) == 0x1_0000;
    assert Pow256(4) == 0x1_0000_0000;
  }

  /** The bytes in the opposite order (`Enumerable.Reverse`). */
  function Reverse<T>(s: seq<T>): (r: seq<T>)
    ensures |r| == |s| && forall i :: 0 <= i < |s| ==> r[i] == s[|s| - 1 - i]
  {
    seq(|s|, i requires 0 <= i < |s| => s[|s| - 1 - i])
  }

  lemma ReverseReverse<T>(s: seq<T>)
    ensures Reverse(Reverse(s)) == s
  {
  }

  /** The number a byte sequence denotes when its first byte is the least significant. */
  function LittleEndianValue(bs: seq<byte>): (v: nat)
    ensures v < Pow256(|bs|)
  {
    if bs == [] then 0 else bs[0] + 256 * LittleEndianValue(bs[1..])
  }

  /** The n-byte little-endian form of a number below 256^n. */
  function LittleEndianBytes(v: nat, n: nat): (bs: seq<byte>)
    requires v < Pow256(n)
    ensures |bs| == n
  {
    if n == 0 then [] else [v % 256] + LittleEndianBytes(v / 256, n - 1)
  }

  lemma {:induction false} ValueOfBytes(v: nat, n: nat)
    requires v < Pow256(n)
    ensures LittleEndianValue(LittleEndianBytes(v, n)) == v
  {
    if n > 0 {
      var bs := LittleEndianBytes(v, n);
      assert bs[1..] == LittleEndianBytes(v / 256, n - 1);
      ValueOfBytes(v / 256, n - 1);
    }
  }

  lemma {:induction false} BytesOfValue(bs: seq<byte>)
    ensures LittleEndianBytes(LittleEndianValue(bs), |bs|) == bs
  {
    if bs != [] {
      var v := LittleEndianValue(bs);
      assert v % 256 == bs[0] && v / 256 == LittleEndianValue(bs[1..]);
      BytesOfValue(bs[1..]);
    }
  }

  /** The bytes in the machine's order, least significant first. */
  function MachineToLittleEndian(bs: seq<byte>, machineLittleEndian: bool): seq<byte>
  {
    if machineLittleEndian then bs else Reverse(bs)
  }

  /** `BitConverter.ToUInt16/32/64`: the bytes read as an unsigned number in the machine's order. */
  function ToUnsigned(bs: seq<byte>, machineLittleEndian: bool): (v: nat)
    ensures v < Pow256(|bs|)
  {
    LittleEndianValue(MachineToLittleEndian(bs, machineLittleEndian))
  }

  /** Half the range of n bytes: the bound of the n-byte two's-complement numbers. */
  function Half(n: nat): (h: nat)
    requires n > 0
    ensures 2 * h == Pow256(n)
  {
    128 * Pow256(n - 1)
  }

  /** Two's complement: an n-byte pattern with its top bit set is negative. */
  function Signed(u: nat, n: nat): (v: int)
    requires n > 0 && u < Pow256(n)
    ensures -(Half(n) as int) <= v < Half(n)
    ensures v == u || v == u - Pow256(n)
  {
    if u < Half(n) then u else u - Pow256(n)
  }

  /** `BitConverter.ToInt16/32/64`: the bytes read as a two's-complement number in the machine's order. */
  function ToSigned(bs: seq<byte>, machineLittleEndian: bool): int
    requires |bs| > 0
  {
    Signed(ToUnsigned(bs, machineLittleEndian), |bs|)
  }

  /** `BitConverter.GetBytes` for an unsigned number: its n bytes in the machine's order. */
  function GetBytes(v: nat, n: nat, machineLittleEndian: bool): (bs: seq<byte>)
    requires v < Pow256(n)
    ensures |bs| == n
  {
    MachineToLittleEndian(LittleEndianBytes(v, n), machineLittleEndian)
  }

  /** `BitConverter.GetBytes` for a signed number: the bytes of its two's-complement pattern. */
  function GetSignedBytes(v: int, n: nat, machineLittleEndian: bool): (bs: seq<byte>)
    requires n > 0 && -(Half(n) as int) <= v < Half(n)
    ensures |bs| == n
  {
    GetBytes(if v < 0 then v + Pow256(n) else v, n, machineLittleEndian)
  }

  /** Reading back what `GetBytes` produced on the same machine gives the number. */
  lemma UnsignedRoundTrip(v: nat, n: nat, machineLittleEndian: bool)
    requires v < Pow256(n)
    ensures ToUnsigned(GetBytes(v, n, machineLittleEndian), machineLittleEndian) == v
  {
    ReverseReverse(LittleEndianBytes(v, n));
    ValueOfBytes(v, n);
  }

  lemma SignedRoundTrip(v: int, n: nat, machineLittleEndian: bool)
    requires n > 0 && -(Half(n) as int) <= v < Half(n)
    ensures ToSigned(GetSignedBytes(v, n, machineLittleEndian), machineLittleEndian) == v
  {
    var u := if v < 0 then v + Pow256(n) else v;
    UnsignedRoundTrip(u, n, machineLittleEndian);
  }

  /**
    The encoding of a value declared to be in order `e`, as the readers' test
    fixtures build it: the machine's bytes, reversed when the reader swaps.
  */
  function EncodeAs(e: Endianness, v: nat, n: nat, machineLittleEndian: bool): (bs: seq<byte>)
    requires v < Pow256(n)
    ensures |bs| == n
  {
    var b := GetBytes(v, n, machineLittleEndian);
    if RequiresByteSwapping(e, machineLittleEndian) then Reverse(b) else b
  }

  /** Undoing the reader's swap and reading in the machine's order turns a declared-order encoding back into little-endian bytes. */
  lemma DeclaredOrderBytes(e: Endianness, v: nat, n: nat, machineLittleEndian: bool)
    requires v < Pow256(n)
    ensures var bs := EncodeAs(e, v, n, machineLittleEndian);
      (if machineLittleEndian != RequiresByteSwapping(e, machineLittleEndian) then bs else Reverse(bs)) == LittleEndianBytes(v, n)
  {
    ReverseReverse(LittleEndianBytes(v, n));
  }

  /** The signed twin of `EncodeAs`: the two's-complement bytes of `GetSignedBytes`, reversed when the reader swaps. */
  function EncodeSignedAs(e: Endianness, v: int, n: nat, machineLittleEndian: bool): (bs: seq<byte>)
    requires n > 0 && -(Half(n) as int) <= v < Half(n)
    ensures |bs| == n
  {
    var b := GetSignedBytes(v, n, machineLittleEndian);
    if RequiresByteSwapping(e, machineLittleEndian) then Reverse(b) else b
  }

  /** Whatever the machine, a declared order produces exactly that order's bytes; `Default` the machine's. */
  lemma EncodeAsOrders(v: nat, n: nat, machineLittleEndian: bool)
    requires v < Pow256(n)
    ensures EncodeAs(LittleEndian, v, n, machineLittleEndian) == LittleEndianBytes(v, n)
    ensures EncodeAs(BigEndian, v, n, machineLittleEndian) == Reverse(LittleEndianBytes(v, n))
    ensures EncodeAs(Default, v, n, machineLittleEndian) == GetBytes(v, n, machineLittleEndian)
  {
    ReverseReverse(LittleEndianBytes(v, n));
  }
}
