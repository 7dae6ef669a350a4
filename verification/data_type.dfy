/**
  The data-kind codes of a MAT-file element tag and the kind-to-width table.
  The C# enumeration is backed by `uint` and every cast to it accepts any
  value, so a kind is a `uint32` and the named kinds are constants.
*/
module MatDataTypes {
  import opened Base

  const MiInt8: uint32 := 1
  const MiUInt8: uint32 := 2
  const MiInt16: uint32 := 3
  const MiUInt16: uint32 := 4
  const MiInt32: uint32 := 5
  const MiUInt32: uint32 := 6
  const MiSingle: uint32 := 7
  const MiDouble: uint32 := 9
  const MiInt64: uint32 := 12
  const MiUInt64: uint32 := 13
  const MiMatrix: uint32 := 14
  const MiCompressed: uint32 := 15
  const MiUtf8: uint32 := 16
  const MiUtf16: uint32 := 17
  const MiUtf32: uint32 := 18

  /** The codes the enumeration gives a name. */
  const NamedCodes: seq<uint32> :=
    [MiInt8, MiUInt8, MiInt16, MiUInt16, MiInt32, MiUInt32, MiSingle, MiDouble,
     MiInt64, MiUInt64, MiMatrix, MiCompressed, MiUtf8, MiUtf16, MiUtf32]

  /** The ten numeric kinds (`MiInt8` to `MiUInt64`), the only ones a matrix's values may have; nine element types decode them. */
  const NumericCodes: set<uint32> :=
    {MiInt8, MiUInt8, MiInt16, MiUInt16, MiInt32, MiUInt32, MiSingle, MiDouble, MiInt64, MiUInt64}

  predicate IsNamed(code: uint32) { code in NamedCodes }

  /** Bytes per value of a kind; -1 for every kind without a fixed width. */
  function GetDataTypeSize(code: uint32): (w: int)
    ensures w == -1 || w == 1 || w == 2 || w == 4 || w == 8
    ensures w > 0 <==> code in NumericCodes
  {
    if code == MiInt8 || code == MiUInt8 then 1
    else if code == MiInt16 || code == MiUInt16 then 2
    else if code == MiInt32 || code == MiUInt32 || code == MiSingle then 4
    else if code == MiDouble || code == MiInt64 || code == MiUInt64 then 8
    else -1
  }

  /** Every named code lies in 1..18, so it never exceeds the 256 bound that marks a packed tag. */
  lemma NamedCodesAreSmall(code: uint32)
    requires IsNamed(code)
    ensures 1 <= code <= 18 && code <= 256 && code < 0x1_0000
  {
  }

  /** The fifteen named codes are pairwise distinct. */
  lemma NamedCodesAreDistinct()
    ensures forall i, j :: 0 <= i < j < |NamedCodes| ==> NamedCodes[i] != NamedCodes[j]
  {
  }

  /** Codes 0, 8, 10, 11 and everything above 18 have no name, and have no width. */
  lemma UnnamedCodes(code: uint32)
    requires code == 0 || code == 8 || code == 10 || code == 11 || code > 18
    ensures !IsNamed(code) && GetDataTypeSize(code) == -1
  {
  }

  /** The kinds that are not numbers have no width. */
  lemma NonNumericNamedKindsHaveNoWidth()
    ensures GetDataTypeSize(MiMatrix) == -1 && GetDataTypeSize(MiCompressed) == -1
    ensures GetDataTypeSize(MiUtf8) == -1 && GetDataTypeSize(MiUtf16) == -1 && GetDataTypeSize(MiUtf32) == -1
  {
  }
}
