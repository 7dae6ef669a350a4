/**
  The decoded elements: array flags, the matrix header, the numbers a
  matrix holds, and the matrix itself with its coordinate lookup.
*/
module Elements {
  import opened Base
  import opened ElementTags

  /** The array-flags sub-element: three flag bits and the array class. */
  datatype MatArrayFlags = MatArrayFlags(complex: bool, global: bool, logical: bool, arrayType: int)

  /** What `MatReader.ReadMatrixHeader` returns. */
  datatype MatMatrixHeader = MatMatrixHeader(flags: MatArrayFlags, dimensions: seq<int32>, name: string)

  /**
    A decoded number. Integer kinds are kept exactly; a single or double is
    kept as its bytes, least significant first, since floating point is not
    part of this model.
  */
  datatype Num = Integer(value: int) | Float(bits: seq<byte>)

  /**
    A numeric matrix. The constructor copies the dimensions and the values
    into arrays of its own; as values of sequence type they cannot change
    afterwards however the caller's collections change.
  */
  datatype MiMatrix = MiMatrix(tag: MatElementTag, flags: MatArrayFlags, name: string,
                               dimensions: seq<int32>, values: seq<Num>)
  {
    function NumDimensions(): nat
    {
      |dimensions|
    }

    /** `3*c0 + 2*c1 + c2` over the integers, before the 32-bit wrap. */
    static function IndexFormula(coords: seq<int32>): int
      requires |coords| >= 3
    {
      3 * (coords[0] as int) + 2 * (coords[1] as int) + coords[2] as int
    }

    /**
      The value at the given coordinates: the count must match the number of
      dimensions; the index is `3*c0 + 2*c1 + c2` in 32-bit arithmetic.
    */
    function GetValue(coords: seq<int32>): (r: Result<Num>)
      ensures |coords| != NumDimensions() ==> r == Err(Argument)
      ensures r.Ok? ==> |coords| >= 3 && r.value in values
      ensures r.Err? ==> r.error == Argument || r.error == IndexOutOfRange
    {
      if |coords| != NumDimensions() then Err(Argument)
      else if |coords| < 3 then Err(IndexOutOfRange)
      else
        var i := Wrap32(IndexFormula(coords));
        if 0 <= i < |values| then Ok(values[i]) else Err(IndexOutOfRange)
    }
  }

  /** The number of dimensions is the length of the dimension list the matrix was built with. */
  lemma NumDimensionsIsLength(tag: MatElementTag, flags: MatArrayFlags, name: string,
                              dimensions: seq<int32>, values: seq<Num>)
    ensures var m := MiMatrix(tag, flags, name, dimensions, values);
      m.NumDimensions() == |dimensions| && m.name == name
  {
  }

  /** A matrix with fewer than three dimensions never yields a value, whatever the coordinates. */
  lemma GetValueNeedsThreeAxes(m: MiMatrix, coords: seq<int32>)
    requires m.NumDimensions() < 3
    ensures m.GetValue(coords).Err?
    ensures |coords| == m.NumDimensions() ==> m.GetValue(coords) == Err(IndexOutOfRange)
  {
  }

  /**
    With the right number of coordinates, at least three of them, and an
    index formula that neither overflows nor leaves the value list, the lookup
    returns the value at `3*c0 + 2*c1 + c2`; later coordinates are ignored.
  */
  lemma GetValueIndex(m: MiMatrix, coords: seq<int32>)
    requires |coords| == m.NumDimensions() >= 3
    requires 0 <= MiMatrix.IndexFormula(coords) < |m.values| && MiMatrix.IndexFormula(coords) < 0x8000_0000
    ensures m.GetValue(coords) == Ok(m.values[MiMatrix.IndexFormula(coords)])
  {
  }

  /** The lookup is outside the list, and fails, exactly when the wrapped index is. */
  lemma GetValueOutOfRange(m: MiMatrix, coords: seq<int32>)
    requires |coords| == m.NumDimensions() >= 3
    ensures m.GetValue(coords).Err?
        <==> !(0 <= Wrap32(MiMatrix.IndexFormula(coords)) < |m.values|)
  {
  }

  /** A 2 x 2 matrix rejects every in-range pair of coordinates. */
  lemma GetValueOnTwoByTwo(m: MiMatrix)
    requires m.dimensions == [2, 2] && |m.values| == 4
    ensures forall i: int32, j: int32 :: 0 <= i < 2 && 0 <= j < 2 ==> m.GetValue([i, j]) == Err(IndexOutOfRange)
  {
  }
}
