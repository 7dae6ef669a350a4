/**
  The file header object: a descriptive text that the setter validates
  before it stores it, and a version and byte-order indicator fixed at
  construction.
*/
module Headers {
  import opened Base

  /** The setter's rule: at least 4 and at most 115 characters. */
  predicate ValidText(text: string)
  {
    4 <= |text| <= 115
  }

  /** What the `DescriptiveText` setter does with a value: keep it, or throw `ArgumentException`. */
  function CheckText(value: string): (r: Result<string>)
    ensures r.Ok? <==> ValidText(value)
    ensures r.Ok? ==> r.value == value
    ensures r.Err? ==> r.error == Argument
  {
    if |value| < 4 then Err(Argument)
    else if |value| > 115 then Err(Argument)
    else Ok(value)
  }

  /** The three properties of a header, as a value. */
  datatype HeaderFields = HeaderFields(text: string, version: int16, endianIndicator: bool)

  /** The version the public constructor gives a header. */
  const DefaultVersion: int16 := 256

  class MatHeader {
    var descriptiveText: string
    const version: int16
    const endianIndicator: bool

    /** The internal constructor, for a text the setter accepts; `Create` is the one that checks. */
    constructor (text: string, version: int16, endianIndicator: bool)
      requires ValidText(text)
      ensures descriptiveText == text
      ensures this.version == version && this.endianIndicator == endianIndicator
    {
      descriptiveText := text;
      this.version := version;
      this.endianIndicator := endianIndicator;
    }

    function Fields(): HeaderFields
      reads this
    {
      HeaderFields(descriptiveText, version, endianIndicator)
    }

    /** `new MatHeader(text, version, endianIndicator)`: the text goes through the setter, which may throw. */
    static method Create(text: string, version: int16, endianIndicator: bool) returns (r: Result<MatHeader>)
      ensures r.Ok? <==> ValidText(text)
      ensures r.Ok? ==> fresh(r.value) && r.value.Fields() == HeaderFields(text, version, endianIndicator)
      ensures r.Err? ==> r.error == Argument
    {
      var checked := CheckText(text);
      if checked.Err? {
        return Err(checked.error);
      }
      var h := new MatHeader(text, version, endianIndicator);
      return Ok(h);
    }

    /** `new MatHeader(text)`: version 256, no byte swapping. */
    static method CreateWithText(text: string) returns (r: Result<MatHeader>)
      ensures r.Ok? <==> ValidText(text)
      ensures r.Ok? ==> fresh(r.value) && r.value.Fields() == HeaderFields(text, DefaultVersion, false)
      ensures r.Err? ==> r.error == Argument
    {
      r := Create(text, DefaultVersion, false);
    }

    /** The `DescriptiveText` setter: a rejected value throws before anything is stored. */
    method SetDescriptiveText(value: string) returns (r: Result<()>)
      modifies this
      ensures r.Ok? <==> ValidText(value)
      ensures r.Ok? ==> descriptiveText == value
      ensures r.Err? ==> r.error == Argument && descriptiveText == old(descriptiveText)
    {
      var checked := CheckText(value);
      if checked.Err? {
        return Err(checked.error);
      }
      descriptiveText := checked.value;
      return Ok(());
    }
  }

  /** Texts of 3 and 116 characters are the nearest ones the setter rejects. */
  lemma TextLengthBounds(text: string)
    ensures |text| == 3 ==> CheckText(text) == Err(Argument)
    ensures |text| == 116 ==> CheckText(text) == Err(Argument)
    ensures |text| == 4 || |text| == 115 ==> CheckText(text) == Ok(text)
  {
  }
}
