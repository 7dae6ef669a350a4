/**
  The string operations the header code uses: `string.Trim`, `string.PadRight`,
  the readers' character decoding and the writer's UTF-8 encoding. The readers'
  text encoding is a parameter of the C# code; the model decodes one byte per
  character (byte b is the character with code b).
*/
module Text {
  import opened Base

  /** `char.IsWhiteSpace`: the Unicode white-space characters. */
  predicate IsWhiteSpace(c: char)
  {
    var n := c as int;
    (0x09 <= n <= 0x0D) || n == 0x20 || n == 0x85 || n == 0xA0 || n == 0x1680
    || (0x2000 <= n <= 0x200A) || n == 0x2028 || n == 0x2029 || n == 0x202F
    || n == 0x205F || n == 0x3000
  }

  /** `string.TrimStart()`: drops the leading white space. */
  function TrimStart(s: string): (r: string)
    ensures |r| <= |s| && r == s[|s| - |r|..]
    ensures r != [] ==> !IsWhiteSpace(r[0])
    ensures forall i :: 0 <= i < |s| - |r| ==> IsWhiteSpace(s[i])
  {
    if s != [] && IsWhiteSpace(s[0]) then TrimStart(s[1..]) else s
  }

  /** `string.TrimEnd()`: drops the trailing white space. */
  function TrimEnd(s: string): (r: string)
    ensures |r| <= |s| && r == s[..|r|]
    ensures r != [] ==> !IsWhiteSpace(r[|r| - 1])
    ensures forall i :: |r| <= i < |s| ==> IsWhiteSpace(s[i])
  {
    if s != [] && IsWhiteSpace(s[|s| - 1]) then TrimEnd(s[..|s| - 1]) else s
  }

  /** `string.Trim()`. */
  function Trim(s: string): string
  {
    TrimEnd(TrimStart(s))
  }

  function Spaces(n: nat): (r: string)
    ensures |r| == n && forall i :: 0 <= i < n ==> r[i] == ' '
  {
    seq(n, _ => ' ')
  }

  /** `string.PadRight(width)`: appends spaces up to `width` characters. */
  function PadRight(s: string, width: nat): (r: string)
    ensures |s| <= |r| && r[..|s|] == s
    ensures |r| == if |s| < width then width else |s|
    ensures forall i :: |s| <= i < |r| ==> r[i] == ' '
  {
    if |s| >= width then s else s + Spaces(width - |s|)
  }

  /** The readers' character decoding: one character per byte. */
  function DecodeChars(bs: seq<byte>): (s: string)
    ensures |s| == |bs| && forall i :: 0 <= i < |bs| ==> s[i] as int == bs[i]
  {
    seq(|bs|, i requires 0 <= i < |bs| => bs[i] as char)
  }

  /** The UTF-8 encoding of one character (RFC 3629, section 3). */
  function EncodeChar(c: char): (bs: seq<byte>)
    ensures 1 <= |bs| <= 4
    ensures |bs| == 1 <==> c as int < 0x80
    ensures |bs| == 1 ==> bs[0] == c as int
  {
    var n := c as int;
    if n < 0x80 then [n]
    else if n < 0x800 then [0xC0 + n / 0x40, 0x80 + n % 0x40]
    else if n < 0x1_0000 then [0xE0 + n / 0x1000, 0x80 + (n / 0x40) % 0x40, 0x80 + n % 0x40]
    else [0xF0 + n / 0x4_0000, 0x80 + (n / 0x1000) % 0x40, 0x80 + (n / 0x40) % 0x40, 0x80 + n % 0x40]
  }

  /** The writer's UTF-8 encoding of a character sequence. */
  function EncodeChars(s: string): (bs: seq<byte>)
    ensures |bs| >= |s|
  {
    if s == [] then [] else EncodeChar(s[0]) + EncodeChars(s[1..])
  }

  predicate IsAscii(s: string)
  {
    forall i :: 0 <= i < |s| ==> s[i] as int < 0x80
  }

  /** ASCII text encodes to one byte per character, and those bytes decode back to the text. */
  lemma {:induction false} AsciiRoundTrip(s: string)
    requires IsAscii(s)
    ensures |EncodeChars(s)| == |s|
    ensures DecodeChars(EncodeChars(s)) == s
  {
    if s != [] {
      assert IsAscii(s[1..]) by {
        forall i | 0 <= i < |s[1..]| ensures s[1..][i] as int < 0x80 { assert s[1..][i] == s[i + 1]; }
      }
      AsciiRoundTrip(s[1..]);
      var bs := EncodeChars(s);
      assert bs == [s[0] as int] + EncodeChars(s[1..]);
      forall i | 0 <= i < |s| ensures DecodeChars(bs)[i] == s[i] {
        if i > 0 {
          assert bs[i] == EncodeChars(s[1..])[i - 1];
          assert DecodeChars(EncodeChars(s[1..]))[i - 1] == s[1..][i - 1];
        }
      }
    }
  }

  /** Trailing spaces added by PadRight are removed again by TrimEnd. */
  lemma {:induction false} TrimEndSpaces(s: string, n: nat)
    requires s == [] || !IsWhiteSpace(s[|s| - 1])
    ensures TrimEnd(s + Spaces(n)) == s
  {
    if n > 0 {
      var t := s + Spaces(n);
      assert t[..|t| - 1] == s + Spaces(n - 1);
      assert IsWhiteSpace(t[|t| - 1]);
      TrimEndSpaces(s, n - 1);
    } else {
      assert s + Spaces(n) == s;
    }
  }

  /** Text without white space at either end survives padding followed by trimming. */
  lemma TrimPadRight(s: string, width: nat)
    requires s != [] && !IsWhiteSpace(s[0]) && !IsWhiteSpace(s[|s| - 1])
    ensures Trim(PadRight(s, width)) == s
  {
    var n := if |s| < width then width - |s| else 0;
    assert PadRight(s, width) == s + Spaces(n);
    assert TrimStart(s + Spaces(n)) == s + Spaces(n);
    TrimEndSpaces(s, n);
  }
}
