/**
  The browser's `atob`, which `dataURLtoFile` uses to turn the payload of a
  data URL into a binary string. `atob` runs the forgiving-base64 decode of
  the WHATWG Infra Standard over the alphabet of section 4 of RFC 4648 and
  throws an InvalidCharacterError when that decode fails; here the throw is
  `None`. A byte is an integer from 0 to 255 and a six-bit value one from 0
  to 63; a binary string is a string whose character codes are bytes.

  The standard base64 encoder (section 4 of RFC 4648, with padding) is given
  beside it as the partner the decoder is proved to invert.
*/
module Base64 {
  import opened Wrappers

  type byte = x: int | 0 <= x < 256
  type sextet = x: int | 0 <= x < 64

  /** The 64 characters of the alphabet of section 4 of RFC 4648. */
  predicate IsBase64Char(c: char) {
    ('A' <= c <= 'Z') || ('a' <= c <= 'z') || ('0' <= c <= '9') || c == '+' || c == '/'
  }

  /** The six-bit value an alphabet character stands for. */
  function SextetOf(c: char): sextet
    requires IsBase64Char(c)
  {
    if 'A' <= c <= 'Z' then c as int - 'A' as int
    else if 'a' <= c <= 'z' then c as int - 'a' as int + 26
    else if '0' <= c <= '9' then c as int - '0' as int + 52
    else if c == '+' then 62
    else 63
  }

  /** The alphabet character for a six-bit value: the inverse of SextetOf. */
  function CharOf(n: sextet): (c: char)
    ensures IsBase64Char(c) && SextetOf(c) == n
  {
    if n < 26 then ('A' as int + n) as char
    else if n < 52 then ('a' as int + n - 26) as char
    else if n < 62 then ('0' as int + n - 52) as char
    else if n == 62 then '+'
    else '/'
  }

  /** Tab, line feed, form feed, carriage return and space. */
  predicate IsAsciiWhitespace(c: char) {
    c == '\t' || c == '\n' || c == '\U{000C}' || c == '\r' || c == ' '
  }

  /** Step one of the forgiving decode: every ASCII whitespace character is dropped. */
  function StripWhitespace(s: string): (r: string)
    ensures |r| <= |s|
    decreases |s|
  {
    if s == [] then []
    else if IsAsciiWhitespace(s[0]) then StripWhitespace(s[1..])
    else [s[0]] + StripWhitespace(s[1..])
  }

  /** Stripping leaves no whitespace, drops a single whitespace character
      entirely, and leaves text without whitespace alone. */
  lemma {:induction false} StripWhitespaceSpec(s: string)
    ensures forall i :: 0 <= i < |StripWhitespace(s)| ==> !IsAsciiWhitespace(StripWhitespace(s)[i])
    ensures forall c :: IsAsciiWhitespace(c) ==> StripWhitespace([c]) == []
    ensures (forall i :: 0 <= i < |s| ==> !IsAsciiWhitespace(s[i])) ==> StripWhitespace(s) == s
    decreases |s|
  {
    if s != [] {
      StripWhitespaceSpec(s[1..]);
      if !IsAsciiWhitespace(s[0]) {
        assert [s[0]] + s[1..] == s;
      }
    }
  }

  /** Stripping works piece by piece: the characters that are not whitespace
      are kept, in their order, wherever the text is cut. */
  lemma {:induction false} StripWhitespaceConcat(a: string, b: string)
    ensures StripWhitespace(a + b) == StripWhitespace(a) + StripWhitespace(b)
    decreases |a|
  {
    if a != [] {
      assert (a + b)[1..] == a[1..] + b;
      StripWhitespaceConcat(a[1..], b);
    } else {
      assert a + b == b;
    }
  }

  /** Step two: when the length is a multiple of four, one or two trailing `=` are dropped. */
  function StripPadding(d: string): string {
    if |d| % 4 == 0 && |d| >= 2 && d[|d| - 2] == '=' && d[|d| - 1] == '=' then d[..|d| - 2]
    else if |d| % 4 == 0 && |d| >= 1 && d[|d| - 1] == '=' then d[..|d| - 1]
    else d
  }

  predicate AllBase64(d: string) {
    forall i :: 0 <= i < |d| ==> IsBase64Char(d[i])
  }

  function Sextets(d: string): (v: seq<sextet>)
    requires AllBase64(d)
    ensures |v| == |d|
  {
    seq(|d|, i requires 0 <= i < |d| => SextetOf(d[i]))
  }

  /** The three bytes a group of four six-bit values `a b c d` stands for. */
  function Byte0(a: sextet, b: sextet): byte { a * 4 + b / 16 }
  function Byte1(b: sextet, c: sextet): byte { b % 16 * 16 + c / 4 }
  function Byte2(c: sextet, d: sextet): byte { c % 4 * 64 + d }

  /**
    The six-bit values, four at a time, become three bytes; a trailing group of
    three values yields two bytes and one of two values yields one byte, the
    left-over low bits being discarded. `Atob` has already refused a single
    trailing value.
  */
  function DecodeSextets(v: seq<sextet>): (r: seq<byte>)
    decreases |v|
  {
    if |v| >= 4 then
      [Byte0(v[0], v[1]), Byte1(v[1], v[2]), Byte2(v[2], v[3])] + DecodeSextets(v[4..])
    else if |v| == 3 then [Byte0(v[0], v[1]), Byte1(v[1], v[2])]
    else if |v| == 2 then [Byte0(v[0], v[1])]
    else []
  }

  /** The string whose character codes are the given bytes. */
  function BinaryString(b: seq<byte>): (s: string)
    ensures |s| == |b|
    ensures forall i :: 0 <= i < |b| ==> s[i] as int == b[i]
  {
    seq(|b|, i requires 0 <= i < |b| => b[i] as char)
  }

  /**
    `atob(data)`: whitespace and padding are stripped, a length that leaves
    remainder one modulo four or a character outside the alphabet fails, and
    the rest is decoded. Every character of the result has a code below 256.
  */
  function Atob(data: string): Option<string> {
    var d := StripPadding(StripWhitespace(data));
    if |d| % 4 == 1 then None
    else if !AllBase64(d) then None
    else Some(BinaryString(DecodeSextets(Sextets(d))))
  }

  /** Every character `atob` produces has a code below 256. */
  lemma AtobCodes(data: string)
    ensures Atob(data).Some? ==> forall i :: 0 <= i < |Atob(data).value| ==> Atob(data).value[i] as int < 256
  {
  }

  /** The four six-bit values a group of three bytes `x y z` is written as. */
  function Sextet0(x: byte): sextet { x / 4 }
  function Sextet1(x: byte, y: byte): sextet { x % 4 * 16 + y / 16 }
  function Sextet2(y: byte, z: byte): sextet { y % 16 * 4 + z / 64 }
  function Sextet3(z: byte): sextet { z % 64 }

  /** Each byte of a group is recovered from the two six-bit values that hold its bits. */
  lemma GroupRoundTrip(x: byte, y: byte, z: byte)
    ensures Byte0(Sextet0(x), Sextet1(x, y)) == x
    ensures Byte1(Sextet1(x, y), Sextet2(y, z)) == y
    ensures Byte2(Sextet2(y, z), Sextet3(z)) == z
  {
  }

  /** The encoder's six-bit values: three bytes become four values, a trailing
      pair three values and a trailing single byte two values. */
  function EncodeSextets(b: seq<byte>): seq<sextet>
    decreases |b|
  {
    if |b| >= 3 then
      [Sextet0(b[0]), Sextet1(b[0], b[1]), Sextet2(b[1], b[2]), Sextet3(b[2])]
      + EncodeSextets(b[3..])
    else if |b| == 2 then [Sextet0(b[0]), Sextet1(b[0], b[1]), Sextet2(b[1], 0)]
    else if |b| == 1 then [Sextet0(b[0]), Sextet1(b[0], 0)]
    else []
  }

  /** Three bytes take four values; one or two trailing bytes take one value more than their count. */
  lemma {:induction false} EncodeSextetsLength(b: seq<byte>)
    ensures |EncodeSextets(b)| % 4 == (if |b| % 3 == 0 then 0 else |b| % 3 + 1)
    decreases |b|
  {
    if |b| >= 3 {
      var rest := EncodeSextets(b[3..]);
      EncodeSextetsLength(b[3..]);
      assert |EncodeSextets(b)| == |rest| + 4;
      GroupRemainders(|b[3..]|, |rest|);
    }
  }

  lemma GroupRemainders(n: nat, m: nat)
    ensures (n + 3) % 3 == n % 3 && (m + 4) % 4 == m % 4
  {
  }

  function Chars(v: seq<sextet>): (s: string)
    ensures |s| == |v| && AllBase64(s)
  {
    seq(|v|, i requires 0 <= i < |v| => CharOf(v[i]))
  }

  /** Padded base64 encoding of section 4 of RFC 4648. */
  function Encode(b: seq<byte>): string {
    Chars(EncodeSextets(b)) + Padding(|b| % 3)
  }

  /** The `=` characters that fill the last group of four after `r` trailing bytes. */
  function Padding(r: nat): string {
    if r == 1 then "==" else if r == 2 then "=" else ""
  }

  /** Decoding the encoder's six-bit values gives the bytes back. */
  lemma {:induction false} DecodeEncodeSextets(b: seq<byte>)
    ensures DecodeSextets(EncodeSextets(b)) == b
    decreases |b|
  {
    if |b| >= 3 {
      DecodeEncodeSextets(b[3..]);
      DecodeEncodeGroup(b);
      assert b == [b[0], b[1], b[2]] + b[3..];
    } else if |b| == 2 {
      DecodeEncodeTail(b[0], b[1]);
      assert b == [b[0], b[1]];
    } else if |b| == 1 {
      DecodeEncodeTail(b[0], 0);
      assert b == [b[0]];
    }
  }

  /** One group of three bytes survives encoding and decoding. */
  lemma DecodeEncodeGroup(b: seq<byte>)
    requires |b| >= 3
    ensures DecodeSextets(EncodeSextets(b)) == [b[0], b[1], b[2]] + DecodeSextets(EncodeSextets(b[3..]))
  {
    var rest := EncodeSextets(b[3..]);
    var v := EncodeSextets(b);
    assert v == [Sextet0(b[0]), Sextet1(b[0], b[1]), Sextet2(b[1], b[2]), Sextet3(b[2])] + rest;
    assert v[4..] == rest;
    assert DecodeSextets(v)
        == [Byte0(Sextet0(b[0]), Sextet1(b[0], b[1])), Byte1(Sextet1(b[0], b[1]), Sextet2(b[1], b[2])),
            Byte2(Sextet2(b[1], b[2]), Sextet3(b[2]))] + DecodeSextets(rest);
    GroupRoundTrip(b[0], b[1], b[2]);
  }

  /** One or two trailing bytes survive encoding and decoding. */
  lemma DecodeEncodeTail(x: byte, y: byte)
    ensures DecodeSextets(EncodeSextets([x])) == [x]
    ensures DecodeSextets(EncodeSextets([x, y])) == [x, y]
  {
    assert DecodeSextets(EncodeSextets([x])) == [Byte0(Sextet0(x), Sextet1(x, 0))];
    assert DecodeSextets(EncodeSextets([x, y]))
        == [Byte0(Sextet0(x), Sextet1(x, y)), Byte1(Sextet1(x, y), Sextet2(y, 0))];
    GroupRoundTrip(x, y, 0);
    GroupRoundTrip(x, 0, 0);
  }

  lemma SextetsOfChars(v: seq<sextet>)
    ensures Sextets(Chars(v)) == v
  {
  }

  /** The encoded text holds alphabet characters and `=` only, so whitespace
      stripping leaves it alone. */
  lemma EncodeHasNoWhitespace(b: seq<byte>)
    ensures StripWhitespace(Encode(b)) == Encode(b)
  {
    var e := Chars(EncodeSextets(b));
    var s := Encode(b);
    forall i | 0 <= i < |s| ensures !IsAsciiWhitespace(s[i]) {
      if i < |e| { assert IsBase64Char(e[i]); } else { assert s[i] == '='; }
    }
    StripWhitespaceSpec(s);
  }

  /** Padding stripping removes exactly the padding the encoder appended. */
  lemma StripPaddingOfEncode(b: seq<byte>)
    ensures StripPadding(Encode(b)) == Chars(EncodeSextets(b))
  {
    EncodeSextetsLength(b);
    var e := Chars(EncodeSextets(b));
    if |b| % 3 == 0 {
      StripNoPadding(e);
    } else if |b| % 3 == 1 {
      StripTwoPads(e);
    } else {
      StripOnePad(e);
    }
  }

  /** Text of alphabet characters is left alone by padding stripping. */
  lemma StripNoPadding(e: string)
    requires AllBase64(e)
    ensures StripPadding(e) == e
  {
    if |e| >= 1 {
      assert IsBase64Char(e[|e| - 1]);
    }
  }

  /** Two `=` that complete a group of four are dropped. */
  lemma StripTwoPads(e: string)
    requires |e| % 4 == 2
    ensures StripPadding(e + "==") == e
  {
    var s := e + "==";
    assert s[..|s| - 2] == e;
  }

  /** One `=` that completes a group of four after an alphabet character is dropped. */
  lemma StripOnePad(e: string)
    requires AllBase64(e) && |e| % 4 == 3
    ensures StripPadding(e + "=") == e
  {
    var s := e + "=";
    assert IsBase64Char(e[|e| - 1]);
    assert s[|s| - 2] == e[|e| - 1];
    assert s[..|s| - 1] == e;
  }

  /** `atob` inverts base64 encoding: the binary string of the encoded bytes comes back. */
  lemma AtobInvertsEncode(b: seq<byte>)
    ensures Atob(Encode(b)) == Some(BinaryString(b))
  {
    var v := EncodeSextets(b);
    EncodeSextetsLength(b);
    EncodeHasNoWhitespace(b);
    StripPaddingOfEncode(b);
    DecodeEncodeSextets(b);
    SextetsOfChars(v);
  }
}
