/**
  `dataURLtoFile`, which both conversation queues carry as an identical copy:
  it splits a data URL of the form `data:<mime>;base64,<payload>` (section 3
  of RFC 2397) at its commas, reads the media type with the regular
  expression `/:(.*?);/`, decodes the payload with `atob` and copies the
  character codes of the decoded string into a `Uint8Array`, from which it
  builds a `File`.

  The ways it can throw are kept as errors: the argument is not a string (it
  has no `split`), the regular expression finds nothing (reading `[1]` of
  `null`), or `atob` rejects the payload.
*/
module DataUrl {
  import opened Wrappers
  import Base64

  /** The `File` built from the decoded bytes, the file name and the `type` the
      constructor stores for the media type. */
  datatype File = File(bytes: seq<Base64.byte>, name: string, mimeType: string)

  datatype DataUrlError =
    | NotAString        // `dataurl.split` on a value that is not a string
    | MimeNotMatched    // `arr[0].match(...)` is null
    | InvalidCharacter  // `atob` throws

  /** Joins the pieces back with the separator between them. */
  function Join(parts: seq<string>, sep: char): string
    decreases |parts|
  {
    if |parts| == 0 then ""
    else if |parts| == 1 then parts[0]
    else parts[0] + [sep] + Join(parts[1..], sep)
  }

  /** `s.split(sep)`: the maximal separator-free pieces, in order; there is
      always at least one. */
  function Split(s: string, sep: char): (parts: seq<string>)
    ensures |parts| >= 1
    decreases |s|
  {
    if s == [] then [""]
    else
      var rest := Split(s[1..], sep);
      if s[0] == sep then [""] + rest
      else [[s[0]] + rest[0]] + rest[1..]
  }

  /** No piece contains the separator, and joining the pieces gives `s` back. */
  lemma {:induction false} SplitPieces(s: string, sep: char)
    ensures forall i :: 0 <= i < |Split(s, sep)| ==> sep !in Split(s, sep)[i]
    ensures Join(Split(s, sep), sep) == s
    decreases |s|
  {
    if s != [] {
      var rest := Split(s[1..], sep);
      SplitPieces(s[1..], sep);
      if s[0] == sep {
        assert s == [sep] + s[1..];
      } else {
        var parts := [[s[0]] + rest[0]] + rest[1..];
        assert parts[1..] == rest[1..];
        assert |rest| > 1 ==> Join(rest, sep) == rest[0] + [sep] + Join(rest[1..], sep);
        assert s == [s[0]] + s[1..];
      }
    }
  }

  /** A separator-free prefix is the first piece; the rest is split on its own. */
  lemma {:induction false} SplitAfterPrefix(a: string, b: string, sep: char)
    requires sep !in a
    ensures Split(a + [sep] + b, sep) == [a] + Split(b, sep)
    decreases |a|
  {
    if a == [] {
      assert a + [sep] + b == [sep] + b;
      assert ([sep] + b)[1..] == b;
    } else {
      SplitAfterPrefix(a[1..], b, sep);
      assert (a + [sep] + b)[1..] == a[1..] + [sep] + b;
      assert [a[0]] + a[1..] == a;
    }
  }

  /** A string without the separator is a single piece. */
  lemma {:induction false} SplitWithoutSeparator(s: string, sep: char)
    requires sep !in s
    ensures Split(s, sep) == [s]
    decreases |s|
  {
    if s != [] {
      SplitWithoutSeparator(s[1..], sep);
      assert [s[0]] + s[1..] == s;
    }
  }

  /** The characters JavaScript's `.` does not match. */
  predicate IsLineTerminator(c: char) {
    c == '\n' || c == '\r' || c == '\U{2028}' || c == '\U{2029}'
  }

  /** The lazy `(.*?);` from position q: the first `;`, provided no line
      terminator comes before it. */
  function SemicolonFrom(s: string, q: nat): (r: Option<nat>)
    requires q <= |s|
    ensures r.Some? ==> q <= r.value < |s| && s[r.value] == ';'
    ensures r.Some? ==> forall k :: q <= k < r.value ==> s[k] != ';' && !IsLineTerminator(s[k])
    ensures r.None? ==> forall t :: q <= t < |s| && s[t] == ';' ==>
                          exists k :: q <= k < t && IsLineTerminator(s[k])
    decreases |s| - q
  {
    if q == |s| then None
    else if s[q] == ';' then Some(q)
    else if IsLineTerminator(s[q]) then None
    else SemicolonFrom(s, q + 1)
  }

  /** `/:(.*?);/` tried at every start from p on: the first `:` from which a `;`
      is reached, and the text between the two. */
  function MimeMatchFrom(s: string, p: nat): Option<string>
    requires p <= |s|
    decreases |s| - p
  {
    if p == |s| then None
    else if s[p] == ':' then
      match SemicolonFrom(s, p + 1)
      case Some(q) => Some(s[p + 1..q])
      case None => MimeMatchFrom(s, p + 1)
    else MimeMatchFrom(s, p + 1)
  }

  /** `s.match(/:(.*?);/)`, reduced to its capture group. */
  function MimeMatch(s: string): Option<string> {
    MimeMatchFrom(s, 0)
  }

  /** A `:` at p from which a `;` is reached with no line terminator in between. */
  ghost predicate Reaches(s: string, p: int) {
    0 <= p < |s| && s[p] == ':' &&
    exists q :: p < q < |s| && s[q] == ';' && forall k :: p < k < q ==> !IsLineTerminator(s[k])
  }

  /** m is the text between the `:` at p and the first `;` after it, with no
      line terminator inside. */
  ghost predicate CapturedAt(s: string, p: int, m: string) {
    0 <= p && p + |m| + 1 < |s| && s[p] == ':' && s[p + 1..p + 1 + |m|] == m && s[p + 1 + |m|] == ';' &&
    forall k :: p < k <= p + |m| ==> s[k] != ';' && !IsLineTerminator(s[k])
  }

  lemma SemicolonFromReaches(s: string, p: nat)
    requires p < |s| && s[p] == ':'
    ensures SemicolonFrom(s, p + 1).Some? <==> Reaches(s, p)
  {
    if SemicolonFrom(s, p + 1).Some? {
      var q := SemicolonFrom(s, p + 1).value;
      assert forall k :: p < k < q ==> !IsLineTerminator(s[k]);
    }
  }

  /** The match succeeds exactly when some `:` at or after p reaches a `;`; it
      then captures the text at the first such `:`. */
  lemma {:induction false} MimeMatchFromSpec(s: string, p0: nat)
    requires p0 <= |s|
    ensures MimeMatchFrom(s, p0).Some? <==> exists p :: p0 <= p && Reaches(s, p)
    ensures MimeMatchFrom(s, p0).Some? ==>
              exists p :: p0 <= p && CapturedAt(s, p, MimeMatchFrom(s, p0).value) &&
                          forall p' :: p0 <= p' < p ==> !Reaches(s, p')
    decreases |s| - p0
  {
    if p0 < |s| {
      MimeMatchFromSpec(s, p0 + 1);
      if s[p0] == ':' {
        SemicolonFromReaches(s, p0);
        match SemicolonFrom(s, p0 + 1)
        case Some(q) =>
          var m := s[p0 + 1..q];
          assert CapturedAt(s, p0, m);
        case None =>
          assert !Reaches(s, p0);
      } else {
        assert !Reaches(s, p0);
      }
    }
  }

  /** `new Uint8Array(n)[i] = code` keeps the code modulo 256. */
  function ToUint8(code: int): Base64.byte {
    code % 256
  }

  /** The bytes stored by `u8arr[n] = bstr.charCodeAt(n)` for every n. */
  function CharCodes(bstr: string): (u: seq<Base64.byte>)
    ensures |u| == |bstr|
  {
    seq(|bstr|, i requires 0 <= i < |bstr| => ToUint8(bstr[i] as int))
  }

  /** `atob(arr[1])`: a data URL without a comma has no `arr[1]`, and `atob`
      then receives the string "undefined". */
  function Payload(arr: seq<string>): string {
    if |arr| > 1 then arr[1] else "undefined"
  }

  /** A character the `File` constructor keeps in a `type`: U+0020 to U+007E. */
  predicate IsTypeChar(c: char) {
    ' ' <= c <= '~'
  }

  function AsciiLower(c: char): char {
    if 'A' <= c <= 'Z' then ((c as int) + 32) as char else c
  }

  /** A `type` the `File` constructor would store unchanged. */
  predicate IsNormalType(t: string) {
    forall i :: 0 <= i < |t| ==> IsTypeChar(t[i]) && !('A' <= t[i] <= 'Z')
  }

  /** The `type` of `new File(parts, name, { type: t })`: the empty string when
      `t` holds a character outside U+0020 to U+007E, otherwise `t` in ASCII
      lower case. */
  function BlobType(t: string): (r: string)
    ensures IsNormalType(r)
    ensures |r| == |t| <==> forall i :: 0 <= i < |t| ==> IsTypeChar(t[i])
    ensures |r| != |t| ==> r == ""
    ensures |r| == |t| ==> forall i :: 0 <= i < |t| ==> r[i] == AsciiLower(t[i])
  {
    if forall i :: 0 <= i < |t| ==> IsTypeChar(t[i]) then
      seq(|t|, i requires 0 <= i < |t| => AsciiLower(t[i]))
    else ""
  }

  /** A type that is already printable lower-case ASCII is stored as given. */
  lemma BlobTypeKeepsNormal(t: string)
    requires IsNormalType(t)
    ensures BlobType(t) == t
  {
  }

  /** What `dataURLtoFile(dataurl, filename)` yields, or the error it throws first. */
  function ParseDataUrl(dataurl: string, filename: string): Result<File, DataUrlError> {
    var arr := Split(dataurl, ',');
    match MimeMatch(arr[0])
    case None => Err(MimeNotMatched)
    case Some(mime) =>
      match Base64.Atob(Payload(arr))
      case None => Err(InvalidCharacter)
      case Some(bstr) => Ok(File(CharCodes(bstr), filename, BlobType(mime)))
  }

  /** `dataURLtoFile`: the media type is matched, the payload decoded and its
      character codes copied into a fresh byte array. */
  method DataUrlToFile(dataurl: string, filename: string) returns (r: Result<File, DataUrlError>)
    ensures r == ParseDataUrl(dataurl, filename)
  {
    var arr := Split(dataurl, ',');
    var mime := MimeMatch(arr[0]);
    if mime.None? {
      return Err(MimeNotMatched);
    }
    var bstr := Base64.Atob(Payload(arr));
    if bstr.None? {
      return Err(InvalidCharacter);
    }
    var u8arr := CopyCharCodes(bstr.value);
    r := Ok(File(u8arr[..], filename, BlobType(mime.value)));
  }

  /** The copy loop of `dataURLtoFile`: `while (n--) u8arr[n] = bstr.charCodeAt(n)`
      over a fresh `Uint8Array` of the string's length. */
  method CopyCharCodes(bstr: string) returns (u8arr: array<Base64.byte>)
    ensures fresh(u8arr)
    ensures u8arr[..] == CharCodes(bstr)
  {
    var n := |bstr|;
    u8arr := new Base64.byte[n];
    // `while (n--)` tests n and then decrements it; the final decrement to -1 is never read
    while n != 0
      invariant 0 <= n <= u8arr.Length == |bstr|
      invariant forall i :: n <= i < u8arr.Length ==> u8arr[i] == ToUint8(bstr[i] as int)
    {
      n := n - 1;
      u8arr[n] := ToUint8(bstr[n] as int);
    }
  }

  /** The media type is read from the piece before the first comma: the match
      fails exactly when no `:` there reaches a `;`, and otherwise the type is
      the text between the first such `:` and the `;` that follows it, as the
      `File` constructor normalises it. */
  lemma MediaTypeField(dataurl: string, filename: string)
    ensures var head := Split(dataurl, ',')[0];
            && |head| <= |dataurl| && dataurl[..|head|] == head
            && (|head| < |dataurl| ==> dataurl[|head|] == ',')
            && (ParseDataUrl(dataurl, filename) == Err(MimeNotMatched) <==> !exists p :: Reaches(head, p))
            && (ParseDataUrl(dataurl, filename).Ok? ==>
                  MimeMatch(head).Some? &&
                  ParseDataUrl(dataurl, filename).value.mimeType == BlobType(MimeMatch(head).value) &&
                  exists p :: CapturedAt(head, p, MimeMatch(head).value) &&
                              forall p' :: 0 <= p' < p ==> !Reaches(head, p'))
  {
    var arr := Split(dataurl, ',');
    SplitPieces(dataurl, ',');
    if |arr| > 1 {
      assert Join(arr, ',') == arr[0] + [','] + Join(arr[1..], ',');
    }
    MimeMatchFromSpec(arr[0], 0);
  }

  /** Without a comma, decoding always fails: "undefined" has nine characters. */
  lemma NoCommaFails(dataurl: string, filename: string)
    requires ',' !in dataurl
    ensures ParseDataUrl(dataurl, filename).Err?
  {
    SplitWithoutSeparator(dataurl, ',');
    var u := "undefined";
    assert forall i :: 0 <= i < |u| ==> !Base64.IsAsciiWhitespace(u[i]);
    Base64.StripWhitespaceSpec(u);
    assert |Base64.StripPadding(Base64.StripWhitespace(u))| == 9;
  }

  /** Byte i of the file is the character code at i of the decoded string:
      every code is below 256, so nothing is truncated. */
  lemma BytesAreCharCodes(dataurl: string, filename: string)
    requires ParseDataUrl(dataurl, filename).Ok?
    ensures var arr := Split(dataurl, ',');
            && Base64.Atob(Payload(arr)).Some?
            && var bstr := Base64.Atob(Payload(arr)).value;
            && var bytes := ParseDataUrl(dataurl, filename).value.bytes;
            && |bytes| == |bstr|
            && forall i :: 0 <= i < |bstr| ==> bytes[i] == bstr[i] as int
  {
    Base64.AtobCodes(Payload(Split(dataurl, ',')));
    CodesBelow256Kept(Base64.Atob(Payload(Split(dataurl, ','))).value);
  }

  /** A code below 256 is stored unchanged. */
  lemma CodesBelow256Kept(bstr: string)
    requires forall i :: 0 <= i < |bstr| ==> bstr[i] as int < 256
    ensures forall i :: 0 <= i < |bstr| ==> CharCodes(bstr)[i] == bstr[i] as int
  {
  }

  /** A data URL built from a media type and the base64 encoding of some bytes
      yields exactly those bytes and that media type as the `File` constructor
      normalises it; a printable lower-case media type comes back unchanged. */
  lemma ParseDataUrlRoundTrip(mime: string, bytes: seq<Base64.byte>, filename: string)
    requires ',' !in mime && ';' !in mime
    requires forall i :: 0 <= i < |mime| ==> !IsLineTerminator(mime[i])
    ensures ParseDataUrl("data:" + mime + ";base64," + Base64.Encode(bytes), filename)
            == Ok(File(bytes, filename, BlobType(mime)))
    ensures IsNormalType(mime) ==>
              ParseDataUrl("data:" + mime + ";base64," + Base64.Encode(bytes), filename)
              == Ok(File(bytes, filename, mime))
  {
    if IsNormalType(mime) {
      BlobTypeKeepsNormal(mime);
    }
    var enc := Base64.Encode(bytes);
    var head := "data:" + mime + ";base64";
    var url := "data:" + mime + ";base64," + enc;
    assert url == head + [','] + enc;
    EncodeHasNoComma(bytes);
    SplitAfterPrefix(head, enc, ',');
    SplitWithoutSeparator(enc, ',');
    assert Split(url, ',') == [head, enc];
    HeadMatches(mime);
    Base64.AtobInvertsEncode(bytes);
    CharCodesOfBinaryString(bytes);
  }

  lemma CharCodesOfBinaryString(bytes: seq<Base64.byte>)
    ensures CharCodes(Base64.BinaryString(bytes)) == bytes
  {
    CodesBelow256Kept(Base64.BinaryString(bytes));
  }

  lemma EncodeHasNoComma(bytes: seq<Base64.byte>)
    ensures ',' !in Base64.Encode(bytes)
  {
    var e := Base64.Encode(bytes);
    var c := Base64.Chars(Base64.EncodeSextets(bytes));
    forall i | 0 <= i < |e| ensures e[i] != ',' {
      if i < |c| { assert Base64.IsBase64Char(c[i]); }
    }
  }

  lemma {:induction false} SemicolonAfterPlainText(s: string, q: nat, t: nat)
    requires q <= t < |s| && s[t] == ';'
    requires forall k :: q <= k < t ==> s[k] != ';' && !IsLineTerminator(s[k])
    ensures SemicolonFrom(s, q) == Some(t)
    decreases t - q
  {
    if q < t {
      SemicolonAfterPlainText(s, q + 1, t);
    }
  }

  lemma HeadMatches(mime: string)
    requires ';' !in mime
    requires forall i :: 0 <= i < |mime| ==> !IsLineTerminator(mime[i])
    ensures MimeMatch("data:" + mime + ";base64") == Some(mime)
  {
    var h := "data:" + mime + ";base64";
    SemicolonAfterPlainText(h, 5, 5 + |mime|);
    assert h[5..5 + |mime|] == mime;
    assert MimeMatchFrom(h, 4) == Some(mime);
    assert MimeMatchFrom(h, 0) == MimeMatchFrom(h, 1) == MimeMatchFrom(h, 2) == MimeMatchFrom(h, 3);
  }
}
