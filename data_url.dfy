/**
 * Photos travel in the export file as data URLs (section 3 of RFC 2397):
 * `FileReader.readAsDataURL` writes "data:" + type + ";base64," + the
 * Base64 text, and `base64ToBlob` splits the text at ',' again, takes the
 * type with the regular expression `/:(.*?);/` from the first part and
 * decodes the second with `atob`.
 */
module DataUrl {
  import opened Wrappers
  import opened Blobs
  import opened Strings
  import opened Base64

  /** The type given when the header names none. */
  const FallbackMime: string := "image/jpeg"

  // ---- `new Blob(parts, { type })` ----

  predicate IsPrintableAscii(c: char)
  {
    0x20 <= c as int <= 0x7E
  }

  function AsciiLower(c: char): (l: char)
    ensures IsPrintableAscii(c) ==> IsPrintableAscii(l)
    ensures !('A' <= l <= 'Z')
  {
    if 'A' <= c <= 'Z' then (c as int + 32) as char else c
  }

  /** The Blob constructor's type: lower-cased, or empty when it holds a character outside U+0020..U+007E. */
  function BlobType(t: string): (r: string)
    ensures r == "" || |r| == |t|
    ensures forall i :: 0 <= i < |r| ==> IsPrintableAscii(r[i]) && !('A' <= r[i] <= 'Z')
  {
    if forall i :: 0 <= i < |t| ==> IsPrintableAscii(t[i]) then
      seq(|t|, i requires 0 <= i < |t| => AsciiLower(t[i]))
    else ""
  }

  /** A type a Blob can carry: exactly the fixed points of the constructor's normalisation. */
  predicate IsBlobType(t: string)
  {
    forall i :: 0 <= i < |t| ==> IsPrintableAscii(t[i]) && !('A' <= t[i] <= 'Z')
  }

  lemma BlobTypeFixedPoints(t: string)
    ensures BlobType(t) == t <==> IsBlobType(t)
  {
    if IsBlobType(t) {
      assert forall i :: 0 <= i < |t| ==> AsciiLower(t[i]) == t[i];
    }
  }

  lemma BlobTypeIdempotent(t: string)
    ensures BlobType(BlobType(t)) == BlobType(t)
  {
    BlobTypeFixedPoints(BlobType(t));
  }

  // ---- encoder (`blobToBase64`) ----

  /** `FileReader.readAsDataURL`: the media type is left empty when the blob has none. */
  function ToDataUrl(b: Blob): (s: string)
    ensures |s| >= 13 && s[..5] == "data:"
  {
    "data:" + b.mime + ";base64," + Encode(b.bytes)
  }

  // ---- decoder (`base64ToBlob`) ----

  /** The characters `.` does not match in a JavaScript regular expression. */
  predicate IsLineTerminator(c: char)
  {
    c == '\n' || c == '\r' || c as int == 0x2028 || c as int == 0x2029
  }

  /** The first ';' at or after `j`, provided no line terminator comes before it. */
  function LazyEnd(s: string, j: nat): (r: Option<nat>)
    ensures r.Some? ==> j <= r.value < |s| && s[r.value] == ';'
    ensures r.Some? ==> forall k :: j <= k < r.value ==> s[k] != ';' && !IsLineTerminator(s[k])
    decreases |s| - j
  {
    if j >= |s| then None
    else if s[j] == ';' then Some(j)
    else if IsLineTerminator(s[j]) then None
    else LazyEnd(s, j + 1)
  }

  /** Group 1 of the leftmost match of `/:(.*?);/` starting the search at `i`. */
  function MatchFrom(s: string, i: nat): (r: Option<string>)
    ensures r.Some? ==> ';' !in r.value && forall k :: 0 <= k < |r.value| ==> !IsLineTerminator(r.value[k])
    decreases |s| - i
  {
    if i >= |s| then None
    else if s[i] == ':' && LazyEnd(s, i + 1).Some? then
      var e := LazyEnd(s, i + 1).value;
      Some(s[i + 1..e])
    else MatchFrom(s, i + 1)
  }

  /** `header.match(/:(.*?);/)?.[1] || 'image/jpeg'`. */
  function MimeOf(header: string): (m: string)
    ensures m != ""
  {
    match MatchFrom(header, 0)
    case Some(g) => if g == "" then FallbackMime else g
    case None => FallbackMime
  }

  /** The bytes of a binary string (every character below 256). */
  function BytesOf(bstr: string): (b: seq<byte>)
    requires forall i :: 0 <= i < |bstr| ==> bstr[i] as int < 256
    ensures |b| == |bstr|
    ensures forall i :: 0 <= i < |b| ==> b[i] == bstr[i] as int
  {
    seq(|bstr|, i requires 0 <= i < |bstr| => bstr[i] as int)
  }

  /**
   * What `base64ToBlob` returns, or `None` where `atob` throws. With no
   * ',' the second part is `undefined`, which `atob` reads as the text
   * "undefined" and rejects.
   */
  function Decode(s: string): (r: Option<Blob>)
    ensures r.Some? ==> r.value.mime != "" || BlobType(MimeOf(Split(s, ',')[0])) == ""
  {
    var parts := Split(s, ',');
    var mime := MimeOf(parts[0]);
    var payload := if |parts| >= 2 then parts[1] else "undefined";
    match Atob(payload)
    case None => None
    case Some(bstr) => Some(Blob(BytesOf(bstr), BlobType(mime)))
  }

  /** `base64ToBlob`, with the byte array filled from the end as the source's `while (n--)` loop does. */
  method Base64ToBlob(base64: string) returns (r: Option<Blob>)
    ensures r == Decode(base64)
  {
    var arr := Split(base64, ',');
    var mime := MimeOf(arr[0]);
    var decoded := Atob(if |arr| >= 2 then arr[1] else "undefined");
    if decoded.None? {
      return None;
    }
    var bstr := decoded.value;
    var n := |bstr|;
    var u8arr := new byte[n];
    while n > 0
      invariant 0 <= n <= |bstr| == u8arr.Length
      invariant forall k :: n <= k < |bstr| ==> u8arr[k] == bstr[k] as int
      decreases n
    {
      n := n - 1;
      u8arr[n] := bstr[n] as int;
    }
    assert u8arr[..] == BytesOf(bstr);
    return Some(Blob(u8arr[..], BlobType(mime)));
  }

  // ---- round trip ----

  /** A type the data URL carries through unchanged. */
  predicate RoundTrips(t: string)
  {
    IsBlobType(t) && t != "" && ';' !in t && ',' !in t
  }

  lemma BytesOfBinaryString(b: seq<byte>)
    ensures BytesOf(BinaryString(b)) == b
  {
  }

  lemma LazyEndSkips(s: string, j: nat, e: nat)
    requires j <= e < |s| && s[e] == ';'
    requires forall k :: j <= k < e ==> s[k] != ';' && !IsLineTerminator(s[k])
    ensures LazyEnd(s, j) == Some(e)
    decreases e - j
  {
    if j < e {
      LazyEndSkips(s, j + 1, e);
    }
  }

  /** The header the encoder writes yields the blob's own type. */
  lemma MimeOfHeader(t: string)
    requires IsBlobType(t) && ';' !in t
    ensures MatchFrom("data:" + t + ";base64", 0) == Some(t)
  {
    var h := "data:" + t + ";base64";
    assert h[4] == ':';
    assert forall k :: 5 <= k < 5 + |t| ==> h[k] == t[k - 5];
    LazyEndSkips(h, 5, 5 + |t|);
    assert h[5..5 + |t|] == t;
    assert MatchFrom(h, 0) == MatchFrom(h, 1) == MatchFrom(h, 2) == MatchFrom(h, 3) == MatchFrom(h, 4);
  }

  /** The Base64 alphabet and padding contain no ','. */
  lemma NoCommaInEncoding(b: seq<byte>)
    ensures ',' !in Encode(b)
  {
    var e := Encode(b);
    assert forall i :: 0 <= i < |e| ==> e[i] != ',' by {
      forall i | 0 <= i < |e|
        ensures e[i] != ','
      {
        assert IsBase64Char(e[i]) || e[i] == '=';
      }
    }
  }

  lemma SplitDataUrl(b: Blob)
    requires ',' !in b.mime
    ensures Split(ToDataUrl(b), ',') == ["data:" + b.mime + ";base64", Encode(b.bytes)]
  {
    var h := "data:" + b.mime + ";base64";
    assert forall i :: 0 <= i < |h| ==> h[i] != ',' by {
      forall i | 0 <= i < |h|
        ensures h[i] != ','
      {
        if 5 <= i < 5 + |b.mime| {
          assert h[i] == b.mime[i - 5];
        }
      }
    }
    NoCommaInEncoding(b.bytes);
    assert ToDataUrl(b) == h + [','] + Encode(b.bytes);
    SplitAt(h, ',', Encode(b.bytes));
    SplitNoSeparator(Encode(b.bytes), ',');
  }

  /** Exporting a photo and importing it again gives back the same blob. */
  lemma DecodeToDataUrl(b: Blob)
    requires RoundTrips(b.mime)
    ensures Decode(ToDataUrl(b)) == Some(b)
  {
    SplitDataUrl(b);
    MimeOfHeader(b.mime);
    AtobEncode(b.bytes);
    BytesOfBinaryString(b.bytes);
    BlobTypeFixedPoints(b.mime);
  }

  /** A blob without a type comes back typed as JPEG. */
  lemma DecodeUntyped(bytes: seq<byte>)
    ensures Decode(ToDataUrl(Blob(bytes, ""))) == Some(Blob(bytes, FallbackMime))
  {
    var b := Blob(bytes, "");
    SplitDataUrl(b);
    MimeOfHeader("");
    AtobEncode(bytes);
    BytesOfBinaryString(bytes);
    FallbackIsBlobType();
  }

  lemma FallbackIsBlobType()
    ensures BlobType(FallbackMime) == FallbackMime
  {
    assert IsBlobType(FallbackMime);
    BlobTypeFixedPoints(FallbackMime);
  }

  /** Text without a ',' is rejected. */
  lemma DecodeWithoutComma(s: string)
    requires ',' !in s
    ensures Decode(s).None?
  {
    SplitNoSeparator(s, ',');
    AtobUndefined();
  }
}
