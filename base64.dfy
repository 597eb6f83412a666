/**
 * Base64 with the alphabet of section 4 of RFC 4648, as `FileReader`
 * writes it into a data URL, and the forgiving decoder of the WHATWG
 * Infra standard that `atob` runs: ASCII white space is dropped, one or two
 * trailing '=' are optional, and a final group of two or three characters
 * decodes to one or two bytes.
 */
module Base64 {
  import opened Wrappers
  import opened Blobs

  type sextet = x: int | 0 <= x < 64

  predicate IsBase64Char(c: char)
  {
    ('A' <= c <= 'Z') || ('a' <= c <= 'z') || ('0' <= c <= '9') || c == '+' || c == '/'
  }

  predicate AllBase64(s: string)
  {
    forall i :: 0 <= i < |s| ==> IsBase64Char(s[i])
  }

  /** Table 1 of RFC 4648: value to character. */
  function CharOf(v: sextet): (c: char)
    ensures IsBase64Char(c)
  {
    if v < 26 then ('A' as int + v) as char
    else if v < 52 then ('a' as int + (v - 26)) as char
    else if v < 62 then ('0' as int + (v - 52)) as char
    else if v == 62 then '+'
    else '/'
  }

  /** Table 1 of RFC 4648: character to value. */
  function ValueOf(c: char): (v: sextet)
    requires IsBase64Char(c)
  {
    if 'A' <= c <= 'Z' then c as int - 'A' as int
    else if 'a' <= c <= 'z' then c as int - 'a' as int + 26
    else if '0' <= c <= '9' then c as int - '0' as int + 52
    else if c == '+' then 62
    else 63
  }

  lemma ValueOfCharOf(v: sextet)
    ensures ValueOf(CharOf(v)) == v
  {
  }

  /** The alphabet is a bijection. */
  lemma CharOfValueOf(c: char)
    requires IsBase64Char(c)
    ensures CharOf(ValueOf(c)) == c
  {
  }

  // ---- the three shapes of an encoded group ----

  /** Three bytes as four characters (24 bits as four 6-bit groups). */
  function Group(b0: byte, b1: byte, b2: byte): (s: string)
    ensures |s| == 4 && AllBase64(s)
  {
    [CharOf(b0 / 4), CharOf((b0 % 4) * 16 + b1 / 16), CharOf((b1 % 16) * 4 + b2 / 64), CharOf(b2 % 64)]
  }

  /** A final single byte as two characters (before padding). */
  function Tail1(b0: byte): (s: string)
    ensures |s| == 2 && AllBase64(s)
  {
    [CharOf(b0 / 4), CharOf((b0 % 4) * 16)]
  }

  /** A final pair of bytes as three characters (before padding). */
  function Tail2(b0: byte, b1: byte): (s: string)
    ensures |s| == 3 && AllBase64(s)
  {
    [CharOf(b0 / 4), CharOf((b0 % 4) * 16 + b1 / 16), CharOf((b1 % 16) * 4)]
  }

  /** Four characters back to three bytes. */
  function Ungroup(g: string): seq<byte>
    requires |g| == 4 && AllBase64(g)
  {
    [ValueOf(g[0]) * 4 + ValueOf(g[1]) / 16,
     (ValueOf(g[1]) % 16) * 16 + ValueOf(g[2]) / 4,
     (ValueOf(g[2]) % 4) * 64 + ValueOf(g[3])]
  }

  /** Two characters back to one byte; the low four bits of the second are discarded. */
  function Untail1(c0: char, c1: char): seq<byte>
    requires IsBase64Char(c0) && IsBase64Char(c1)
  {
    [ValueOf(c0) * 4 + ValueOf(c1) / 16]
  }

  /** Three characters back to two bytes; the low two bits of the third are discarded. */
  function Untail2(c0: char, c1: char, c2: char): seq<byte>
    requires IsBase64Char(c0) && IsBase64Char(c1) && IsBase64Char(c2)
  {
    [ValueOf(c0) * 4 + ValueOf(c1) / 16, (ValueOf(c1) % 16) * 16 + ValueOf(c2) / 4]
  }

  lemma GroupRoundTrip(b0: byte, b1: byte, b2: byte)
    ensures Ungroup(Group(b0, b1, b2)) == [b0, b1, b2]
  {
    var v1, v2 := (b0 % 4) * 16 + b1 / 16, (b1 % 16) * 4 + b2 / 64;
    ValueOfCharOf(b0 / 4);
    ValueOfCharOf(v1);
    ValueOfCharOf(v2);
    ValueOfCharOf(b2 % 64);
    assert v1 / 16 == b0 % 4 && v1 % 16 == b1 / 16;
    assert v2 / 4 == b1 % 16 && v2 % 4 == b2 / 64;
  }

  lemma Tail1RoundTrip(b0: byte)
    ensures var t := Tail1(b0); Untail1(t[0], t[1]) == [b0]
  {
    ValueOfCharOf(b0 / 4);
    ValueOfCharOf((b0 % 4) * 16);
  }

  lemma Tail2RoundTrip(b0: byte, b1: byte)
    ensures var t := Tail2(b0, b1); Untail2(t[0], t[1], t[2]) == [b0, b1]
  {
    var v1 := (b0 % 4) * 16 + b1 / 16;
    ValueOfCharOf(b0 / 4);
    ValueOfCharOf(v1);
    ValueOfCharOf((b1 % 16) * 4);
    assert v1 / 16 == b0 % 4 && v1 % 16 == b1 / 16;
  }

  // ---- encoder ----

  /** The encoding without its '=' padding. */
  function EncodeUnpadded(b: seq<byte>): (s: string)
    ensures AllBase64(s)
    ensures |s| % 4 == (if |b| % 3 == 0 then 0 else |b| % 3 + 1)
    decreases |b|
  {
    if |b| == 0 then ""
    else if |b| == 1 then Tail1(b[0])
    else if |b| == 2 then Tail2(b[0], b[1])
    else Group(b[0], b[1], b[2]) + EncodeUnpadded(b[3..])
  }

  /** The '=' characters that fill the last group to four. */
  function Padding(tail: nat): string
  {
    if tail == 1 then "==" else if tail == 2 then "=" else ""
  }

  /**
   * Section 4 of RFC 4648: each three bytes become four characters, and a
   * short final group is padded with '=' to four.
   */
  function Encode(b: seq<byte>): (s: string)
    ensures |s| % 4 == 0
    ensures forall i :: 0 <= i < |s| ==> IsBase64Char(s[i]) || s[i] == '='
  {
    EncodeUnpadded(b) + Padding(|b| % 3)
  }

  // ---- forgiving decoder ----

  /** ASCII white space in the sense of the WHATWG Infra standard. */
  predicate IsAsciiWhitespace(c: char)
  {
    c == '\t' || c == '\n' || c == '\U{C}' || c == '\r' || c == ' '
  }

  function RemoveWhitespace(s: string): (r: string)
    ensures forall i :: 0 <= i < |r| ==> !IsAsciiWhitespace(r[i])
    ensures |r| <= |s|
    decreases |s|
  {
    if |s| == 0 then ""
    else (if IsAsciiWhitespace(s[0]) then "" else [s[0]]) + RemoveWhitespace(s[1..])
  }

  /** With a length divisible by four, one or two trailing '=' are dropped. */
  function StripPadding(d: string): string
  {
    if |d| % 4 == 0 && |d| >= 1 && d[|d| - 1] == '=' then
      if |d| >= 2 && d[|d| - 2] == '=' then d[..|d| - 2] else d[..|d| - 1]
    else d
  }

  /** Padding-free text to bytes, group by group. */
  function DecodeUnpadded(d: string): (b: seq<byte>)
    requires AllBase64(d)
    requires |d| % 4 != 1
    decreases |d|
  {
    if |d| == 0 then []
    else if |d| == 2 then Untail1(d[0], d[1])
    else if |d| == 3 then Untail2(d[0], d[1], d[2])
    else Ungroup(d[..4]) + DecodeUnpadded(d[4..])
  }

  /** A byte sequence as a JavaScript binary string: one character per byte. */
  function BinaryString(b: seq<byte>): (s: string)
    ensures |s| == |b|
    ensures forall i :: 0 <= i < |s| ==> s[i] as int == b[i]
  {
    seq(|b|, i requires 0 <= i < |b| => b[i] as char)
  }

  /**
   * `atob`: the decoded binary string, or `None` where `atob` throws
   * (a length that leaves one character over, or a character outside the
   * alphabet once white space and final padding are removed).
   */
  function Atob(s: string): (r: Option<string>)
    ensures r.Some? ==> forall i :: 0 <= i < |r.value| ==> r.value[i] as int < 256
    ensures r.None? <==> var d := StripPadding(RemoveWhitespace(s)); |d| % 4 == 1 || !AllBase64(d)
  {
    var d := StripPadding(RemoveWhitespace(s));
    if |d| % 4 == 1 || !AllBase64(d) then None
    else Some(BinaryString(DecodeUnpadded(d)))
  }

  // ---- round trip ----

  /** Decoding peels one full group off the front. */
  lemma DecodeUnpaddedFront(g: string, rest: string)
    requires |g| == 4 && AllBase64(g) && AllBase64(rest) && |rest| % 4 != 1
    ensures AllBase64(g + rest) && |g + rest| % 4 != 1
    ensures DecodeUnpadded(g + rest) == Ungroup(g) + DecodeUnpadded(rest)
  {
    var e := g + rest;
    assert e[..4] == g;
    assert e[4..] == rest;
  }

  /** Encoding emits one full group at the front. */
  lemma EncodeUnpaddedFront(b: seq<byte>)
    requires |b| >= 3
    ensures EncodeUnpadded(b) == Group(b[0], b[1], b[2]) + EncodeUnpadded(b[3..])
  {
  }

  lemma DecodeEncodeTail(b: seq<byte>)
    requires 1 <= |b| <= 2
    ensures DecodeUnpadded(EncodeUnpadded(b)) == b
  {
    if |b| == 1 {
      Tail1RoundTrip(b[0]);
    } else {
      Tail2RoundTrip(b[0], b[1]);
    }
  }

  lemma SplitThree(b: seq<byte>)
    requires |b| >= 3
    ensures b == [b[0], b[1], b[2]] + b[3..]
  {
  }

  lemma DecodeEncodeStep(b: seq<byte>)
    requires |b| >= 3
    requires DecodeUnpadded(EncodeUnpadded(b[3..])) == b[3..]
    ensures DecodeUnpadded(EncodeUnpadded(b)) == b
  {
    SplitThree(b);
    var g := Group(b[0], b[1], b[2]);
    var rest := EncodeUnpadded(b[3..]);
    GroupRoundTrip(b[0], b[1], b[2]);
    EncodeUnpaddedFront(b);
    DecodeUnpaddedFront(g, rest);
  }

  lemma {:induction false} DecodeEncodeUnpadded(b: seq<byte>)
    ensures DecodeUnpadded(EncodeUnpadded(b)) == b
    decreases |b|
  {
    if 1 <= |b| <= 2 {
      DecodeEncodeTail(b);
    } else if |b| >= 3 {
      DecodeEncodeUnpadded(b[3..]);
      DecodeEncodeStep(b);
    }
  }

  lemma {:induction false} RemoveWhitespaceNoop(s: string)
    requires forall i :: 0 <= i < |s| ==> !IsAsciiWhitespace(s[i])
    ensures RemoveWhitespace(s) == s
    decreases |s|
  {
    if |s| > 0 {
      RemoveWhitespaceNoop(s[1..]);
      assert [s[0]] + s[1..] == s;
    }
  }

  lemma StripPaddingOfEncode(b: seq<byte>)
    ensures StripPadding(Encode(b)) == EncodeUnpadded(b)
  {
    var u := EncodeUnpadded(b);
    var e := Encode(b);
    if |b| % 3 == 0 {
      assert e == u;
      if |u| > 0 {
        assert IsBase64Char(u[|u| - 1]);
      }
    } else if |b| % 3 == 1 {
      assert e == u + "==";
      assert e[..|e| - 2] == u;
    } else {
      assert e == u + "=";
      assert |u| >= 1 && IsBase64Char(u[|u| - 1]);
      assert e[|e| - 2] == u[|u| - 1];
      assert e[..|e| - 1] == u;
    }
  }

  /** `atob` inverts the encoder on every byte sequence. */
  lemma AtobEncode(b: seq<byte>)
    ensures Atob(Encode(b)) == Some(BinaryString(b))
  {
    var e := Encode(b);
    RemoveWhitespaceNoop(e);
    StripPaddingOfEncode(b);
    DecodeEncodeUnpadded(b);
  }

  /** The text `atob` receives when a data URL has no comma is rejected. */
  lemma AtobUndefined()
    ensures Atob("undefined").None?
  {
    var u := "undefined";
    assert forall i :: 0 <= i < |u| ==> !IsAsciiWhitespace(u[i]);
    RemoveWhitespaceNoop(u);
    assert StripPadding(RemoveWhitespace(u)) == u;
    assert |u| % 4 == 1;
  }
}
