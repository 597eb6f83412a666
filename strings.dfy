/**
 * String helpers that mirror JavaScript's built-in behaviour on strings:
 * the UTF-16 code-unit order that `<` and IndexedDB use, `split` on a
 * one-character separator, `trim`, and `length` counted in UTF-16 code
 * units. A `char` here is a Unicode scalar value; the order is the one its
 * UTF-16 encoding gives, not the code-point order.
 */
module Strings {

  /** The UTF-16 encoding of one character: one code unit, or a surrogate pair. */
  function Utf16(c: char): (units: seq<int>)
    ensures 1 <= |units| <= 2 && (|units| == 2 <==> c as int > 0xFFFF)
    ensures forall k :: 0 <= k < |units| ==> 0 <= units[k] <= 0xFFFF
  {
    var u := c as int;
    if u <= 0xFFFF then [u]
    else [0xD800 + (u - 0x10000) / 0x400, 0xDC00 + (u - 0x10000) % 0x400]
  }

  /** Strict lexicographic order on code-unit sequences. */
  predicate UnitsLt(u: seq<int>, v: seq<int>)
    decreases |u|
  {
    if |v| == 0 then false
    else if |u| == 0 then true
    else if u[0] != v[0] then u[0] < v[0]
    else UnitsLt(u[1..], v[1..])
  }

  /**
   * A key that orders characters as their UTF-16 encodings do: below
   * U+D800 and from U+10000 up it is the code point, and U+E000..U+FFFF,
   * whose single unit is above every high surrogate, move past U+10FFFF.
   */
  function UnitRank(c: char): int
  {
    var u := c as int;
    if 0xE000 <= u <= 0xFFFF then u + 0x110000 else u
  }

  /** Comparing ranks is comparing UTF-16 encodings. */
  lemma UnitRankIsUtf16Order(c: char, d: char)
    ensures UnitRank(c) < UnitRank(d) <==> UnitsLt(Utf16(c), Utf16(d))
  {
    var u, v := c as int, d as int;
    if u > 0xFFFF && v > 0xFFFF {
      var (hu, lu) := ((u - 0x10000) / 0x400, (u - 0x10000) % 0x400);
      var (hv, lv) := ((v - 0x10000) / 0x400, (v - 0x10000) % 0x400);
      assert u == 0x10000 + 0x400 * hu + lu;
      assert v == 0x10000 + 0x400 * hv + lv;
      assert 0 <= lu < 0x400 && 0 <= lv < 0x400;
      assert u < v <==> hu < hv || (hu == hv && lu < lv);
      assert Utf16(c)[1..] == [0xDC00 + lu];
      assert Utf16(d)[1..] == [0xDC00 + lv];
      assert UnitsLt(Utf16(c)[1..], Utf16(d)[1..]) <==> lu < lv;
    }
  }

  /** A character that sorts before U+E000 though its code point is larger. */
  lemma SupplementaryBeforePrivateUse()
    ensures UnitRank('\U{1F600}') < UnitRank('\U{E000}') && '\U{E000}' < '\U{1F600}'
  {
  }

  /** `a <= b` in lexicographic order of UTF-16 code units. */
  predicate LexLe(a: string, b: string)
    decreases |a|
  {
    if |a| == 0 then true
    else if |b| == 0 then false
    else if a[0] != b[0] then UnitRank(a[0]) < UnitRank(b[0])
    else LexLe(a[1..], b[1..])
  }

  /** Strict lexicographic order. */
  predicate LexLt(a: string, b: string)
  {
    LexLe(a, b) && a != b
  }

  lemma {:induction false} LexLeReflexive(a: string)
    ensures LexLe(a, a)
    decreases |a|
  {
    if |a| > 0 {
      LexLeReflexive(a[1..]);
    }
  }

  lemma {:induction false} LexLeTotal(a: string, b: string)
    ensures LexLe(a, b) || LexLe(b, a)
    decreases |a|
  {
    if |a| > 0 && |b| > 0 && a[0] == b[0] {
      LexLeTotal(a[1..], b[1..]);
    }
  }

  lemma {:induction false} LexLeAntisymmetric(a: string, b: string)
    requires LexLe(a, b) && LexLe(b, a)
    ensures a == b
    decreases |a|
  {
    if |a| > 0 && |b| > 0 {
      LexLeAntisymmetric(a[1..], b[1..]);
      assert a == [a[0]] + a[1..];
      assert b == [b[0]] + b[1..];
    }
  }

  lemma {:induction false} LexLeTransitive(a: string, b: string, c: string)
    requires LexLe(a, b) && LexLe(b, c)
    ensures LexLe(a, c)
    decreases |a|
  {
    if |a| > 0 && |b| > 0 && |c| > 0 && a[0] == b[0] && b[0] == c[0] {
      LexLeTransitive(a[1..], b[1..], c[1..]);
    }
  }

  /**
   * `s.split(sep)` for a one-character separator: the pieces between
   * separators, always at least one.
   */
  function Split(s: string, sep: char): (parts: seq<string>)
    ensures |parts| >= 1
    decreases |s|
  {
    if |s| == 0 then [""]
    else
      var rest := Split(s[1..], sep);
      if s[0] == sep then [""] + rest
      else [[s[0]] + rest[0]] + rest[1..]
  }

  lemma {:induction false} SplitNoSeparator(s: string, sep: char)
    requires sep !in s
    ensures Split(s, sep) == [s]
    decreases |s|
  {
    if |s| > 0 {
      SplitNoSeparator(s[1..], sep);
      assert [s[0]] + s[1..] == s;
    }
  }

  lemma {:induction false} SplitAt(a: string, sep: char, b: string)
    requires sep !in a
    ensures Split(a + [sep] + b, sep) == [a] + Split(b, sep)
    decreases |a|
  {
    if |a| == 0 {
      assert a + [sep] + b == [sep] + b;
      assert ([sep] + b)[1..] == b;
    } else {
      var s := a + [sep] + b;
      assert s[0] == a[0];
      assert s[1..] == a[1..] + [sep] + b;
      SplitAt(a[1..], sep, b);
      assert [a[0]] + a[1..] == a;
    }
  }

  /** No piece of a split contains the separator. */
  lemma {:induction false} SplitPiecesFree(s: string, sep: char)
    ensures forall k :: 0 <= k < |Split(s, sep)| ==> sep !in Split(s, sep)[k]
    decreases |s|
  {
    if |s| > 0 {
      SplitPiecesFree(s[1..], sep);
    }
  }

  /** How the first character moves the piece count and the last piece. */
  lemma SplitLastStep(s: string, sep: char)
    requires |s| > 0
    ensures var rest := Split(s[1..], sep); var p := Split(s, sep);
      && |p| == (if s[0] == sep then |rest| + 1 else |rest|)
      && p[|p| - 1] == (if s[0] != sep && |rest| == 1 then [s[0]] + rest[0] else rest[|rest| - 1])
  {
  }

  /** The last piece of a split is a suffix of the string. */
  lemma {:induction false} SplitLastIsSuffix(s: string, sep: char)
    ensures var p := Split(s, sep); |p[|p| - 1]| <= |s| && p[|p| - 1] == s[|s| - |p[|p| - 1]|..]
    ensures |Split(s, sep)| == 1 ==> Split(s, sep)[0] == s
    decreases |s|
  {
    if |s| > 0 {
      var t := s[1..];
      SplitLastIsSuffix(t, sep);
      SplitLastStep(s, sep);
      var p := Split(s, sep);
      var rest := Split(t, sep);
      if s[0] != sep && |rest| == 1 {
        assert [s[0]] + t == s;
        assert p[|p| - 1] == s;
      } else {
        var last := rest[|rest| - 1];
        assert t[|t| - |last|..] == s[|s| - |last|..];
        assert p[|p| - 1] == last && |p| > 1;
      }
    }
  }

  /** JavaScript's white space and line terminators, the characters `trim` removes. */
  predicate IsJsWhitespace(c: char)
  {
    var u := c as int;
    (9 <= u <= 13) || u == 0x20 || u == 0xA0 || u == 0x1680 || (0x2000 <= u <= 0x200A)
    || u == 0x2028 || u == 0x2029 || u == 0x202F || u == 0x205F || u == 0x3000 || u == 0xFEFF
  }

  /** `s.trimStart()`. */
  function TrimStart(s: string): (r: string)
    ensures |r| <= |s| && r == s[|s| - |r|..]
    ensures |r| > 0 ==> !IsJsWhitespace(r[0])
    decreases |s|
  {
    if |s| > 0 && IsJsWhitespace(s[0]) then TrimStart(s[1..]) else s
  }

  /** `s.trimEnd()`. */
  function TrimEnd(s: string): (r: string)
    ensures |r| <= |s| && r == s[..|r|]
    ensures |r| > 0 ==> !IsJsWhitespace(r[|r| - 1])
    decreases |s|
  {
    if |s| > 0 && IsJsWhitespace(s[|s| - 1]) then TrimEnd(s[..|s| - 1]) else s
  }

  /** `s.trim()`. */
  function Trim(s: string): string
  {
    TrimEnd(TrimStart(s))
  }

  /** `!s.trim()`: the string is empty or made of white space only (`TrimEmptyIffBlank`). */
  predicate IsBlank(s: string)
  {
    forall i :: 0 <= i < |s| ==> IsJsWhitespace(s[i])
  }

  lemma {:induction false} TrimStartEmptyIff(s: string)
    ensures TrimStart(s) == "" <==> forall i :: 0 <= i < |s| ==> IsJsWhitespace(s[i])
    decreases |s|
  {
    if |s| > 0 && IsJsWhitespace(s[0]) {
      TrimStartEmptyIff(s[1..]);
      assert forall i :: 1 <= i < |s| ==> s[i] == s[1..][i - 1];
    }
  }

  /** `s.trim()` is empty exactly when the string is blank. */
  lemma TrimEmptyIffBlank(s: string)
    ensures Trim(s) == "" <==> IsBlank(s)
  {
    TrimStartEmptyIff(s);
    var t := TrimStart(s);
    if |t| > 0 {
      assert TrimEnd(t) != "" by {
        TrimEndKeepsFirst(t);
      }
    }
  }

  lemma {:induction false} TrimEndKeepsFirst(t: string)
    requires |t| > 0 && !IsJsWhitespace(t[0])
    ensures |TrimEnd(t)| > 0
    decreases |t|
  {
    if |t| > 1 && IsJsWhitespace(t[|t| - 1]) {
      TrimEndKeepsFirst(t[..|t| - 1]);
    }
  }

  /** `s.length`: JavaScript counts UTF-16 code units, two for a character beyond U+FFFF. */
  function Utf16Length(s: string): (n: nat)
    ensures |s| <= n <= 2 * |s|
    decreases |s|
  {
    if |s| == 0 then 0
    else (if s[|s| - 1] as int > 0xFFFF then 2 else 1) + Utf16Length(s[..|s| - 1])
  }
}
