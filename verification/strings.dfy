/**
 The JavaScript string primitives the forecast renderer relies on:
 `String.prototype.includes`, `String.prototype.trim` and
 `String.prototype.toLowerCase`. Strings are sequences of Unicode scalar
 values, while JavaScript strings are UTF-16 code units. These operations do
 meet characters outside the Basic Multilingual Plane (the pin that opens a
 reply, any character of a condition text), but every character they match
 against (the whitespace set, the capitals `Lower` maps, the keyword
 letters) lies inside that plane and is not a surrogate. Neither surrogate
 unit of an astral character matches one of them, so the code-unit view of
 JavaScript and the code-point view used here agree on these operations.
 */
module Strings {

  /** `k` is a prefix of `s`. */
  predicate StartsWith(s: string, k: string) {
    |k| <= |s| && s[..|k|] == k
  }

  /** `k` occurs in `s` at position `i`. */
  ghost predicate OccursAt(s: string, k: string, i: int) {
    0 <= i && i + |k| <= |s| && s[i..i + |k|] == k
  }

  /** An occurrence in `s` is either at its start or an occurrence in the
      rest of `s`, one position further on. */
  lemma {:induction false} OccursStep(s: string, k: string)
    ensures (exists i :: OccursAt(s, k, i))
            <==> StartsWith(s, k) || (|s| > 0 && exists i :: OccursAt(s[1..], k, i))
  {
    if exists i :: OccursAt(s, k, i) {
      var i :| OccursAt(s, k, i);
      if i > 0 {
        assert s[1..][i - 1..i - 1 + |k|] == s[i..i + |k|];
        assert OccursAt(s[1..], k, i - 1);
      } else {
        assert StartsWith(s, k);
      }
    }
    if |s| > 0 && exists i :: OccursAt(s[1..], k, i) {
      var i :| OccursAt(s[1..], k, i);
      assert s[i + 1..i + 1 + |k|] == s[1..][i..i + |k|];
      assert OccursAt(s, k, i + 1);
    }
    if StartsWith(s, k) {
      assert OccursAt(s, k, 0);
    }
  }

  /** `s.includes(k)`, as a left-to-right scan: it holds exactly when `k`
      occurs at some position of `s`. */
  predicate Contains(s: string, k: string)
    ensures Contains(s, k) <==> exists i :: OccursAt(s, k, i)
    decreases |s|
  {
    OccursStep(s, k);
    StartsWith(s, k) || (|s| > 0 && Contains(s[1..], k))
  }

  /**
   The characters `String.prototype.trim` removes: the ECMAScript
   WhiteSpace set (tab, vertical tab, form feed, space, no-break space,
   byte-order mark and the Unicode space separators) and the
   LineTerminator set (line feed, carriage return, line and paragraph
   separators).
   */
  predicate IsJsWhitespace(c: char) {
    || c == '\t' || c == '\n' || c == '\U{000B}' || c == '\U{000C}' || c == '\r'
    || c == ' ' || c == '\U{00A0}' || c == '\U{1680}'
    || ('\U{2000}' <= c <= '\U{200A}')
    || c == '\U{2028}' || c == '\U{2029}' || c == '\U{202F}' || c == '\U{205F}'
    || c == '\U{3000}' || c == '\U{FEFF}'
  }

  /** Drops the longest whitespace prefix. */
  function TrimStart(s: string): (r: string)
    ensures |r| <= |s| && r == s[|s| - |r|..]
    ensures forall i :: 0 <= i < |s| - |r| ==> IsJsWhitespace(s[i])
    ensures |r| > 0 ==> !IsJsWhitespace(r[0])
    decreases |s|
  {
    if |s| > 0 && IsJsWhitespace(s[0]) then TrimStart(s[1..]) else s
  }

  /** Drops the longest whitespace suffix. */
  function TrimEnd(s: string): (r: string)
    ensures |r| <= |s| && r == s[..|r|]
    ensures forall i :: |r| <= i < |s| ==> IsJsWhitespace(s[i])
    ensures |r| > 0 ==> !IsJsWhitespace(r[|r| - 1])
    decreases |s|
  {
    if |s| > 0 && IsJsWhitespace(s[|s| - 1]) then TrimEnd(s[..|s| - 1]) else s
  }

  /** `r` is `s[i..j]`, and everything of `s` outside that slice is whitespace. */
  ghost predicate WhitespaceAround(s: string, r: string, i: int, j: int) {
    && 0 <= i <= j <= |s| && r == s[i..j]
    && (forall k :: 0 <= k < i ==> IsJsWhitespace(s[k]))
    && (forall k :: j <= k < |s| ==> IsJsWhitespace(s[k]))
  }

  /** Trimming the start and then the end cuts `s` down to the slice between
      its whitespace prefix and its whitespace suffix: `t` is what `TrimStart`
      leaves of `s`, and `r` what `TrimEnd` leaves of `t`. */
  lemma TrimCuts(s: string, t: string, r: string)
    requires |t| <= |s| && t == s[|s| - |t|..] && (|t| > 0 ==> !IsJsWhitespace(t[0]))
    requires forall k :: 0 <= k < |s| - |t| ==> IsJsWhitespace(s[k])
    requires |r| <= |t| && r == t[..|r|] && (|r| > 0 ==> !IsJsWhitespace(r[|r| - 1]))
    requires forall k :: |r| <= k < |t| ==> IsJsWhitespace(t[k])
    ensures WhitespaceAround(s, r, |s| - |t|, |s| - |t| + |r|)
    ensures |r| > 0 ==> !IsJsWhitespace(r[0]) && !IsJsWhitespace(r[|r| - 1])
  {
  }

  /** `s.trim()`: both ends stripped of whitespace, the middle untouched. */
  function Trim(s: string): (r: string)
    ensures exists i, j :: WhitespaceAround(s, r, i, j)
    ensures |r| > 0 ==> !IsJsWhitespace(r[0]) && !IsJsWhitespace(r[|r| - 1])
  {
    var t := TrimStart(s);
    assert |t| <= |s| && t == s[|s| - |t|..];
    var r := TrimEnd(t);
    assert |r| <= |t| && r == t[..|r|];
    TrimCuts(s, t, r);
    r
  }

  /** Trimming a string that starts with a visible character and ends with a
      visible character followed by whitespace removes exactly that whitespace. */
  lemma {:induction false} TrimDropsTrailingWhitespace(body: string, tail: string)
    requires |body| > 0 && !IsJsWhitespace(body[0]) && !IsJsWhitespace(body[|body| - 1])
    requires forall k :: 0 <= k < |tail| ==> IsJsWhitespace(tail[k])
    ensures Trim(body + tail) == body
    decreases |tail|
  {
    assert TrimStart(body + tail) == body + tail;
    if |tail| == 0 {
      assert body + tail == body;
    } else {
      var shorter := tail[..|tail| - 1];
      assert (body + tail)[..|body + tail| - 1] == body + shorter;
      TrimDropsTrailingWhitespace(body, shorter);
      assert TrimEnd(body + shorter) == body;
    }
  }

  /** An upper-case letter in the scripts the condition keywords use:
      basic Latin and the Russian/Cyrillic block U+0400 to U+042F. */
  predicate IsUpper(c: char) {
    ('A' <= c <= 'Z') || ('\U{0400}' <= c <= '\U{042F}')
  }

  /** Lower-case mapping of a single character (see `Lower`): each capital
      goes to the small letter at the same place in its alphabet: `A`-`Z` to
      `a`-`z`, `А`-`Я` to `а`-`я`, and `Ѐ`-`Џ` to `ѐ`-`џ`. */
  function LowerChar(c: char): (r: char)
    ensures !IsUpper(r)
    ensures !IsUpper(c) ==> r == c
    ensures 'A' <= c <= 'Z' ==> 'a' <= r <= 'z' && r as int - 'a' as int == c as int - 'A' as int
    ensures '\U{0410}' <= c <= '\U{042F}' ==> '\U{0430}' <= r <= '\U{044F}' && r as int - 0x430 == c as int - 0x410
    ensures '\U{0400}' <= c <= '\U{040F}' ==> '\U{0450}' <= r <= '\U{045F}' && r as int - 0x450 == c as int - 0x400
  {
    if 'A' <= c <= 'Z' then (c as int + 32) as char
    else if '\U{0410}' <= c <= '\U{042F}' then (c as int + 32) as char
    else if '\U{0400}' <= c <= '\U{040F}' then (c as int + 80) as char
    else c
  }

  /** `s.toLowerCase()` restricted to Latin and Cyrillic capitals, which are
      mapped one to one, position by position. */
  function Lower(s: string): (r: string)
    ensures |r| == |s|
    ensures forall i :: 0 <= i < |s| ==> r[i] == LowerChar(s[i])
    ensures forall i :: 0 <= i < |s| ==> !IsUpper(r[i])
    ensures forall i :: 0 <= i < |s| && !IsUpper(s[i]) ==> r[i] == s[i]
  {
    seq(|s|, i requires 0 <= i < |s| => LowerChar(s[i]))
  }

  /** Lower-casing twice is lower-casing once. */
  lemma LowerIdempotent(s: string)
    ensures Lower(Lower(s)) == Lower(s)
  {
  }

  /** Lower-casing commutes with concatenation. */
  lemma LowerAppend(a: string, b: string)
    ensures Lower(a + b) == Lower(a) + Lower(b)
  {
  }

  /** Lower-casing a string with a known first character. */
  lemma LowerCons(c: char, x: string)
    ensures Lower([c] + x) == [LowerChar(c)] + Lower(x)
  {
    LowerAppend([c], x);
    assert Lower([c]) == [LowerChar(c)];
  }
}
