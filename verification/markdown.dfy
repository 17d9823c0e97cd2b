/**
 `escapeMarkdown` of src/weather.ts: Telegram MarkdownV2 escaping. The
 source does it with one global regular-expression replace that puts a
 backslash before every character of a fixed class of 19 reserved
 characters and leaves everything else alone. The module also relates
 escaping to the string primitives of `Strings` that the classifier applies
 to escaped text: lower-casing and substring search.
 */
module Markdown {
  import opened Strings

  /** The character class of the escaping regular expression, in source order. */
  const ReservedChars: string := "_*[]()~`>#+-=|{}.!\\"

  predicate IsReserved(c: char) {
    || c == '_' || c == '*' || c == '[' || c == ']' || c == '(' || c == ')'
    || c == '~' || c == '`' || c == '>' || c == '#' || c == '+' || c == '-'
    || c == '=' || c == '|' || c == '{' || c == '}' || c == '.' || c == '!'
    || c == '\\'
  }

  /** `IsReserved` is membership in the character class, written out. */
  lemma ReservedCharsAreReserved(c: char)
    ensures IsReserved(c) <==> c in ReservedChars
  {
  }

  /** No character of `s` is reserved. */
  predicate NoReserved(s: string) {
    forall i :: 0 <= i < |s| ==> !IsReserved(s[i])
  }

  /** Number of reserved characters in `s`. */
  function CountReserved(s: string): (n: nat)
    ensures n <= |s|
    ensures n == 0 <==> NoReserved(s)
  {
    if |s| == 0 then 0
    else (if IsReserved(s[0]) then 1 else 0) + CountReserved(s[1..])
  }

  /** What one character becomes: the pair `\c` for a reserved `c`, itself otherwise. */
  function EscapeChar(c: char): string {
    if IsReserved(c) then ['\\', c] else [c]
  }

  /** `escapeMarkdown(text)`. */
  function Escape(s: string): (r: string)
    ensures |r| == |s| + CountReserved(s)
  {
    if |s| == 0 then [] else EscapeChar(s[0]) + Escape(s[1..])
  }

  /** Escaping distributes over concatenation, so it acts character by
      character, in order. */
  lemma {:induction false} EscapeAppend(a: string, b: string)
    ensures Escape(a + b) == Escape(a) + Escape(b)
  {
    if |a| == 0 {
      assert a + b == b;
    } else {
      assert (a + b)[0] == a[0];
      assert (a + b)[1..] == a[1..] + b;
      EscapeAppend(a[1..], b);
      calc {
        Escape(a + b);
        EscapeChar(a[0]) + Escape(a[1..] + b);
        EscapeChar(a[0]) + (Escape(a[1..]) + Escape(b));
        (EscapeChar(a[0]) + Escape(a[1..])) + Escape(b);
        Escape(a) + Escape(b);
      }
    }
  }

  /** Escaping one more character appends the escape of that character. */
  lemma EscapeSnoc(s: string, c: char)
    ensures Escape(s + [c]) == Escape(s) + EscapeChar(c)
  {
    EscapeAppend(s, [c]);
    assert [c][1..] == [];
  }

  /** Escaping a string leaves it unchanged exactly when it has no reserved
      character. */
  lemma {:induction false} EscapeIdentityIff(s: string)
    ensures Escape(s) == s <==> NoReserved(s)
  {
    if NoReserved(s) && |s| > 0 {
      assert NoReserved(s[1..]);
      EscapeIdentityIff(s[1..]);
      assert s == [s[0]] + s[1..];
    }
  }

  /** The inverse: drops the backslash of every `\c` pair, read left to right. */
  function Unescape(t: string): string
    decreases |t|
  {
    if |t| == 0 then []
    else if t[0] == '\\' && |t| >= 2 then [t[1]] + Unescape(t[2..])
    else [t[0]] + Unescape(t[1..])
  }

  /** Escaping loses nothing: unescaping recovers the original text. */
  lemma {:induction false} UnescapeEscape(s: string)
    ensures Unescape(Escape(s)) == s
  {
    if |s| > 0 {
      var t := Escape(s);
      UnescapeEscape(s[1..]);
      if IsReserved(s[0]) {
        assert t[2..] == Escape(s[1..]);
      } else {
        assert t[1..] == Escape(s[1..]);
      }
      assert s == [s[0]] + s[1..];
    }
  }

  /** Escaping is injective: different texts never render the same. */
  lemma EscapeInjective(a: string, b: string)
    requires Escape(a) == Escape(b)
    ensures a == b
  {
    UnescapeEscape(a);
    UnescapeEscape(b);
  }

  /** The strings `Escape` can produce: every backslash starts a pair with a
      reserved character, and no reserved character stands alone. */
  predicate WellEscaped(t: string)
    decreases |t|
  {
    || |t| == 0
    || (|t| >= 2 && t[0] == '\\' && IsReserved(t[1]) && WellEscaped(t[2..]))
    || (|t| >= 1 && !IsReserved(t[0]) && WellEscaped(t[1..]))
  }

  /** Every escaped string is well escaped. */
  lemma {:induction false} EscapeIsWellEscaped(s: string)
    ensures WellEscaped(Escape(s))
  {
    if |s| > 0 {
      var t := Escape(s);
      EscapeIsWellEscaped(s[1..]);
      if IsReserved(s[0]) {
        assert t[2..] == Escape(s[1..]);
      } else {
        assert t[1..] == Escape(s[1..]);
      }
    }
  }

  /** Every well-escaped string is the escape of its unescaping, so `Escape`
      is a bijection between all strings and the well-escaped ones. */
  lemma {:induction false} EscapeUnescape(t: string)
    requires WellEscaped(t)
    ensures Escape(Unescape(t)) == t
    decreases |t|
  {
    if |t| > 0 {
      if t[0] == '\\' {
        EscapeUnescape(t[2..]);
        assert Escape([t[1]] + Unescape(t[2..])) == EscapeChar(t[1]) + Escape(Unescape(t[2..])) by {
          EscapeAppend([t[1]], Unescape(t[2..]));
        }
        assert t == t[..2] + t[2..];
      } else {
        EscapeUnescape(t[1..]);
        assert Escape([t[0]] + Unescape(t[1..])) == EscapeChar(t[0]) + Escape(Unescape(t[1..])) by {
          EscapeAppend([t[0]], Unescape(t[1..]));
        }
        assert t == [t[0]] + t[1..];
      }
    }
  }

  /** Escaping an already escaped text changes it again whenever the text had
      anything to escape: escaping twice is not escaping once. */
  lemma DoubleEscapeGrows(s: string)
    requires !NoReserved(s)
    ensures |Escape(Escape(s))| > |Escape(s)|
  {
  }

  /** Lower-casing one character never turns a reserved character into an
      ordinary one or the other way round. */
  lemma LowerCharKeepsReserved(c: char)
    ensures IsReserved(LowerChar(c)) <==> IsReserved(c)
    ensures IsReserved(c) ==> LowerChar(c) == c
  {
    if IsUpper(c) {
      var r := LowerChar(c);
      assert ('a' <= r <= 'z') || ('\U{0430}' <= r <= '\U{045F}');
      assert !IsReserved(r) && !IsReserved(c);
    }
  }

  /** Lower-casing the escape of one character escapes its lower case. */
  lemma LowerEscapeChar(c: char)
    ensures Lower(EscapeChar(c)) == EscapeChar(LowerChar(c))
  {
    LowerCharKeepsReserved(c);
  }

  /** Escaping a string with a known first character. */
  lemma EscapeCons(c: char, x: string)
    ensures Escape([c] + x) == EscapeChar(c) + Escape(x)
  {
    assert ([c] + x)[0] == c;
    assert ([c] + x)[1..] == x;
  }

  /** One step of `LowerEscape`: the property extends from `x` to `[c] + x`. */
  lemma LowerEscapeCons(c: char, x: string)
    requires Lower(Escape(x)) == Escape(Lower(x))
    ensures Lower(Escape([c] + x)) == Escape(Lower([c] + x))
  {
    calc {
      Lower(Escape([c] + x));
      { EscapeCons(c, x); }
      Lower(EscapeChar(c) + Escape(x));
      { LowerAppend(EscapeChar(c), Escape(x)); }
      Lower(EscapeChar(c)) + Lower(Escape(x));
      { LowerEscapeChar(c); }
      EscapeChar(LowerChar(c)) + Escape(Lower(x));
      { EscapeCons(LowerChar(c), Lower(x)); }
      Escape([LowerChar(c)] + Lower(x));
      { LowerCons(c, x); }
      Escape(Lower([c] + x));
    }
  }

  /** Lower-casing commutes with escaping. */
  lemma {:induction false} LowerEscape(s: string)
    ensures Lower(Escape(s)) == Escape(Lower(s))
  {
    if |s| > 0 {
      LowerEscape(s[1..]);
      LowerEscapeCons(s[0], s[1..]);
      assert [s[0]] + s[1..] == s;
    }
  }

  /** Escaping neither creates nor destroys a prefix free of reserved characters. */
  lemma {:induction false} StartsWithEscape(s: string, k: string)
    requires NoReserved(k)
    ensures StartsWith(Escape(s), k) <==> StartsWith(s, k)
    decreases |k|
  {
    if |k| > 0 && |s| > 0 {
      var t := Escape(s);
      assert !IsReserved(k[0]);
      if IsReserved(s[0]) {
        assert t[0] == '\\';
        assert !StartsWith(t, k) && !StartsWith(s, k);
      } else {
        assert t == [s[0]] + Escape(s[1..]);
        assert NoReserved(k[1..]);
        StartsWithEscape(s[1..], k[1..]);
        assert StartsWith(t, k) <==> k[0] == s[0] && StartsWith(Escape(s[1..]), k[1..]);
        assert StartsWith(s, k) <==> k[0] == s[0] && StartsWith(s[1..], k[1..]);
      }
    }
  }

  /** The scan of `Contains` over a string with a known first character. */
  lemma ContainsCons(c: char, x: string, k: string)
    ensures Contains([c] + x, k) <==> StartsWith([c] + x, k) || Contains(x, k)
  {
    assert ([c] + x)[1..] == x;
  }

  /** Escaping neither creates nor destroys an occurrence of a non-empty
      text free of reserved characters. */
  lemma {:induction false} ContainsEscape(s: string, k: string)
    requires |k| > 0 && NoReserved(k)
    ensures Contains(Escape(s), k) <==> Contains(s, k)
    decreases |s|
  {
    if |s| > 0 {
      var rest := Escape(s[1..]);
      ContainsEscape(s[1..], k);
      ContainsCons(s[0], s[1..], k);
      assert [s[0]] + s[1..] == s;
      assert !IsReserved(k[0]);
      if IsReserved(s[0]) {
        assert Escape(s) == ['\\'] + ([s[0]] + rest);
        ContainsCons('\\', [s[0]] + rest, k);
        ContainsCons(s[0], rest, k);
      } else {
        assert Escape(s) == [s[0]] + rest;
        ContainsCons(s[0], rest, k);
        StartsWithEscape(s, k);
      }
    }
  }

  /**
   The replace as the regular-expression engine performs it: one left-to-right
   scan that copies the text and inserts a backslash before each reserved
   character it meets.
   */
  method EscapeMarkdown(text: string) returns (out: string)
    ensures out == Escape(text)
    ensures Unescape(out) == text
  {
    out := [];
    var i := 0;
    while i < |text|
      invariant 0 <= i <= |text|
      invariant out == Escape(text[..i])
    {
      assert text[..i + 1] == text[..i] + [text[i]];
      EscapeSnoc(text[..i], text[i]);
      if IsReserved(text[i]) {
        out := out + ['\\', text[i]];
      } else {
        out := out + [text[i]];
      }
      i := i + 1;
    }
    assert text[..i] == text;
    UnescapeEscape(text);
  }
}
