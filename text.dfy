/**
 * The string primitives of the .NET runtime that the bot relies on:
 * char.IsWhiteSpace, TrimEnd, TrimStart, Trim and the ordinal
 * case-insensitive comparison (for ASCII letters).
 */
module Text {

  /** char.IsWhiteSpace: the Unicode space separators, line and paragraph separators and U+0009..U+000D, U+0085. */
  predicate IsWhiteSpace(c: char)
  {
    || ('\t' <= c <= '\r')
    || c == ' ' || c == '\U{0085}' || c == '\U{00A0}' || c == '\U{1680}'
    || ('\U{2000}' <= c <= '\U{200A}')
    || c == '\U{2028}' || c == '\U{2029}' || c == '\U{202F}' || c == '\U{205F}' || c == '\U{3000}'
  }

  predicate AllWhiteSpace(s: string)
  {
    forall k :: 0 <= k < |s| ==> IsWhiteSpace(s[k])
  }

  /** string.TrimEnd(): white space removed from the end. */
  function TrimEnd(s: string): string
  {
    if s == [] || !IsWhiteSpace(s[|s| - 1]) then s
    else TrimEnd(s[..|s| - 1])
  }

  /** TrimEnd keeps the longest prefix that does not end in white space: what it drops is all white space. */
  lemma {:induction false} TrimEndShape(s: string)
    ensures var r := TrimEnd(s);
      && r <= s
      && (r == [] || !IsWhiteSpace(r[|r| - 1]))
      && AllWhiteSpace(s[|r|..])
  {
    if s != [] && IsWhiteSpace(s[|s| - 1]) {
      var r := TrimEnd(s[..|s| - 1]);
      TrimEndShape(s[..|s| - 1]);
      assert s[|r|..] == s[..|s| - 1][|r|..] + [s[|s| - 1]];
    }
  }

  /** string.TrimStart(): white space removed from the start. */
  function TrimStart(s: string): string
  {
    if s == [] || !IsWhiteSpace(s[0]) then s
    else TrimStart(s[1..])
  }

  /** TrimStart keeps the longest suffix that does not start with white space: what it drops is all white space. */
  lemma {:induction false} TrimStartShape(s: string)
    ensures var r := TrimStart(s);
      && |r| <= |s| && r == s[|s| - |r|..]
      && (r == [] || !IsWhiteSpace(r[0]))
      && AllWhiteSpace(s[..|s| - |r|])
  {
    if s != [] && IsWhiteSpace(s[0]) {
      var r := TrimStart(s[1..]);
      TrimStartShape(s[1..]);
      assert s[..|s| - |r|] == [s[0]] + s[1..][..|s| - 1 - |r|];
    }
  }

  /** string.Trim(): white space removed from both ends. */
  function Trim(s: string): string
  {
    TrimStart(TrimEnd(s))
  }

  /** Trailing white space only goes when a trailing part is all white space. */
  lemma {:induction false} TrimEndOfPadded(s: string, pad: string)
    requires s == [] || !IsWhiteSpace(s[|s| - 1])
    requires AllWhiteSpace(pad)
    ensures TrimEnd(s + pad) == s
  {
    if pad != [] {
      assert (s + pad)[..|s + pad| - 1] == s + pad[..|pad| - 1];
      TrimEndOfPadded(s, pad[..|pad| - 1]);
    } else {
      assert s + pad == s;
    }
  }

  lemma {:induction false} TrimStartOfPadded(pad: string, s: string)
    requires s == [] || !IsWhiteSpace(s[0])
    requires AllWhiteSpace(pad)
    ensures TrimStart(pad + s) == s
  {
    if pad != [] {
      assert (pad + s)[1..] == pad[1..] + s;
      TrimStartOfPadded(pad[1..], s);
    } else {
      assert pad + s == s;
    }
  }

  /** Trim gives back a text that neither starts nor ends with white space, whatever padding surrounds it. */
  lemma TrimOfPadded(left: string, s: string, right: string)
    requires s != [] && !IsWhiteSpace(s[0]) && !IsWhiteSpace(s[|s| - 1])
    requires AllWhiteSpace(left) && AllWhiteSpace(right)
    ensures Trim(left + s + right) == s
  {
    TrimEndOfPadded(left + s, right);
    TrimStartOfPadded(left, s);
  }

  /**
   * The ordinal upper-case mapping, for ASCII letters: no lower-case letter
   * is left, a capital comes from itself or its small letter, and every
   * other character from itself.
   */
  function ToUpperAscii(c: char): (u: char)
    ensures IsWhiteSpace(u) <==> IsWhiteSpace(c)
    ensures !('a' <= u <= 'z')
    ensures 'A' <= u <= 'Z' ==> c == u || c as int == u as int + 32
    ensures !('A' <= u <= 'Z') ==> c == u
  {
    if 'a' <= c <= 'z' then (c as int - 32) as char else c
  }

  /**
   * Against '!' or a lower-case letter b, ordinal case folding matches a
   * exactly when a is b itself or, for a letter, its capital.
   */
  lemma FoldMatches(a: char, b: char)
    requires b == '!' || 'a' <= b <= 'z'
    ensures ToUpperAscii(a) == ToUpperAscii(b) <==> a == b || ('a' <= b <= 'z' && a as int == b as int - 32)
  {
  }

  /** string.Equals(a, b, StringComparison.OrdinalIgnoreCase), for ASCII letters. */
  predicate EqualsIgnoreCase(a: string, b: string)
  {
    |a| == |b| && forall k :: 0 <= k < |a| ==> ToUpperAscii(a[k]) == ToUpperAscii(b[k])
  }
}
