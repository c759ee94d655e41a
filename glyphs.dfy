/**
 * `replace_some_word`: the four Roman-numeral glyphs U+2160..U+2163 are
 * rewritten to their ASCII spellings, one `str.replace` after another.
 */
module Glyphs {

  /** The glyphs the source replaces, in the order it replaces them. */
  const Origins: seq<char> := ['\U{2160}', '\U{2161}', '\U{2162}', '\U{2163}']

  /** What each glyph becomes. */
  const Targets: seq<string> := ["I", "II", "III", "IV"]

  predicate IsGlyph(c: char) {
    c in Origins
  }

  predicate GlyphFree(s: string) {
    forall k :: 0 <= k < |s| ==> !IsGlyph(s[k])
  }

  /** The text one character stands for once every glyph has been spelled out. */
  function GlyphText(c: char): string {
    if c == Origins[0] then Targets[0]
    else if c == Origins[1] then Targets[1]
    else if c == Origins[2] then Targets[2]
    else if c == Origins[3] then Targets[3]
    else [c]
  }

  /** Reference definition: every character rewritten at once, left to right. */
  function Normalized(s: string): string {
    if s == [] then [] else GlyphText(s[0]) + Normalized(s[1..])
  }

  /** Python's `str.replace(pat, rep)` for a one-character `pat`. */
  function ReplaceChar(s: string, pat: char, rep: string): string {
    if s == [] then []
    else (if s[0] == pat then rep else [s[0]]) + ReplaceChar(s[1..], pat, rep)
  }

  /** The text of `c` after the first `n` of the four replacements. */
  function PartialText(c: char, n: nat): string
    requires n <= 4
  {
    if n == 0 then [c]
    else if c == Origins[n - 1] then Targets[n - 1]
    else PartialText(c, n - 1)
  }

  /** A string after the first `n` of the four replacements. */
  function PartialNormalized(s: string, n: nat): string
    requires n <= 4
  {
    if s == [] then [] else PartialText(s[0], n) + PartialNormalized(s[1..], n)
  }

  lemma {:induction false} ReplaceCharConcat(a: string, b: string, pat: char, rep: string)
    ensures ReplaceChar(a + b, pat, rep) == ReplaceChar(a, pat, rep) + ReplaceChar(b, pat, rep)
  {
    if a == [] {
      assert a + b == b;
    } else {
      assert (a + b)[0] == a[0] && (a + b)[1..] == a[1..] + b;
      ReplaceCharConcat(a[1..], b, pat, rep);
    }
  }

  lemma {:induction false} ReplaceCharAbsent(s: string, pat: char, rep: string)
    requires pat !in s
    ensures ReplaceChar(s, pat, rep) == s
  {
    if s != [] {
      ReplaceCharAbsent(s[1..], pat, rep);
    }
  }

  /** Replacement `n` only touches the characters the earlier ones left alone. */
  lemma PartialTextStep(c: char, n: nat)
    requires n < 4
    ensures ReplaceChar(PartialText(c, n), Origins[n], Targets[n]) == PartialText(c, n + 1)
  {
    if c in Origins[..n] {
      var j :| 0 <= j < n && Origins[j] == c;
      PartialTextAt(c, n, j);
      ReplaceCharAbsent(Targets[j], Origins[n], Targets[n]);
    } else {
      PartialTextUntouched(c, n);
    }
  }

  lemma {:induction false} PartialTextAt(c: char, n: nat, j: nat)
    requires j < n <= 4 && Origins[j] == c
    ensures PartialText(c, n) == Targets[j]
  {
  }

  lemma {:induction false} PartialTextUntouched(c: char, n: nat)
    requires n <= 4 && c !in Origins[..n]
    ensures PartialText(c, n) == [c]
  {
    if n > 0 {
      assert Origins[..n - 1] <= Origins[..n];
      assert c != Origins[n - 1] by { assert Origins[n - 1] in Origins[..n]; }
      PartialTextUntouched(c, n - 1);
    }
  }

  lemma {:induction false} PartialNormalizedStep(s: string, n: nat)
    requires n < 4
    ensures ReplaceChar(PartialNormalized(s, n), Origins[n], Targets[n]) == PartialNormalized(s, n + 1)
  {
    if s != [] {
      ReplaceCharConcat(PartialText(s[0], n), PartialNormalized(s[1..], n), Origins[n], Targets[n]);
      PartialTextStep(s[0], n);
      PartialNormalizedStep(s[1..], n);
    }
  }

  lemma {:induction false} PartialNormalizedEnds(s: string)
    ensures PartialNormalized(s, 0) == s
    ensures PartialNormalized(s, 4) == Normalized(s)
  {
    if s != [] {
      PartialNormalizedEnds(s[1..]);
      PartialTextFull(s[0]);
    }
  }

  /** All four replacements done: the per-character reference text. */
  lemma PartialTextFull(c: char)
    ensures PartialText(c, 4) == GlyphText(c)
  {
    assert PartialText(c, 1) == if c == Origins[0] then Targets[0] else [c];
    assert PartialText(c, 2) == if c == Origins[1] then Targets[1] else PartialText(c, 1);
    assert PartialText(c, 3) == if c == Origins[2] then Targets[2] else PartialText(c, 2);
  }

  /**
   * `replace_some_word`: the four replacements in turn. The result is the
   * all-at-once rewrite, because no target spelling contains a glyph.
   */
  method ReplaceSomeWord(text: string) returns (r: string)
    ensures r == Normalized(text)
  {
    r := text;
    PartialNormalizedEnds(text);
    for i := 0 to 4
      invariant r == PartialNormalized(text, i)
    {
      PartialNormalizedStep(text, i);
      r := ReplaceChar(r, Origins[i], Targets[i]);
    }
  }

  /** Rewriting respects concatenation, so characters keep their order. */
  lemma {:induction false} NormalizedConcat(a: string, b: string)
    ensures Normalized(a + b) == Normalized(a) + Normalized(b)
  {
    if a == [] {
      assert a + b == b;
    } else {
      assert (a + b)[0] == a[0] && (a + b)[1..] == a[1..] + b;
      NormalizedConcat(a[1..], b);
    }
  }

  /** No glyph survives the rewrite. */
  lemma {:induction false} NormalizedGlyphFree(s: string)
    ensures GlyphFree(Normalized(s))
  {
    if s != [] {
      NormalizedGlyphFree(s[1..]);
      var head := GlyphText(s[0]);
      assert GlyphFree(head);
      assert Normalized(s) == head + Normalized(s[1..]);
    }
  }

  /** A string without glyphs is left as it is. */
  lemma {:induction false} NormalizedIdentity(s: string)
    requires GlyphFree(s)
    ensures Normalized(s) == s
  {
    if s != [] {
      NormalizedIdentity(s[1..]);
    }
  }

  /** Rewriting twice is rewriting once. */
  lemma NormalizedIdempotent(s: string)
    ensures Normalized(Normalized(s)) == Normalized(s)
  {
    NormalizedGlyphFree(s);
    NormalizedIdentity(Normalized(s));
  }

  /** A course title ending in the glyph for two gets the ASCII spelling. */
  lemma NormalizedExample()
    ensures Normalized("\U{9ad8}\U{7b49}\U{6570}\U{5b66}\U{2161}") == "\U{9ad8}\U{7b49}\U{6570}\U{5b66}II"
  {
  }
}
