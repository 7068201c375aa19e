/** The Python string operations the scanners rely on. */
module Text {
  import opened Wrappers

  /** `part` stands in `text` at position `i`. */
  predicate At(text: string, i: nat, part: string) {
    && i + |part| <= |text|
    && forall k {:trigger text[k]} :: i <= k < i + |part| ==> text[k] == part[k - i]
  }

  /** `text.find(pat, from)`: the first occurrence at or after `from`. */
  function Find(text: string, pat: string, from: nat): (r: Option<nat>)
    requires from <= |text|
    ensures r.Some? ==> from <= r.value && At(text, r.value, pat)
    ensures r.Some? ==> forall k: nat :: from <= k < r.value ==> !At(text, k, pat)
    ensures r.None? ==> forall k: nat :: from <= k ==> !At(text, k, pat)
    decreases |text| - from
  {
    if from + |pat| > |text| then None
    else if At(text, from, pat) then Some(from)
    else if from == |text| then None
    else Find(text, pat, from + 1)
  }

  /** `n` copies of one character. */
  function Repeat(c: char, n: nat): (s: string)
    ensures |s| == n && forall k :: 0 <= k < n ==> s[k] == c
  {
    seq(n, _ => c)
  }

  /** A string literal with this body. */
  function Quoted(body: string): string {
    "\"" + (body + "\"")
  }

  lemma AssociativeChain<T>(a: seq<T>, b: seq<T>, c: seq<T>, d: seq<T>, e: seq<T>)
    ensures a + (b + (c + (d + e))) == (a + b + c + d) + e
  {
  }

  lemma Associative<T>(a: seq<T>, b: seq<T>, c: seq<T>)
    ensures (a + b) + c == a + (b + c)
  {
  }

  lemma AtConcat(text: string, i: nat, a: string, b: string)
    ensures At(text, i, a + b) <==> At(text, i, a) && At(text, i + |a|, b)
  {
    var ab := a + b;
    if At(text, i, ab) {
      forall k | i <= k < i + |a| ensures text[k] == a[k - i] {
        assert text[k] == ab[k - i];
      }
      forall k | i + |a| <= k < i + |ab| ensures text[k] == b[k - i - |a|] {
        assert text[k] == ab[k - i];
      }
    }
  }

  lemma FirstAt(text: string, i: nat, part: string)
    requires At(text, i, part) && part != ""
    ensures i < |text| && text[i] == part[0] && i + |part| <= |text|
  {
  }

  /** `str.isspace` for one character. */
  predicate IsSpace(c: char) {
    || '\U{9}' <= c <= '\U{d}'
    || '\U{1c}' <= c <= ' '
    || c == '\U{85}' || c == '\U{a0}' || c == '\U{1680}'
    || '\U{2000}' <= c <= '\U{200a}'
    || c == '\U{2028}' || c == '\U{2029}' || c == '\U{202f}' || c == '\U{205f}' || c == '\U{3000}'
  }

  /** The characters Python counts as white space, one by one. */
  const WHITE_SPACE: set<char> :=
    {'\t', '\n', '\U{b}', '\U{c}', '\r', '\U{1c}', '\U{1d}', '\U{1e}', '\U{1f}', ' ', '\U{85}', '\U{a0}', '\U{1680}',
     '\U{2000}', '\U{2001}', '\U{2002}', '\U{2003}', '\U{2004}', '\U{2005}', '\U{2006}', '\U{2007}', '\U{2008}',
     '\U{2009}', '\U{200a}', '\U{2028}', '\U{2029}', '\U{202f}', '\U{205f}', '\U{3000}'}

  lemma SpacesAreWhiteSpace(c: char)
    ensures IsSpace(c) <==> c in WHITE_SPACE
  {
  }

  /** The first position at or after `i` that holds no white space. */
  function SkipSpaces(text: string, i: nat): (j: nat)
    requires i <= |text|
    ensures i <= j <= |text|
    ensures forall k :: i <= k < j ==> IsSpace(text[k])
    ensures j < |text| ==> !IsSpace(text[j])
    decreases |text| - i
  {
    if i < |text| && IsSpace(text[i]) then SkipSpaces(text, i + 1) else i
  }

  lemma SkipSpacesUnique(text: string, i: nat, j: nat)
    requires i <= j <= |text|
    requires forall k :: i <= k < j ==> IsSpace(text[k])
    requires j < |text| ==> !IsSpace(text[j])
    ensures SkipSpaces(text, i) == j
  {
  }

  /** Inside a literal: no bare delimiter, and no escape left open at the end. */
  ghost predicate WellEscaped(body: string, quote: char, escaped: bool) {
    if body == "" then !escaped
    else if escaped then WellEscaped(body[1..], quote, false)
    else if body[0] == '\\' then WellEscaped(body[1..], quote, true)
    else body[0] != quote && WellEscaped(body[1..], quote, false)
  }
}
