/** The Cargo dependency inventory (cli/ci/dependency_evidence.py). */
module CargoInventory {
  import opened Wrappers
  import opened Text
  import opened Ordering
  import opened Reachability
  import CargoLock

  // ---------------------------------------------------------------- syntax of names, versions, references

  predicate IsDigit(c: char) { '0' <= c <= '9' }

  predicate IsAlphanumeric(c: char) {
    IsDigit(c) || 'a' <= c <= 'z' || 'A' <= c <= 'Z'
  }

  predicate IsCrateChar(c: char) {
    IsAlphanumeric(c) || c == '_' || c == '-'
  }

  predicate ValidCrateName(name: string) {
    0 < |name| <= 256 && forall k :: 0 <= k < |name| ==> IsCrateChar(name[k])
  }

  function DigitsEnd(s: string, i: nat): (e: nat)
    requires i <= |s|
    ensures i <= e <= |s|
    decreases |s| - i
  {
    if i < |s| && IsDigit(s[i]) then DigitsEnd(s, i + 1) else i
  }

  predicate ValidVersion(v: string) {
    && |v| <= 128
    && var a := DigitsEnd(v, 0);
    && 0 < a < |v| && v[a] == '.'
    && var b := DigitsEnd(v, a + 1);
    && a + 1 < b < |v| && v[b] == '.'
    && var c := DigitsEnd(v, b + 1);
    && b + 1 < c
    && (c == |v| ||
        (c + 1 < |v| && v[c] in {'-', '+'} &&
         forall k :: c < k < |v| ==> IsAlphanumeric(v[k]) || v[k] in {'.', '-'}))
  }

  predicate ValidChecksum(s: string) {
    |s| == 64 && forall k :: 0 <= k < 64 ==> IsDigit(s[k]) || 'a' <= s[k] <= 'f'
  }

  const REGISTRY := "registry+https://"

  predicate ValidSource(s: string) {
    REGISTRY <= s && |s| <= 2048 && forall k :: 0 <= k < |s| ==> '\U{21}' <= s[k] <= '\U{7e}'
  }

  /** A dependency reference: a name and, when the name alone is ambiguous, a version. */
  datatype Reference = Reference(name: string, version: Option<string>)

  function CrateNameEnd(s: string, i: nat): (e: nat)
    requires i <= |s|
    ensures i <= e <= |s|
    decreases |s| - i
  {
    if i < |s| && IsCrateChar(s[i]) then CrateNameEnd(s, i + 1) else i
  }

  function WordEnd(s: string, i: nat): (e: nat)
    requires i <= |s|
    ensures i <= e <= |s|
    decreases |s| - i
  {
    if i < |s| && !IsSpace(s[i]) then WordEnd(s, i + 1) else i
  }

  /** White space and a parenthesized source fill the rest of the reference. */
  predicate SourceSuffix(s: string, i: nat)
    requires i <= |s|
  {
    var open := SkipSpaces(s, i);
    && i < open && open + 1 < |s| && s[open] == '(' && s[|s| - 1] == ')'
    && forall k :: open < k < |s| - 1 ==> s[k] != ')'
  }

  /** The reading of `name`, `name version`, `name (source)` or `name version (source)`. A version is tried first, so
      a source that follows the name may be taken for one: `SourceAloneIsRead` says when. */
  function ParseReference(s: string): Option<Reference> {
    var n := CrateNameEnd(s, 0);
    if n == 0 then None else
    if n == |s| then Some(Reference(s, None)) else
    var w := SkipSpaces(s, n);
    if w == n || w == |s| then None else
    var v := WordEnd(s, w);
    if v == |s| || SourceSuffix(s, v) then Some(Reference(s[..n], Some(s[w..v])))
    else if SourceSuffix(s, n) then Some(Reference(s[..n], None))
    else None
  }

  lemma {:induction false} CrateNameEndIs(s: string, i: nat, e: nat)
    requires i <= e <= |s| && (forall k :: i <= k < e ==> IsCrateChar(s[k])) && (e < |s| ==> !IsCrateChar(s[e]))
    ensures CrateNameEnd(s, i) == e
    decreases e - i
  {
    if i < e { CrateNameEndIs(s, i + 1, e); }
  }

  lemma {:induction false} WordEndIs(s: string, i: nat, e: nat)
    requires i <= e <= |s| && (forall k :: i <= k < e ==> !IsSpace(s[k])) && (e < |s| ==> IsSpace(s[e]))
    ensures WordEnd(s, i) == e
    decreases e - i
  {
    if i < e { WordEndIs(s, i + 1, e); }
  }

  ghost predicate IsWord(word: string) {
    word != "" && forall k :: 0 <= k < |word| ==> !IsSpace(word[k])
  }

  ghost predicate IsCrateName(name: string) {
    name != "" && forall k :: 0 <= k < |name| ==> IsCrateChar(name[k])
  }

  lemma SpaceIsSpace()
    ensures IsSpace(' ') && !IsSpace('(') && !IsCrateChar(' ')
  {
  }

  /** A name up to `n`, one space and a word up to `e`. */
  ghost predicate NameAndWord(text: string, n: nat, e: nat) {
    && 0 < n && n + 1 < e <= |text| && text[n] == ' '
    && (forall k :: 0 <= k < n ==> IsCrateChar(text[k]))
    && (forall k :: n + 1 <= k < e ==> !IsSpace(text[k]))
    && (e < |text| ==> text[e] == ' ')
  }

  lemma WordIsVersion(text: string, n: nat, e: nat)
    requires NameAndWord(text, n, e) && (e == |text| || SourceSuffix(text, e))
    ensures ParseReference(text) == Some(Reference(text[..n], Some(text[n + 1..e])))
  {
    hide IsSpace, IsCrateChar, SourceSuffix;
    assert IsSpace(' ') && !IsCrateChar(' ') by { SpaceIsSpace(); }
    CrateNameEndIs(text, 0, n);
    SkipSpacesUnique(text, n, n + 1);
    WordEndIs(text, n + 1, e);
  }

  lemma SpellsNameAndWord(name: string, word: string, rest: string)
    requires IsCrateName(name) && IsWord(word) && (rest == "" || rest[0] == ' ')
    ensures var text, n := name + " " + word + rest, |name|;
            && NameAndWord(text, n, n + 1 + |word|)
            && text[..n] == name && text[n + 1..n + 1 + |word|] == word
  {
    hide IsSpace, IsCrateChar;
    var text, n := name + " " + word + rest, |name|;
    assert text[n] == ' ';
    assert forall k :: n + 1 <= k < n + 1 + |word| ==> text[k] == word[k - n - 1];
  }

  lemma SuffixAt(text: string, v: nat, source: string)
    requires v <= |text| && At(text, v, " (" + source + ")") && |text| == v + |source| + 3
    requires forall k :: 0 <= k < |source| ==> source[k] != ')'
    ensures SourceSuffix(text, v)
  {
    hide IsSpace;
    assert IsSpace(' ') && !IsSpace('(') by { SpaceIsSpace(); }
    var part := " (" + source + ")";
    assert text[v] == part[0] && text[v + 1] == part[1] && text[|text| - 1] == part[|part| - 1];
    SkipSpacesUnique(text, v, v + 1);
    forall k | v + 1 < k < |text| - 1 ensures text[k] != ')' {
      assert text[k] == part[k - v] == source[k - v - 2];
    }
  }

  lemma WordReadsBack(name: string, word: string)
    requires IsCrateName(name) && IsWord(word)
    ensures ParseReference(name + " " + word + "") == Some(Reference(name, Some(word)))
  {
    hide ParseReference, NameAndWord, SourceSuffix, IsWord, IsCrateName;
    SpellsNameAndWord(name, word, "");
    WordIsVersion(name + " " + word + "", |name|, |name| + 1 + |word|);
  }

  lemma PartStands(before: string, rest: string)
    ensures At(before + rest, |before|, rest)
  {
  }

  lemma WordAndSourceReadBack(name: string, word: string, source: string)
    requires IsCrateName(name) && IsWord(word) && forall k :: 0 <= k < |source| ==> source[k] != ')'
    ensures ParseReference(name + " " + word + (" (" + source + ")")) == Some(Reference(name, Some(word)))
  {
    hide ParseReference, NameAndWord, SourceSuffix, IsWord, IsCrateName, At;
    var (before, rest) := (name + " " + word, " (" + source + ")");
    SpellsNameAndWord(name, word, rest);
    assert At(before + rest, |before|, rest) by { PartStands(before, rest); }
    SuffixAt(before + rest, |before|, source);
    WordIsVersion(before + rest, |name|, |before|);
  }

  lemma NameReadsBack(name: string)
    requires IsCrateName(name)
    ensures ParseReference(name) == Some(Reference(name, None))
  {
    CrateNameEndIs(name, 0, |name|);
  }

  /** A name alone, or with a version, is read as such, also with a source after them. */
  lemma ReferencesReadBack(name: string, word: string, source: string)
    requires IsCrateName(name) && IsWord(word) && forall k :: 0 <= k < |source| ==> source[k] != ')'
    ensures ParseReference(name) == Some(Reference(name, None))
    ensures ParseReference(name + " " + word + "") == Some(Reference(name, Some(word)))
    ensures ParseReference(name + " " + word + (" (" + source + ")")) == Some(Reference(name, Some(word)))
  {
    hide ParseReference, SourceSuffix, IsWord, IsCrateName;
    NameReadsBack(name);
    WordReadsBack(name, word);
    WordAndSourceReadBack(name, word, source);
  }

  lemma WordEndStops(s: string, i: nat)
    requires i <= |s|
    ensures var e := WordEnd(s, i);
            (forall k :: i <= k < e ==> !IsSpace(s[k])) && (e < |s| ==> IsSpace(s[e]))
    decreases |s| - i
  {
    if i < |s| && !IsSpace(s[i]) { WordEndStops(s, i + 1); }
  }

  /** `text` is a name up to `n`, a space, and `source` in parentheses. */
  ghost predicate NameAndSource(text: string, n: nat, source: string) {
    && 0 < n && |text| == n + |source| + 3 && text[n] == ' ' && text[n + 1] == '(' && text[|text| - 1] == ')'
    && (forall k :: 0 <= k < n ==> IsCrateChar(text[k]))
    && (forall k :: 0 <= k < |source| ==> text[n + 2 + k] == source[k])
  }

  lemma SpellsNameAndSource(name: string, source: string)
    requires IsCrateName(name)
    ensures NameAndSource(name + " (" + source + ")", |name|, source)
  {
    hide IsCrateChar;
  }

  lemma ParenthesesAreNoSpaces()
    ensures IsSpace(' ') && !IsSpace('(') && !IsSpace(')')
  {
  }

  /** Where the words of the parenthesized source end, seen from the whole reference. */
  lemma SourceWords(text: string, n: nat, source: string)
    requires NameAndSource(text, n, source)
    ensures var k, v := WordEnd(source, 0), WordEnd(text, n + 1);
            && SkipSpaces(text, n) == n + 1
            && v == (if k == |source| then |text| else n + 2 + k)
            && (k < |source| ==> SkipSpaces(text, v) == n + 2 + SkipSpaces(source, k))
  {
    hide IsSpace, IsCrateChar;
    assert IsSpace(' ') && !IsSpace('(') && !IsSpace(')') by { ParenthesesAreNoSpaces(); }
    SkipSpacesUnique(text, n, n + 1);
    WordEndStops(source, 0);
    var k := WordEnd(source, 0);
    forall m | n + 2 <= m < |text| - 1 ensures text[m] == source[m - n - 2] {
      assert text[n + 2 + (m - n - 2)] == source[m - n - 2];
    }
    if k == |source| {
      WordEndIs(text, n + 1, |text|);
    } else {
      WordEndIs(text, n + 1, n + 2 + k);
      SkipSpacesUnique(text, n + 2 + k, n + 2 + SkipSpaces(source, k));
    }
  }

  lemma SuffixOf(text: string, n: nat, source: string, i: nat)
    requires NameAndSource(text, n, source) && (forall k :: 0 <= k < |source| ==> source[k] != ')')
    requires n <= i <= |text| && i < SkipSpaces(text, i) < |text|
    ensures SourceSuffix(text, i) <==> text[SkipSpaces(text, i)] == '('
  {
    hide IsSpace, IsCrateChar, SkipSpaces;
    forall m | n + 2 <= m < |text| - 1 ensures text[m] != ')' {
      assert text[n + 2 + (m - n - 2)] == source[m - n - 2];
    }
  }

  lemma SourceAfterSpace(text: string, n: nat, source: string)
    requires NameAndSource(text, n, source) && WordEnd(source, 0) < |source|
    ensures var k := WordEnd(source, 0);
            var j := SkipSpaces(source, k);
            k < j <= |source| && text[n + 2 + j] == if j < |source| then source[j] else ')'
  {
    hide IsSpace, IsCrateChar;
    WordEndStops(source, 0);
  }

  /** Up to where the word that is tried for a version reaches, and whether a source can follow it. */
  lemma SourceTaken(text: string, n: nat, source: string)
    requires NameAndSource(text, n, source) && forall k :: 0 <= k < |source| ==> source[k] != ')'
    ensures var k, v := WordEnd(source, 0), WordEnd(text, n + 1);
            var j := SkipSpaces(source, k);
            && SkipSpaces(text, n) == n + 1
            && v == (if k == |source| then |text| else n + 2 + k)
            && (k < |source| ==> (SourceSuffix(text, v) <==> j < |source| && source[j] == '('))
  {
    hide SkipSpaces, WordEnd, SourceSuffix, IsSpace, IsCrateChar;
    SourceWords(text, n, source);
    if WordEnd(source, 0) < |source| {
      SourceAfterSpace(text, n, source);
      SuffixOf(text, n, source, n + 2 + WordEnd(source, 0));
    }
  }

  lemma ParsedFrom(text: string, n: nat, source: string)
    requires NameAndSource(text, n, source) && (forall k :: 0 <= k < |source| ==> source[k] != ')')
    requires SkipSpaces(text, n) == n + 1
    ensures n + 1 < |text|
    ensures var v := WordEnd(text, n + 1);
            ParseReference(text) ==
            Some(Reference(text[..n], if v == |text| || SourceSuffix(text, v) then Some(text[n + 1..v]) else None))
  {
    hide IsSpace, IsCrateChar, SkipSpaces, SourceSuffix, WordEnd;
    assert CrateNameEnd(text, 0) == n by { SpaceIsSpace(); CrateNameEndIs(text, 0, n); }
    SuffixOf(text, n, source, n);
  }

  lemma ReadFromText(text: string, name: string, source: string)
    requires NameAndSource(text, |name|, source) && forall k :: 0 <= k < |source| ==> source[k] != ')'
    requires |name| + 2 + WordEnd(source, 0) <= |text| && text[..|name|] == name
    requires text[|name| + 1..] == "(" + source + ")"
    requires text[|name| + 1..|name| + 2 + WordEnd(source, 0)] == "(" + source[..WordEnd(source, 0)]
    ensures var k := WordEnd(source, 0);
            var j := SkipSpaces(source, k);
            ParseReference(text) ==
            Some(Reference(name,
              if k == |source| then Some("(" + source + ")")
              else if j < |source| && source[j] == '(' then Some("(" + source[..k])
              else None))
  {
    hide ParseReference, NameAndSource, SkipSpaces, WordEnd, SourceSuffix;
    SourceTaken(text, |name|, source);
    ParsedFrom(text, |name|, source);
    assert text[|name| + 1..|text|] == text[|name| + 1..];
  }

  lemma SourceParts(name: string, source: string, k: nat)
    requires k <= |source|
    ensures var text, n := name + " (" + source + ")", |name|;
            && text[..n] == name && text[n + 1..] == "(" + source + ")" && text[n + 1..n + 2 + k] == "(" + source[..k]
  {
  }

  /** The exact reading of a name with a source alone. It is read as a name without version exactly when the source
      holds white space and what follows its first white space does not open a parenthesis; otherwise the parenthesis
      and the source up to its first white space are taken for the version. */
  lemma SourceAloneIsRead(name: string, source: string)
    requires IsCrateName(name) && forall k :: 0 <= k < |source| ==> source[k] != ')'
    ensures var k := WordEnd(source, 0);
            var j := SkipSpaces(source, k);
            ParseReference(name + " (" + source + ")") ==
            Some(Reference(name,
              if k == |source| then Some("(" + source + ")")
              else if j < |source| && source[j] == '(' then Some("(" + source[..k])
              else None))
  {
    hide ParseReference, NameAndSource, SkipSpaces, WordEnd, IsCrateName;
    SpellsNameAndSource(name, source);
    SourceParts(name, source, WordEnd(source, 0));
    ReadFromText(name + " (" + source + ")", name, source);
  }

  lemma ReadAs(text: string, source: string, k: nat, j: nat)
    requires text == "n (" + source + ")" && k <= j <= |source| && forall m :: 0 <= m < |source| ==> source[m] != ')'
    requires (forall m :: 0 <= m < k ==> !IsSpace(source[m])) && (forall m :: k <= m < j ==> IsSpace(source[m]))
    requires (k < |source| ==> IsSpace(source[k])) && (j < |source| ==> !IsSpace(source[j]))
    ensures ParseReference(text) ==
            Some(Reference("n",
              if k == |source| then Some("(" + source + ")")
              else if j < |source| && source[j] == '(' then Some("(" + source[..k])
              else None))
  {
    hide ParseReference;
    WordEndIs(source, 0, k);
    SkipSpacesUnique(source, k, j);
    SourceAloneIsRead("n", source);
    assert text == "n" + " (" + source + ")";
  }

  /** A source without white space is taken for a version, and so is the first word of one whose second word opens a
      parenthesis. */
  lemma SourcesTakenForVersions()
    ensures ParseReference("n (a)") == Some(Reference("n", Some("(a)")))
    ensures ParseReference("n (a (b)") == Some(Reference("n", Some("(a")))
    ensures ParseReference("n (a b)") == Some(Reference("n", None))
  {
    hide ParseReference;
    ReadAs("n (a)", "a", 1, 1);
    ReadAs("n (a (b)", "a (b", 1, 2);
    ReadAs("n (a b)", "a b", 1, 2);
    assert "(" + "a" + ")" == "(a)" && "(" + "a (b"[..1] == "(a";
  }

  // ---------------------------------------------------------------- the pattern of references

  /** From `i` on, white space and a source in parentheses that opens at `open`. */
  ghost predicate SourceFrom(s: string, i: nat, open: nat) {
    && i < open && open + 1 < |s| && s[open] == '(' && s[|s| - 1] == ')'
    && (forall k :: i <= k < open ==> IsSpace(s[k]))
    && forall k :: open < k < |s| - 1 ==> s[k] != ')'
  }

  /** A name up to `n`. */
  ghost predicate NameTo(s: string, n: nat) {
    0 < n <= |s| && (forall k :: 0 <= k < n ==> IsCrateChar(s[k])) && (n < |s| ==> IsSpace(s[n]))
  }

  /** A name up to `n`, white space up to `w`, and a version up to `v`, perhaps with a source after it. */
  ghost predicate NameAndVersion(s: string, n: nat, w: nat, v: nat) {
    && NameTo(s, n) && n < w < v <= |s|
    && (forall k :: n <= k < w ==> IsSpace(s[k])) && (forall k :: w <= k < v ==> !IsSpace(s[k]))
    && (v == |s| || exists open: nat :: SourceFrom(s, v, open))
  }

  ghost predicate NameOnly(s: string, n: nat) {
    NameTo(s, n) && (n == |s| || exists open: nat :: SourceFrom(s, n, open))
  }

  lemma SourceFromIsSuffix(s: string, i: nat)
    requires i <= |s|
    ensures SourceSuffix(s, i) <==> exists open: nat :: SourceFrom(s, i, open)
  {
    hide IsSpace;
    assert !IsSpace('(') by { SpaceIsSpace(); }
    if open: nat :| SourceFrom(s, i, open) {
      SkipSpacesUnique(s, i, open);
    }
    if SourceSuffix(s, i) {
      assert SourceFrom(s, i, SkipSpaces(s, i));
    }
  }

  lemma NoCrateSpace(c: char)
    ensures !(IsSpace(c) && IsCrateChar(c))
  {
  }

  lemma {:induction false} NameEnds(s: string, i: nat)
    requires i <= |s|
    ensures var n := CrateNameEnd(s, i);
            (forall k :: i <= k < n ==> IsCrateChar(s[k])) && (n < |s| ==> !IsCrateChar(s[n]))
    decreases |s| - i
  {
    if i < |s| && IsCrateChar(s[i]) { NameEnds(s, i + 1); }
  }

  lemma SourceStartsWithSpace(s: string, i: nat)
    requires i < |s| && exists open: nat :: SourceFrom(s, i, open)
    ensures IsSpace(s[i])
  {
    hide IsSpace;
  }

  lemma VersionFormIsRead(s: string, n: nat, w: nat, v: nat)
    requires NameAndVersion(s, n, w, v)
    ensures ParseReference(s) == Some(Reference(s[..n], Some(s[w..v])))
  {
    hide IsSpace, IsCrateChar, SourceSuffix, SourceFrom;
    NoCrateSpace(s[n]);
    CrateNameEndIs(s, 0, n);
    SkipSpacesUnique(s, n, w);
    SourceFromIsSuffix(s, v);
    assert v < |s| ==> IsSpace(s[v]) by { if v < |s| { SourceStartsWithSpace(s, v); } }
    WordEndIs(s, w, v);
  }

  lemma NameFormIsRead(s: string, n: nat)
    requires NameOnly(s, n) && forall w: nat, v: nat :: !NameAndVersion(s, n, w, v)
    ensures ParseReference(s) == Some(Reference(s[..n], None))
  {
    hide IsSpace, IsCrateChar, SourceFrom;
    if n < |s| { NoCrateSpace(s[n]); }
    CrateNameEndIs(s, 0, n);
    assert s[..|s|] == s;
    if n < |s| {
      SourceFromIsSuffix(s, n);
      var w := SkipSpaces(s, n);
      WordEndStops(s, w);
      var v := WordEnd(s, w);
      SourceFromIsSuffix(s, v);
      assert !NameAndVersion(s, n, w, v);
      assert v > w;
    }
  }

  lemma ReadIsThePattern(s: string, r: Reference)
    requires ParseReference(s) == Some(r)
    ensures
      || (exists n: nat, w: nat, v: nat :: NameAndVersion(s, n, w, v) && r == Reference(s[..n], Some(s[w..v])))
      || (exists n: nat :: NameOnly(s, n) && r == Reference(s[..n], None)
                           && forall w: nat, v: nat :: !NameAndVersion(s, n, w, v))
  {
    hide IsSpace, IsCrateChar, SourceFrom, SourceSuffix;
    NameEnds(s, 0);
    var n := CrateNameEnd(s, 0);
    assert s[..|s|] == s;
    if n == |s| {
      assert NameOnly(s, n);
    } else {
      var w := SkipSpaces(s, n);
      WordEndStops(s, w);
      var v := WordEnd(s, w);
      SourceFromIsSuffix(s, v);
      SourceFromIsSuffix(s, n);
      assert NameTo(s, n);
      if v == |s| || SourceSuffix(s, v) {
        assert NameAndVersion(s, n, w, v);
      } else {
        assert NameOnly(s, n);
        forall w': nat, v': nat ensures !NameAndVersion(s, n, w', v') {
          if NameAndVersion(s, n, w', v') {
            VersionFormIsRead(s, n, w', v');
            assert false;
          }
        }
      }
    }
  }

  /** The reading of any text: the pattern's name and version, where a version is preferred to a source, or none. */
  lemma ReadsThePattern(s: string, r: Reference)
    ensures ParseReference(s) == Some(r) <==>
            || (exists n: nat, w: nat, v: nat :: NameAndVersion(s, n, w, v) && r == Reference(s[..n], Some(s[w..v])))
            || (exists n: nat :: NameOnly(s, n) && r == Reference(s[..n], None)
                                 && forall w: nat, v: nat :: !NameAndVersion(s, n, w, v))
  {
    hide IsSpace, IsCrateChar, SourceFrom, SourceSuffix;
    if n: nat, w: nat, v: nat :| NameAndVersion(s, n, w, v) && r == Reference(s[..n], Some(s[w..v])) {
      VersionFormIsRead(s, n, w, v);
    }
    if n: nat :| NameOnly(s, n) && r == Reference(s[..n], None) && forall w: nat, v: nat :: !NameAndVersion(s, n, w, v) {
      NameFormIsRead(s, n);
    }
    if ParseReference(s) == Some(r) {
      ReadIsThePattern(s, r);
    }
  }

  // ---------------------------------------------------------------- packages

  /** One package table of the lock file; an absent name or version is the empty string. */
  datatype RawPackage = RawPackage(name: string, version: string, source: Option<string>,
                                   checksum: Option<string>, dependencies: seq<string>)

  /** The same without the order and repetition of its dependency array. */
  datatype Package = Package(name: string, version: string, source: Option<string>,
                             checksum: Option<string>, dependencies: set<string>)

  datatype Key = Key(name: string, version: string, source: Option<string>)

  datatype Record = Record(name: string, version: string, source: string,
                           checksum: Option<string>, scopes: set<string>)

  datatype Failure =
    | Oversize | Malformed | UnsafeName | MalformedVersion | MissingIntegrity | UnsupportedSource
    | Duplicate | ManifestMismatch | Unresolved | Unreachable

  function Canonical(raw: RawPackage): Package {
    Package(raw.name, raw.version, raw.source, raw.checksum, set d | d in raw.dependencies)
  }

  function KeyOf(p: Package): Key {
    Key(p.name, p.version, p.source)
  }

  predicate PackageOk(p: Package, locals: map<string, string>) {
    && ValidCrateName(p.name) && ValidVersion(p.version)
    && match p.source
       case None => p.name in locals && locals[p.name] == p.version && p.checksum.None?
       case Some(source) => ValidSource(source) && p.checksum.Some? && ValidChecksum(p.checksum.value)
  }

  function NormalizedSource(source: Option<string>, localScope: string): string {
    match source
    case Some(s) => s
    case None => if localScope == "workspace" then "workspace" else "component-local"
  }

  // ---------------------------------------------------------------- resolution

  predicate Matches(k: Key, r: Reference) {
    k.name == r.name && (r.version.Some? ==> k.version == r.version.value)
  }

  /** The reference reads as one that exactly `k` matches. */
  ghost predicate ResolvesTo(keys: set<Key>, reference: string, k: Key) {
    var r := ParseReference(reference);
    r.Some? && k in keys && Matches(k, r.value) && forall other :: other in keys && Matches(other, r.value) ==> other == k
  }

  ghost predicate Resolves(keys: set<Key>, reference: string) {
    exists k :: ResolvesTo(keys, reference, k)
  }

  /** `by_name`: for each name its versions and sources, in lock-file order. */
  type NameIndex = map<string, seq<(string, Option<string>)>>

  function Listed(byName: NameIndex, name: string): seq<(string, Option<string>)> {
    if name in byName then byName[name] else []
  }

  ghost predicate IndexesName(listed: seq<(string, Option<string>)>, name: string, keys: set<Key>) {
    && (forall i :: 0 <= i < |listed| ==> Key(name, listed[i].0, listed[i].1) in keys)
    && (forall k :: k in keys && k.name == name ==> (k.version, k.source) in listed)
    && (forall i, j :: 0 <= i < j < |listed| ==> listed[i] != listed[j])
  }

  ghost predicate Indexes(byName: NameIndex, keys: set<Key>) {
    forall name :: IndexesName(Listed(byName, name), name, keys)
  }

  function WithVersion(listed: seq<(string, Option<string>)>, version: string): (r: seq<(string, Option<string>)>)
    ensures forall c :: c in r <==> c in listed && c.0 == version
    ensures (forall i, j :: 0 <= i < j < |listed| ==> listed[i] != listed[j]) ==>
              forall i, j :: 0 <= i < j < |r| ==> r[i] != r[j]
  {
    if listed == [] then [] else
    var rest := WithVersion(listed[1..], version);
    assert listed == [listed[0]] + listed[1..];
    if listed[0].0 == version then [listed[0]] + rest else rest
  }

  method ResolveCargoDependency(reference: string, byName: NameIndex, keys: set<Key>)
    returns (r: Result<Key, Failure>)
    requires Indexes(byName, keys)
    ensures r.Ok? ==> ResolvesTo(keys, reference, r.value)
    ensures r.Err? ==> !Resolves(keys, reference)
  {
    var parsed := ParseReference(reference);
    if parsed.None? {
      return Err(Malformed);
    }
    var name, version := parsed.value.name, parsed.value.version;
    var candidates := Listed(byName, name);
    assert IndexesName(candidates, name, keys);
    if version.Some? {
      candidates := WithVersion(candidates, version.value);
    }
    assert forall k :: k in keys && Matches(k, parsed.value) ==> (k.version, k.source) in candidates;
    assert forall c :: c in candidates ==> Key(name, c.0, c.1) in keys && Matches(Key(name, c.0, c.1), parsed.value);
    if |candidates| != 1 {
      if |candidates| > 1 {
        var a, b := candidates[0], candidates[1];
        assert a in candidates && b in candidates && a != b;
        assert Key(name, a.0, a.1) != Key(name, b.0, b.1);
      }
      return Err(Unresolved);
    }
    var key := Key(name, candidates[0].0, candidates[0].1);
    assert candidates[0] in candidates;
    if key !in keys {
      assert false;
      return Err(Unresolved);
    }
    return Ok(key);
  }

  // ---------------------------------------------------------------- what the inventory is

  function CanonicalAll(raws: seq<RawPackage>): (ps: seq<Package>)
    ensures |ps| == |raws| && forall i :: 0 <= i < |ps| ==> ps[i] == Canonical(raws[i])
  {
    seq(|raws|, i requires 0 <= i < |raws| => Canonical(raws[i]))
  }

  /** No two packages share an identity. */
  ghost predicate WellKeyed(ps: multiset<Package>) {
    && (forall p :: p in ps ==> ps[p] == 1)
    && (forall p, q :: p in ps && q in ps && KeyOf(p) == KeyOf(q) ==> p == q)
  }

  ghost function Entries(ps: multiset<Package>): (m: map<Key, Package>)
    requires WellKeyed(ps)
    ensures forall k :: k in m ==> m[k] in ps && KeyOf(m[k]) == k
    ensures forall p :: p in ps ==> KeyOf(p) in m && m[KeyOf(p)] == p
  {
    map p | p in ps :: KeyOf(p) := p
  }

  ghost predicate Admitted(ps: multiset<Package>, locals: map<string, string>) {
    && |ps| <= CargoLock.MAX_PACKAGES
    && (forall p :: p in ps ==> PackageOk(p, locals))
    && WellKeyed(ps)
  }

  /** Each local package is in the lock file under its own version and nothing else has its name. */
  ghost predicate LocalsPresent(keys: set<Key>, locals: map<string, string>) {
    forall name :: name in locals ==>
      Key(name, locals[name], None) in keys && forall k :: k in keys && k.name == name ==> k == Key(name, locals[name], None)
  }

  /** Lock dependencies as edges, direct dependencies as roots. */
  ghost function GraphOf(m: map<Key, Package>, direct: set<(string, string)>): Graph<Key> {
    Graph(set k, d | d in direct && k in m.Keys && ResolvesTo(m.Keys, d.0, k) :: (k, d.1),
          map k | k in m :: set t, reference | reference in m[k].dependencies && t in m.Keys && ResolvesTo(m.Keys, reference, t) :: t)
  }

  ghost function ScopesOf(m: map<Key, Package>, direct: set<(string, string)>, localScope: string, k: Key): set<string> {
    (if k.source.None? then {localScope} else {}) +
    set d | d in direct && Reachable(GraphOf(m, direct), (k, d.1)) :: d.1
  }

  ghost function RecordOf(m: map<Key, Package>, direct: set<(string, string)>, localScope: string, k: Key): Record
    requires k in m
  {
    Record(k.name, k.version, NormalizedSource(k.source, localScope), m[k].checksum,
           ScopesOf(m, direct, localScope, k))
  }

  ghost predicate AllResolve(m: map<Key, Package>, direct: set<(string, string)>) {
    && (forall d :: d in direct ==> Resolves(m.Keys, d.0))
    && forall k, s, reference {:trigger Resolves(m.Keys, reference), Reachable(GraphOf(m, direct), (k, s))} ::
         Reachable(GraphOf(m, direct), (k, s)) && k in m && reference in m[k].dependencies ==> Resolves(m.Keys, reference)
  }

  ghost predicate Succeeds(ps: multiset<Package>, locals: map<string, string>, direct: set<(string, string)>,
                           localScope: string) {
    && Admitted(ps, locals)
    && var m := Entries(ps);
    && LocalsPresent(m.Keys, locals) && AllResolve(m, direct)
    && forall k :: k in m ==> ScopesOf(m, direct, localScope, k) != {}
  }

  function RecordKey(r: Record): seq<string> {
    [r.name, r.version, r.source]
  }

  /** The inventory of a set of packages: when there is one, and which. */
  ghost predicate Describes(ps: multiset<Package>, locals: map<string, string>, direct: set<(string, string)>,
                            localScope: string, r: Result<seq<Record>, Failure>) {
    && (r.Ok? <==> Succeeds(ps, locals, direct, localScope))
    && (r.Ok? ==>
          && Ascending(r.value, RecordKey)
          && var m := Entries(ps);
             forall record :: record in r.value <==> exists k :: k in m && record == RecordOf(m, direct, localScope, k))
  }

  // ---------------------------------------------------------------- reading the lock packages

  lemma DistinctIsWellKeyed(ps: seq<Package>)
    requires forall i, j :: 0 <= i < j < |ps| ==> KeyOf(ps[i]) != KeyOf(ps[j])
    ensures WellKeyed(multiset(ps))
  {
    forall p | p in multiset(ps) ensures multiset(ps)[p] == 1 {
      if multiset(ps)[p] >= 2 {
        TwoPositions(ps, p);
      }
    }
    forall p, q | p in multiset(ps) && q in multiset(ps) && KeyOf(p) == KeyOf(q) ensures p == q {
      var i :| 0 <= i < |ps| && ps[i] == p;
      var j :| 0 <= j < |ps| && ps[j] == q;
      assert i == j || i < j || j < i;
    }
  }

  lemma RepeatedIsNotWellKeyed(ps: seq<Package>, i: nat, j: nat)
    requires i < j < |ps| && KeyOf(ps[i]) == KeyOf(ps[j])
    ensures !WellKeyed(multiset(ps))
  {
    assert ps[i] in multiset(ps) && ps[j] in multiset(ps);
    if ps[i] == ps[j] {
      OccursTwice(ps, i, j);
    }
  }

  datatype Entry = Entry(raw: RawPackage, scopes: set<string>)

  ghost predicate Mirrors(packages: map<Key, Entry>, m: map<Key, Package>) {
    packages.Keys == m.Keys && forall k :: k in m ==> Canonical(packages[k].raw) == m[k]
  }

  lemma IndexGrows(byName: NameIndex, keys: set<Key>, key: Key)
    requires Indexes(byName, keys) && key !in keys
    ensures Indexes(byName[key.name := Listed(byName, key.name) + [(key.version, key.source)]], keys + {key})
  {
    var grown := byName[key.name := Listed(byName, key.name) + [(key.version, key.source)]];
    forall name ensures IndexesName(Listed(grown, name), name, keys + {key}) {
      var listed := Listed(byName, name);
      assert IndexesName(listed, name, keys);
      if name == key.name {
        var longer := listed + [(key.version, key.source)];
        assert Listed(grown, name) == longer;
        forall k | k in keys + {key} && k.name == name ensures (k.version, k.source) in longer {
          if k == key { assert longer[|listed|] == (k.version, k.source); }
        }
      }
    }
  }

  method RejectPackage(raw: RawPackage, locals: map<string, string>) returns (r: Option<Failure>)
    ensures r.None? <==> PackageOk(Canonical(raw), locals)
  {
    if raw.name == "" || raw.version == "" {
      return Some(Malformed);
    }
    if !ValidCrateName(raw.name) {
      return Some(UnsafeName);
    }
    if !ValidVersion(raw.version) {
      return Some(MalformedVersion);
    }
    if raw.source.None? {
      if !(raw.name in locals && locals[raw.name] == raw.version) || raw.checksum.Some? {
        return Some(MissingIntegrity);
      }
    } else {
      if !ValidSource(raw.source.value) {
        return Some(UnsupportedSource);
      }
      if raw.checksum.None? || !ValidChecksum(raw.checksum.value) {
        return Some(MissingIntegrity);
      }
    }
    return None;
  }

  lemma NothingIndexed()
    ensures Indexes(map[], {})
  {
  }

  /** The dictionaries after the first `i` lock packages. */
  ghost predicate ReadSoFar(raws: seq<RawPackage>, i: nat, order: seq<Key>, packages: map<Key, Entry>) {
    && i == |order| <= |raws|
    && (forall j :: 0 <= j < i ==> order[j] == KeyOf(Canonical(raws[j])) && order[j] in packages
                                   && packages[order[j]] == Entry(raws[j], {}))
    && (forall k :: k in order <==> k in packages)
    && (forall a, b :: 0 <= a < b < i ==> order[a] != order[b])
  }

  lemma ReadOneMore(raws: seq<RawPackage>, i: nat, order: seq<Key>, packages: map<Key, Entry>)
    requires ReadSoFar(raws, i, order, packages) && i < |raws|
    requires KeyOf(Canonical(raws[i])) !in packages
    ensures var key := KeyOf(Canonical(raws[i]));
            ReadSoFar(raws, i + 1, order + [key], packages[key := Entry(raws[i], {})])
  {
    var key := KeyOf(Canonical(raws[i]));
    var longer := order + [key];
    forall k | k in longer ensures k in packages || k == key {
      assert k in order || k == key;
    }
    forall k | k in packages || k == key ensures k in longer {
      if k != key { assert k in order; } else { assert longer[i] == key; }
    }
  }

  lemma ReadTwice(raws: seq<RawPackage>, i: nat, order: seq<Key>, packages: map<Key, Entry>)
    requires ReadSoFar(raws, i, order, packages) && i < |raws| && KeyOf(Canonical(raws[i])) in packages
    ensures !WellKeyed(multiset(CanonicalAll(raws)))
  {
    var j :| 0 <= j < i && order[j] == KeyOf(Canonical(raws[i]));
    RepeatedIsNotWellKeyed(CanonicalAll(raws), j, i);
  }

  lemma KeyOfRaw(raw: RawPackage)
    ensures KeyOf(Canonical(raw)) == Key(raw.name, raw.version, raw.source)
  {
  }

  lemma NothingRead(raws: seq<RawPackage>)
    ensures ReadSoFar(raws, 0, [], map[])
  {
  }

  lemma ReadAreKeyed(raws: seq<RawPackage>, order: seq<Key>, packages: map<Key, Entry>)
    requires ReadSoFar(raws, |raws|, order, packages)
    ensures WellKeyed(multiset(CanonicalAll(raws)))
  {
    var all := CanonicalAll(raws);
    forall i, j | 0 <= i < j < |all| ensures KeyOf(all[i]) != KeyOf(all[j]) {
      assert order[i] != order[j];
    }
    DistinctIsWellKeyed(all);
  }

  lemma AllRead(raws: seq<RawPackage>, order: seq<Key>, packages: map<Key, Entry>)
    requires ReadSoFar(raws, |raws|, order, packages) && WellKeyed(multiset(CanonicalAll(raws)))
    ensures Mirrors(packages, Entries(multiset(CanonicalAll(raws))))
  {
    hide WellKeyed, Entries, KeyOf, Canonical;
    var all := CanonicalAll(raws);
    var m := Entries(multiset(all));
    forall k | k in packages ensures k in m && Canonical(packages[k].raw) == m[k] {
      var j :| 0 <= j < |order| && order[j] == k;
      assert all[j] in multiset(all);
    }
    forall k | k in m ensures k in packages {
      assert m[k] in all;
      var j :| 0 <= j < |all| && all[j] == m[k];
      assert order[j] == k;
    }
  }

  method ReadPackages(raws: seq<RawPackage>, locals: map<string, string>)
    returns (r: Result<(seq<Key>, map<Key, Entry>, NameIndex), Failure>)
    ensures r.Ok? <==> Admitted(multiset(CanonicalAll(raws)), locals)
    ensures r.Ok? ==>
              var (order, packages, byName) := r.value;
              && Mirrors(packages, Entries(multiset(CanonicalAll(raws))))
              && Indexes(byName, packages.Keys)
              && ReadSoFar(raws, |raws|, order, packages)
  {
    hide PackageOk, Indexes, WellKeyed, ReadSoFar, Mirrors, Canonical;
    ghost var all := CanonicalAll(raws);
    assert |multiset(all)| == |all|;
    if |raws| > CargoLock.MAX_PACKAGES {
      return Err(Oversize);
    }
    var order: seq<Key> := [];
    var packages: map<Key, Entry> := map[];
    var byName: NameIndex := map[];
    assert packages.Keys == {};
    NothingIndexed();
    NothingRead(raws);
    for i := 0 to |raws|
      invariant ReadSoFar(raws, i, order, packages)
      invariant forall j :: 0 <= j < i ==> PackageOk(all[j], locals)
      invariant Indexes(byName, packages.Keys)
    {
      var raw := raws[i];
      assert all[i] in multiset(all);
      var rejected := RejectPackage(raw, locals);
      if rejected.Some? {
        return Err(rejected.value);
      }
      var key := Key(raw.name, raw.version, raw.source);
      KeyOfRaw(raw);
      if key in packages {
        ReadTwice(raws, i, order, packages);
        return Err(Duplicate);
      }
      IndexGrows(byName, packages.Keys, key);
      ReadOneMore(raws, i, order, packages);
      assert (packages[key := Entry(raw, {})]).Keys == packages.Keys + {key};
      packages := packages[key := Entry(raw, {})];
      byName := byName[key.name := Listed(byName, key.name) + [(key.version, key.source)]];
      order := order + [key];
    }
    ReadAreKeyed(raws, order, packages);
    AllRead(raws, order, packages);
    return Ok((order, packages, byName));
  }

  // ---------------------------------------------------------------- the worklist

  /** The scopes of a package after the visited states are recorded. */
  ghost predicate Recorded(before: map<Key, Entry>, now: map<Key, Entry>, seen: set<(Key, string)>) {
    && now.Keys == before.Keys
    && forall k :: k in now ==>
         now[k].raw == before[k].raw && forall s :: s in now[k].scopes <==> s in before[k].scopes || (k, s) in seen
  }

  /** `target` resolves a dependency array for one scope: every target is scheduled. */
  ghost predicate Targets(keys: set<Key>, references: seq<string>, scope: string, scheduled: set<(Key, string)>) {
    && (forall j :: 0 <= j < |references| ==> Resolves(keys, references[j]))
    && forall j, k :: 0 <= j < |references| && ResolvesTo(keys, references[j], k) ==> (k, scope) in scheduled
  }

  lemma TargetsGrow(keys: set<Key>, references: seq<string>, scope: string, scheduled: set<(Key, string)>,
                    reference: string, target: Key)
    requires Targets(keys, references, scope, scheduled) && ResolvesTo(keys, reference, target)
    ensures Targets(keys, references + [reference], scope, scheduled + {(target, scope)})
  {
  }

  /** The states a run over these packages can have. */
  ghost function Universe(m: map<Key, Package>, direct: set<(string, string)>): set<(Key, string)> {
    set k, d | k in m.Keys && d in direct :: (k, d.1)
  }

  lemma TargetIsEdge(m: map<Key, Package>, direct: set<(string, string)>, key: Key, reference: string, target: Key)
    requires key in m && reference in m[key].dependencies && ResolvesTo(m.Keys, reference, target)
    ensures var g := GraphOf(m, direct); key in g.succ && target in g.succ[key]
  {
  }

  lemma TargetsAreSuccessors(m: map<Key, Package>, direct: set<(string, string)>, key: Key, references: seq<string>,
                             scope: string, scheduled: set<(Key, string)>)
    requires key in m && m[key].dependencies == set d | d in references
    requires Targets(m.Keys, references, scope, scheduled)
    ensures var g := GraphOf(m, direct); key in g.succ && forall t :: t in g.succ[key] ==> (t, scope) in scheduled
  {
  }

  lemma NoTargets(keys: set<Key>, scope: string, scheduled: set<(Key, string)>)
    ensures Targets(keys, [], scope, scheduled)
  {
  }

  lemma ResolvedIsKey(keys: set<Key>, reference: string, k: Key)
    requires ResolvesTo(keys, reference, k)
    ensures k in keys && Resolves(keys, reference)
  {
  }

  method ScheduleDependencies(references: seq<string>, scope: string, byName: NameIndex, keys: set<Key>,
                              scheduled0: set<(Key, string)>, queue0: seq<(Key, string)>,
                              ghost seen: set<(Key, string)>, ghost m: map<Key, Package>,
                              ghost direct: set<(string, string)>, ghost key: Key)
    returns (r: Result<(set<(Key, string)>, seq<(Key, string)>), Failure>)
    requires keys == m.Keys && Indexes(byName, keys) && key in m && m[key].dependencies == set d | d in references
    requires InProgress(GraphOf(m, direct), scheduled0, seen, queue0) && scheduled0 <= Universe(m, direct)
    requires Reachable(GraphOf(m, direct), (key, scope)) && (key, scope) in scheduled0
    ensures r.Err? ==> exists reference :: reference in m[key].dependencies && !Resolves(m.Keys, reference)
    ensures r.Ok? ==>
              && InProgress(GraphOf(m, direct), r.value.0, seen, r.value.1)
              && scheduled0 <= r.value.0 <= Universe(m, direct)
              && Targets(m.Keys, references, scope, r.value.0)
  {
    hide Indexes, InProgress, GraphOf, Reachable, ResolvesTo, Resolves, Targets;
    ghost var g := GraphOf(m, direct);
    var queue, scheduled := queue0, scheduled0;
    NoTargets(m.Keys, scope, scheduled);
    for i := 0 to |references|
      invariant InProgress(g, scheduled, seen, queue)
      invariant scheduled0 <= scheduled <= Universe(m, direct)
      invariant Targets(m.Keys, references[..i], scope, scheduled)
    {
      assert references[i] in m[key].dependencies;
      var resolved := ResolveCargoDependency(references[i], byName, keys);
      if resolved.Err? {
        return Err(resolved.error);
      }
      var state := (resolved.value, scope);
      TargetIsEdge(m, direct, key, references[i], resolved.value);
      EdgeReachable(g, key, scope, resolved.value);
      ResolvedIsKey(m.Keys, references[i], resolved.value);
      TargetsGrow(m.Keys, references[..i], scope, scheduled, references[i], resolved.value);
      assert references[..i + 1] == references[..i] + [references[i]];
      if state !in scheduled {
        Scheduling(g, scheduled, seen, queue, state);
        scheduled := scheduled + {state};
        queue := queue + [state];
      } else {
        assert scheduled + {state} == scheduled;
      }
    }
    assert references[..|references|] == references;
    return Ok((scheduled, queue));
  }

  lemma ResolvedOnce(keys: set<Key>, reference: string, k: Key)
    requires ResolvesTo(keys, reference, k)
    ensures forall other :: ResolvesTo(keys, reference, other) ==> other == k
  {
  }

  method ScheduleDirect(direct: seq<(string, string)>, byName: NameIndex, keys: set<Key>, ghost m: map<Key, Package>)
    returns (r: Result<(set<(Key, string)>, seq<(Key, string)>), Failure>)
    requires keys == m.Keys && Indexes(byName, keys)
    ensures r.Err? ==> exists d :: d in direct && !Resolves(m.Keys, d.0)
    ensures r.Ok? ==>
              var roots := set d | d in direct;
              && InProgress(GraphOf(m, roots), r.value.0, {}, r.value.1)
              && GraphOf(m, roots).roots <= r.value.0 <= Universe(m, roots)
              && forall d :: d in direct ==> Resolves(m.Keys, d.0)
  {
    hide Indexes, InProgress, Reachable, ResolvesTo, Resolves;
    ghost var roots := set d | d in direct;
    ghost var g := GraphOf(m, roots);
    var queue: seq<(Key, string)> := [];
    var scheduled: set<(Key, string)> := {};
    Starting(g);
    for i := 0 to |direct|
      invariant InProgress(g, scheduled, {}, queue)
      invariant scheduled <= Universe(m, roots)
      invariant forall j :: 0 <= j < i ==> Resolves(m.Keys, direct[j].0)
      invariant forall j, k :: 0 <= j < i && ResolvesTo(m.Keys, direct[j].0, k) ==> (k, direct[j].1) in scheduled
    {
      var (dependency, scope) := direct[i];
      assert direct[i] in roots;
      var resolved := ResolveCargoDependency(dependency, byName, keys);
      if resolved.Err? {
        return Err(resolved.error);
      }
      var state := (resolved.value, scope);
      ResolvedIsKey(m.Keys, dependency, resolved.value);
      ResolvedOnce(m.Keys, dependency, resolved.value);
      assert state in g.roots;
      RootReachable(g, state);
      if state !in scheduled {
        Scheduling(g, scheduled, {}, queue, state);
        scheduled := scheduled + {state};
        queue := queue + [state];
      }
    }
    return Ok((scheduled, queue));
  }

  /** Every visited package had only resolvable dependencies. */
  ghost predicate Settled(m: map<Key, Package>, seen: set<(Key, string)>) {
    forall k, s, reference :: (k, s) in seen && k in m && reference in m[k].dependencies ==> Resolves(m.Keys, reference)
  }

  lemma SettledGrows(m: map<Key, Package>, seen: set<(Key, string)>, key: Key, scope: string,
                     references: seq<string>, scheduled: set<(Key, string)>)
    requires Settled(m, seen) && key in m && m[key].dependencies == set d | d in references
    requires Targets(m.Keys, references, scope, scheduled)
    ensures Settled(m, seen + {(key, scope)})
  {
  }

  lemma RecordedGrows(before: map<Key, Entry>, now: map<Key, Entry>, seen: set<(Key, string)>, key: Key, scope: string)
    requires Recorded(before, now, seen) && key in now
    ensures Recorded(before, now[key := now[key].(scopes := now[key].scopes + {scope})], seen + {(key, scope)})
  {
  }

  lemma NothingRecorded(m: map<Key, Package>, before: map<Key, Entry>)
    ensures Recorded(before, before, {}) && Settled(m, {})
  {
  }

  lemma SettledResolves(m: map<Key, Package>, direct: set<(string, string)>, seen: set<(Key, string)>)
    requires Settled(m, seen) && Exactly(GraphOf(m, direct), seen)
    requires forall d :: d in direct ==> Resolves(m.Keys, d.0)
    ensures AllResolve(m, direct)
  {
  }

  method PropagateScopes(before: map<Key, Entry>, byName: NameIndex, direct: seq<(string, string)>,
                         ghost m: map<Key, Package>)
    returns (r: Result<map<Key, Entry>, Failure>)
    requires Mirrors(before, m) && Indexes(byName, m.Keys)
    ensures r.Ok? <==> AllResolve(m, set d | d in direct)
    ensures r.Ok? ==>
              exists reached :: Recorded(before, r.value, reached) && Exactly(GraphOf(m, set d | d in direct), reached)
  {
    hide Indexes, InProgress, Expanded, GraphOf, Reachable, Resolves, Targets, Settled, Recorded;
    ghost var roots := set d | d in direct;
    ghost var g := GraphOf(m, roots);
    var packages, keys := before, before.Keys;
    var seeded := ScheduleDirect(direct, byName, keys, m);
    if seeded.Err? {
      ghost var d :| d in direct && !Resolves(m.Keys, d.0);
      assert d in roots;
      return Err(seeded.error);
    }
    var (scheduled, queue) := seeded.value;
    var seen: set<(Key, string)> := {};
    NothingVisited(g, scheduled);
    NothingRecorded(m, before);
    while queue != []
      invariant InProgress(g, scheduled, seen, queue)
      invariant g.roots <= scheduled <= Universe(m, roots)
      invariant Expanded(g, scheduled, seen)
      invariant Recorded(before, packages, seen) && packages.Keys == m.Keys
      invariant forall k :: k in m ==> packages[k].raw == before[k].raw
      invariant Settled(m, seen)
      decreases Universe(m, roots) - seen
    {
      Taking(g, scheduled, seen, queue);
      var (key, scope) := queue[0];
      queue := queue[1..];
      if (key, scope) in seen {
        assert false;
        continue;
      }
      RecordedGrows(before, packages, seen, key, scope);
      seen := seen + {(key, scope)};
      var package := packages[key];
      packages := packages[key := package.(scopes := package.scopes + {scope})];
      var dependencies := package.raw.dependencies;
      var next := ScheduleDependencies(dependencies, scope, byName, keys, scheduled, queue, seen, m, roots, key);
      if next.Err? {
        return Err(next.error);
      }
      TargetsAreSuccessors(m, roots, key, dependencies, scope, next.value.0);
      Visited(g, scheduled, next.value.0, seen - {(key, scope)}, key, scope);
      SettledGrows(m, seen - {(key, scope)}, key, scope, dependencies, next.value.0);
      assert seen - {(key, scope)} + {(key, scope)} == seen;
      scheduled, queue := next.value.0, next.value.1;
    }
    Finished(g, scheduled, seen, queue);
    SettledResolves(m, roots, seen);
    return Ok(packages);
  }

  // ---------------------------------------------------------------- the whole component

  /** The local scope is recorded for exactly the local packages among `done`. */
  ghost predicate LocalsMarked(before: map<Key, Entry>, now: map<Key, Entry>, locals: map<string, string>,
                               done: set<string>, localScope: string) {
    && now.Keys == before.Keys
    && forall k :: k in now ==>
         && now[k].raw == before[k].raw
         && now[k].scopes == if k.source.None? && k.name in done && k.name in locals && locals[k.name] == k.version then {localScope} else {}
  }

  lemma ListedAlone(byName: NameIndex, keys: set<Key>, name: string, version: string)
    requires Indexes(byName, keys)
    ensures Listed(byName, name) == [(version, None)] <==>
            Key(name, version, None) in keys && forall k :: k in keys && k.name == name ==> k == Key(name, version, None)
  {
    var listed := Listed(byName, name);
    assert IndexesName(listed, name, keys);
    assert |listed| <= 1 || listed[0] != listed[1];
    if Key(name, version, None) in keys && forall k :: k in keys && k.name == name ==> k == Key(name, version, None) {
      assert (version, None) in listed;
      assert forall i :: 0 <= i < |listed| ==> Key(name, listed[i].0, listed[i].1) == Key(name, version, None);
    }
    if listed == [(version, None)] {
      assert Key(name, listed[0].0, listed[0].1) in keys;
      forall k | k in keys && k.name == name ensures k == Key(name, version, None) {
        assert (k.version, k.source) in listed;
      }
    }
  }

  lemma NothingMarked(before: map<Key, Entry>, locals: map<string, string>, localScope: string)
    requires forall k :: k in before ==> before[k].scopes == {}
    ensures LocalsMarked(before, before, locals, {}, localScope)
  {
  }

  lemma MarkOneMore(before: map<Key, Entry>, now: map<Key, Entry>, locals: map<string, string>, done: set<string>,
                    localScope: string, name: string)
    requires LocalsMarked(before, now, locals, done, localScope) && name in locals && name !in done
    requires Key(name, locals[name], None) in before
    ensures var key := Key(name, locals[name], None);
            now.Keys == before.Keys &&
            LocalsMarked(before, now[key := now[key].(scopes := now[key].scopes + {localScope})], locals,
                         done + {name}, localScope)
  {
  }

  method MarkLocals(before: map<Key, Entry>, byName: NameIndex, locals: map<string, string>, localScope: string)
    returns (r: Result<map<Key, Entry>, Failure>)
    requires Indexes(byName, before.Keys) && forall k :: k in before ==> before[k].scopes == {}
    ensures r.Ok? <==> LocalsPresent(before.Keys, locals)
    ensures r.Ok? ==> LocalsMarked(before, r.value, locals, locals.Keys, localScope)
  {
    hide Indexes, LocalsMarked, Listed;
    var packages := before;
    NothingMarked(before, locals, localScope);
    var names := locals.Keys;
    ghost var done: set<string> := {};
    while names != {}
      invariant done + names == locals.Keys && done !! names
      invariant LocalsMarked(before, packages, locals, done, localScope)
      invariant forall name :: name in done ==> Listed(byName, name) == [(locals[name], None)]
      decreases names
    {
      var name :| name in names;
      ListedAlone(byName, before.Keys, name, locals[name]);
      if Listed(byName, name) != [(locals[name], None)] {
        return Err(ManifestMismatch);
      }
      var key := Key(name, locals[name], None);
      MarkOneMore(before, packages, locals, done, localScope, name);
      packages := packages[key := packages[key].(scopes := packages[key].scopes + {localScope})];
      names := names - {name};
      done := done + {name};
    }
    forall name | name in locals
      ensures Key(name, locals[name], None) in before.Keys
      ensures forall k :: k in before.Keys && k.name == name ==> k == Key(name, locals[name], None)
    {
      assert name in done;
      ListedAlone(byName, before.Keys, name, locals[name]);
    }
    return Ok(packages);
  }

  /** After marking and propagation a package holds exactly its scopes. */
  ghost predicate Scoped(packages: map<Key, Entry>, m: map<Key, Package>, direct: set<(string, string)>,
                         localScope: string) {
    && packages.Keys == m.Keys
    && forall k :: k in m ==> Canonical(packages[k].raw) == m[k] && packages[k].scopes == ScopesOf(m, direct, localScope, k)
  }

  lemma ReachedScopes(m: map<Key, Package>, direct: set<(string, string)>, localScope: string, k: Key, s: string)
    ensures s in ScopesOf(m, direct, localScope, k) <==>
            (k.source.None? && s == localScope) || Reachable(GraphOf(m, direct), (k, s))
  {
    var g := GraphOf(m, direct);
    if Reachable(g, (k, s)) {
      var path :| Leads(g, path, k, s);
      var d :| d in direct && d.1 == s;
      assert d in direct && Reachable(g, (k, d.1));
    }
  }

  lemma ScopesRecorded(before: map<Key, Entry>, marked: map<Key, Entry>, packages: map<Key, Entry>,
                       m: map<Key, Package>, locals: map<string, string>, direct: set<(string, string)>,
                       localScope: string, reached: set<(Key, string)>)
    requires Mirrors(before, m) && LocalsMarked(before, marked, locals, locals.Keys, localScope)
    requires forall k :: k in m ==> KeyOf(m[k]) == k && PackageOk(m[k], locals)
    requires Recorded(marked, packages, reached)
    requires Exactly(GraphOf(m, direct), reached)
    ensures Scoped(packages, m, direct, localScope)
  {
    hide ValidCrateName, ValidVersion, ScopesOf, Reachable, GraphOf, Canonical;
    forall k | k in m
      ensures Canonical(packages[k].raw) == m[k] && packages[k].scopes == ScopesOf(m, direct, localScope, k)
    {
      assert PackageOk(m[k], locals) && KeyOf(m[k]) == k;
      forall s ensures s in packages[k].scopes <==> s in ScopesOf(m, direct, localScope, k) {
        ReachedScopes(m, direct, localScope, k, s);
      }
    }
  }

  /** The records of the packages read so far. */
  ghost predicate Output(records: seq<Record>, order: seq<Key>, m: map<Key, Package>, direct: set<(string, string)>,
                         localScope: string) {
    && |records| == |order|
    && forall i :: 0 <= i < |order| ==> order[i] in m && records[i] == RecordOf(m, direct, localScope, order[i])
  }

  lemma SourcesStayDistinct(a: Package, b: Package, locals: map<string, string>, localScope: string)
    requires PackageOk(a, locals) && PackageOk(b, locals)
    requires NormalizedSource(a.source, localScope) == NormalizedSource(b.source, localScope)
    ensures a.source == b.source
  {
    assert "workspace"[0] != REGISTRY[0] && "component-local"[0] != REGISTRY[0];
  }

  lemma OutputKeysDistinct(records: seq<Record>, order: seq<Key>, ps: multiset<Package>,
                           locals: map<string, string>, direct: set<(string, string)>, localScope: string)
    requires Admitted(ps, locals) && Output(records, order, Entries(ps), direct, localScope)
    requires forall i, j :: 0 <= i < j < |order| ==> order[i] != order[j]
    ensures DistinctKeys(records, RecordKey)
  {
    hide PackageOk, ScopesOf;
    var m := Entries(ps);
    forall i, j | 0 <= i < j < |records| ensures RecordKey(records[i]) != RecordKey(records[j]) {
      if RecordKey(records[i]) == RecordKey(records[j]) {
        var a, b := records[i], records[j];
        assert [a.name, a.version, a.source][0] == [b.name, b.version, b.source][0];
        assert [a.name, a.version, a.source][1] == [b.name, b.version, b.source][1];
        assert [a.name, a.version, a.source][2] == [b.name, b.version, b.source][2];
        SourcesStayDistinct(m[order[i]], m[order[j]], locals, localScope);
      }
    }
  }

  method Records(order: seq<Key>, packages: map<Key, Entry>, localScope: string,
                 ghost m: map<Key, Package>, ghost direct: set<(string, string)>)
    returns (r: Result<seq<Record>, Failure>)
    requires Scoped(packages, m, direct, localScope) && forall k :: k in order <==> k in m
    requires forall k :: k in m ==> KeyOf(m[k]) == k
    ensures r.Ok? <==> forall k :: k in m ==> ScopesOf(m, direct, localScope, k) != {}
    ensures r.Ok? ==> Output(r.value, order, m, direct, localScope)
  {
    hide ScopesOf;
    var output := [];
    for i := 0 to |order|
      invariant Output(output, order[..i], m, direct, localScope)
      invariant forall j :: 0 <= j < i ==> ScopesOf(m, direct, localScope, order[j]) != {}
    {
      var key := order[i];
      assert key in m && KeyOf(m[key]) == key;
      var package := packages[key];
      if package.scopes == {} {
        return Err(Unreachable);
      }
      output := output + [Record(package.raw.name, package.raw.version, NormalizedSource(package.raw.source, localScope),
                                 package.raw.checksum, package.scopes)];
    }
    assert order[..|order|] == order;
    return Ok(output);
  }

  lemma OutputMembers(records: seq<Record>, order: seq<Key>, m: map<Key, Package>, direct: set<(string, string)>,
                      localScope: string, record: Record)
    requires Output(records, order, m, direct, localScope) && forall k :: k in order <==> k in m
    ensures record in records <==> exists k :: k in m && record == RecordOf(m, direct, localScope, k)
  {
    hide RecordOf;
    if record in records {
      var i :| 0 <= i < |records| && records[i] == record;
      assert order[i] in m && record == RecordOf(m, direct, localScope, order[i]);
    }
    if k :| k in m && record == RecordOf(m, direct, localScope, k) {
      assert k in order;
      var i :| 0 <= i < |order| && order[i] == k;
      assert records[i] == record;
    }
  }

  lemma SameMembers<T>(xs: seq<T>, ys: seq<T>, x: T)
    requires multiset(xs) == multiset(ys)
    ensures x in xs <==> x in ys
  {
    assert x in multiset(xs) <==> x in multiset(ys);
  }

  lemma Assembled(records: seq<Record>, order: seq<Key>, ps: multiset<Package>, locals: map<string, string>,
                  direct: set<(string, string)>, localScope: string)
    requires Succeeds(ps, locals, direct, localScope) && Output(records, order, Entries(ps), direct, localScope)
    requires forall k :: k in order <==> k in Entries(ps)
    requires forall i, j :: 0 <= i < j < |order| ==> order[i] != order[j]
    ensures Describes(ps, locals, direct, localScope, Ok(Sorted(records, RecordKey)))
  {
    hide PackageOk, WellKeyed, AllResolve, ScopesOf, RecordOf, LocalsPresent, Entries, Ascending, Output, Sorted;
    OutputKeysDistinct(records, order, ps, locals, direct, localScope);
    SortedAscending(records, RecordKey);
    var sorted, m := Sorted(records, RecordKey), Entries(ps);
    forall record
      ensures record in sorted <==> exists k :: k in m && record == RecordOf(m, direct, localScope, k)
    {
      SameMembers(sorted, records, record);
      OutputMembers(records, order, m, direct, localScope, record);
    }
  }

  lemma Refused(ps: multiset<Package>, locals: map<string, string>, direct: set<(string, string)>,
                localScope: string, error: Failure)
    requires !Succeeds(ps, locals, direct, localScope)
    ensures Describes(ps, locals, direct, localScope, Err(error))
  {
  }

  lemma MirrorKeys(packages: map<Key, Entry>, m: map<Key, Package>)
    requires Mirrors(packages, m)
    ensures packages.Keys == m.Keys
  {
  }

  lemma MarkedMirrors(packages: map<Key, Entry>, marked: map<Key, Entry>, m: map<Key, Package>,
                      locals: map<string, string>, localScope: string)
    requires Mirrors(packages, m) && LocalsMarked(packages, marked, locals, locals.Keys, localScope)
    ensures Mirrors(marked, m) && marked.Keys == m.Keys
  {
  }

  method ResolvedCargoComponent(raws: seq<RawPackage>, locals: map<string, string>, direct: seq<(string, string)>,
                                localScope: string)
    returns (r: Result<seq<Record>, Failure>)
    ensures Describes(multiset(CanonicalAll(raws)), locals, (set d | d in direct), localScope, r)
  {
    hide Indexes, AllResolve, ScopesOf, Mirrors, LocalsPresent, LocalsMarked, Scoped, Output, Recorded,
         PackageOk, WellKeyed, CanonicalAll, Describes;
    ghost var ps := multiset(CanonicalAll(raws));
    ghost var roots := set d | d in direct;
    var read := ReadPackages(raws, locals);
    if read.Err? {
      Refused(ps, locals, roots, localScope, read.error);
      return Err(read.error);
    }
    var (order, packages, byName) := read.value;
    ghost var m := Entries(ps);
    MirrorKeys(packages, m);
    var marked := MarkLocals(packages, byName, locals, localScope);
    if marked.Err? {
      Refused(ps, locals, roots, localScope, marked.error);
      return Err(marked.error);
    }
    MarkedMirrors(packages, marked.value, m, locals, localScope);
    var reached := PropagateScopes(marked.value, byName, direct, m);
    if reached.Err? {
      Refused(ps, locals, roots, localScope, reached.error);
      return Err(reached.error);
    }
    ghost var states :| Recorded(marked.value, reached.value, states) && Exactly(GraphOf(m, roots), states);
    ScopesRecorded(packages, marked.value, reached.value, m, locals, roots, localScope, states);
    var output := Records(order, reached.value, localScope, m, roots);
    if output.Err? {
      Refused(ps, locals, roots, localScope, output.error);
      return Err(output.error);
    }
    Assembled(output.value, order, ps, locals, roots, localScope);
    return Ok(Sorted(output.value, RecordKey));
  }

  // ---------------------------------------------------------------- order does not matter

  /** The packages, their dependency arrays and the direct dependencies may come in any order, the latter
      two even with repetitions: both runs succeed or both fail, and a success returns the same sequence. */
  lemma OrderDoesNotMatter(raws1: seq<RawPackage>, raws2: seq<RawPackage>, locals: map<string, string>,
                           direct1: seq<(string, string)>, direct2: seq<(string, string)>, localScope: string,
                           r1: Result<seq<Record>, Failure>, r2: Result<seq<Record>, Failure>)
    requires multiset(CanonicalAll(raws1)) == multiset(CanonicalAll(raws2))
    requires forall d :: d in direct1 <==> d in direct2
    requires Describes(multiset(CanonicalAll(raws1)), locals, (set d | d in direct1), localScope, r1)
    requires Describes(multiset(CanonicalAll(raws2)), locals, (set d | d in direct2), localScope, r2)
    ensures r1.Ok? <==> r2.Ok?
    ensures r1.Ok? ==> r1.value == r2.value
  {
    hide Succeeds, RecordOf, Ascending, Entries, WellKeyed;
    assert (set d | d in direct1) == (set d | d in direct2);
    if r1.Ok? {
      AscendingUnique(r1.value, r2.value, RecordKey);
    }
  }

  /** A successful inventory lists every lock package exactly once, with the local scope exactly when it is
      local and otherwise exactly the scopes it is reachable for. */
  lemma ScopesAreReachability(ps: multiset<Package>, locals: map<string, string>, direct: set<(string, string)>,
                              localScope: string, r: Result<seq<Record>, Failure>, p: Package)
    requires Describes(ps, locals, direct, localScope, r) && r.Ok? && p in ps
    ensures exists i :: 0 <= i < |r.value|
              && r.value[i].name == p.name && r.value[i].version == p.version && r.value[i].checksum == p.checksum
              && r.value[i].source == (match p.source
                                       case Some(source) => source
                                       case None => if localScope == "workspace" then "workspace" else "component-local")
              && r.value[i].scopes != {}
              && forall s :: s in r.value[i].scopes <==>
                   (p.source.None? && s == localScope) || Reachable(GraphOf(Entries(ps), direct), (KeyOf(p), s))
  {
    hide PackageOk, AllResolve, LocalsPresent, ScopesOf, GraphOf, Reachable;
    var m, k := Entries(ps), KeyOf(p);
    var record := RecordOf(m, direct, localScope, k);
    assert record in r.value;
    var i :| 0 <= i < |r.value| && r.value[i] == record;
    forall s ensures s in record.scopes <==> (p.source.None? && s == localScope) || Reachable(GraphOf(m, direct), (k, s)) {
      ReachedScopes(m, direct, localScope, k, s);
    }
  }

  // ---------------------------------------------------------------- what an admitted package is, spelled out

  ghost predicate IsAsciiLetterOrDigit(c: char) {
    || 'a' <= c <= 'z' || 'A' <= c <= 'Z' || '0' <= c <= '9'
  }

  /** Three numbers separated by dots, and perhaps a suffix of letters, digits, dots and hyphens after a hyphen or plus. */
  ghost predicate IsVersionText(v: string, major: string, minor: string, patch: string, suffix: string) {
    && v == major + "." + minor + "." + patch + suffix
    && major != "" && minor != "" && patch != ""
    && (forall k :: 0 <= k < |major| ==> '0' <= major[k] <= '9')
    && (forall k :: 0 <= k < |minor| ==> '0' <= minor[k] <= '9')
    && (forall k :: 0 <= k < |patch| ==> '0' <= patch[k] <= '9')
    && (suffix == "" ||
        (|suffix| > 1 && suffix[0] in {'-', '+'} &&
         forall k :: 1 <= k < |suffix| ==> IsAsciiLetterOrDigit(suffix[k]) || suffix[k] in {'.', '-'}))
  }

  lemma {:induction false} DigitsStop(s: string, i: nat)
    requires i <= |s|
    ensures var e := DigitsEnd(s, i);
            (forall k :: i <= k < e ==> IsDigit(s[k])) && (e < |s| ==> !IsDigit(s[e]))
    decreases |s| - i
  {
    if i < |s| && IsDigit(s[i]) { DigitsStop(s, i + 1); }
  }

  lemma {:induction false} DigitsEndIs(s: string, i: nat, e: nat)
    requires i <= e <= |s| && (forall k :: i <= k < e ==> IsDigit(s[k])) && (e < |s| ==> !IsDigit(s[e]))
    ensures DigitsEnd(s, i) == e
    decreases e - i
  {
    if i < e { DigitsEndIs(s, i + 1, e); }
  }

  lemma VersionCut(v: string, a: nat, b: nat, c: nat)
    requires a < b < c <= |v| && v[a] == '.' && v[b] == '.'
    ensures v == v[..a] + "." + v[a + 1..b] + "." + v[b + 1..c] + v[c..]
  {
  }

  lemma VersionParts(v: string, major: string, minor: string, patch: string, suffix: string)
    requires v == major + "." + minor + "." + patch + suffix
    ensures var (a, b, c) := (|major|, |major| + 1 + |minor|, |major| + 2 + |minor| + |patch|);
            && c <= |v| && v[a] == '.' && v[b] == '.' && v[..a] == major && v[a + 1..b] == minor && v[b + 1..c] == patch
            && v[c..] == suffix
  {
  }

  lemma LettersAndDigits(c: char)
    ensures IsAlphanumeric(c) <==> IsAsciiLetterOrDigit(c)
  {
  }

  lemma DigitsOf(v: string, i: nat, e: nat)
    requires i <= e <= |v| && (forall k :: i <= k < e ==> '0' <= v[k] <= '9') && (e < |v| ==> !IsDigit(v[e]))
    ensures DigitsEnd(v, i) == e
  {
    DigitsEndIs(v, i, e);
  }

  lemma ValidAt(v: string, a: nat, b: nat, c: nat)
    requires |v| <= 128 && 0 < a && a + 1 < b && b + 1 < c <= |v| && v[a] == '.' && v[b] == '.'
    requires forall k :: 0 <= k < c && k != a && k != b ==> '0' <= v[k] <= '9'
    requires c < |v| ==> c + 1 < |v| && v[c] in {'-', '+'}
    requires forall k :: c < k < |v| ==> IsAlphanumeric(v[k]) || v[k] in {'.', '-'}
    ensures ValidVersion(v)
  {
    hide DigitsEnd, IsAlphanumeric;
    DigitsOf(v, 0, a);
    DigitsOf(v, a + 1, b);
    DigitsOf(v, b + 1, c);
  }

  lemma PartAt(v: string, i: nat, part: string, k: nat)
    requires i + |part| <= |v| && v[i..i + |part|] == part && i <= k < i + |part|
    ensures v[k] == part[k - i]
  {
    assert v[i..i + |part|][k - i] == v[k];
  }

  lemma VersionTextIsValid(v: string, major: string, minor: string, patch: string, suffix: string)
    requires |v| <= 128 && IsVersionText(v, major, minor, patch, suffix)
    ensures ValidVersion(v)
  {
    hide IsAsciiLetterOrDigit, IsAlphanumeric, ValidVersion;
    VersionParts(v, major, minor, patch, suffix);
    var (a, b, c) := (|major|, |major| + 1 + |minor|, |major| + 2 + |minor| + |patch|);
    forall k | 0 <= k < c && k != a && k != b ensures '0' <= v[k] <= '9' {
      if k < a { PartAt(v, 0, major, k); } else if k < b { PartAt(v, a + 1, minor, k); } else { PartAt(v, b + 1, patch, k); }
    }
    forall k | c < k < |v| ensures IsAlphanumeric(v[k]) || v[k] in {'.', '-'} {
      PartAt(v, c, suffix, k);
      LettersAndDigits(v[k]);
    }
    if c < |v| { PartAt(v, c, suffix, c); }
    ValidAt(v, a, b, c);
  }

  lemma ValidIsVersionText(v: string)
    requires ValidVersion(v)
    ensures exists major, minor, patch, suffix :: IsVersionText(v, major, minor, patch, suffix)
  {
    hide DigitsEnd, IsAsciiLetterOrDigit, IsAlphanumeric;
    var a := DigitsEnd(v, 0);
    var b := DigitsEnd(v, a + 1);
    var c := DigitsEnd(v, b + 1);
    DigitsStop(v, 0);
    DigitsStop(v, a + 1);
    DigitsStop(v, b + 1);
    VersionCut(v, a, b, c);
    var suffix := v[c..];
    forall k | 1 <= k < |suffix| ensures IsAsciiLetterOrDigit(suffix[k]) || suffix[k] in {'.', '-'} {
      assert suffix[k] == v[c + k];
      LettersAndDigits(v[c + k]);
    }
    assert IsVersionText(v, v[..a], v[a + 1..b], v[b + 1..c], suffix);
  }

  /** A version is admitted exactly if it is such a text of at most 128 characters. */
  lemma VersionsSpelled(v: string)
    ensures ValidVersion(v) <==>
            |v| <= 128 && exists major, minor, patch, suffix :: IsVersionText(v, major, minor, patch, suffix)
  {
    assert ValidVersion(v) ==> |v| <= 128;
    hide ValidVersion, IsVersionText;
    if ValidVersion(v) { ValidIsVersionText(v); }
    if |v| <= 128 {
      if major, minor, patch, suffix :| IsVersionText(v, major, minor, patch, suffix) {
        VersionTextIsValid(v, major, minor, patch, suffix);
      }
    }
  }

  /** A lock package is admitted exactly if it has a crate's name and a version, and either comes from a registry over
      HTTPS with a SHA-256 checksum or is a local package under its own version without one. */
  lemma AdmittedExactly(p: Package, locals: map<string, string>)
    ensures PackageOk(p, locals) <==>
            && 1 <= |p.name| <= 256
            && (forall k :: 0 <= k < |p.name| ==> IsAsciiLetterOrDigit(p.name[k]) || p.name[k] in {'_', '-'})
            && |p.version| <= 128
            && (exists major, minor, patch, suffix :: IsVersionText(p.version, major, minor, patch, suffix))
            && (p.source.None? ==> p.name in locals && locals[p.name] == p.version && p.checksum.None?)
            && (p.source.Some? ==>
                  && "registry+https://" <= p.source.value && |p.source.value| <= 2048
                  && (forall k :: 0 <= k < |p.source.value| ==> '!' <= p.source.value[k] <= '~')
                  && p.checksum.Some? && |p.checksum.value| == 64
                  && forall k :: 0 <= k < 64 ==> '0' <= p.checksum.value[k] <= '9' || 'a' <= p.checksum.value[k] <= 'f')
  {
    hide ValidVersion, IsVersionText;
    VersionsSpelled(p.version);
    forall c: char ensures IsCrateChar(c) <==> IsAsciiLetterOrDigit(c) || c in {'_', '-'} {}
  }

  /** The records come in strictly ascending order of name, version and source. */
  lemma RecordsAscend(ps: multiset<Package>, locals: map<string, string>, direct: set<(string, string)>,
                      localScope: string, r: Result<seq<Record>, Failure>, i: nat, j: nat)
    requires Describes(ps, locals, direct, localScope, r) && r.Ok? && i < j < |r.value|
    ensures TupleLess([r.value[i].name, r.value[i].version, r.value[i].source],
                      [r.value[j].name, r.value[j].version, r.value[j].source])
  {
    hide TupleLess, Succeeds;
    assert TupleLess(RecordKey(r.value[i]), RecordKey(r.value[j]));
  }
}
