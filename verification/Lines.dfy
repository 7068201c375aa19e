/** Lines and fields of text, as `str.splitlines`, `str.strip` and `str.split` cut them. */
module Lines {
  import opened Wrappers
  import opened Text

  /** Where `str.splitlines` ends a line; a carriage return takes a following line feed along. */
  predicate IsBreak(c: char) {
    || '\n' <= c <= '\r'
    || '\U{1c}' <= c <= '\U{1e}'
    || c == '\U{85}' || c == '\U{2028}' || c == '\U{2029}'
  }

  predicate OneLine(s: string) {
    forall i :: 0 <= i < |s| ==> !IsBreak(s[i])
  }

  function LineLength(text: string): (n: nat)
    ensures n <= |text| && OneLine(text[..n]) && (n < |text| ==> IsBreak(text[n]))
  {
    if text == "" || IsBreak(text[0]) then 0
    else
      var n := 1 + LineLength(text[1..]);
      assert text[..n] == [text[0]] + text[1..][..n - 1];
      n
  }

  function BreakLength(text: string, n: nat): nat
    requires n < |text|
  {
    if text[n] == '\r' && n + 1 < |text| && text[n + 1] == '\n' then 2 else 1
  }

  function SplitLines(text: string): seq<string>
    decreases |text|
  {
    if text == "" then []
    else
      var n := LineLength(text);
      if n == |text| then [text] else [text[..n]] + SplitLines(text[n + BreakLength(text, n)..])
  }

  /** What can end a line. */
  const LINE_ENDS: set<string> :=
    {"\n", "\r\n", "\r", "\U{b}", "\U{c}", "\U{1c}", "\U{1d}", "\U{1e}", "\U{85}", "\U{2028}", "\U{2029}"}

  lemma BreaksEndLines(c: char)
    ensures IsBreak(c) <==> [c] in LINE_ENDS
  {
    assert forall s :: s in LINE_ENDS && |s| == 1 ==>
             s[0] in {'\n', '\r', '\U{b}', '\U{c}', '\U{1c}', '\U{1d}', '\U{1e}', '\U{85}', '\U{2028}', '\U{2029}'};
  }

  /** The lines written out, each ended by a line feed. */
  function Unlines(lines: seq<string>): string {
    if lines == [] then "" else lines[0] + "\n" + Unlines(lines[1..])
  }

  lemma {:induction false} LineLengthAt(line: string, rest: string)
    requires OneLine(line) && (rest == "" || IsBreak(rest[0]))
    ensures LineLength(line + rest) == |line|
    decreases |line|
  {
    if line != "" {
      LineLengthAt(line[1..], rest);
      assert (line + rest)[1..] == line[1..] + rest;
    } else {
      assert line + rest == rest;
    }
  }

  lemma EndOfLine(line: string, end: string, rest: string)
    requires end in LINE_ENDS && (end == "\r" ==> rest == "" || rest[0] != '\n')
    ensures end != "" && IsBreak(end[0]) && BreakLength(line + end + rest, |line|) == |end|
  {
    var text, n := line + end + rest, |line|;
    assert text[n] == end[0];
    if |text| > n + 1 { assert text[n + 1] == if |end| > 1 then end[1] else rest[0]; }
  }

  /** A line that ends in `end` is split off, unless a carriage return stands before a line feed. */
  lemma SplitFirst(line: string, end: string, rest: string)
    requires OneLine(line) && end in LINE_ENDS && (end == "\r" ==> rest == "" || rest[0] != '\n')
    ensures SplitLines(line + end + rest) == [line] + SplitLines(rest)
  {
    hide OneLine, LineLength;
    var text, n := line + end + rest, |line|;
    Associative(line, end, rest);
    assert end != "" && IsBreak(end[0]) && BreakLength(text, n) == |end| by { EndOfLine(line, end, rest); }
    LineLengthAt(line, end + rest);
    assert text[..n] == line && text[n + |end|..] == rest && n < |text|;
  }

  datatype Ended = Ended(line: string, end: string)

  /** Lines with the ends they have, and a last line without one. */
  ghost function WriteOut(lines: seq<Ended>, tail: string): string {
    if lines == [] then tail else lines[0].line + lines[0].end + WriteOut(lines[1..], tail)
  }

  ghost predicate ProperlyEnded(lines: seq<Ended>, tail: string) {
    if lines == [] then OneLine(tail)
    else
      var rest := WriteOut(lines[1..], tail);
      && OneLine(lines[0].line) && lines[0].end in LINE_ENDS
      && (lines[0].end == "\r" ==> rest == "" || rest[0] != '\n')
      && ProperlyEnded(lines[1..], tail)
  }

  ghost function LinesOf(lines: seq<Ended>): (r: seq<string>)
    ensures |r| == |lines| && forall i :: 0 <= i < |r| ==> r[i] == lines[i].line
  {
    seq(|lines|, i requires 0 <= i < |lines| => lines[i].line)
  }

  lemma LastLine(tail: string)
    requires OneLine(tail)
    ensures SplitLines(tail) == if tail == "" then [] else [tail]
  {
    LineLengthAt(tail, "");
    assert tail + "" == tail;
  }

  /** Whatever ends the lines, each is split off; a last line without an end counts unless it is empty. */
  lemma {:induction false} SplitsAtEveryEnd(lines: seq<Ended>, tail: string)
    requires ProperlyEnded(lines, tail)
    ensures SplitLines(WriteOut(lines, tail)) == LinesOf(lines) + if tail == "" then [] else [tail]
    decreases |lines|
  {
    hide OneLine, SplitLines;
    if lines == [] {
      LastLine(tail);
      assert LinesOf(lines) == [];
    } else {
      SplitFirst(lines[0].line, lines[0].end, WriteOut(lines[1..], tail));
      SplitsAtEveryEnd(lines[1..], tail);
      assert LinesOf(lines) == [lines[0].line] + LinesOf(lines[1..]);
    }
  }

  lemma EmptyLine()
    ensures OneLine("")
  {
  }

  /** Splitting undoes writing out. */
  lemma {:induction false} SplittingUndoesWriting(lines: seq<string>)
    requires forall i :: 0 <= i < |lines| ==> OneLine(lines[i])
    ensures SplitLines(Unlines(lines)) == lines
    decreases |lines|
  {
    hide OneLine, SplitLines;
    if lines == [] {
      assert OneLine("") by { EmptyLine(); }
      LastLine("");
    } else {
      SplitFirst(lines[0], "\n", Unlines(lines[1..]));
      SplittingUndoesWriting(lines[1..]);
    }
  }

  function StripLeft(s: string): string {
    if s != "" && IsSpace(s[0]) then StripLeft(s[1..]) else s
  }

  function StripRight(s: string): string {
    if s != "" && IsSpace(s[|s| - 1]) then StripRight(s[..|s| - 1]) else s
  }

  /** `str.strip` */
  function Strip(s: string): string {
    StripRight(StripLeft(s))
  }

  predicate Trimmed(s: string) {
    s == "" || (!IsSpace(s[0]) && !IsSpace(s[|s| - 1]))
  }

  /** Spaces around text that neither begins nor ends with one are all that is stripped. */
  lemma {:induction false} StripPadded(before: string, s: string, after: string)
    requires s != "" && Trimmed(s)
    requires forall i :: 0 <= i < |before| ==> IsSpace(before[i])
    requires forall i :: 0 <= i < |after| ==> IsSpace(after[i])
    ensures Strip(before + s + after) == s
    decreases |before|, |after|
  {
    if before != "" {
      assert (before + s + after)[1..] == before[1..] + s + after;
      StripPadded(before[1..], s, after);
    } else if after != "" {
      var last := |after| - 1;
      assert before + s + after == s + after;
      assert (s + after)[..|s + after| - 1] == s + after[..last];
      StripPadded("", s, after[..last]);
      assert "" + s + after[..last] == s + after[..last];
    } else {
      assert before + s + after == s;
    }
  }

  lemma {:induction false} NothingToStrip(s: string)
    requires forall i :: 0 <= i < |s| ==> IsSpace(s[i])
    ensures StripLeft(s) == ""
  {
    if s != "" { NothingToStrip(s[1..]); }
  }

  lemma {:induction false} StrippedLeft(s: string) returns (before: string)
    ensures s == before + StripLeft(s) && forall i :: 0 <= i < |before| ==> IsSpace(before[i])
    ensures StripLeft(s) == "" || !IsSpace(StripLeft(s)[0])
  {
    if s != "" && IsSpace(s[0]) {
      var rest := StrippedLeft(s[1..]);
      before := [s[0]] + rest;
    } else {
      before := "";
    }
  }

  lemma {:induction false} StrippedRight(s: string) returns (after: string)
    ensures s == StripRight(s) + after && forall i :: 0 <= i < |after| ==> IsSpace(after[i])
    ensures StripRight(s) == "" || (!IsSpace(StripRight(s)[|StripRight(s)| - 1]) && StripRight(s)[0] == s[0])
  {
    if s != "" && IsSpace(s[|s| - 1]) {
      var rest := StrippedRight(s[..|s| - 1]);
      after := rest + [s[|s| - 1]];
    } else {
      after := "";
    }
  }

  /** `s` is `t` with spaces around it. */
  ghost predicate Padded(s: string, before: string, t: string, after: string) {
    && s == before + t + after
    && (forall i :: 0 <= i < |before| ==> IsSpace(before[i]))
    && (forall i :: 0 <= i < |after| ==> IsSpace(after[i]))
  }

  lemma EmptyStrips()
    ensures StripRight("") == ""
  {
  }

  /** Stripping gives the one text without spaces at its ends that spaces surround. */
  lemma StripExactly(s: string, t: string)
    ensures Strip(s) == t <==> Trimmed(t) && exists before, after :: Padded(s, before, t, after)
  {
    hide StripLeft, StripRight, IsSpace;
    if Strip(s) == t {
      var before := StrippedLeft(s);
      var after := StrippedRight(StripLeft(s));
      Associative(before, t, after);
      assert Padded(s, before, t, after);
    }
    if Trimmed(t) && exists before, after :: Padded(s, before, t, after) {
      var before, after :| Padded(s, before, t, after);
      if t == "" {
        assert s == before + after;
        NothingToStrip(s);
        assert StripRight("") == "" by { EmptyStrips(); }
      } else {
        StripPadded(before, t, after);
      }
    }
  }

  /** `str.index` of one character, if it is there. */
  function IndexOf(s: string, c: char): (r: Option<nat>)
    ensures r.Some? ==> r.value < |s| && s[r.value] == c && forall i :: 0 <= i < r.value ==> s[i] != c
    ensures r.None? ==> c !in s
  {
    if s == "" then None
    else if s[0] == c then Some(0)
    else
      match IndexOf(s[1..], c)
      case None => None
      case Some(n) => Some(n + 1)
  }

  lemma FirstIndex(before: string, c: char, after: string)
    requires c !in before
    ensures IndexOf(before + [c] + after, c) == Some(|before|)
  {
    var s := before + [c] + after;
    assert s[|before|] == c;
    assert c in s;
    var n := IndexOf(s, c).value;
    forall i | 0 <= i < |before| ensures s[i] != c {
      assert s[i] == before[i] && before[i] in before;
    }
  }

  /** `key, value = (part.strip() for part in line.split("=", 1))` */
  function KeyAndValue(line: string): (string, string)
    requires '=' in line
  {
    var n := IndexOf(line, '=').value;
    (Strip(line[..n]), Strip(line[n + 1..]))
  }

  /** The first equals sign separates key and value, and both are stripped. */
  lemma KeyAndValueSplit(before: string, after: string)
    requires '=' !in before
    ensures var line := before + "=" + after;
            '=' in line && KeyAndValue(line) == (Strip(before), Strip(after))
  {
    hide Strip;
    var line := before + ['='] + after;
    assert line[|before|] == '=';
    FirstIndex(before, '=', after);
    assert line[..|before|] == before && line[|before| + 1..] == after;
  }

  lemma StripAround(key: string, value: string)
    requires key != "" && Trimmed(key) && value != "" && Trimmed(value)
    ensures Strip(key + " ") == key && Strip(" " + value) == value
  {
    hide Strip;
    assert key + " " == "" + key + " " && " " + value == " " + value + "";
    StripPadded("", key, " ");
    StripPadded(" ", value, "");
  }

  lemma StripWhole(key: string, value: string)
    requires key != "" && Trimmed(key) && value != "" && Trimmed(value)
    ensures Strip(key + " = " + value) == key + " = " + value
  {
    hide Strip;
    var line := key + " = " + value;
    assert line[0] == key[0] && line[|line| - 1] == value[|value| - 1];
    assert "" + line + "" == line;
    StripPadded("", line, "");
  }

  lemma SplitsIntoKeyAndValue(key: string, value: string)
    requires key != "" && Trimmed(key) && '=' !in key && value != "" && Trimmed(value)
    ensures var line := key + " = " + value;
            Strip(line) == line && '=' in line && KeyAndValue(line) == (key, value)
  {
    hide Strip, KeyAndValue, Trimmed;
    StripWhole(key, value);
    StripAround(key, value);
    KeyAndValueSplit(key + " ", " " + value);
    assert (key + " ") + "=" + (" " + value) == key + " = " + value;
  }

  predicate IsDecimal(s: string) {
    forall i :: 0 <= i < |s| ==> '0' <= s[i] <= '9'
  }

  function DecimalValue(digits: string): nat
    requires IsDecimal(digits)
  {
    if digits == "" then 0
    else 10 * DecimalValue(digits[..|digits| - 1]) + (digits[|digits| - 1] - '0') as nat
  }

  function Decimal(n: nat): (s: string)
    ensures s != "" && IsDecimal(s)
  {
    var digit := ['0' + (n % 10) as char];
    if n < 10 then digit else Decimal(n / 10) + digit
  }

  /** Reading a number undoes writing it. */
  lemma {:induction false} DecimalReadsBack(n: nat)
    ensures DecimalValue(Decimal(n)) == n
    decreases n
  {
    var s := Decimal(n);
    assert s[|s| - 1] == '0' + (n % 10) as char;
    if n >= 10 {
      assert s[..|s| - 1] == Decimal(n / 10);
      DecimalReadsBack(n / 10);
    } else {
      assert s[..0] == "";
    }
  }
}
