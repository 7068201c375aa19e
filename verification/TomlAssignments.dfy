/** The assignments of a Cargo manifest (cli/ci/dependency_evidence.py). */
module TomlAssignments {
  import opened Wrappers
  import opened Text
  import opened Lines
  import opened TrailingCommas

  datatype Malformed =
    | MalformedArrayTable
    | UnsupportedAssignment
    | EmptyKey
    | Unbalanced
    | Unterminated
    | DuplicateAssignment(section: string, key: string)

  datatype Entry = Entry(section: string, key: string, value: string)

  // ---------------------------------------------------------------- open quotes and brackets

  datatype Depth = Depth(quoted: bool, escaped: bool, square: nat, curly: nat)

  const LEVEL := Depth(false, false, 0, 0)

  function Next(d: Depth, c: char): Option<Depth> {
    if d.quoted then
      Some(if d.escaped then d.(escaped := false)
           else if c == '\\' then d.(escaped := true)
           else if c == '"' then d.(quoted := false)
           else d)
    else
      match c
      case '"' => Some(d.(quoted := true))
      case '[' => Some(d.(square := d.square + 1))
      case ']' => if d.square == 0 then None else Some(d.(square := d.square - 1))
      case '{' => Some(d.(curly := d.curly + 1))
      case '}' => if d.curly == 0 then None else Some(d.(curly := d.curly - 1))
      case _ => Some(d)
  }

  /** The depth after `s`, unless a bracket closes that was not open. */
  function Consume(d: Depth, s: string): Option<Depth> {
    if s == "" then Some(d)
    else
      var before := Consume(d, s[..|s| - 1]);
      if before.None? then None else Next(before.value, s[|s| - 1])
  }

  predicate IsClosed(d: Depth) {
    !d.quoted && d.square == 0 && d.curly == 0
  }

  lemma {:induction false} ConsumeFails(d: Depth, s: string, n: nat)
    requires n <= |s| && Consume(d, s[..n]).None?
    ensures Consume(d, s).None?
    decreases |s| - n
  {
    if n < |s| {
      assert s[..n + 1][..n] == s[..n];
      ConsumeFails(d, s, n + 1);
    } else {
      assert s[..n] == s;
    }
  }

  method ConsumeCharacters(d: Depth, characters: string) returns (r: Option<Depth>)
    requires !d.quoted ==> !d.escaped
    ensures r == Consume(d, characters)
    ensures r.Some? && !r.value.quoted ==> !r.value.escaped
  {
    var quoted, escaped := d.quoted, d.escaped;
    var square: int, curly: int := d.square, d.curly;
    for i := 0 to |characters|
      invariant square >= 0 && curly >= 0 && (!quoted ==> !escaped)
      invariant Consume(d, characters[..i]) == Some(Depth(quoted, escaped, square, curly))
    {
      var character := characters[i];
      assert characters[..i + 1][..i] == characters[..i];
      if quoted {
        if escaped {
          escaped := false;
        } else if character == '\\' {
          escaped := true;
        } else if character == '"' {
          quoted := false;
        }
        continue;
      }
      if character == '"' {
        quoted := true;
      } else if character == '[' {
        square := square + 1;
      } else if character == ']' {
        square := square - 1;
      } else if character == '{' {
        curly := curly + 1;
      } else if character == '}' {
        curly := curly - 1;
      }
      if square < 0 || curly < 0 {
        ConsumeFails(d, characters, i + 1);
        return None;
      }
    }
    assert characters[..|characters|] == characters;
    return Some(Depth(quoted, escaped, square, curly));
  }

  lemma {:induction false} ConsumeConcat(d: Depth, a: string, b: string)
    ensures Consume(d, a + b) ==
            if Consume(d, a).Some? then Consume(Consume(d, a).value, b) else None
    decreases |b|
  {
    if b == "" {
      assert a + b == a;
    } else {
      var last := |b| - 1;
      assert (a + b)[..|a + b| - 1] == a + b[..last];
      ConsumeConcat(d, a, b[..last]);
    }
  }

  // ---------------------------------------------------------------- what balance means

  /** How many characters `c` the first `n` of the text hold outside string literals. */
  function Bare(text: string, n: nat, c: char): nat
    requires n <= |text|
  {
    if n == 0 then 0
    else Bare(text, n - 1, c) + if text[n - 1] == c && PlaceAt(text, n - 1).Outside? then 1 else 0
  }

  predicate NotNegative(text: string, n: nat)
    requires n <= |text|
  {
    && Bare(text, n, ']') <= Bare(text, n, '[')
    && Bare(text, n, '}') <= Bare(text, n, '{')
  }

  ghost predicate NeverNegative(text: string) {
    forall n: nat :: n <= |text| ==> NotNegative(text, n)
  }

  /** Strings are closed, and outside them every bracket and brace is matched, never closed before it opens. */
  ghost predicate Balanced(text: string) {
    && NeverNegative(text) && PlaceAt(text, |text|).Outside?
    && Bare(text, |text|, ']') == Bare(text, |text|, '[')
    && Bare(text, |text|, '}') == Bare(text, |text|, '{')
  }

  lemma {:induction false} PrefixReadsAlike(text: string, m: nat, n: nat, c: char)
    requires n <= m <= |text|
    ensures PlaceAt(text[..m], n) == PlaceAt(text, n) && Bare(text[..m], n, c) == Bare(text, n, c)
    decreases n
  {
    if n > 0 {
      PrefixReadsAlike(text, m, n - 1, c);
    }
  }

  ghost predicate Describes(d: Depth, text: string) {
    && PlaceAt(text, |text|) == (if d.quoted then Inside(d.escaped) else Outside)
    && (!d.quoted ==> !d.escaped)
    && d.square == Bare(text, |text|, '[') - Bare(text, |text|, ']')
    && d.curly == Bare(text, |text|, '{') - Bare(text, |text|, '}')
  }

  lemma ShorterReadsAlike(text: string, c: char)
    requires text != ""
    ensures var n := |text| - 1;
            && PlaceAt(text[..n], n) == PlaceAt(text, n) && Bare(text[..n], n, c) == Bare(text, n, c)
  {
    PrefixReadsAlike(text, |text| - 1, |text| - 1, c);
  }

  lemma {:induction false} DepthDescribes(text: string)
    ensures Consume(LEVEL, text).Some? ==> Describes(Consume(LEVEL, text).value, text)
    decreases |text|
  {
    if text != "" {
      DepthDescribes(text[..|text| - 1]);
      ShorterReadsAlike(text, '[');
      ShorterReadsAlike(text, ']');
      ShorterReadsAlike(text, '{');
      ShorterReadsAlike(text, '}');
    }
  }

  lemma NotNegativeAlike(text: string, m: nat, n: nat)
    requires n <= m <= |text|
    ensures NotNegative(text[..m], n) <==> NotNegative(text, n)
  {
    PrefixReadsAlike(text, m, n, '[');
    PrefixReadsAlike(text, m, n, ']');
    PrefixReadsAlike(text, m, n, '{');
    PrefixReadsAlike(text, m, n, '}');
  }

  lemma NeverNegativeLonger(text: string)
    requires text != ""
    ensures NeverNegative(text) <==> NeverNegative(text[..|text| - 1]) && NotNegative(text, |text|)
  {
    hide NotNegative;
    var m := |text| - 1;
    forall n: nat | n <= m ensures NotNegative(text[..m], n) <==> NotNegative(text, n) {
      NotNegativeAlike(text, m, n);
    }
  }

  /** The scan gets through exactly the texts that never close what is not open. */
  lemma {:induction false} ScanSucceeds(text: string)
    ensures Consume(LEVEL, text).Some? <==> NeverNegative(text)
    decreases |text|
  {
    if text != "" {
      ScanSucceeds(text[..|text| - 1]);
      NeverNegativeLonger(text);
      hide NeverNegative;
      DepthDescribes(text[..|text| - 1]);
      ShorterReadsAlike(text, '[');
      ShorterReadsAlike(text, ']');
      ShorterReadsAlike(text, '{');
      ShorterReadsAlike(text, '}');
    }
  }

  ghost predicate Closes(s: string) {
    Consume(LEVEL, s).Some? && IsClosed(Consume(LEVEL, s).value)
  }

  lemma ClosesIsBalanced(s: string)
    ensures Closes(s) <==> Balanced(s)
  {
    ScanSucceeds(s);
    DepthDescribes(s);
  }

  // ---------------------------------------------------------------- lines that make up a value

  function Joined(pieces: seq<string>): string {
    if pieces == [] then "" else if |pieces| == 1 then pieces[0] else Joined(pieces[..|pieces| - 1]) + "\n" + pieces[|pieces| - 1]
  }

  /** The pieces one after another, as the balance is taken. */
  function Together(pieces: seq<string>): string {
    if pieces == [] then "" else Together(pieces[..|pieces| - 1]) + pieces[|pieces| - 1]
  }

  /** `n` lines from `i` on make up the value of `e`: the first line holds the key, the others continue it, and the
      value ends with the first line at which it balances. */
  ghost predicate MadeOf(lines: seq<string>, i: nat, pieces: seq<string>, e: Entry) {
    && 0 < |pieces| && i + |pieces| <= |lines|
    && '=' in Strip(lines[i]) && KeyAndValue(Strip(lines[i])) == (e.key, pieces[0]) && e.key != ""
    && (forall j :: 0 < j < |pieces| ==> pieces[j] == Strip(lines[i + j]))
    && e.value == Joined(pieces)
    && Balanced(Together(pieces)) && forall j :: 0 < j < |pieces| ==> !Balanced(Together(pieces[..j]))
  }

  ghost predicate Found(lines: seq<string>, e: Entry) {
    exists i: nat, pieces :: MadeOf(lines, i, pieces, e)
  }

  /** The rest of a value that `depth` has left open at line `i`. */
  function Gather(lines: seq<string>, i: nat, value: string, depth: Depth): Result<(nat, string), Malformed>
    requires i < |lines|
    decreases |lines| - i
  {
    if IsClosed(depth) then Ok((i, value))
    else if i + 1 >= |lines| then Err(Unterminated)
    else
      var continuation := Strip(lines[i + 1]);
      var next := Consume(depth, continuation);
      if next.None? then Err(Unbalanced)
      else Gather(lines, i + 1, value + "\n" + continuation, next.value)
  }

  /** The pieces read so far leave the value open. */
  ghost predicate Gathering(lines: seq<string>, first: nat, i: nat, pieces: seq<string>) {
    && 0 < |pieces| && first + |pieces| == i + 1 <= |lines|
    && (forall j :: 0 < j < |pieces| ==> pieces[j] == Strip(lines[first + j]))
    && forall j :: 0 < j < |pieces| ==> !Balanced(Together(pieces[..j]))
  }

  lemma TogetherMore(pieces: seq<string>, piece: string)
    ensures Together(pieces + [piece]) == Together(pieces) + piece
    ensures pieces != [] ==> Joined(pieces + [piece]) == Joined(pieces) + "\n" + piece
  {
    assert (pieces + [piece])[..|pieces|] == pieces;
  }

  lemma GatherOneMore(lines: seq<string>, first: nat, i: nat, pieces: seq<string>)
    requires i + 1 < |lines| && Gathering(lines, first, i, pieces) && !Balanced(Together(pieces))
    ensures Gathering(lines, first, i + 1, pieces + [Strip(lines[i + 1])])
  {
    hide Balanced, Together, Strip;
    var more := pieces + [Strip(lines[i + 1])];
    forall j | 0 < j < |more| ensures !Balanced(Together(more[..j])) {
      if j < |pieces| {
        assert more[..j] == pieces[..j];
      } else {
        assert more[..j] == pieces;
      }
    }
  }

  lemma {:induction false} GatherIsFirstBalance(lines: seq<string>, first: nat, i: nat, pieces: seq<string>, depth: Depth)
    returns (all: seq<string>)
    requires pieces != [] && i < |lines| && Gathering(lines, first, i, pieces) && Consume(LEVEL, Together(pieces)) == Some(depth)
    requires Gather(lines, i, Joined(pieces), depth).Ok?
    ensures var (last, value) := Gather(lines, i, Joined(pieces), depth).value;
            && i <= last < |lines| && Gathering(lines, first, last, all)
            && value == Joined(all) && Balanced(Together(all)) && |all| >= |pieces| && all[..|pieces|] == pieces
    decreases |lines| - i
  {
    hide Balanced, Gathering, Together, Joined, Consume, Strip;
    ClosesIsBalanced(Together(pieces));
    if IsClosed(depth) {
      all := pieces;
    } else {
      var piece := Strip(lines[i + 1]);
      GatherOneMore(lines, first, i, pieces);
      TogetherMore(pieces, piece);
      ConsumeConcat(LEVEL, Together(pieces), piece);
      all := GatherIsFirstBalance(lines, first, i + 1, pieces + [piece], Consume(depth, piece).value);
      assert all[..|pieces|] == all[..|pieces| + 1][..|pieces|];
    }
  }

  // ---------------------------------------------------------------- sections

  /** The section of the `number`th `[[name]]`. */
  function ElementSection(name: string, number: nat): string {
    "[[" + name + "]]#" + Decimal(number)
  }

  lemma ElementShape(name: string, number: nat)
    ensures var s, d := ElementSection(name, number), Decimal(number);
            && |s| == |name| + 5 + |d| && s[0] == '['
            && s[|s| - |d|..] == d && s[|s| - |d| - 1] == '#' && s[2..|s| - |d| - 3] == name
  {
  }

  /** Each occurrence of each array table has a section of its own. */
  lemma ElementsApart(name: string, number: nat, name': string, number': nat)
    requires ElementSection(name, number) == ElementSection(name', number')
    ensures name == name' && number == number'
  {
    var s, d, d' := ElementSection(name, number), Decimal(number), Decimal(number');
    ElementShape(name, number);
    ElementShape(name', number');
    if |d| < |d'| || |d'| < |d| {
      assert false;
    }
    DecimalReadsBack(number);
    DecimalReadsBack(number');
  }

  // ---------------------------------------------------------------- the document

  /** Where the reader is: the current section, how often each array table came, what has been yielded, and the
      sections array tables have opened. */
  datatype State = State(section: string, arrays: map<string, nat>, yielded: seq<Entry>, elements: seq<string>)

  const START := State("", map[], [], [])

  predicate IsHeader(line: string) {
    |line| > 1 && line[0] == '[' && line[|line| - 1] == ']'
  }

  /** `str.startswith` and `str.endswith` for the brackets of a header. */
  lemma HeaderBrackets(line: string)
    requires IsHeader(line) && line[..2] == "[[" && line[|line| - 2..] == "]]"
    ensures |line| > 3
  {
    assert line[1] == '[' && line[|line| - 2] == ']';
    assert line[|line| - 2..][0] == ']';
  }

  function Header(st: State, line: string): Result<State, Malformed>
    requires IsHeader(line)
  {
    var opening, closing := line[..2] == "[[", line[|line| - 2..] == "]]";
    if opening != closing then Err(MalformedArrayTable)
    else if opening && closing then
      HeaderBrackets(line);
      var name := line[2..|line| - 2];
      var number := 1 + if name in st.arrays then st.arrays[name] else 0;
      var section := ElementSection(name, number);
      Ok(st.(section := section, arrays := st.arrays[name := number], elements := st.elements + [section]))
    else Ok(st.(section := line[1..|line| - 1]))
  }

  function Identities(entries: seq<Entry>): set<(string, string)> {
    set e | e in entries :: (e.section, e.key)
  }

  /** An assignment that begins on line `i`, and the line after it. */
  function Assignment(lines: seq<string>, i: nat, section: string): Result<(nat, Entry), Malformed>
    requires i < |lines|
  {
    var stripped := Strip(lines[i]);
    if '=' !in stripped then Err(UnsupportedAssignment)
    else
      var (key, value) := KeyAndValue(stripped);
      if key == "" then Err(EmptyKey)
      else
        var depth := Consume(LEVEL, value);
        if depth.None? then Err(Unbalanced)
        else
          match Gather(lines, i, value, depth.value)
          case Err(error) => Err(error)
          case Ok((last, whole)) => Ok((last + 1, Entry(section, key, whole)))
  }

  lemma {:induction false} GatherForward(lines: seq<string>, i: nat, value: string, depth: Depth)
    requires i < |lines| && Gather(lines, i, value, depth).Ok?
    ensures i <= Gather(lines, i, value, depth).value.0 < |lines|
    decreases |lines| - i
  {
    if !IsClosed(depth) {
      var continuation := Strip(lines[i + 1]);
      GatherForward(lines, i + 1, value + "\n" + continuation, Consume(depth, continuation).value);
    }
  }

  /** What one line, with the lines that continue it, does. */
  function Turn(lines: seq<string>, i: nat, st: State): (r: Result<(nat, State), Malformed>)
    requires i < |lines|
    ensures r.Ok? ==> i < r.value.0 <= |lines|
  {
    var stripped := Strip(lines[i]);
    if stripped == "" || stripped[0] == '#' then Ok((i + 1, st))
    else if IsHeader(stripped) then
      match Header(st, stripped)
      case Err(error) => Err(error)
      case Ok(next) => Ok((i + 1, next))
    else
      match Assignment(lines, i, st.section)
      case Err(error) => Err(error)
      case Ok((next, e)) =>
        var (_, value) := KeyAndValue(stripped);
        GatherForward(lines, i, value, Consume(LEVEL, value).value);
        if (e.section, e.key) in Identities(st.yielded) then Err(DuplicateAssignment(e.section, e.key))
        else Ok((next, st.(yielded := st.yielded + [e])))
  }

  /** Reading on from line `i`: where it ends, and the failure that ended it, if one did. */
  function Read(lines: seq<string>, i: nat, st: State): (State, Option<Malformed>)
    decreases |lines| - i
  {
    if i >= |lines| then (st, None)
    else
      match Turn(lines, i, st)
      case Err(error) => (st, Some(error))
      case Ok((next, st')) => Read(lines, next, st')
  }

  lemma ReadOn(lines: seq<string>, i: nat, st: State)
    requires i < |lines|
    ensures Read(lines, i, st) ==
            match Turn(lines, i, st)
            case Err(error) => (st, Some(error))
            case Ok((next, st')) => Read(lines, next, st')
  {
  }

  lemma ReadDone(lines: seq<string>, i: nat, st: State)
    requires i >= |lines|
    ensures Read(lines, i, st) == (st, None)
  {
  }

  lemma HeaderIs(st: State, line: string)
    requires IsHeader(line)
    ensures Header(st, line) ==
            if (line[..2] == "[[") != (line[|line| - 2..] == "]]") then Err(MalformedArrayTable)
            else if line[..2] == "[[" then
              HeaderBrackets(line);
              var name := line[2..|line| - 2];
              var number := 1 + if name in st.arrays then st.arrays[name] else 0;
              var section := ElementSection(name, number);
              Ok(st.(section := section, arrays := st.arrays[name := number], elements := st.elements + [section]))
            else Ok(st.(section := line[1..|line| - 1]))
  {
  }

  lemma OneMoreIdentity(entries: seq<Entry>, e: Entry)
    ensures Identities(entries + [e]) == Identities(entries) + {(e.section, e.key)}
  {
    forall x ensures x in entries + [e] <==> x in entries || x == e {}
  }

  method ReadAssignments(text: string) returns (yielded: seq<Entry>, failure: Option<Malformed>)
    ensures var (st, error) := Read(SplitLines(text), 0, START);
            yielded == st.yielded && failure == error
  {
    hide Strip, SplitLines, KeyAndValue, Consume, Header, Read;
    var section := "";
    var lines := SplitLines(text);
    var index := 0;
    var seen: set<(string, string)> := {};
    var array_sections: map<string, nat> := map[];
    yielded := [];
    ghost var elements: seq<string> := [];
    while index < |lines|
      invariant index <= |lines|
      invariant Read(lines, index, State(section, array_sections, yielded, elements)) == Read(lines, 0, START)
      invariant seen == Identities(yielded)
    {
      ghost var st := State(section, array_sections, yielded, elements);
      ReadOn(lines, index, st);
      var stripped := Strip(lines[index]);
      if stripped == "" || stripped[0] == '#' {
        index := index + 1;
        continue;
      }
      if IsHeader(stripped) {
        HeaderIs(st, stripped);
        if (stripped[..2] == "[[") != (stripped[|stripped| - 2..] == "]]") {
          return yielded, Some(MalformedArrayTable);
        }
        if stripped[..2] == "[[" && stripped[|stripped| - 2..] == "]]" {
          HeaderBrackets(stripped);
          var name := stripped[2..|stripped| - 2];
          array_sections := array_sections[name := 1 + if name in array_sections then array_sections[name] else 0];
          section := ElementSection(name, array_sections[name]);
          elements := elements + [section];
        } else {
          section := stripped[1..|stripped| - 1];
        }
        index := index + 1;
        continue;
      }
      if '=' !in stripped {
        return yielded, Some(UnsupportedAssignment);
      }
      var (key, value) := KeyAndValue(stripped);
      if key == "" {
        return yielded, Some(EmptyKey);
      }
      ghost var (first, value0) := (index, value);
      var depth := ConsumeCharacters(LEVEL, value);
      if depth.None? {
        return yielded, Some(Unbalanced);
      }
      ghost var depth0 := depth.value;
      while !IsClosed(depth.value)
        invariant first <= index < |lines| && depth.Some?
        invariant Gather(lines, first, value0, depth0) == Gather(lines, index, value, depth.value)
        invariant !depth.value.quoted ==> !depth.value.escaped
        decreases |lines| - index
      {
        index := index + 1;
        if index >= |lines| {
          return yielded, Some(Unterminated);
        }
        var continuation := Strip(lines[index]);
        value := value + "\n" + continuation;
        depth := ConsumeCharacters(depth.value, continuation);
        if depth.None? {
          return yielded, Some(Unbalanced);
        }
      }
      if (section, key) in seen {
        return yielded, Some(DuplicateAssignment(section, key));
      }
      seen := seen + {(section, key)};
      ghost var e := Entry(section, key, value);
      OneMoreIdentity(yielded, e);
      yielded := yielded + [Entry(section, key, value)];
      index := index + 1;
    }
    ReadDone(lines, index, State(section, array_sections, yielded, elements));
    return yielded, None;
  }

  // ---------------------------------------------------------------- what every reading keeps

  /** The sections array tables have opened so far: for each name one for every occurrence, no two alike. */
  ghost predicate ElementsCounted(arrays: map<string, nat>, elements: seq<string>) {
    && (forall name, number :: ElementSection(name, number) in elements <==>
          && name in arrays
          && 1 <= number <= arrays[name])
    && (forall s :: s in elements ==> s != "" && s[0] == '[')
    && forall i, j :: 0 <= i < j < |elements| ==> elements[i] != elements[j]
  }

  /** A plain table's section never begins with a bracket, so it is none an array table opened. */
  ghost predicate IsSection(elements: seq<string>, section: string) {
    section == "" || section[0] != '[' || section in elements
  }

  ghost predicate Keeps(lines: seq<string>, st: State) {
    && ElementsCounted(st.arrays, st.elements) && IsSection(st.elements, st.section)
    && (forall e :: e in st.yielded ==> Found(lines, e) && IsSection(st.elements, e.section))
    && forall i, j :: 0 <= i < j < |st.yielded| ==>
         st.yielded[i].section != st.yielded[j].section || st.yielded[i].key != st.yielded[j].key
  }

  lemma ElementAdded(arrays: map<string, nat>, elements: seq<string>, name: string)
    requires ElementsCounted(arrays, elements)
    ensures var number := 1 + if name in arrays then arrays[name] else 0;
            var section := ElementSection(name, number);
            section !in elements && ElementsCounted(arrays[name := number], elements + [section])
  {
    hide ElementSection;
    var number := 1 + if name in arrays then arrays[name] else 0;
    var section := ElementSection(name, number);
    var arrays', more := arrays[name := number], elements + [section];
    ElementShape(name, number);
    forall n, k
      ensures ElementSection(n, k) in more <==> n in arrays' && 1 <= k <= arrays'[n]
    {
      assert ElementSection(n, k) in more <==> ElementSection(n, k) in elements || ElementSection(n, k) == section;
      if ElementSection(n, k) == section {
        ElementsApart(n, k, name, number);
      }
    }
    assert ElementsCounted(arrays', more) by {
      forall s | s in more ensures s != "" && s[0] == '[' {
        assert s in elements || s == section;
      }
    }
  }

  lemma StillSection(elements: seq<string>, more: seq<string>, section: string)
    requires IsSection(elements, section)
    ensures IsSection(elements + more, section)
  {
  }

  /** Every `[[name]]` opens a section that nothing before it had: no earlier array table, no plain table, no entry. */
  lemma HeaderKeeps(lines: seq<string>, st: State, line: string)
    requires Keeps(lines, st) && IsHeader(line) && Header(st, line).Ok?
    ensures var st' := Header(st, line).value;
            && Keeps(lines, st') && st'.yielded == st.yielded
            && (line[1] == '[' ==>
                && st'.section !in st.elements && st'.elements == st.elements + [st'.section]
                && st'.section != st.section && st'.section[0] == '['
                && forall e :: e in st.yielded ==> e.section != st'.section)
            && (line[1] != '[' ==> st'.elements == st.elements && IsSection([], st'.section))
  {
    hide ElementsCounted, Found, ElementSection;
    var st' := Header(st, line).value;
    assert line[1] == '[' <==> line[..2] == "[[";
    if line[..2] == "[[" {
      var name := line[2..|line| - 2];
      ElementAdded(st.arrays, st.elements, name);
      ElementShape(name, st'.arrays[name]);
      forall e | e in st.yielded ensures IsSection(st'.elements, e.section) {
        StillSection(st.elements, [st'.section], e.section);
      }
      assert st'.section in st'.elements;
    }
  }

  lemma OnePiece(value: string)
    ensures Together([value]) == value && Joined([value]) == value
  {
    assert [value][..0] == [];
  }

  lemma EntryIsABlock(lines: seq<string>, i: nat, section: string)
    returns (pieces: seq<string>)
    requires i < |lines| && Assignment(lines, i, section).Ok?
    ensures var (next, e) := Assignment(lines, i, section).value;
            MadeOf(lines, i, pieces, e) && e.section == section && next == i + |pieces|
  {
    hide Balanced, Strip, KeyAndValue;
    var (key, value) := KeyAndValue(Strip(lines[i]));
    var depth := Consume(LEVEL, value).value;
    OnePiece(value);
    pieces := GatherIsFirstBalance(lines, i, i, [value], depth);
    assert pieces[0] == pieces[..1][0];
  }

  lemma AssignmentFound(lines: seq<string>, i: nat, section: string)
    requires i < |lines| && Assignment(lines, i, section).Ok?
    ensures var (next, e) := Assignment(lines, i, section).value;
            Found(lines, e) && e.section == section
  {
    var pieces := EntryIsABlock(lines, i, section);
  }

  lemma EntryKeeps(lines: seq<string>, st: State, e: Entry)
    requires Keeps(lines, st) && Found(lines, e) && e.section == st.section
    requires (e.section, e.key) !in Identities(st.yielded)
    ensures Keeps(lines, st.(yielded := st.yielded + [e]))
  {
    hide ElementsCounted, Found, IsSection;
    forall i | 0 <= i < |st.yielded| ensures st.yielded[i].section != e.section || st.yielded[i].key != e.key {
      assert (st.yielded[i].section, st.yielded[i].key) in Identities(st.yielded);
    }
  }

  lemma TurnKeeps(lines: seq<string>, i: nat, st: State)
    requires i < |lines| && Keeps(lines, st) && Turn(lines, i, st).Ok?
    ensures Keeps(lines, Turn(lines, i, st).value.1)
  {
    hide ElementsCounted, Found, Strip, Assignment, Header, KeyAndValue;
    var stripped := Strip(lines[i]);
    if stripped == "" || stripped[0] == '#' {
    } else if IsHeader(stripped) {
      HeaderKeeps(lines, st, stripped);
    } else {
      AssignmentFound(lines, i, st.section);
      var e := Assignment(lines, i, st.section).value.1;
      EntryKeeps(lines, st, e);
    }
  }

  lemma {:induction false} ReadKeeps(lines: seq<string>, i: nat, st: State)
    requires Keeps(lines, st)
    ensures Keeps(lines, Read(lines, i, st).0)
    decreases |lines| - i
  {
    hide Keeps, Turn;
    if i < |lines| && Turn(lines, i, st).Ok? {
      TurnKeeps(lines, i, st);
      ReadKeeps(lines, Turn(lines, i, st).value.0, Turn(lines, i, st).value.1);
    }
  }

  // ---------------------------------------------------------------- the document, line by line

  /** How often a header came among these. */
  ghost function Occurrences(header: string, headers: seq<string>): nat {
    if headers == [] then 0
    else Occurrences(header, headers[..|headers| - 1]) + if headers[|headers| - 1] == header then 1 else 0
  }

  /** The section below these headers: none, the name between the brackets of a plain table, or the element's that
      the last array table opens, numbered by its occurrences. */
  ghost function SectionBelow(headers: seq<string>): string {
    if headers == [] then ""
    else
      var last := headers[|headers| - 1];
      if |last| > 3 && last[1] == '[' then "[[" + last[2..|last| - 2] + "]]#" + Decimal(Occurrences(last, headers))
      else if |last| > 1 then last[1..|last| - 1]
      else ""
  }

  /** `[name]`, or `[[name]]`. */
  ghost predicate IsTable(line: string) {
    |line| > 1 && line[0] == '[' && line[|line| - 1] == ']'
  }

  ghost predicate IsProperTable(line: string) {
    IsTable(line) && (line[1] == '[' <==> line[|line| - 2] == ']')
  }

  ghost predicate IsBlank(line: string) {
    line == "" || line[0] == '#'
  }

  ghost predicate EntryThen(lines: seq<string>, i: nat, pieces: seq<string>, m: nat, headers: seq<string>, entries: seq<Entry>)
    requires i < m <= |lines| && entries != []
    decreases m - i, 0
  {
    MadeOf(lines, i, pieces, entries[0]) && Sectioned(lines, i + |pieces|, m, headers, entries[1..])
  }

  /** Below `headers`, lines `i` to `m` are blank, comments, headers, or the lines of these entries one after the
      other, each in the section of the header last above it. */
  ghost predicate Sectioned(lines: seq<string>, i: nat, m: nat, headers: seq<string>, entries: seq<Entry>)
    requires m <= |lines|
    decreases m - i
  {
    if i >= m then i == m && entries == []
    else
      var line := Strip(lines[i]);
      if IsBlank(line) then Sectioned(lines, i + 1, m, headers, entries)
      else if IsTable(line) then IsProperTable(line) && Sectioned(lines, i + 1, m, headers + [line], entries)
      else
        && entries != [] && entries[0].section == SectionBelow(headers)
        && exists pieces :: EntryThen(lines, i, pieces, m, headers, entries)
  }

  /** The reader's section and counts are those of the headers above. */
  ghost predicate Below(st: State, headers: seq<string>) {
    && st.section == SectionBelow(headers)
    && forall name :: (if name in st.arrays then st.arrays[name] else 0) == Occurrences("[[" + name + "]]", headers)
  }

  lemma OneMoreOccurrence(header: string, headers: seq<string>, last: string)
    ensures Occurrences(header, headers + [last]) == Occurrences(header, headers) + if last == header then 1 else 0
  {
    assert (headers + [last])[..|headers|] == headers;
  }

  lemma ElementHeader(line: string)
    requires IsHeader(line) && line[..2] == "[[" && line[|line| - 2..] == "]]"
    ensures |line| > 3 && line == "[[" + line[2..|line| - 2] + "]]"
    ensures forall name :: "[[" + name + "]]" == line <==> name == line[2..|line| - 2]
  {
    HeaderBrackets(line);
    var inner := line[2..|line| - 2];
    assert line == line[..2] + inner + line[|line| - 2..];
    forall name | "[[" + name + "]]" == line ensures name == inner {
      var whole := "[[" + name + "]]";
      assert whole[2..|whole| - 2] == name;
    }
  }

  lemma BracketPairs(line: string)
    requires IsHeader(line)
    ensures line[..2] == "[[" <==> line[1] == '['
    ensures line[|line| - 2..] == "]]" <==> line[|line| - 2] == ']'
  {
    assert line[|line| - 2..][0] == line[|line| - 2] && line[|line| - 2..][1] == ']';
  }

  /** A header is accepted exactly when its brackets match, and then the reader stands below it. */
  lemma HeaderBelow(st: State, line: string, headers: seq<string>)
    requires IsHeader(line) && Below(st, headers)
    ensures Header(st, line).Ok? <==> IsProperTable(line)
    ensures Header(st, line).Ok? ==> Below(Header(st, line).value, headers + [line]) && Header(st, line).value.yielded == st.yielded
  {
    hide Occurrences;
    BracketPairs(line);
    if IsProperTable(line) {
      var st' := Header(st, line).value;
      var more := headers + [line];
      assert more[|more| - 1] == line;
      if line[1] == '[' {
        ElementHeader(line);
        forall name
          ensures (if name in st'.arrays then st'.arrays[name] else 0) == Occurrences("[[" + name + "]]", more)
        {
          OneMoreOccurrence("[[" + name + "]]", headers, line);
        }
      } else {
        forall name
          ensures (if name in st'.arrays then st'.arrays[name] else 0) == Occurrences("[[" + name + "]]", more)
        {
          assert ("[[" + name + "]]")[1] == '[';
          OneMoreOccurrence("[[" + name + "]]", headers, line);
        }
      }
    }
  }

  lemma SkippedBelow(lines: seq<string>, i: nat, m: nat, headers: seq<string>, entries: seq<Entry>)
    requires i < m <= |lines|
    ensures IsBlank(Strip(lines[i])) ==>
              (Sectioned(lines, i, m, headers, entries) <==> Sectioned(lines, i + 1, m, headers, entries))
    ensures !IsBlank(Strip(lines[i])) && IsTable(Strip(lines[i])) ==>
              (Sectioned(lines, i, m, headers, entries) <==>
               IsProperTable(Strip(lines[i])) && Sectioned(lines, i + 1, m, headers + [Strip(lines[i])], entries))
  {
    hide Strip;
  }

  lemma TablesAreHeaders(line: string)
    ensures IsTable(line) <==> IsHeader(line)
  {
  }

  lemma StillBelow(st: State, st': State, headers: seq<string>)
    requires Below(st, headers) && st'.section == st.section && st'.arrays == st.arrays
    ensures Below(st', headers) && st.section == SectionBelow(headers)
  {
  }

  /** Any reading is of a document up to some line, in order and with every entry under its header; without failure
      up to the last. */
  lemma {:induction false} EveryLineIsRead(lines: seq<string>, i: nat, st: State, headers: seq<string>)
    returns (m: nat, entries: seq<Entry>)
    requires i <= |lines| && Below(st, headers)
    ensures i <= m <= |lines| && (Read(lines, i, st).1.None? ==> m == |lines|)
    ensures Sectioned(lines, i, m, headers, entries) && Read(lines, i, st).0.yielded == st.yielded + entries
    decreases |lines| - i
  {
    hide Strip, Assignment, Header, KeyAndValue, MadeOf, Below, IsTable, IsProperTable, SectionBelow;
    m, entries := i, [];
    assert st.yielded + [] == st.yielded;
    if i < |lines| && Turn(lines, i, st).Ok? {
      var line := Strip(lines[i]);
      var (next, st') := Turn(lines, i, st).value;
      assert IsTable(line) <==> IsHeader(line) by { TablesAreHeaders(line); }
      if IsBlank(line) {
        m, entries := EveryLineIsRead(lines, next, st', headers);
        SkippedBelow(lines, i, m, headers, entries);
      } else if IsHeader(line) {
        HeaderBelow(st, line, headers);
        m, entries := EveryLineIsRead(lines, next, st', headers + [line]);
        SkippedBelow(lines, i, m, headers, entries);
      } else {
        var e := Assignment(lines, i, st.section).value.1;
        var pieces := EntryIsABlock(lines, i, st.section);
        assert Below(st', headers) && st.section == SectionBelow(headers) by { StillBelow(st, st', headers); }
        var rest: seq<Entry>;
        m, rest := EveryLineIsRead(lines, next, st', headers);
        entries := [e] + rest;
        assert entries[1..] == rest;
        assert EntryThen(lines, i, pieces, m, headers, entries);
        Associative(st.yielded, [e], rest);
      }
    }
  }

  lemma StartIsBelow()
    ensures Below(START, [])
  {
  }

  /** Whatever the text: what was yielded is a document up to some line, and to the last without failure, each entry
      under its header; each yielded value is made of whole lines and ends where it first balances, no key comes twice
      in a section, and the sections of array tables are numbered apart from each other and from plain ones. */
  lemma ReadingIsSound(text: string) returns (m: nat)
    ensures m <= |SplitLines(text)| && (Read(SplitLines(text), 0, START).1.None? ==> m == |SplitLines(text)|)
    ensures Sectioned(SplitLines(text), 0, m, [], Read(SplitLines(text), 0, START).0.yielded)
    ensures Keeps(SplitLines(text), Read(SplitLines(text), 0, START).0)
  {
    hide Read, SplitLines, Sectioned;
    ReadKeeps(SplitLines(text), 0, START);
    StartIsBelow();
    var entries: seq<Entry>;
    m, entries := EveryLineIsRead(SplitLines(text), 0, START, []);
    assert START.yielded + entries == entries;
  }

  // ---------------------------------------------------------------- every document is read

  lemma {:induction false} ConsumedPrefix(s: string, n: nat)
    requires n <= |s| && Consume(LEVEL, s).Some?
    ensures Consume(LEVEL, s[..n]).Some?
  {
    if Consume(LEVEL, s[..n]).None? {
      ConsumeFails(LEVEL, s, n);
    }
  }

  lemma {:induction false} TogetherPrefix(pieces: seq<string>, j: nat)
    requires j <= |pieces|
    ensures |Together(pieces[..j])| <= |Together(pieces)|
    ensures Together(pieces)[..|Together(pieces[..j])|] == Together(pieces[..j])
    decreases |pieces|
  {
    if j == |pieces| {
      assert pieces[..j] == pieces;
    } else {
      var before := pieces[..|pieces| - 1];
      TogetherPrefix(before, j);
      assert before[..j] == pieces[..j];
    }
  }

  /** The lines of an entry are gathered as its value. */
  lemma {:induction false} GatherReaches(lines: seq<string>, i: nat, pieces: seq<string>, e: Entry, j: nat)
    requires MadeOf(lines, i, pieces, e) && 0 < j <= |pieces|
    ensures Consume(LEVEL, Together(pieces[..j])).Some?
    ensures Gather(lines, i + j - 1, Joined(pieces[..j]), Consume(LEVEL, Together(pieces[..j])).value)
         == Ok((i + |pieces| - 1, e.value))
    decreases |pieces| - j
  {
    hide Consume, Together, Joined, KeyAndValue, Strip, Balanced;
    ClosesIsBalanced(Together(pieces));
    TogetherPrefix(pieces, j);
    ConsumedPrefix(Together(pieces), |Together(pieces[..j])|);
    ClosesIsBalanced(Together(pieces[..j]));
    if j == |pieces| {
      assert pieces[..j] == pieces;
    } else {
      assert pieces[..j + 1] == pieces[..j] + [pieces[j]];
      TogetherMore(pieces[..j], pieces[j]);
      ConsumeConcat(LEVEL, Together(pieces[..j]), pieces[j]);
      GatherReaches(lines, i, pieces, e, j + 1);
    }
  }

  lemma MadeIsAssigned(lines: seq<string>, i: nat, pieces: seq<string>, e: Entry, section: string)
    requires MadeOf(lines, i, pieces, e)
    ensures Assignment(lines, i, section) == Ok((i + |pieces|, Entry(section, e.key, e.value)))
  {
    hide Consume, Together, Joined, KeyAndValue, Strip, Balanced;
    GatherReaches(lines, i, pieces, e, 1);
    assert pieces[..1] == [pieces[0]];
    OnePiece(pieces[0]);
  }

  /** No key comes twice in a section. */
  ghost predicate DistinctIdentities(entries: seq<Entry>) {
    forall i, j :: 0 <= i < j < |entries| ==> entries[i].section != entries[j].section || entries[i].key != entries[j].key
  }

  lemma FirstIsNew(before: seq<Entry>, e: Entry, rest: seq<Entry>)
    requires DistinctIdentities(before + ([e] + rest))
    ensures (e.section, e.key) !in Identities(before)
    ensures DistinctIdentities((before + [e]) + rest)
  {
    var all := before + ([e] + rest);
    assert all == (before + [e]) + rest;
    assert all[|before|] == e;
    forall k | 0 <= k < |before| ensures (before[k].section, before[k].key) != (e.section, e.key) {
      assert all[k] == before[k];
    }
  }

  lemma MadeOfSome(lines: seq<string>, i: nat, pieces: seq<string>, e: Entry)
    requires MadeOf(lines, i, pieces, e)
    ensures |pieces| > 0
  {
  }

  lemma {:induction false} DocumentIsRead(lines: seq<string>, i: nat, st: State, headers: seq<string>, entries: seq<Entry>)
    requires Below(st, headers) && Sectioned(lines, i, |lines|, headers, entries) && DistinctIdentities(st.yielded + entries)
    ensures Read(lines, i, st).1.None? && Read(lines, i, st).0.yielded == st.yielded + entries
    decreases |lines| - i
  {
    hide Strip, Assignment, Header, KeyAndValue, MadeOf, Below, IsTable, IsProperTable, SectionBelow, DistinctIdentities, Identities;
    if i >= |lines| {
      assert st.yielded + [] == st.yielded;
    } else {
      var line := Strip(lines[i]);
      assert IsTable(line) <==> IsHeader(line) by { TablesAreHeaders(line); }
      SkippedBelow(lines, i, |lines|, headers, entries);
      if IsBlank(line) {
        DocumentIsRead(lines, i + 1, st, headers, entries);
      } else if IsHeader(line) {
        HeaderBelow(st, line, headers);
        DocumentIsRead(lines, i + 1, Header(st, line).value, headers + [line], entries);
      } else {
        var (e, rest) := (entries[0], entries[1..]);
        var pieces :| EntryThen(lines, i, pieces, |lines|, headers, entries);
        assert st.section == SectionBelow(headers) by { StillBelow(st, st, headers); }
        MadeIsAssigned(lines, i, pieces, e, st.section);
        assert |pieces| > 0 by { MadeOfSome(lines, i, pieces, e); }
        assert Assignment(lines, i, st.section).value.1 == e;
        assert entries == [e] + rest;
        FirstIsNew(st.yielded, e, rest);
        var st' := st.(yielded := st.yielded + [e]);
        assert Below(st', headers) by { StillBelow(st, st', headers); }
        DocumentIsRead(lines, i + |pieces|, st', headers, rest);
        Associative(st.yielded, [e], rest);
      }
    }
  }

  lemma KeptIdentities(lines: seq<string>, st: State)
    requires Keeps(lines, st)
    ensures DistinctIdentities(st.yielded)
  {
  }

  lemma StartKeeps(lines: seq<string>)
    ensures Keeps(lines, START)
  {
  }

  /** The lines are read without failure, and give these entries, exactly when they are a document of them in which
      no key comes twice in a section. */
  lemma ReadsExactlyDocuments(lines: seq<string>, entries: seq<Entry>)
    ensures (Read(lines, 0, START).1.None? && Read(lines, 0, START).0.yielded == entries) <==>
            (Sectioned(lines, 0, |lines|, [], entries) && DistinctIdentities(entries))
  {
    hide Read, Sectioned, DistinctIdentities, Keeps;
    StartIsBelow();
    assert START.yielded + entries == entries;
    if Read(lines, 0, START).1.None? && Read(lines, 0, START).0.yielded == entries {
      var m, found := EveryLineIsRead(lines, 0, START, []);
      assert START.yielded + found == found;
      assert Keeps(lines, START) by { StartKeeps(lines); }
      ReadKeeps(lines, 0, START);
      KeptIdentities(lines, Read(lines, 0, START).0);
    }
    if Sectioned(lines, 0, |lines|, [], entries) && DistinctIdentities(entries) {
      DocumentIsRead(lines, 0, START, [], entries);
    }
  }

  // ---------------------------------------------------------------- the joined value

  /** A line feed leaves the depth as it is exactly when no escape is open. */
  lemma LineFeedIsNeutral(d: Depth)
    ensures Next(d, '\n') == Some(d) <==> !(d.quoted && d.escaped)
  {
  }

  /** `s` ends inside a string right after an unescaped backslash. */
  ghost predicate EndsEscaped(s: string) {
    PlaceAt(s, |s|) == Inside(true)
  }

  lemma ConsumeOne(d: Depth, c: char)
    ensures Consume(d, [c]) == Next(d, c)
  {
    assert [c][..0] == "";
  }

  lemma AcrossLineFeed(joined: string, together: string, last: string)
    requires Consume(LEVEL, together).Some? && Consume(LEVEL, joined) == Consume(LEVEL, together)
    requires !EndsEscaped(together)
    ensures Consume(LEVEL, joined + "\n" + last) == Consume(LEVEL, together + last)
  {
    DepthDescribes(together);
    ConsumeConcat(LEVEL, together, last);
    ConsumeConcat(LEVEL, joined + "\n", last);
    ConsumeConcat(LEVEL, joined, "\n");
    var d := Consume(LEVEL, together).value;
    ConsumeOne(d, '\n');
    LineFeedIsNeutral(d);
  }

  lemma {:induction false} JoinedReadsAlike(pieces: seq<string>)
    requires Consume(LEVEL, Together(pieces)).Some?
    requires forall j :: 0 < j < |pieces| ==> !EndsEscaped(Together(pieces[..j]))
    ensures Consume(LEVEL, Joined(pieces)) == Consume(LEVEL, Together(pieces))
    decreases |pieces|
  {
    hide EndsEscaped;
    if |pieces| > 1 {
      var (before, last) := (pieces[..|pieces| - 1], pieces[|pieces| - 1]);
      forall j | 0 < j < |before| ensures !EndsEscaped(Together(before[..j])) {
        assert before[..j] == pieces[..j];
      }
      ConsumeConcat(LEVEL, Together(before), last);
      JoinedReadsAlike(before);
      AcrossLineFeed(Joined(before), Together(before), last);
    } else if |pieces| == 1 {
      OnePiece(pieces[0]);
      assert pieces == [pieces[0]];
    }
  }

  /** Of a value of any number of lines: no line before the last leaves an escape open, so joining is safe. */
  lemma NoOpenEscapeIsSafe(pieces: seq<string>)
    requires pieces != [] && Consume(LEVEL, Together(pieces)).Some?
    requires forall j :: 0 < j <= |pieces| ==> !EndsEscaped(Together(pieces[..j]))
    ensures Consume(LEVEL, Joined(pieces) + "\n") == Consume(LEVEL, Together(pieces))
  {
    JoinedReadsAlike(pieces);
    assert pieces[..|pieces|] == pieces;
    AcrossLineFeed(Joined(pieces), Together(pieces), "");
    assert Joined(pieces) + "\n" + "" == Joined(pieces) + "\n" && Together(pieces) + "" == Together(pieces);
  }

  // ---------------------------------------------------------------- telling depths apart

  /** A depth a scan can reach. */
  predicate IsDepth(d: Depth) {
    d.escaped ==> d.quoted
  }

  /** `square` and `curly` closing brackets. */
  function Closers(square: nat, curly: nat): string {
    if curly > 0 then Closers(square, curly - 1) + "}"
    else if square > 0 then Closers(square - 1, curly) + "]"
    else ""
  }

  lemma ConsumeFirst(d: Depth, c: char, s: string)
    ensures Consume(d, [c] + s) == if Next(d, c).None? then None else Consume(Next(d, c).value, s)
  {
    ConsumeConcat(d, [c], s);
    ConsumeOne(d, c);
  }

  lemma ConsumeNothing(d: Depth)
    ensures Consume(d, "") == Some(d)
  {
  }

  lemma ConsumeLast(d: Depth, s: string, c: char)
    ensures Consume(d, s + [c]) == if Consume(d, s).None? then None else Next(Consume(d, s).value, c)
  {
    assert (s + [c])[..|s|] == s;
  }

  /** Outside a string the closing brackets count down, inside they are swallowed. */
  lemma {:induction false} ClosersFrom(d: Depth, square: nat, curly: nat)
    requires IsDepth(d)
    ensures d.quoted ==> Consume(d, Closers(square, curly)).Some? && Consume(d, Closers(square, curly)).value.quoted
    ensures !d.quoted ==>
              Consume(d, Closers(square, curly)) ==
              if square <= d.square && curly <= d.curly
              then Some(d.(square := d.square - square, curly := d.curly - curly)) else None
    decreases square + curly
  {
    hide Consume;
    if curly > 0 {
      ClosersFrom(d, square, curly - 1);
      ConsumeLast(d, Closers(square, curly - 1), '}');
    } else if square > 0 {
      ClosersFrom(d, square - 1, curly);
      ConsumeLast(d, Closers(square - 1, curly), ']');
    } else {
      assert Consume(d, "") == Some(d) by { ConsumeNothing(d); }
    }
  }

  ghost predicate Ends(d: Depth, s: string) {
    Consume(d, s).Some? && IsClosed(Consume(d, s).value)
  }

  /** A continuation that ends the value at depth `d` and does not end it at depth `e`. */
  function Telling(d: Depth, e: Depth): string {
    if !d.quoted then Closers(d.square, d.curly)
    else if !d.escaped then ['"'] + Closers(d.square, d.curly)
    else if e.quoted && !e.escaped then ['"'] + (['"'] + Closers(d.square, d.curly))
    else ['x'] + (['"'] + Closers(d.square, d.curly))
  }

  /** Two different depths are told apart by how a value can end. */
  lemma DepthsTellApart(d: Depth, e: Depth)
    requires IsDepth(d) && IsDepth(e) && d != e
    ensures Ends(d, Telling(d, e)) && !Ends(e, Telling(d, e))
  {
    hide Consume, Closers;
    var closers := Closers(d.square, d.curly);
    forall f: Depth, c: char, s: string
      ensures Consume(f, [c] + s) == if Next(f, c).None? then None else Consume(Next(f, c).value, s)
    {
      ConsumeFirst(f, c, s);
    }
    forall f: Depth | IsDepth(f)
      ensures Ends(f, closers) <==> !f.quoted && f.square == d.square && f.curly == d.curly
    {
      ClosersFrom(f, d.square, d.curly);
    }
  }

  /** One line with nothing to strip. */
  ghost predicate IsLine(s: string) {
    OneLine(s) && Trimmed(s)
  }

  lemma {:induction false} ClosersAreALine(square: nat, curly: nat)
    ensures forall k :: 0 <= k < |Closers(square, curly)| ==> Closers(square, curly)[k] in {']', '}'}
    decreases square + curly
  {
    if curly > 0 { ClosersAreALine(square, curly - 1); } else if square > 0 { ClosersAreALine(square - 1, curly); }
  }

  lemma TellingIsALine(d: Depth, e: Depth)
    ensures IsLine(Telling(d, e))
  {
    ClosersAreALine(d.square, d.curly);
    var s := Telling(d, e);
    assert forall k :: 0 <= k < |s| ==> s[k] in {']', '}', '"', 'x'};
  }

  // ---------------------------------------------------------------- when the yielded value balances

  lemma DepthIsDepth(s: string)
    requires Consume(LEVEL, s).Some?
    ensures IsDepth(Consume(LEVEL, s).value)
  {
    DepthDescribes(s);
  }

  lemma BalancedAfter(s: string, next: string)
    ensures Balanced(s + next) <==> Consume(LEVEL, s).Some? && Ends(Consume(LEVEL, s).value, next)
  {
    ClosesIsBalanced(s + next);
    ConsumeConcat(LEVEL, s, next);
  }

  /** Every line that ends the value, whose lines so far are `pieces`, makes the yielded text balance. */
  ghost predicate AlwaysBalances(pieces: seq<string>) {
    forall next :: IsLine(next) && Balanced(Together(pieces + [next])) ==> Balanced(Joined(pieces + [next]))
  }

  lemma OtherDepth(s: string, d: Depth, e: Depth)
    requires IsDepth(d) && Consume(LEVEL, s) != Some(d)
    requires e == if Consume(LEVEL, s).Some? then Consume(LEVEL, s).value else d.(square := d.square + 1)
    ensures IsDepth(e) && d != e
  {
    if Consume(LEVEL, s).Some? { DepthIsDepth(s); }
  }

  /** Joining an open value to its last line is safe for every last line exactly when the joined text and a line feed
      are read to the same depth as the lines themselves. */
  lemma JoiningIsSafe(pieces: seq<string>, d: Depth)
    requires pieces != [] && Consume(LEVEL, Together(pieces)) == Some(d)
    ensures AlwaysBalances(pieces) <==> Consume(LEVEL, Joined(pieces) + "\n") == Some(d)
    ensures (forall next :: Balanced(Together(pieces) + next) ==> Balanced(Joined(pieces) + "\n" + next))
            <==> Consume(LEVEL, Joined(pieces) + "\n") == Some(d)
  {
    hide Balanced, Together, Joined, Consume, Telling, IsLine, IsDepth, Ends;
    var joined := Joined(pieces) + "\n";
    forall next
      ensures Together(pieces + [next]) == Together(pieces) + next && Joined(pieces + [next]) == joined + next
      ensures Balanced(Together(pieces) + next) <==> Ends(d, next)
      ensures Balanced(joined + next) <==> Consume(LEVEL, joined).Some? && Ends(Consume(LEVEL, joined).value, next)
    {
      TogetherMore(pieces, next);
      BalancedAfter(Together(pieces), next);
      BalancedAfter(joined, next);
    }
    if Consume(LEVEL, joined) != Some(d) {
      var e := if Consume(LEVEL, joined).Some? then Consume(LEVEL, joined).value else d.(square := d.square + 1);
      assert IsDepth(d) by { DepthIsDepth(Together(pieces)); }
      assert IsDepth(e) && d != e by { OtherDepth(joined, d, e); }
      var next := Telling(d, e);
      DepthsTellApart(d, e);
      TellingIsALine(d, e);
      assert Balanced(Together(pieces + [next])) && !Balanced(Joined(pieces + [next]));
    }
  }

  /** For the first line of a value the condition is that it does not end in an open escape. */
  lemma FirstJoinIsSafe(first: string)
    requires NeverNegative(first)
    ensures AlwaysBalances([first]) <==> !EndsEscaped(first)
    ensures (forall next :: Balanced(first + next) ==> Balanced(first + "\n" + next)) <==> !EndsEscaped(first)
  {
    hide AlwaysBalances, Consume, Balanced;
    ScanSucceeds(first);
    DepthDescribes(first);
    OnePiece(first);
    var d := Consume(LEVEL, first).value;
    JoiningIsSafe([first], d);
    ConsumeConcat(LEVEL, first, "\n");
    ConsumeOne(d, '\n');
    LineFeedIsNeutral(d);
  }

  /** A value of one line balances as it is yielded. One of several lines does when the lines before its last were
      safe to join; otherwise another last line would have given a text that does not. */
  lemma ValueBalances(lines: seq<string>, i: nat, pieces: seq<string>, e: Entry)
    requires MadeOf(lines, i, pieces, e)
    ensures |pieces| == 1 ==> Balanced(e.value)
    ensures |pieces| > 1 ==>
              var before := pieces[..|pieces| - 1];
              var safe := Consume(LEVEL, Joined(before) + "\n") == Consume(LEVEL, Together(before));
              && (AlwaysBalances(before) <==> safe)
              && (safe ==> Balanced(e.value))
    ensures (forall j :: 0 < j < |pieces| ==> !EndsEscaped(Together(pieces[..j]))) ==> Balanced(e.value)
  {
    hide Balanced, AlwaysBalances, Consume;
    if |pieces| == 1 {
      assert pieces == [pieces[0]];
      OnePiece(pieces[0]);
    } else {
      var (before, last) := (pieces[..|pieces| - 1], pieces[|pieces| - 1]);
      assert pieces == before + [last];
      TogetherMore(before, last);
      BalancedAfter(Together(before), last);
      BalancedAfter(Joined(before) + "\n", last);
      JoiningIsSafe(before, Consume(LEVEL, Together(before)).value);
      if forall j :: 0 < j < |pieces| ==> !EndsEscaped(Together(pieces[..j])) {
        forall j | 0 < j <= |before| ensures !EndsEscaped(Together(before[..j])) {
          assert before[..j] == pieces[..j];
        }
        NoOpenEscapeIsSafe(before);
      }
    }
  }

  lemma KeyIsPlain()
    ensures "a = \"x\\" == "a" + " = " + "\"x\\" && '=' !in "a"
  {
  }

  lemma EntryOfTwoLines(lines: seq<string>, opening: string, value: string)
    requires |lines| == 2 && Strip(lines[0]) == lines[0] && Strip(lines[1]) == lines[1] && '=' in lines[0]
    requires KeyAndValue(lines[0]) == ("a", opening) && value == opening + "\n" + lines[1]
    requires Consume(LEVEL, opening).Some? && !IsClosed(Consume(LEVEL, opening).value)
    requires Ends(Consume(LEVEL, opening).value, lines[1])
    ensures Assignment(lines, 0, "") == Ok((2, Entry("", "a", value)))
  {
    hide Strip, KeyAndValue, Consume;
    var d := Consume(LEVEL, opening).value;
    assert Gather(lines, 1, value, Consume(d, lines[1]).value) == Ok((1, value));
    assert Gather(lines, 0, opening, d) == Ok((1, value));
  }

  lemma TwoLines(first: string, last: string)
    requires OneLine(first) && OneLine(last)
    ensures SplitLines(first + "\n" + (last + "\n")) == [first, last]
  {
    hide OneLine, SplitLines;
    assert [first, last][1..] == [last] && [last][1..] == [];
    SplittingUndoesWriting([first, last]);
    assert Unlines([]) == "";
    assert Unlines([last]) == last + "\n";
  }

  lemma DepthsOfTheLines()
    ensures Consume(LEVEL, "\"x\\") == Some(Depth(true, true, 0, 0))
    ensures Consume(Depth(true, true, 0, 0), "\"\"") == Some(LEVEL)
    ensures Consume(LEVEL, "\"x\\\n\"\"") == Some(Depth(true, false, 0, 0))
  {
    var quote: string := "\"";
    assert quote[..0] == "" && "\"\""[..1] == quote;
    assert "\"x"[..1] == quote && "\"x\\"[..2] == "\"x" && "\"x\\\n"[..3] == "\"x\\";
    assert "\"x\\\n\""[..4] == "\"x\\\n" && "\"x\\\n\"\""[..5] == "\"x\\\n\"";
  }

  /** After `a = "x\` the line `""` ends the value, and the text yielded for it does not balance. */
  lemma YieldedTextCanBeUnbalanced()
    ensures var (st, failure) := Read(SplitLines("a = \"x\\\n\"\"\n"), 0, START);
            && failure.None? && st.yielded == [Entry("", "a", "\"x\\\n\"\"")]
            && !Balanced(st.yielded[0].value)
  {
    hide Read, SplitLines, Strip, KeyAndValue, Consume, Balanced;
    var (first, last, key, opening) := ("a = \"x\\", "\"\"", "a", "\"x\\");
    assert first + "\n" + (last + "\n") == "a = \"x\\\n\"\"\n";
    TwoLines(first, last);
    var lines := [first, last];
    assert first == key + " = " + opening && '=' !in key by { KeyIsPlain(); }
    SplitsIntoKeyAndValue(key, opening);
    assert last == "" + last + "";
    StripPadded("", last, "");
    DepthsOfTheLines();
    var value := opening + "\n" + last;
    assert value == "\"x\\\n\"\"";
    EntryOfTwoLines(lines, opening, value);
    ReadOn(lines, 0, START);
    ReadDone(lines, 2, START.(yielded := START.yielded + [Entry("", "a", value)]));
    ClosesIsBalanced(value);
  }
}
