/** Reading `Cargo.lock` (cli/ci/dependency_evidence.py). */
module CargoLock {
  import opened Wrappers
  import opened Text
  import opened Lines

  const MAX_PACKAGES := 16_384

  datatype Package = Package(name: Option<string>, version: Option<string>, source: Option<string>,
                             checksum: Option<string>, dependencies: Option<seq<string>>)

  const NOTHING := Package(None, None, None, None, None)

  datatype Malformed =
    | InvalidString
    | UnterminatedArray
    | TextAfterArray
    | NoOpeningBracket // `str.index` raises
    | UnsupportedArraySyntax
    | TooManyPackages
    | UnexpectedContent
    | InvalidField
    | UnsupportedField(key: string)
    | DuplicateField(key: string)
    | UnsupportedLockVersion
    | NoPackages

  /** `json.loads` of one value, if it gives a string. */
  type Decoder = string -> Option<string>

  // ---------------------------------------------------------------- arrays of strings

  /** Just after the quote that closes a literal being read at `i`. */
  function Closing(s: string, i: nat): (r: Option<nat>)
    requires i <= |s|
    ensures r.Some? ==> i < r.value <= |s|
    decreases |s| - i
  {
    if i == |s| then None
    else if s[i] == '"' then Some(i + 1)
    else if s[i] == '\\' then
      if i + 1 < |s| && s[i + 1] != '\n' then Closing(s, i + 2) else None
    else Closing(s, i + 1)
  }

  function LiteralLength(s: string): (r: Option<nat>)
    ensures r.Some? ==> 0 < r.value <= |s|
  {
    if s != "" && s[0] == '"' then Closing(s, 1) else None
  }

  /** The string literals in `s`, from left to right. */
  function Literals(s: string): seq<string>
    decreases |s|
  {
    if s == "" then []
    else match LiteralLength(s)
      case Some(n) => [s[..n]] + Literals(s[n..])
      case None => Literals(s[1..])
  }

  /** What is left of `s` without them. */
  function Residue(s: string): string
    decreases |s|
  {
    if s == "" then ""
    else match LiteralLength(s)
      case Some(n) => Residue(s[n..])
      case None => [s[0]] + Residue(s[1..])
  }

  function WithoutCommas(s: string): string {
    if s == "" then "" else (if s[0] == ',' then "" else [s[0]]) + WithoutCommas(s[1..])
  }

  function DecodeAll(decode: Decoder, literals: seq<string>): Result<seq<string>, Malformed> {
    if literals == [] then Ok([])
    else
      var first := decode(literals[0]);
      if first.None? then Err(InvalidString)
      else
        var rest := DecodeAll(decode, literals[1..]);
        if rest.Err? then rest else Ok([first.value] + rest.value)
  }

  /** The strings between the brackets. */
  function Elements(decode: Decoder, inner: string): Result<seq<string>, Malformed> {
    var values := DecodeAll(decode, Literals(inner));
    if values.Err? then values
    else if Strip(WithoutCommas(Residue(inner))) != "" then Err(UnsupportedArraySyntax)
    else values
  }

  /** The array's text up to the line that closes it, and that line. */
  function Assemble(lines: seq<string>, i: nat, assembled: string): Result<(string, nat), Malformed>
    requires i < |lines|
    decreases |lines| - i
  {
    if ']' in assembled then Ok((assembled, i))
    else if i + 1 >= |lines| then Err(UnterminatedArray)
    else Assemble(lines, i + 1, assembled + "\n" + Strip(lines[i + 1]))
  }

  function ArrayOf(decode: Decoder, assembled: string): Result<seq<string>, Malformed>
    requires ']' in assembled
  {
    var close := IndexOf(assembled, ']').value;
    if Strip(assembled[close + 1..]) != "" then Err(TextAfterArray)
    else
      match IndexOf(assembled, '[')
      case None => Err(NoOpeningBracket)
      case Some(start) => Elements(decode, if start < close then assembled[start + 1..close] else "")
  }

  lemma {:induction false} AssembleForward(lines: seq<string>, i: nat, assembled: string)
    requires i < |lines| && Assemble(lines, i, assembled).Ok?
    ensures var (text, last) := Assemble(lines, i, assembled).value;
            ']' in text && i <= last < |lines|
    decreases |lines| - i
  {
    if ']' !in assembled {
      AssembleForward(lines, i + 1, assembled + "\n" + Strip(lines[i + 1]));
    }
  }

  function StringArray(decode: Decoder, lines: seq<string>, i: nat, value: string): (r: Result<(seq<string>, nat), Malformed>)
    requires i < |lines|
    ensures r.Ok? ==> i <= r.value.1 < |lines|
  {
    match Assemble(lines, i, value)
    case Err(error) => Err(error)
    case Ok((text, last)) =>
      AssembleForward(lines, i, value);
      var values := ArrayOf(decode, text);
      if values.Err? then Err(values.error) else Ok((values.value, last))
  }

  lemma AssembleForwardIf(lines: seq<string>, i: nat, value: string)
    requires i < |lines|
    ensures Assemble(lines, i, value).Ok? ==>
              && ']' in Assemble(lines, i, value).value.0
              && i <= Assemble(lines, i, value).value.1 < |lines|
  {
    if Assemble(lines, i, value).Ok? {
      AssembleForward(lines, i, value);
    }
  }

  method ParseStringArray(decode: Decoder, lines: seq<string>, start: nat, value: string)
    returns (r: Result<(seq<string>, nat), Malformed>)
    requires start < |lines|
    ensures r == StringArray(decode, lines, start, value)
  {
    var assembled, index := value, start;
    AssembleForwardIf(lines, start, value);
    while ']' !in assembled
      invariant start <= index < |lines|
      invariant Assemble(lines, start, value) == Assemble(lines, index, assembled)
      decreases |lines| - index
    {
      index := index + 1;
      if index >= |lines| {
        return Err(UnterminatedArray);
      }
      assembled := assembled + "\n" + Strip(lines[index]);
    }
    var values := ArrayOf(decode, assembled);
    if values.Err? {
      return Err(values.error);
    }
    return Ok((values.value, index));
  }

  // ---------------------------------------------------------------- the lock file

  datatype State = State(version: Option<nat>, packages: seq<Package>, current: Option<Package>)

  const START := State(None, [], None)

  /** `re.fullmatch(r"version\s*=\s*([0-9]+)", line)` */
  function VersionOf(line: string): Option<nat> {
    if !At(line, 0, "version") then None
    else
      var rest := StripLeft(line[7..]);
      if rest == "" || rest[0] != '=' then None
      else
        var digits := StripLeft(rest[1..]);
        if digits != "" && IsDecimal(digits) then Some(DecimalValue(digits))
        else None
  }

  const STRING_FIELDS := {"name", "version", "source", "checksum"}

  function Field(p: Package, key: string): Option<string>
    requires key in STRING_FIELDS
  {
    if key == "name" then p.name
    else if key == "version" then p.version
    else if key == "source" then p.source
    else p.checksum
  }

  function WithField(p: Package, key: string, value: string): Package
    requires key in STRING_FIELDS
  {
    if key == "name" then p.(name := Some(value))
    else if key == "version" then p.(version := Some(value))
    else if key == "source" then p.(source := Some(value))
    else p.(checksum := Some(value))
  }

  /** The package being read is complete. */
  function Close(st: State): Result<State, Malformed> {
    if st.current.None? then Ok(st)
    else if |st.packages| >= MAX_PACKAGES then Err(TooManyPackages)
    else Ok(st.(packages := st.packages + [st.current.value], current := None))
  }

  function FieldTurn(decode: Decoder, lines: seq<string>, i: nat, p: Package): (r: Result<(nat, Package), Malformed>)
    requires i < |lines|
    ensures r.Ok? ==> i < r.value.0 <= |lines|
  {
    var stripped := Strip(lines[i]);
    if '=' !in stripped then Err(InvalidField)
    else
      var (key, value) := KeyAndValue(stripped);
      if key == "dependencies" then
        if p.dependencies.Some? then Err(DuplicateField(key))
        else
          match StringArray(decode, lines, i, value)
          case Err(error) => Err(error)
          case Ok((values, last)) => Ok((last + 1, p.(dependencies := Some(values))))
      else if key in STRING_FIELDS then
        if Field(p, key).Some? then Err(DuplicateField(key))
        else
          match decode(value)
          case None => Err(InvalidString)
          case Some(text) => Ok((i + 1, WithField(p, key, text)))
      else Err(UnsupportedField(key))
  }

  function Turn(decode: Decoder, lines: seq<string>, i: nat, st: State): (r: Result<(nat, State), Malformed>)
    requires i < |lines|
    ensures r.Ok? ==> i < r.value.0 <= |lines|
  {
    var stripped := Strip(lines[i]);
    if stripped == "" || stripped[0] == '#' then Ok((i + 1, st))
    else if stripped == "[[package]]" then
      match Close(st)
      case Err(error) => Err(error)
      case Ok(closed) => Ok((i + 1, closed.(current := Some(NOTHING))))
    else if st.current.None? then
      var version := VersionOf(stripped);
      if version.None? || st.version.Some? then Err(UnexpectedContent)
      else Ok((i + 1, st.(version := version)))
    else
      match FieldTurn(decode, lines, i, st.current.value)
      case Err(error) => Err(error)
      case Ok((next, p)) => Ok((next, st.(current := Some(p))))
  }

  function Finish(st: State): Result<seq<Package>, Malformed> {
    match Close(st)
    case Err(error) => Err(error)
    case Ok(closed) =>
      if closed.version != Some(4) then Err(UnsupportedLockVersion)
      else if closed.packages == [] then Err(NoPackages)
      else Ok(closed.packages)
  }

  function Read(decode: Decoder, lines: seq<string>, i: nat, st: State): Result<seq<Package>, Malformed>
    decreases |lines| - i
  {
    if i >= |lines| then Finish(st)
    else
      match Turn(decode, lines, i, st)
      case Err(error) => Err(error)
      case Ok((next, st')) => Read(decode, lines, next, st')
  }

  function Parsed(decode: Decoder, text: string): Result<seq<Package>, Malformed> {
    Read(decode, SplitLines(text), 0, START)
  }

  lemma ReadOn(decode: Decoder, lines: seq<string>, i: nat, st: State)
    requires i < |lines|
    ensures Read(decode, lines, i, st) ==
            match Turn(decode, lines, i, st)
            case Err(error) => Err(error)
            case Ok((next, st')) => Read(decode, lines, next, st')
  {
  }

  lemma ReadDone(decode: Decoder, lines: seq<string>, i: nat, st: State)
    requires i >= |lines|
    ensures Read(decode, lines, i, st) == Finish(st)
  {
  }

  method ParseCargoLock(decode: Decoder, text: string) returns (r: Result<seq<Package>, Malformed>)
    ensures r == Parsed(decode, text)
  {
    hide Strip, SplitLines, KeyAndValue, StringArray, VersionOf, Read;
    var lines := SplitLines(text);
    var lock_version: Option<nat> := None;
    var packages: seq<Package> := [];
    var current: Option<Package> := None;
    var index := 0;
    while index < |lines|
      invariant index <= |lines|
      invariant Read(decode, lines, index, State(lock_version, packages, current)) == Read(decode, lines, 0, START)
    {
      ReadOn(decode, lines, index, State(lock_version, packages, current));
      var stripped := Strip(lines[index]);
      if stripped == "" || stripped[0] == '#' {
        index := index + 1;
        continue;
      }
      if stripped == "[[package]]" {
        if current.Some? {
          if |packages| >= MAX_PACKAGES {
            return Err(TooManyPackages);
          }
          packages := packages + [current.value];
        }
        current := Some(NOTHING);
        index := index + 1;
        continue;
      }
      if current.None? {
        var matched := VersionOf(stripped);
        if matched.None? || lock_version.Some? {
          return Err(UnexpectedContent);
        }
        lock_version := matched;
        index := index + 1;
        continue;
      }
      if '=' !in stripped {
        return Err(InvalidField);
      }
      var (key, value) := KeyAndValue(stripped);
      if key !in STRING_FIELDS && key != "dependencies" {
        return Err(UnsupportedField(key));
      }
      if if key == "dependencies" then current.value.dependencies.Some? else Field(current.value, key).Some? {
        return Err(DuplicateField(key));
      }
      if key == "dependencies" {
        var parsed := ParseStringArray(decode, lines, index, value);
        if parsed.Err? {
          return Err(parsed.error);
        }
        current := Some(current.value.(dependencies := Some(parsed.value.0)));
        index := parsed.value.1;
      } else {
        var text := decode(value);
        if text.None? {
          return Err(InvalidString);
        }
        current := Some(WithField(current.value, key, text.value));
      }
      index := index + 1;
    }
    ReadDone(decode, lines, index, State(lock_version, packages, current));
    if current.Some? {
      if |packages| >= MAX_PACKAGES {
        return Err(TooManyPackages);
      }
      packages := packages + [current.value];
    }
    if lock_version != Some(4) {
      return Err(UnsupportedLockVersion);
    }
    if packages == [] {
      return Err(NoPackages);
    }
    return Ok(packages);
  }

  // ---------------------------------------------------------------- printing

  /** A package of a lock file, and whether its dependencies are spread over lines. */
  datatype Printable = Printable(name: string, version: string, source: Option<string>, checksum: Option<string>,
                                 dependencies: Option<seq<string>>, spread: bool)

  function PackageOf(p: Printable): Package {
    Package(Some(p.name), Some(p.version), p.source, p.checksum, p.dependencies)
  }

  /** No quote, no backslash, no control character and nothing that ends a line. */
  predicate PlainCharacter(c: char) {
    c != '"' && c != '\\' && c >= ' ' && !IsBreak(c)
  }

  predicate Plain(s: string) {
    forall i :: 0 <= i < |s| ==> PlainCharacter(s[i])
  }

  predicate PlainDependency(s: string) {
    Plain(s) && ']' !in s
  }

  predicate CanBePrinted(p: Printable) {
    && Plain(p.name) && Plain(p.version)
    && (p.source.Some? ==> Plain(p.source.value))
    && (p.checksum.Some? ==> Plain(p.checksum.value))
    && (p.dependencies.Some? ==> forall i :: 0 <= i < |p.dependencies.value| ==> PlainDependency(p.dependencies.value[i]))
  }

  /** A JSON decoder takes the quotes off a plain string. */
  ghost predicate DecodesPlain(decode: Decoder) {
    forall s :: Plain(s) ==> decode(Quoted(s)) == Some(s)
  }

  function InOneLine(dependencies: seq<string>): string {
    if dependencies == [] then ""
    else Quoted(dependencies[0]) + (if |dependencies| == 1 then "" else ", ") + InOneLine(dependencies[1..])
  }

  function DependencyLines(dependencies: seq<string>): seq<string> {
    if dependencies == [] then ["]"]
    else [" " + Quoted(dependencies[0]) + ","] + DependencyLines(dependencies[1..])
  }

  function DependenciesField(dependencies: seq<string>, spread: bool): seq<string> {
    if spread then ["dependencies = ["] + DependencyLines(dependencies)
    else ["dependencies" + " = " + ("[" + InOneLine(dependencies) + "]")]
  }

  function FieldLine(key: string, value: string): string {
    key + " = " + Quoted(value)
  }

  function OptionalField(key: string, value: Option<string>): seq<string> {
    if value.None? then [] else [FieldLine(key, value.value)]
  }

  function Block(p: Printable): seq<string> {
    ["[[package]]", FieldLine("name", p.name), FieldLine("version", p.version)]
    + OptionalField("source", p.source)
    + OptionalField("checksum", p.checksum)
    + (if p.dependencies.None? then [] else DependenciesField(p.dependencies.value, p.spread))
    + [""]
  }

  function Blocks(packages: seq<Printable>): seq<string> {
    if packages == [] then [] else Block(packages[0]) + Blocks(packages[1..])
  }

  /** A lock file of version 4, after some comment lines. */
  function Printed(comments: seq<string>, packages: seq<Printable>): string {
    Unlines(comments + ["version = 4", ""] + Blocks(packages))
  }

  // ---------------------------------------------------------------- the array text

  predicate Separators(s: string) {
    forall i :: 0 <= i < |s| ==> s[i] == ',' || IsSpace(s[i])
  }

  /** The quoted strings in order, with nothing but commas and spaces around them. */
  ghost predicate Spells(inner: string, values: seq<string>)
    decreases |values|
  {
    if values == [] then Separators(inner)
    else exists lead, rest ::
      && Separators(lead) && inner == lead + Quoted(values[0]) + rest
      && Spells(rest, values[1..])
  }

  lemma {:induction false} ClosingPlain(s: string, i: nat, n: nat)
    requires i <= n < |s| && s[n] == '"' && forall k :: i <= k < n ==> PlainCharacter(s[k])
    ensures Closing(s, i) == Some(n + 1)
    decreases n - i
  {
    if i < n {
      ClosingPlain(s, i + 1, n);
    }
  }

  lemma QuotedIsALiteral(body: string, rest: string)
    requires Plain(body)
    ensures var s := Quoted(body) + rest;
            Literals(s) == [Quoted(body)] + Literals(rest) && Residue(s) == Residue(rest)
  {
    var s := Quoted(body) + rest;
    forall k | 1 <= k < |body| + 1 ensures PlainCharacter(s[k]) {
      assert s[k] == body[k - 1];
    }
    ClosingPlain(s, 1, |body| + 1);
    var n := |Quoted(body)|;
    assert LiteralLength(s) == Some(n) && s[..n] == Quoted(body) && s[n..] == rest;
  }

  lemma {:induction false} OverSeparators(lead: string, rest: string)
    requires Separators(lead)
    ensures Literals(lead + rest) == Literals(rest) && Residue(lead + rest) == lead + Residue(rest)
    decreases |lead|
  {
    if lead == "" {
      assert lead + rest == rest;
    } else {
      assert (lead + rest)[1..] == lead[1..] + rest;
      OverSeparators(lead[1..], rest);
    }
  }

  lemma {:induction false} BlankResidue(s: string)
    requires Separators(s)
    ensures StripLeft(WithoutCommas(s)) == ""
  {
    if s != "" {
      BlankResidue(s[1..]);
      assert ([s[0]] + WithoutCommas(s[1..]))[1..] == WithoutCommas(s[1..]);
      assert "" + WithoutCommas(s[1..]) == WithoutCommas(s[1..]);
    }
  }

  lemma NoLiterals()
    ensures Literals("") == [] && Residue("") == ""
  {
  }

  lemma {:induction false} SpelledIsRead(decode: Decoder, inner: string, values: seq<string>)
    requires Spells(inner, values) && DecodesPlain(decode)
    requires forall i :: 0 <= i < |values| ==> Plain(values[i])
    ensures DecodeAll(decode, Literals(inner)) == Ok(values) && Separators(Residue(inner))
    decreases |values|
  {
    hide Plain, Quoted, LiteralLength, Literals, Residue;
    assert Literals("") == [] && Residue("") == "" by { NoLiterals(); }
    if values == [] {
      OverSeparators(inner, "");
      assert inner + "" == inner;
    } else {
      var lead, rest :| Separators(lead) && inner == lead + Quoted(values[0]) + rest && Spells(rest, values[1..]);
      SpelledIsRead(decode, rest, values[1..]);
      Associative(lead, Quoted(values[0]), rest);
      OverSeparators(lead, Quoted(values[0]) + rest);
      QuotedIsALiteral(values[0], rest);
      var literals := Literals(inner);
      assert literals[0] == Quoted(values[0]) && literals[1..] == Literals(rest);
      assert values == [values[0]] + values[1..];
    }
  }

  /** Any array text that spells the strings is read as them. */
  lemma ElementsOfSpelled(decode: Decoder, inner: string, values: seq<string>)
    requires Spells(inner, values) && DecodesPlain(decode)
    requires forall i :: 0 <= i < |values| ==> Plain(values[i])
    ensures Elements(decode, inner) == Ok(values)
  {
    SpelledIsRead(decode, inner, values);
    BlankResidue(Residue(inner));
  }

  lemma SpellsMore(lead: string, value: string, rest: string, values: seq<string>)
    requires Separators(lead) && Spells(rest, values)
    ensures Spells(lead + Quoted(value) + rest, [value] + values)
  {
    assert ([value] + values)[1..] == values;
  }

  lemma LeadingSeparators(lead: string, inner: string, values: seq<string>)
    requires Separators(lead) && Spells(inner, values)
    ensures Spells(lead + inner, values)
  {
    hide Quoted;
    if values != [] {
      var lead', rest :| Separators(lead') && inner == lead' + Quoted(values[0]) + rest && Spells(rest, values[1..]);
      Associative(lead', Quoted(values[0]), rest);
      assert lead + inner == (lead + lead') + Quoted(values[0]) + rest;
      assert Separators(lead + lead');
    }
  }

  lemma SeparatorsAre()
    ensures Separators("") && Separators(", ") && Separators("\n") && Separators(",")
  {
  }

  lemma {:induction false} InOneLineSpells(values: seq<string>)
    ensures Spells(InOneLine(values), values)
  {
    hide Quoted, Separators;
    assert Separators("") && Separators(", ") by { SeparatorsAre(); }
    if values != [] {
      var rest := InOneLine(values[1..]);
      var comma := if |values| == 1 then "" else ", ";
      InOneLineSpells(values[1..]);
      LeadingSeparators(comma, rest, values[1..]);
      SpellsMore("", values[0], comma + rest, values[1..]);
      Associative(Quoted(values[0]), comma, rest);
      assert "" + Quoted(values[0]) + (comma + rest) == InOneLine(values);
      assert [values[0]] + values[1..] == values;
    }
  }

  /** The array text of a spread array, between its brackets. */
  function SpreadText(values: seq<string>): string {
    if values == [] then "\n" else "\n" + Quoted(values[0]) + "," + SpreadText(values[1..])
  }

  lemma {:induction false} SpreadSpells(values: seq<string>)
    ensures Spells(SpreadText(values), values)
  {
    hide Quoted, Separators;
    assert Separators("\n") && Separators(",") by { SeparatorsAre(); }
    if values != [] {
      var rest := SpreadText(values[1..]);
      SpreadSpells(values[1..]);
      LeadingSeparators(",", rest, values[1..]);
      SpellsMore("\n", values[0], "," + rest, values[1..]);
      Associative("\n" + Quoted(values[0]), ",", rest);
      assert [values[0]] + values[1..] == values;
    }
  }

  lemma Without(c: char, a: string, b: string)
    ensures c !in a + b <==> c !in a && c !in b
  {
    forall i | 0 <= i < |a| ensures a[i] in a + b { assert (a + b)[i] == a[i]; }
    forall i | 0 <= i < |b| ensures b[i] in a + b { assert (a + b)[|a| + i] == b[i]; }
  }

  ghost predicate PlainDependencies(values: seq<string>) {
    forall i :: 0 <= i < |values| ==> PlainDependency(values[i])
  }

  lemma QuotedDependency(value: string)
    requires PlainDependency(value)
    ensures ']' !in Quoted(value)
  {
    Without(']', "\"", value);
    Without(']', "\"" + value, "\"");
  }

  lemma {:induction false} TextsWithoutBracket(values: seq<string>)
    requires PlainDependencies(values)
    ensures ']' !in InOneLine(values) && ']' !in SpreadText(values)
    decreases |values|
  {
    hide Quoted, PlainDependency;
    if values != [] {
      var quoted, comma := Quoted(values[0]), if |values| == 1 then "" else ", ";
      TextsWithoutBracket(values[1..]);
      QuotedDependency(values[0]);
      Without(']', quoted, comma);
      Without(']', quoted + comma, InOneLine(values[1..]));
      Without(']', "\n", quoted);
      Without(']', "\n" + quoted, ",");
      Without(']', "\n" + quoted + ",", SpreadText(values[1..]));
    }
  }

  lemma ArrayOfBracketed(decode: Decoder, inner: string, values: seq<string>)
    requires ']' !in inner && Spells(inner, values) && DecodesPlain(decode) && PlainDependencies(values)
    ensures var text := "[" + inner + "]";
            ']' in text && ArrayOf(decode, text) == Ok(values)
  {
    hide Spells, Elements, DecodesPlain, Plain;
    var text, before := "[" + inner + "]", "[" + inner;
    assert text == before + [']'] + "" && text[|before|] == ']';
    Without(']', "[", inner);
    FirstIndex(before, ']', "");
    assert text == "" + ['['] + (inner + "]");
    FirstIndex("", '[', inner + "]");
    assert text[|before| + 1..] == "" && text[1..|before|] == inner;
    ElementsOfSpelled(decode, inner, values);
  }

  // ---------------------------------------------------------------- reading what was printed

  ghost predicate Stand(lines: seq<string>, i: nat, part: seq<string>) {
    && i + |part| <= |lines|
    && forall k {:trigger part[k]} :: 0 <= k < |part| ==> lines[i + k] == part[k]
  }

  lemma StandConcat(lines: seq<string>, i: nat, a: seq<string>, b: seq<string>)
    ensures Stand(lines, i, a + b) <==> Stand(lines, i, a) && Stand(lines, i + |a|, b)
  {
    var ab := a + b;
    if Stand(lines, i, ab) {
      forall k | 0 <= k < |a| ensures lines[i + k] == a[k] { assert ab[k] == a[k]; }
      forall k | 0 <= k < |b| ensures lines[i + |a| + k] == b[k] { assert ab[|a| + k] == b[k]; }
    }
  }

  lemma SpreadNothing()
    ensures SpreadText([]) == "\n"
  {
  }

  lemma SpreadTextAfter(assembled: string, values: seq<string>)
    requires values != []
    ensures assembled + "\n" + (Quoted(values[0]) + ",") + SpreadText(values[1..]) == assembled + SpreadText(values)
  {
    hide Quoted;
    var (quoted, rest) := (Quoted(values[0]), SpreadText(values[1..]));
    assert SpreadText(values) == "\n" + quoted + "," + rest;
    Associative("\n", quoted, ",");
    Associative("\n", quoted + ",", rest);
    Associative(assembled, "\n", (quoted + ",") + rest);
    Associative(assembled + "\n", quoted + ",", rest);
  }

  lemma StripDependency(value: string)
    ensures Strip(" " + Quoted(value) + ",") == Quoted(value) + ","
  {
    var item := Quoted(value) + ",";
    assert " " + Quoted(value) + "," == " " + item + "";
    StripPadded(" ", item, "");
  }

  lemma {:induction false} AssembleSpread(lines: seq<string>, i: nat, assembled: string, values: seq<string>)
    requires i < |lines| && Stand(lines, i + 1, DependencyLines(values)) && ']' !in assembled && PlainDependencies(values)
    ensures Assemble(lines, i, assembled) == Ok((assembled + SpreadText(values) + "]", i + |values| + 1))
    decreases |values|
  {
    hide Quoted, PlainDependency, Strip, SpreadText;
    assert SpreadText([]) == "\n" by { SpreadNothing(); }
    var part := DependencyLines(values);
    assert lines[i + 1] == part[0];
    if values == [] {
      assert "]" == "" + "]" + "";
      StripPadded("", "]", "");
      var text := assembled + "\n" + "]";
      assert text[|text| - 1] == ']';
    } else {
      var first, rest := [part[0]], DependencyLines(values[1..]);
      var item := Quoted(values[0]) + ",";
      assert part == first + rest;
      StandConcat(lines, i + 1, first, rest);
      StripDependency(values[0]);
      QuotedDependency(values[0]);
      var more := assembled + "\n" + item;
      Without(']', Quoted(values[0]), ",");
      Without(']', assembled, "\n");
      Without(']', assembled + "\n", item);
      AssembleSpread(lines, i + 1, more, values[1..]);
      SpreadTextAfter(assembled, values);
    }
  }

  lemma {:induction false} DependencyLineCount(values: seq<string>)
    ensures |DependencyLines(values)| == |values| + 1
  {
    if values != [] {
      DependencyLineCount(values[1..]);
    }
  }

  lemma DependenciesValue(decode: Decoder, lines: seq<string>, i: nat, values: seq<string>, spread: bool)
    requires Stand(lines, i, DependenciesField(values, spread)) && DecodesPlain(decode) && PlainDependencies(values)
    ensures |DependenciesField(values, spread)| >= 1
    ensures var value := if spread then "[" else "[" + InOneLine(values) + "]";
            StringArray(decode, lines, i, value) == Ok((values, i + |DependenciesField(values, spread)| - 1))
  {
    hide DecodesPlain, PlainDependency, ArrayOf, Spells;
    TextsWithoutBracket(values);
    if spread {
      var first, rest := ["dependencies = ["], DependencyLines(values);
      StandConcat(lines, i, first, rest);
      DependencyLineCount(values);
      AssembleSpread(lines, i, "[", values);
      SpreadSpells(values);
      ArrayOfBracketed(decode, SpreadText(values), values);
    } else {
      InOneLineSpells(values);
      ArrayOfBracketed(decode, InOneLine(values), values);
    }
  }

  lemma KeysAreKeys(key: string)
    requires key in STRING_FIELDS || key == "dependencies"
    ensures key != "" && Trimmed(key) && '=' !in key && key[0] != '#' && key[0] != '['
  {
  }

  lemma KeyTurn(decode: Decoder, lines: seq<string>, i: nat, st: State, key: string, value: string)
    requires i < |lines| && lines[i] == key + " = " + value && st.current.Some?
    requires (key in STRING_FIELDS || key == "dependencies") && value != "" && Trimmed(value)
    ensures Strip(lines[i]) == lines[i] && '=' in lines[i] && KeyAndValue(lines[i]) == (key, value)
    ensures Turn(decode, lines, i, st) ==
            match FieldTurn(decode, lines, i, st.current.value)
            case Err(error) => Err(error)
            case Ok((next, p)) => Ok((next, st.(current := Some(p))))
  {
    hide FieldTurn, VersionOf, Strip, KeyAndValue;
    KeysAreKeys(key);
    SplitsIntoKeyAndValue(key, value);
    assert lines[i][0] == key[0];
  }

  function SetField(p: Package, key: string, value: Option<string>): Package
    requires key in STRING_FIELDS
  {
    if value.None? then p else WithField(p, key, value.value)
  }

  lemma FieldRead(decode: Decoder, lines: seq<string>, i: nat, st: State, key: string, value: Option<string>)
    requires Stand(lines, i, OptionalField(key, value)) && st.current.Some? && DecodesPlain(decode)
    requires key in STRING_FIELDS && Field(st.current.value, key).None? && (value.Some? ==> Plain(value.value))
    ensures Read(decode, lines, i, st) ==
            Read(decode, lines, i + |OptionalField(key, value)|,
                 st.(current := Some(SetField(st.current.value, key, value))))
  {
    hide Strip, KeyAndValue, Turn, Plain, Read;
    if value.Some? {
      assert lines[i] == OptionalField(key, value)[0];
      KeyTurn(decode, lines, i, st, key, Quoted(value.value));
      ReadOn(decode, lines, i, st);
      assert decode(Quoted(value.value)) == value;
    }
  }

  lemma FirstOfField(values: seq<string>, spread: bool)
    ensures |DependenciesField(values, spread)| >= 1
    ensures DependenciesField(values, spread)[0] ==
            "dependencies" + " = " + if spread then "[" else "[" + InOneLine(values) + "]"
  {
  }

  lemma DependenciesRead(decode: Decoder, lines: seq<string>, i: nat, st: State, values: seq<string>, spread: bool)
    requires Stand(lines, i, DependenciesField(values, spread)) && st.current.Some? && DecodesPlain(decode)
    requires PlainDependencies(values) && st.current.value.dependencies.None?
    ensures Read(decode, lines, i, st) ==
            Read(decode, lines, i + |DependenciesField(values, spread)|,
                 st.(current := Some(st.current.value.(dependencies := Some(values)))))
  {
    hide Strip, KeyAndValue, Turn, DecodesPlain, PlainDependencies, Read, StringArray, DependenciesField;
    var value := if spread then "[" else "[" + InOneLine(values) + "]";
    FirstOfField(values, spread);
    assert lines[i] == DependenciesField(values, spread)[0];
    KeyTurn(decode, lines, i, st, "dependencies", value);
    DependenciesValue(decode, lines, i, values, spread);
    ReadOn(decode, lines, i, st);
  }

  lemma HeaderRead(decode: Decoder, lines: seq<string>, i: nat, st: State)
    requires i < |lines| && lines[i] == "[[package]]"
    ensures Read(decode, lines, i, st) ==
            if Close(st).Err? then Err(Close(st).error)
            else Read(decode, lines, i + 1, Close(st).value.(current := Some(NOTHING)))
  {
    hide Strip, KeyAndValue, Read;
    assert "[[package]]" == "" + "[[package]]" + "";
    StripPadded("", "[[package]]", "");
    ReadOn(decode, lines, i, st);
  }

  lemma CommentRead(decode: Decoder, lines: seq<string>, i: nat, st: State)
    requires i < |lines| && (Strip(lines[i]) == "" || Strip(lines[i])[0] == '#')
    ensures Read(decode, lines, i, st) == Read(decode, lines, i + 1, st)
  {
  }

  lemma OneStands(lines: seq<string>, i: nat, line: string)
    requires Stand(lines, i, [line])
    ensures i < |lines| && lines[i] == line
  {
    assert [line][0] == line;
  }

  lemma BlockIs(p: Printable)
    ensures Block(p) ==
            ["[[package]]"] + OptionalField("name", Some(p.name)) + OptionalField("version", Some(p.version))
            + OptionalField("source", p.source) + OptionalField("checksum", p.checksum)
            + (if p.dependencies.None? then [] else DependenciesField(p.dependencies.value, p.spread)) + [""]
  {
    assert ["[[package]]", FieldLine("name", p.name), FieldLine("version", p.version)]
        == ["[[package]]"] + OptionalField("name", Some(p.name)) + OptionalField("version", Some(p.version));
  }

  /** A printed package is read whole. */
  lemma BlockRead(decode: Decoder, lines: seq<string>, i: nat, st: State, p: Printable)
    requires Stand(lines, i, Block(p)) && CanBePrinted(p) && DecodesPlain(decode)
    ensures Read(decode, lines, i, st) ==
            if Close(st).Err? then Err(Close(st).error)
            else Read(decode, lines, i + |Block(p)|, Close(st).value.(current := Some(PackageOf(p))))
  {
    hide Stand, DecodesPlain, Plain, PlainDependency, Read, OptionalField, DependenciesField;
    var header := ["[[package]]"];
    var name, version := OptionalField("name", Some(p.name)), OptionalField("version", Some(p.version));
    var source, checksum := OptionalField("source", p.source), OptionalField("checksum", p.checksum);
    var dependencies := if p.dependencies.None? then [] else DependenciesField(p.dependencies.value, p.spread);
    BlockIs(p);
    StandConcat(lines, i, header + name + version + source + checksum + dependencies, [""]);
    StandConcat(lines, i, header + name + version + source + checksum, dependencies);
    StandConcat(lines, i, header + name + version + source, checksum);
    StandConcat(lines, i, header + name + version, source);
    StandConcat(lines, i, header + name, version);
    StandConcat(lines, i, header, name);
    OneStands(lines, i, "[[package]]");
    HeaderRead(decode, lines, i, st);
    if Close(st).Ok? {
      var st0 := Close(st).value.(current := Some(NOTHING));
      var j := i + 1;
      FieldRead(decode, lines, j, st0, "name", Some(p.name));
      var st1 := st0.(current := Some(NOTHING.(name := Some(p.name))));
      j := j + |name|;
      FieldRead(decode, lines, j, st1, "version", Some(p.version));
      var st2 := st0.(current := Some(Package(Some(p.name), Some(p.version), None, None, None)));
      j := j + |version|;
      FieldRead(decode, lines, j, st2, "source", p.source);
      var st3 := st0.(current := Some(Package(Some(p.name), Some(p.version), p.source, None, None)));
      j := j + |source|;
      FieldRead(decode, lines, j, st3, "checksum", p.checksum);
      var st4 := st0.(current := Some(Package(Some(p.name), Some(p.version), p.source, p.checksum, None)));
      j := j + |checksum|;
      if p.dependencies.Some? {
        DependenciesRead(decode, lines, j, st4, p.dependencies.value, p.spread);
      }
      j := j + |dependencies|;
      OneStands(lines, j, "");
      CommentRead(decode, lines, j, st0.(current := Some(PackageOf(p))));
    }
  }

  function PackagesOf(packages: seq<Printable>): (r: seq<Package>)
    ensures |r| == |packages| && forall i :: 0 <= i < |r| ==> r[i] == PackageOf(packages[i])
  {
    seq(|packages|, i requires 0 <= i < |packages| => PackageOf(packages[i]))
  }

  /** What reading gives for a list of packages. */
  function Listed(packages: seq<Package>): Result<seq<Package>, Malformed> {
    if packages == [] then Err(NoPackages)
    else if |packages| > MAX_PACKAGES then Err(TooManyPackages)
    else Ok(packages)
  }

  function SoFar(st: State): seq<Package> {
    st.packages + if st.current.Some? then [st.current.value] else []
  }

  lemma CloseIs(st: State)
    requires |st.packages| <= MAX_PACKAGES
    ensures Close(st).Err? ==> Close(st).error == TooManyPackages && |SoFar(st)| > MAX_PACKAGES
    ensures Close(st).Ok? ==>
              var closed := Close(st).value;
              && closed.packages == SoFar(st) && |closed.packages| <= MAX_PACKAGES
              && closed.version == st.version && closed.current.None?
  {
  }

  lemma SoFarWith(st: State, p: Printable)
    ensures SoFar(st.(current := Some(PackageOf(p)))) == st.packages + [PackageOf(p)]
  {
  }

  lemma {:induction false} BlocksRead(decode: Decoder, lines: seq<string>, i: nat, st: State, packages: seq<Printable>)
    requires Stand(lines, i, Blocks(packages)) && i + |Blocks(packages)| == |lines| && DecodesPlain(decode)
    requires forall k :: 0 <= k < |packages| ==> CanBePrinted(packages[k])
    requires st.version == Some(4) && |st.packages| <= MAX_PACKAGES
    ensures Read(decode, lines, i, st) == Listed(SoFar(st) + PackagesOf(packages))
    decreases |packages|
  {
    hide Stand, DecodesPlain, CanBePrinted, Read, Block, SoFar, Close;
    CloseIs(st);
    if packages == [] {
      ReadDone(decode, lines, i, st);
      assert SoFar(st) + PackagesOf(packages) == SoFar(st);
    } else {
      var rest := Blocks(packages[1..]);
      StandConcat(lines, i, Block(packages[0]), rest);
      BlockRead(decode, lines, i, st, packages[0]);
      if Close(st).Ok? {
        var st' := Close(st).value.(current := Some(PackageOf(packages[0])));
        BlocksRead(decode, lines, i + |Block(packages[0])|, st', packages[1..]);
        assert SoFar(st') == SoFar(st) + [PackageOf(packages[0])] by { SoFarWith(Close(st).value, packages[0]); }
        assert PackagesOf(packages) == [PackageOf(packages[0])] + PackagesOf(packages[1..]);
        Associative(SoFar(st), [PackageOf(packages[0])], PackagesOf(packages[1..]));
      }
    }
  }

  /** A comment or a blank line. */
  predicate IsComment(line: string) {
    OneLine(line) && (Strip(line) == "" || Strip(line)[0] == '#')
  }

  lemma ACommentIs(line: string)
    requires IsComment(line)
    ensures Strip(line) == "" || Strip(line)[0] == '#'
  {
  }

  lemma {:induction false} CommentsRead(decode: Decoder, lines: seq<string>, i: nat, comments: seq<string>)
    requires Stand(lines, i, comments) && forall k :: 0 <= k < |comments| ==> IsComment(comments[k])
    ensures Read(decode, lines, i, START) == Read(decode, lines, i + |comments|, START)
    decreases |comments|
  {
    hide Stand, IsComment, Read;
    if comments != [] {
      assert comments == [comments[0]] + comments[1..];
      StandConcat(lines, i, [comments[0]], comments[1..]);
      OneStands(lines, i, comments[0]);
      assert Strip(comments[0]) == "" || Strip(comments[0])[0] == '#' by { ACommentIs(comments[0]); }
      CommentRead(decode, lines, i, START);
      CommentsRead(decode, lines, i + 1, comments[1..]);
    }
  }

  lemma VersionFour()
    ensures VersionOf("version = 4") == Some(4)
  {
    var line := "version = 4";
    assert line[7..] == " = 4" && StripLeft(" = 4") == StripLeft("= 4") == "= 4";
    assert "= 4"[1..] == " 4" && StripLeft(" 4") == StripLeft("4") == "4";
    assert "4"[..0] == "" && DecimalValue("") == 0;
    assert DecimalValue("4") == 4;
  }

  lemma VersionRead(decode: Decoder, lines: seq<string>, i: nat)
    requires i < |lines| && lines[i] == "version = 4"
    ensures Read(decode, lines, i, START) == Read(decode, lines, i + 1, START.(version := Some(4)))
  {
    hide Strip, Read;
    var line := "version = 4";
    assert line == "" + line + "";
    StripPadded("", line, "");
    VersionFour();
    ReadOn(decode, lines, i, START);
  }

  ghost predicate AllOneLine(lines: seq<string>) {
    forall i :: 0 <= i < |lines| ==> OneLine(lines[i])
  }

  lemma QuotedLine(before: string, s: string, after: string)
    requires OneLine(before) && Plain(s) && OneLine(after)
    ensures OneLine(before + Quoted(s) + after)
  {
  }

  lemma FieldLines(key: string, value: Option<string>)
    requires key in STRING_FIELDS && (value.Some? ==> Plain(value.value))
    ensures AllOneLine(OptionalField(key, value))
  {
    if value.Some? {
      var before := key + " = ";
      QuotedLine(before, value.value, "");
      assert before + Quoted(value.value) + "" == FieldLine(key, value.value);
    }
  }

  lemma {:induction false} DependencyTexts(values: seq<string>)
    requires PlainDependencies(values)
    ensures OneLine(InOneLine(values)) && AllOneLine(DependencyLines(values))
    decreases |values|
  {
    hide Quoted;
    if values != [] {
      DependencyTexts(values[1..]);
      var comma := if |values| == 1 then "" else ", ";
      QuotedLine("", values[0], comma + InOneLine(values[1..]));
      assert "" + Quoted(values[0]) + (comma + InOneLine(values[1..])) == InOneLine(values);
      QuotedLine(" ", values[0], ",");
    }
  }

  lemma DependenciesLines(values: seq<string>, spread: bool)
    requires PlainDependencies(values)
    ensures AllOneLine(DependenciesField(values, spread))
  {
    DependencyTexts(values);
  }

  lemma HeaderLine()
    ensures OneLine("[[package]]") && OneLine("") && OneLine("version = 4")
  {
  }

  lemma BlockLines(p: Printable)
    requires CanBePrinted(p)
    ensures AllOneLine(Block(p))
  {
    hide OneLine, OptionalField, DependenciesField, Plain, PlainDependency;
    FieldLines("name", Some(p.name));
    FieldLines("version", Some(p.version));
    FieldLines("source", p.source);
    FieldLines("checksum", p.checksum);
    if p.dependencies.Some? {
      DependenciesLines(p.dependencies.value, p.spread);
    }
    BlockIs(p);
    assert OneLine("[[package]]") && OneLine("") by { HeaderLine(); }
  }

  lemma {:induction false} LinesAreLines(packages: seq<Printable>)
    requires forall k :: 0 <= k < |packages| ==> CanBePrinted(packages[k])
    ensures AllOneLine(Blocks(packages))
  {
    hide CanBePrinted, OneLine, Block;
    if packages != [] {
      BlockLines(packages[0]);
      LinesAreLines(packages[1..]);
    }
  }

  lemma CommentLines(comments: seq<string>)
    requires forall k :: 0 <= k < |comments| ==> IsComment(comments[k])
    ensures AllOneLine(comments)
  {
  }

  lemma StandsThere(lines: seq<string>)
    ensures Stand(lines, 0, lines)
  {
  }

  /** Parsing undoes printing: 1 to 16384 packages come back as they were, and any other number is refused. */
  lemma ParsingUndoesPrinting(decode: Decoder, comments: seq<string>, packages: seq<Printable>)
    requires DecodesPlain(decode)
    requires forall k :: 0 <= k < |comments| ==> IsComment(comments[k])
    requires forall k :: 0 <= k < |packages| ==> CanBePrinted(packages[k])
    ensures Parsed(decode, Printed(comments, packages)) == Listed(PackagesOf(packages))
  {
    hide Stand, DecodesPlain, CanBePrinted, Read, OneLine, Blocks;
    var start, blocks := comments + ["version = 4", ""], Blocks(packages);
    var lines := start + blocks;
    LinesAreLines(packages);
    assert AllOneLine(lines) by { HeaderLine(); CommentLines(comments); }
    SplittingUndoesWriting(lines);
    assert Stand(lines, 0, lines) by { StandsThere(lines); }
    StandConcat(lines, 0, start, blocks);
    var n := |comments|;
    assert start == comments + ["version = 4"] + [""];
    StandConcat(lines, 0, comments + ["version = 4"], [""]);
    StandConcat(lines, 0, comments, ["version = 4"]);
    OneStands(lines, n, "version = 4");
    OneStands(lines, n + 1, "");
    CommentsRead(decode, lines, 0, comments);
    VersionRead(decode, lines, n);
    var st := START.(version := Some(4));
    CommentRead(decode, lines, n + 1, st);
    BlocksRead(decode, lines, n + 2, st, packages);
    assert SoFar(st) + PackagesOf(packages) == PackagesOf(packages);
  }

  // ---------------------------------------------------------------- closing brackets in dependencies

  /** After every closing bracket of `s` there is still a quote. */
  ghost predicate QuoteFollows(s: string) {
    forall i :: 0 <= i < |s| && s[i] == ']' ==> '"' in s[i + 1..]
  }

  lemma QuoteFollowsQuoted(before: string, value: string, after: string)
    requires ']' !in before && (after == "" || ']' !in after || QuoteFollows(after))
    ensures QuoteFollows(before + Quoted(value) + after)
  {
    var s := before + Quoted(value) + after;
    var n := |before| + |value| + 1;
    assert s[n] == '"';
    forall i | 0 <= i < |s| && s[i] == ']' ensures '"' in s[i + 1..] {
      if i < n {
        assert s[i + 1..][n - i - 1] == '"';
      } else {
        var m := i - n - 1;
        assert s[i] == after[m] && s[i + 1..] == after[m + 1..];
      }
    }
  }

  lemma NothingFollows()
    ensures QuoteFollows("")
  {
  }

  lemma CommaFollows(comma: string, rest: string)
    requires ']' !in comma && QuoteFollows(rest)
    ensures QuoteFollows(comma + rest)
  {
    var s := comma + rest;
    forall i | 0 <= i < |s| && s[i] == ']' ensures '"' in s[i + 1..] {
      if i >= |comma| {
        assert s[i + 1..] == rest[i - |comma| + 1..];
      }
    }
  }

  lemma {:induction false} InOneLineFollows(values: seq<string>)
    ensures QuoteFollows(InOneLine(values))
    decreases |values|
  {
    hide Quoted, QuoteFollows;
    if values == [] {
      assert QuoteFollows("") by { NothingFollows(); }
    } else {
      var comma, rest := if |values| == 1 then "" else ", ", InOneLine(values[1..]);
      InOneLineFollows(values[1..]);
      CommaFollows(comma, rest);
      QuoteFollowsQuoted("", values[0], comma + rest);
      assert "" + Quoted(values[0]) + (comma + rest) == InOneLine(values);
    }
  }

  lemma {:induction false} StripRightKeeps(s: string, c: char)
    requires c in s && !IsSpace(c)
    ensures c in StripRight(s)
    decreases |s|
  {
    if IsSpace(s[|s| - 1]) {
      assert s == s[..|s| - 1] + [s[|s| - 1]];
      StripRightKeeps(s[..|s| - 1], c);
    }
  }

  lemma {:induction false} StripKeeps(s: string, c: char)
    requires c in s && !IsSpace(c)
    ensures c in Strip(s)
    decreases |s|
  {
    if IsSpace(s[0]) {
      StripKeeps(s[1..], c);
    } else {
      StripRightKeeps(s, c);
    }
  }

  lemma QuoteAfter(text: string, more: string, close: nat)
    requires close < |text| && text[close] == ']' && QuoteFollows(text)
    ensures '"' in (text + more)[close + 1..]
  {
    Without('"', text[close + 1..], more);
    assert (text + more)[close + 1..] == text[close + 1..] + more;
  }

  lemma FirstIsEarlier(text: string, more: string)
    requires ']' in text
    ensures ']' in text + more
    ensures var close := IndexOf(text + more, ']').value;
            close < |text| && text[close] == ']'
  {
    var k :| 0 <= k < |text| && text[k] == ']';
    assert (text + more)[k] == ']';
  }

  lemma ArrayWithText(decode: Decoder, text: string, more: string)
    requires ']' in text && QuoteFollows(text)
    ensures ArrayOf(decode, text + more) == Err(TextAfterArray)
  {
    hide Elements, Strip, QuoteFollows;
    FirstIsEarlier(text, more);
    Without(']', text, more);
    var close := IndexOf(text + more, ']').value;
    QuoteAfter(text, more, close);
    StripKeeps((text + more)[close + 1..], '"');
  }

  lemma BracketIn(value: string)
    ensures ']' in Quoted(value) <==> ']' in value
  {
    Without(']', "\"", value);
    Without(']', "\"" + value, "\"");
  }

  lemma {:induction false} AssembleStops(decode: Decoder, lines: seq<string>, i: nat, assembled: string, values: seq<string>)
    requires i < |lines| && Stand(lines, i + 1, DependencyLines(values)) && ']' !in assembled
    requires exists k :: 0 <= k < |values| && ']' in values[k]
    ensures Assemble(lines, i, assembled).Ok?
    ensures var text := Assemble(lines, i, assembled).value.0;
            ']' in text && ArrayOf(decode, text) == Err(TextAfterArray)
    decreases |values|
  {
    hide Quoted, Strip, ArrayOf;
    var part := DependencyLines(values);
    var quoted := Quoted(values[0]);
    assert lines[i + 1] == part[0];
    StripDependency(values[0]);
    var more := assembled + "\n" + (quoted + ",");
    Without(']', assembled, "\n");
    Without(']', assembled + "\n", quoted + ",");
    Without(']', quoted, ",");
    BracketIn(values[0]);
    if ']' in values[0] {
      QuoteFollowsQuoted(assembled + "\n", values[0], "");
      assert assembled + "\n" + quoted + "" == assembled + "\n" + quoted;
      Without(']', assembled + "\n", quoted);
      ArrayWithText(decode, assembled + "\n" + quoted, ",");
      Associative(assembled + "\n", quoted, ",");
    } else {
      var first, rest := [part[0]], DependencyLines(values[1..]);
      assert part == first + rest;
      StandConcat(lines, i + 1, first, rest);
      var k :| 0 <= k < |values| && ']' in values[k];
      assert values[1..][k - 1] == values[k];
      AssembleStops(decode, lines, i + 1, more, values[1..]);
    }
  }

  lemma {:induction false} BracketInOneLine(values: seq<string>, k: nat)
    requires k < |values| && ']' in values[k]
    ensures ']' in InOneLine(values)
    decreases |values|
  {
    hide Quoted;
    var quoted, comma := Quoted(values[0]), if |values| == 1 then "" else ", ";
    BracketIn(values[0]);
    Without(']', quoted, comma);
    Without(']', quoted + comma, InOneLine(values[1..]));
    if k > 0 {
      BracketInOneLine(values[1..], k - 1);
    }
  }

  /** The end of an array is sought inside its strings too: printed dependencies are read back exactly when none of
      them holds a closing bracket, and otherwise the file is refused. */
  lemma ReadBackIffNoBracket(decode: Decoder, lines: seq<string>, i: nat, values: seq<string>, spread: bool)
    requires Stand(lines, i, DependenciesField(values, spread)) && DecodesPlain(decode)
    requires forall k :: 0 <= k < |values| ==> Plain(values[k])
    ensures |DependenciesField(values, spread)| >= 1
    ensures var value := if spread then "[" else "[" + InOneLine(values) + "]";
            StringArray(decode, lines, i, value) ==
            if forall k :: 0 <= k < |values| ==> ']' !in values[k]
            then Ok((values, i + |DependenciesField(values, spread)| - 1))
            else Err(TextAfterArray)
  {
    hide ArrayOf, QuoteFollows, DecodesPlain, Plain, Quoted;
    if forall k :: 0 <= k < |values| ==> ']' !in values[k] {
      DependenciesValue(decode, lines, i, values, spread);
    } else {
      var k :| 0 <= k < |values| && ']' in values[k];
      if spread {
        StandConcat(lines, i, ["dependencies = ["], DependencyLines(values));
        AssembleStops(decode, lines, i, "[", values);
      } else {
        BracketInOneLine(values, k);
        InOneLineFollows(values);
        CommaFollows("[", InOneLine(values));
        Without(']', "[", InOneLine(values));
        ArrayWithText(decode, "[" + InOneLine(values), "]");
      }
    }
  }

  // ---------------------------------------------------------------- any array

  /** The rest of a string literal after its opening quote: characters and escapes up to a quote at the very end. */
  ghost predicate LiteralTail(t: string)
    decreases |t|
  {
    t != "" &&
    if t[0] == '"' then |t| == 1
    else if t[0] == '\\' then |t| > 1 && t[1] != '\n' && LiteralTail(t[2..])
    else LiteralTail(t[1..])
  }

  ghost predicate IsLiteral(s: string) {
    s != "" && s[0] == '"' && LiteralTail(s[1..])
  }

  /** `inner` begins with separators and a literal of this value. */
  ghost predicate StartsWith(decode: Decoder, inner: string, value: string, lead: string, literal: string, rest: string) {
    && Separators(lead) && IsLiteral(literal) && inner == lead + literal + rest
    && decode(literal) == Some(value)
  }

  /** Literals that decode to these values, with nothing but commas and white space around them. */
  ghost predicate Holds(decode: Decoder, inner: string, values: seq<string>)
    decreases |values|
  {
    if values == [] then Separators(inner)
    else exists lead, literal, rest ::
      StartsWith(decode, inner, values[0], lead, literal, rest) && Holds(decode, rest, values[1..])
  }

  lemma {:induction false} ClosingIsTail(s: string, i: nat)
    requires i <= |s|
    ensures Closing(s, i).Some? ==> LiteralTail(s[i..Closing(s, i).value])
    decreases |s| - i
  {
    if i < |s| && Closing(s, i).Some? {
      var e := Closing(s, i).value;
      var t := s[i..e];
      if s[i] == '\\' {
        ClosingIsTail(s, i + 2);
        assert t[2..] == s[i + 2..e] && t[1] == s[i + 1];
      } else if s[i] != '"' {
        ClosingIsTail(s, i + 1);
        assert t[1..] == s[i + 1..e];
      }
    }
  }

  lemma {:induction false} TailIsClosing(s: string, i: nat, e: nat)
    requires i <= e <= |s| && LiteralTail(s[i..e])
    ensures Closing(s, i) == Some(e)
    decreases e - i
  {
    var t := s[i..e];
    assert t[0] == s[i];
    if s[i] == '\\' {
      assert t[1] == s[i + 1] && t[2..] == s[i + 2..e];
      TailIsClosing(s, i + 2, e);
    } else if s[i] != '"' {
      assert t[1..] == s[i + 1..e];
      TailIsClosing(s, i + 1, e);
    }
  }

  /** A text begins with at most one literal, the one that is found. */
  lemma LiteralsAreFound(literal: string, rest: string)
    requires IsLiteral(literal)
    ensures LiteralLength(literal + rest) == Some(|literal|)
  {
    var s := literal + rest;
    assert s[1..|literal|] == literal[1..] && s[0] == literal[0];
    TailIsClosing(s, 1, |literal|);
  }

  lemma FoundIsLiteral(s: string)
    requires LiteralLength(s).Some?
    ensures IsLiteral(s[..LiteralLength(s).value])
  {
    var n := LiteralLength(s).value;
    ClosingIsTail(s, 1);
    assert s[..n][1..] == s[1..n];
  }

  lemma SeparatorsCons(c: char, s: string)
    ensures Separators([c] + s) <==> (c == ',' || IsSpace(c)) && Separators(s)
  {
    hide IsSpace;
    var all := [c] + s;
    assert all[0] == c;
    assert forall i :: 0 <= i < |s| ==> all[i + 1] == s[i];
  }

  /** A separator in front changes nothing. */
  lemma HoldsAfterSeparator(decode: Decoder, inner: string, values: seq<string>)
    requires inner != "" && LiteralLength(inner).None?
    ensures Holds(decode, inner, values) <==> (inner[0] == ',' || IsSpace(inner[0])) && Holds(decode, inner[1..], values)
  {
    hide IsSpace, IsLiteral, LiteralLength, Separators;
    assert inner == [inner[0]] + inner[1..];
    SeparatorsCons(inner[0], inner[1..]);
    if values != [] {
      if Holds(decode, inner, values) {
        var lead, literal, rest :| StartsWith(decode, inner, values[0], lead, literal, rest) && Holds(decode, rest, values[1..]);
        if lead == "" {
          assert inner == literal + rest;
          LiteralsAreFound(literal, rest);
          assert false;
        }
        SeparatorsCons(lead[0], lead[1..]);
        assert lead == [lead[0]] + lead[1..] && inner[0] == lead[0];
        assert inner[1..] == lead[1..] + literal + rest;
        assert StartsWith(decode, inner[1..], values[0], lead[1..], literal, rest);
      }
      if (inner[0] == ',' || IsSpace(inner[0])) && Holds(decode, inner[1..], values) {
        var lead, literal, rest :| StartsWith(decode, inner[1..], values[0], lead, literal, rest) && Holds(decode, rest, values[1..]);
        SeparatorsCons(inner[0], lead);
        assert inner == ([inner[0]] + lead) + literal + rest;
        assert StartsWith(decode, inner, values[0], [inner[0]] + lead, literal, rest);
      }
    }
  }

  lemma NoQuoteInLead(lead: string)
    requires Separators(lead)
    ensures lead != "" ==> lead[0] != '"'
  {
  }

  lemma QuoteIsNoSpace()
    ensures !IsSpace('"')
  {
  }

  /** A literal in front is the first value. */
  lemma HoldsAtLiteral(decode: Decoder, inner: string, values: seq<string>)
    requires LiteralLength(inner).Some?
    ensures var n := LiteralLength(inner).value;
            Holds(decode, inner, values) <==>
            values != [] && decode(inner[..n]) == Some(values[0]) && Holds(decode, inner[n..], values[1..])
  {
    hide IsSpace, IsLiteral, LiteralTail;
    var n := LiteralLength(inner).value;
    FoundIsLiteral(inner);
    assert inner == "" + inner[..n] + inner[n..];
    assert inner[0] == '"' && !IsSpace('"') by { QuoteIsNoSpace(); }
    if values == [] {
      assert !Separators(inner);
    } else {
      if Holds(decode, inner, values) {
        var lead, literal, rest :| StartsWith(decode, inner, values[0], lead, literal, rest) && Holds(decode, rest, values[1..]);
        NoQuoteInLead(lead);
        assert lead == "";
        assert inner == literal + rest;
        LiteralsAreFound(literal, rest);
        assert inner[..n] == literal && inner[n..] == rest;
      }
      if decode(inner[..n]) == Some(values[0]) && Holds(decode, inner[n..], values[1..]) {
        assert StartsWith(decode, inner, values[0], "", inner[..n], inner[n..]);
      }
    }
  }

  lemma DecodedSplits(decode: Decoder, literals: seq<string>, values: seq<string>)
    requires literals != [] && DecodeAll(decode, literals) == Ok(values)
    ensures values != [] && decode(literals[0]) == Some(values[0]) && DecodeAll(decode, literals[1..]) == Ok(values[1..])
  {
  }

  lemma HoldsSome(decode: Decoder, inner: string, values: seq<string>)
    requires values != [] && Holds(decode, inner, values)
    ensures inner != ""
  {
    var lead, literal, rest :| StartsWith(decode, inner, values[0], lead, literal, rest) && Holds(decode, rest, values[1..]);
  }

  lemma HoldsNothing(decode: Decoder, values: seq<string>)
    ensures Holds(decode, "", values) <==> values == []
  {
    if values != [] && Holds(decode, "", values) {
      HoldsSome(decode, "", values);
      assert false;
    }
  }

  lemma {:induction false} ScanExactly(decode: Decoder, inner: string, values: seq<string>)
    ensures (DecodeAll(decode, Literals(inner)) == Ok(values) && Separators(Residue(inner))) <==> Holds(decode, inner, values)
    decreases |inner|
  {
    hide IsSpace, LiteralLength, Separators, Holds;
    if inner == "" {
      NoLiterals();
      assert Separators("") by { SeparatorsAre(); }
      HoldsNothing(decode, values);
    } else {
      match LiteralLength(inner)
      case Some(n) =>
        HoldsAtLiteral(decode, inner, values);
        var literals := Literals(inner);
        assert literals[0] == inner[..n] && literals[1..] == Literals(inner[n..]);
        if values != [] {
          ScanExactly(decode, inner[n..], values[1..]);
          assert values == [values[0]] + values[1..];
        }
        if DecodeAll(decode, literals) == Ok(values) {
          DecodedSplits(decode, literals, values);
        }
      case None =>
        HoldsAfterSeparator(decode, inner, values);
        ScanExactly(decode, inner[1..], values);
        SeparatorsCons(inner[0], Residue(inner[1..]));
    }
  }

  lemma CommaIsNoSpace()
    ensures !IsSpace(',')
  {
  }

  lemma {:induction false} ResidueBlank(s: string)
    ensures StripLeft(WithoutCommas(s)) == "" <==> Separators(s)
  {
    hide IsSpace;
    if s != "" {
      ResidueBlank(s[1..]);
      SeparatorsCons(s[0], s[1..]);
      assert s == [s[0]] + s[1..];
      assert "" + WithoutCommas(s[1..]) == WithoutCommas(s[1..]);
      assert s[0] != ',' ==> ([s[0]] + WithoutCommas(s[1..]))[1..] == WithoutCommas(s[1..]);
      assert !IsSpace(',') by { CommaIsNoSpace(); }
    }
  }

  lemma StripIsStripLeft(s: string)
    ensures Strip(s) == "" <==> StripLeft(s) == ""
  {
    var before := StrippedLeft(s);
    var after := StrippedRight(StripLeft(s));
  }

  /** What is between the brackets is read as these values exactly when it holds them. */
  lemma ElementsExactly(decode: Decoder, inner: string, values: seq<string>)
    ensures Elements(decode, inner) == Ok(values) <==> Holds(decode, inner, values)
  {
    hide Holds, Separators, Strip;
    ScanExactly(decode, inner, values);
    ResidueBlank(Residue(inner));
    StripIsStripLeft(WithoutCommas(Residue(inner)));
  }

  /** An opening bracket, what the array holds, the first closing bracket, and white space. */
  ghost predicate Bracketed(decode: Decoder, text: string, values: seq<string>, before: string, inner: string, after: string) {
    && text == before + "[" + inner + "]" + after
    && '[' !in before && ']' !in before && ']' !in inner
    && (forall i :: 0 <= i < |after| ==> IsSpace(after[i]))
    && Holds(decode, inner, values)
  }

  lemma BlankExactly(s: string)
    ensures Strip(s) == "" <==> forall i :: 0 <= i < |s| ==> IsSpace(s[i])
  {
    hide IsSpace;
    if forall i :: 0 <= i < |s| ==> IsSpace(s[i]) {
      NothingToStrip(s);
      EmptyStrips();
    }
    StripIsStripLeft(s);
    var before := StrippedLeft(s);
    if Strip(s) == "" { assert before + "" == before; }
  }

  lemma BracketIsNoSpace()
    ensures !IsSpace('[')
  {
  }

  lemma CutAtBrackets(text: string, start: nat, close: nat)
    requires start < close < |text| && text[start] == '[' && text[close] == ']'
    ensures text == text[..start] + "[" + text[start + 1..close] + "]" + text[close + 1..]
  {
  }

  lemma BracketsAre(text: string, before: string, inner: string, after: string)
    requires text == before + "[" + inner + "]" + after && '[' !in before && ']' !in before && ']' !in inner
    ensures IndexOf(text, '[') == Some(|before|) && IndexOf(text, ']') == Some(|before| + 1 + |inner|)
    ensures text[|before| + 1..|before| + 1 + |inner|] == inner && text[|before| + 2 + |inner|..] == after
  {
    hide IndexOf;
    var head := before + "[" + inner;
    Without(']', before, "[");
    Without(']', before + "[", inner);
    assert text == before + ['['] + (inner + "]" + after);
    FirstIndex(before, '[', inner + "]" + after);
    assert text == head + [']'] + after;
    FirstIndex(head, ']', after);
  }

  lemma ReadArrayIsBracketed(decode: Decoder, text: string, values: seq<string>)
    returns (before: string, inner: string, after: string)
    requires ']' in text && ArrayOf(decode, text) == Ok(values)
    ensures Bracketed(decode, text, values, before, inner, after)
  {
    hide Holds, Elements, Strip, IsSpace;
    var close, start := IndexOf(text, ']').value, IndexOf(text, '[').value;
    before, inner, after := text[..start], if start < close then text[start + 1..close] else "", text[close + 1..];
    BlankExactly(after);
    assert !IsSpace('[') by { BracketIsNoSpace(); }
    forall k | close < k < |text| ensures text[k] != '[' {
      assert text[k] == after[k - close - 1];
    }
    ElementsExactly(decode, inner, values);
    CutAtBrackets(text, start, close);
  }

  lemma ArrayOfExactly(decode: Decoder, text: string, values: seq<string>)
    requires ']' in text
    ensures ArrayOf(decode, text) == Ok(values) <==>
            exists before, inner, after :: Bracketed(decode, text, values, before, inner, after)
  {
    hide Holds, Elements, Strip, IsSpace;
    if ArrayOf(decode, text) == Ok(values) {
      var before, inner, after := ReadArrayIsBracketed(decode, text, values);
    }
    if before, inner, after :| Bracketed(decode, text, values, before, inner, after) {
      BracketsAre(text, before, inner, after);
      BlankExactly(after);
      ElementsExactly(decode, inner, values);
    }
  }

  /** The text of an array from line `i` to line `last`. */
  ghost function TextUpTo(lines: seq<string>, i: nat, value: string, last: nat): string
    requires i <= last < |lines|
  {
    if last == i then value else TextUpTo(lines, i, value, last - 1) + "\n" + Strip(lines[last])
  }

  /** It ends with the first line that brings a closing bracket. */
  ghost predicate EndsAt(lines: seq<string>, i: nat, value: string, last: nat)
    requires i <= last < |lines|
  {
    ']' in TextUpTo(lines, i, value, last) && forall m :: i <= m < last ==> ']' !in TextUpTo(lines, i, value, m)
  }

  lemma {:induction false} AssembleEnds(lines: seq<string>, i: nat, value: string, k: nat)
    requires i <= k < |lines| && forall m :: i <= m < k ==> ']' !in TextUpTo(lines, i, value, m)
    ensures var r := Assemble(lines, k, TextUpTo(lines, i, value, k));
            && (r.Ok? ==> k <= r.value.1 < |lines| && r.value.0 == TextUpTo(lines, i, value, r.value.1)
                          && EndsAt(lines, i, value, r.value.1))
            && (forall last :: k <= last < |lines| && EndsAt(lines, i, value, last) ==> r.Ok? && r.value.1 == last)
    decreases |lines| - k
  {
    hide Strip;
    if ']' !in TextUpTo(lines, i, value, k) && k + 1 < |lines| {
      AssembleEnds(lines, i, value, k + 1);
    }
  }

  /** From line `i` to line `last` stands an array of these values. */
  ghost predicate ArrayStands(decode: Decoder, lines: seq<string>, i: nat, value: string, values: seq<string>, last: nat)
    requires i <= last < |lines|
  {
    && EndsAt(lines, i, value, last)
    && exists before, inner, after :: Bracketed(decode, TextUpTo(lines, i, value, last), values, before, inner, after)
  }

  lemma TextAtStart(lines: seq<string>, i: nat, value: string)
    requires i < |lines|
    ensures TextUpTo(lines, i, value, i) == value
  {
  }

  /** An array is read exactly where one stands. */
  lemma StringArrayExactly(decode: Decoder, lines: seq<string>, i: nat, value: string, values: seq<string>, last: nat)
    requires i <= last < |lines|
    ensures StringArray(decode, lines, i, value) == Ok((values, last)) <==> ArrayStands(decode, lines, i, value, values, last)
  {
    hide Bracketed, ArrayOf, Assemble, TextUpTo;
    assert TextUpTo(lines, i, value, i) == value by { TextAtStart(lines, i, value); }
    AssembleEnds(lines, i, value, i);
    var r := Assemble(lines, i, value);
    if r.Ok? {
      ArrayOfExactly(decode, r.value.0, values);
      if EndsAt(lines, i, value, last) { assert r.value.1 == last; }
    }
  }

  // ---------------------------------------------------------------- any lock file

  /** `version = 4`, with any white space around the equals sign and any zeros in front. */
  ghost predicate IsVersionFour(line: string, before: string, after: string, zeros: nat) {
    && (forall i :: 0 <= i < |before| ==> IsSpace(before[i])) && (forall i :: 0 <= i < |after| ==> IsSpace(after[i]))
    && line == "version" + before + "=" + after + Repeat('0', zeros) + "4"
  }

  /** The package with one more field, if the field is one of a package's and was not there. */
  ghost function WithText(p: Package, key: string, text: string): Option<Package> {
    if key == "name" && p.name.None? then Some(p.(name := Some(text)))
    else if key == "version" && p.version.None? then Some(p.(version := Some(text)))
    else if key == "source" && p.source.None? then Some(p.(source := Some(text)))
    else if key == "checksum" && p.checksum.None? then Some(p.(checksum := Some(text)))
    else None
  }

  ghost predicate IsIdle(line: string) {
    line == "" || line[0] == '#'
  }

  /** From line `i` on, below the fields of `p`: its other fields, and the packages after it. */
  ghost predicate PackagesFrom(decode: Decoder, lines: seq<string>, i: nat, p: Package, packages: seq<Package>)
    decreases |lines| - i
  {
    if i >= |lines| then i == |lines| && packages == [p]
    else
      var line := Strip(lines[i]);
      if IsIdle(line) then PackagesFrom(decode, lines, i + 1, p, packages)
      else if line == "[[package]]" then
        packages != [] && packages[0] == p && PackagesFrom(decode, lines, i + 1, NOTHING, packages[1..])
      else
        && '=' in line
        && var (key, value) := KeyAndValue(line);
        if key == "dependencies" then
          && p.dependencies.None?
          && exists values, last: nat ::
               && i <= last < |lines| && ArrayStands(decode, lines, i, value, values, last)
               && PackagesFrom(decode, lines, last + 1, p.(dependencies := Some(values)), packages)
        else
          && decode(value).Some? && WithText(p, key, decode(value).value).Some?
          && PackagesFrom(decode, lines, i + 1, WithText(p, key, decode(value).value).value, packages)
  }

  /** From line `i` on, before any package: the version, once, and then the packages. */
  ghost predicate LockFrom(decode: Decoder, lines: seq<string>, i: nat, versioned: bool, packages: seq<Package>)
    decreases |lines| - i
  {
    && i < |lines|
    && var line := Strip(lines[i]);
    if IsIdle(line) then LockFrom(decode, lines, i + 1, versioned, packages)
    else if line == "[[package]]" then versioned && PackagesFrom(decode, lines, i + 1, NOTHING, packages)
    else
      && !versioned && (exists before, after, zeros :: IsVersionFour(line, before, after, zeros))
      && LockFrom(decode, lines, i + 1, true, packages)
  }

  lemma {:induction false} DecimalZero(digits: string)
    requires IsDecimal(digits)
    ensures DecimalValue(digits) == 0 <==> digits == Repeat('0', |digits|)
    decreases |digits|
  {
    if digits != "" {
      var n := |digits| - 1;
      assert digits == digits[..n] + [digits[n]];
      DecimalZero(digits[..n]);
      var zeros := Repeat('0', n + 1);
      assert zeros[..n] == Repeat('0', n) && zeros[n] == '0' && zeros == zeros[..n] + [zeros[n]];
    }
  }

  lemma {:induction false} DecimalFour(digits: string)
    requires digits != "" && IsDecimal(digits)
    ensures DecimalValue(digits) == 4 <==> digits == Repeat('0', |digits| - 1) + "4"
  {
    var n := |digits| - 1;
    assert digits == digits[..n] + [digits[n]];
    DecimalZero(digits[..n]);
    var four := Repeat('0', n) + "4";
    assert four[..n] == Repeat('0', n) && four[n] == '4';
  }

  lemma {:induction false} StripLeftOf(before: string, s: string)
    requires (forall i :: 0 <= i < |before| ==> IsSpace(before[i])) && (s == "" || !IsSpace(s[0]))
    ensures StripLeft(before + s) == s
    decreases |before|
  {
    if before == "" {
      assert before + s == s;
    } else {
      assert (before + s)[1..] == before[1..] + s;
      StripLeftOf(before[1..], s);
    }
  }

  lemma SixParts(line: string, before: string, rest: string, after: string, zeros: string)
    requires |line| >= 7 && rest != ""
    requires line == "version" + line[7..] && line[7..] == before + rest && rest == "=" + rest[1..] && rest[1..] == after + (zeros + "4")
    ensures line == "version" + before + "=" + after + zeros + "4"
  {
  }

  lemma VersionRead4(line: string) returns (before: string, after: string, zeros: nat)
    requires VersionOf(line) == Some(4)
    ensures IsVersionFour(line, before, after, zeros)
  {
    hide IsSpace, StripLeft;
    var rest := StripLeft(line[7..]);
    before := StrippedLeft(line[7..]);
    var digits := StripLeft(rest[1..]);
    after := StrippedLeft(rest[1..]);
    DecimalFour(digits);
    zeros := |digits| - 1;
    assert line == "version" + line[7..];
    assert rest == "=" + rest[1..];
    SixParts(line, before, rest, after, Repeat('0', zeros));
  }

  lemma DigitsAreNoSpaces()
    ensures !IsSpace('=') && !IsSpace('0') && !IsSpace('4')
  {
  }

  lemma VersionFourIsRead(line: string, before: string, after: string, zeros: nat)
    requires IsVersionFour(line, before, after, zeros)
    ensures VersionOf(line) == Some(4)
  {
    hide IsSpace, StripLeft;
    var digits := Repeat('0', zeros) + "4";
    var rest := "=" + (after + digits);
    assert line == "version" + (before + rest);
    assert line[7..] == before + rest && rest[1..] == after + digits;
    assert !IsSpace('=') && !IsSpace('0') && !IsSpace('4') by { DigitsAreNoSpaces(); }
    assert digits[0] == '0' || digits[0] == '4';
    StripLeftOf(before, rest);
    StripLeftOf(after, digits);
    DecimalFour(digits);
  }

  lemma VersionExactly(line: string)
    ensures VersionOf(line) == Some(4) <==> exists before, after, zeros :: IsVersionFour(line, before, after, zeros)
  {
    hide VersionOf, IsVersionFour;
    if VersionOf(line) == Some(4) { var before, after, zeros := VersionRead4(line); }
    if before, after, zeros :| IsVersionFour(line, before, after, zeros) { VersionFourIsRead(line, before, after, zeros); }
  }

  lemma StringFieldIs(decode: Decoder, lines: seq<string>, i: nat, p: Package)
    requires i < |lines| && '=' in Strip(lines[i]) && KeyAndValue(Strip(lines[i])).0 != "dependencies"
    ensures var (key, value) := KeyAndValue(Strip(lines[i]));
            var r := FieldTurn(decode, lines, i, p);
            && (r.Ok? <==> decode(value).Some? && WithText(p, key, decode(value).value).Some?)
            && (r.Ok? ==> r.value == (i + 1, WithText(p, key, decode(value).value).value))
  {
    hide Strip, KeyAndValue;
  }

  lemma ArrayFieldIs(decode: Decoder, lines: seq<string>, i: nat, p: Package)
    requires i < |lines| && '=' in Strip(lines[i]) && KeyAndValue(Strip(lines[i])).0 == "dependencies"
    ensures var value := KeyAndValue(Strip(lines[i])).1;
            var r := FieldTurn(decode, lines, i, p);
            && (r.Ok? ==> p.dependencies.None? && i < r.value.0 <= |lines| && r.value.1.dependencies.Some?
                          && r.value.1 == p.(dependencies := r.value.1.dependencies)
                          && ArrayStands(decode, lines, i, value, r.value.1.dependencies.value, r.value.0 - 1))
            && (forall values, last: nat :: i <= last < |lines| && p.dependencies.None? && ArrayStands(decode, lines, i, value, values, last) ==>
                  r == Ok((last + 1, p.(dependencies := Some(values)))))
  {
    hide Strip, KeyAndValue, ArrayStands, StringArray;
    var value := KeyAndValue(Strip(lines[i])).1;
    forall values, last: nat | i <= last < |lines|
      ensures StringArray(decode, lines, i, value) == Ok((values, last)) <==> ArrayStands(decode, lines, i, value, values, last)
    {
      StringArrayExactly(decode, lines, i, value, values, last);
    }
  }

  lemma FieldNeedsEquals(decode: Decoder, lines: seq<string>, i: nat, p: Package)
    requires i < |lines| && FieldTurn(decode, lines, i, p).Ok?
    ensures '=' in Strip(lines[i])
  {
    hide Strip, KeyAndValue;
  }

  lemma {:induction false} PackagesAreSome(decode: Decoder, lines: seq<string>, i: nat, p: Package, packages: seq<Package>)
    requires PackagesFrom(decode, lines, i, p, packages)
    ensures |packages| > 0
    decreases |lines| - i
  {
    hide Strip, KeyAndValue, ArrayStands;
    if i < |lines| {
      var line := Strip(lines[i]);
      if IsIdle(line) {
        PackagesAreSome(decode, lines, i + 1, p, packages);
      } else if line != "[[package]]" {
        var (key, value) := KeyAndValue(line);
        if key == "dependencies" {
          var values, last: nat :| i <= last < |lines| && ArrayStands(decode, lines, i, value, values, last)
                                   && PackagesFrom(decode, lines, last + 1, p.(dependencies := Some(values)), packages);
          PackagesAreSome(decode, lines, last + 1, p.(dependencies := Some(values)), packages);
        } else {
          PackagesAreSome(decode, lines, i + 1, WithText(p, key, decode(value).value).value, packages);
        }
      }
    }
  }

  lemma {:induction false} PackagesAreRead(decode: Decoder, lines: seq<string>, i: nat, st: State, packages: seq<Package>)
    requires st.version == Some(4) && st.current.Some? && |st.packages| <= MAX_PACKAGES
    requires PackagesFrom(decode, lines, i, st.current.value, packages)
    ensures |packages| > 0
    ensures Read(decode, lines, i, st) == Listed(st.packages + packages)
    decreases |lines| - i
  {
    hide Strip, KeyAndValue, FieldTurn, ArrayStands, VersionOf;
    var p := st.current.value;
    if i >= |lines| {
      assert st.packages + [p] == SoFar(st);
    } else {
      var line := Strip(lines[i]);
      if IsIdle(line) {
        PackagesAreRead(decode, lines, i + 1, st, packages);
      } else if line == "[[package]]" {
        var rest := packages[1..];
        assert packages == [p] + rest;
        if |st.packages| < MAX_PACKAGES {
          PackagesAreRead(decode, lines, i + 1, State(st.version, st.packages + [p], Some(NOTHING)), rest);
          Associative(st.packages, [p], rest);
        }
        assert |rest| > 0 by { PackagesAreSome(decode, lines, i + 1, NOTHING, rest); }
      } else {
        var (key, value) := KeyAndValue(line);
        if key == "dependencies" {
          ArrayFieldIs(decode, lines, i, p);
          var values, last: nat :| i <= last < |lines| && ArrayStands(decode, lines, i, value, values, last)
                                   && PackagesFrom(decode, lines, last + 1, p.(dependencies := Some(values)), packages);
          PackagesAreRead(decode, lines, last + 1, st.(current := Some(p.(dependencies := Some(values)))), packages);
        } else {
          StringFieldIs(decode, lines, i, p);
          PackagesAreRead(decode, lines, i + 1, st.(current := WithText(p, key, decode(value).value)), packages);
        }
      }
    }
  }

  lemma {:induction false} ReadArePackages(decode: Decoder, lines: seq<string>, i: nat, st: State) returns (packages: seq<Package>)
    requires i <= |lines| && st.version == Some(4) && st.current.Some? && |st.packages| <= MAX_PACKAGES && Read(decode, lines, i, st).Ok?
    ensures PackagesFrom(decode, lines, i, st.current.value, packages)
    ensures Read(decode, lines, i, st).value == st.packages + packages && |st.packages + packages| <= MAX_PACKAGES
    decreases |lines| - i
  {
    hide Strip, KeyAndValue, FieldTurn, ArrayStands, VersionOf;
    var p := st.current.value;
    if i >= |lines| {
      packages := [p];
    } else {
      var line := Strip(lines[i]);
      if IsIdle(line) {
        packages := ReadArePackages(decode, lines, i + 1, st);
      } else if line == "[[package]]" {
        var rest := ReadArePackages(decode, lines, i + 1, State(st.version, st.packages + [p], Some(NOTHING)));
        packages := [p] + rest;
        assert packages[1..] == rest;
        Associative(st.packages, [p], rest);
      } else {
        FieldNeedsEquals(decode, lines, i, p);
        var (next, p') := FieldTurn(decode, lines, i, p).value;
        packages := ReadArePackages(decode, lines, next, st.(current := Some(p')));
        if KeyAndValue(line).0 == "dependencies" {
          ArrayFieldIs(decode, lines, i, p);
          assert next - 1 + 1 == next;
        } else {
          StringFieldIs(decode, lines, i, p);
        }
      }
    }
  }

  lemma {:induction false} LockIsRead(decode: Decoder, lines: seq<string>, i: nat, versioned: bool, packages: seq<Package>)
    requires LockFrom(decode, lines, i, versioned, packages)
    ensures Read(decode, lines, i, State(if versioned then Some(4) else None, [], None)) == Listed(packages)
    decreases |lines| - i
  {
    hide Strip, VersionOf, PackagesFrom, IsVersionFour, Listed;
    var line := Strip(lines[i]);
    if IsIdle(line) {
      LockIsRead(decode, lines, i + 1, versioned, packages);
    } else if line == "[[package]]" {
      PackagesAreRead(decode, lines, i + 1, State(Some(4), [], Some(NOTHING)), packages);
      assert [] + packages == packages;
    } else {
      VersionExactly(line);
      LockIsRead(decode, lines, i + 1, true, packages);
    }
  }

  /** Inside packages the version is settled. */
  lemma {:induction false} VersionStays(decode: Decoder, lines: seq<string>, i: nat, st: State)
    requires st.current.Some? && Read(decode, lines, i, st).Ok?
    ensures st.version == Some(4)
    decreases |lines| - i
  {
    hide Strip, VersionOf, FieldTurn;
    if i < |lines| {
      var (next, st') := Turn(decode, lines, i, st).value;
      VersionStays(decode, lines, next, st');
    }
  }

  lemma {:induction false} ReadIsLock(decode: Decoder, lines: seq<string>, i: nat, version: Option<nat>) returns (packages: seq<Package>)
    requires i <= |lines| && Read(decode, lines, i, State(version, [], None)).Ok?
    ensures version.Some? ==> version == Some(4)
    ensures Read(decode, lines, i, State(version, [], None)) == Ok(packages) && |packages| <= MAX_PACKAGES
    ensures LockFrom(decode, lines, i, version.Some?, packages)
    decreases |lines| - i
  {
    hide Strip, VersionOf, PackagesFrom, IsVersionFour, FieldTurn;
    assert i < |lines|;
    var line := Strip(lines[i]);
    if IsIdle(line) {
      packages := ReadIsLock(decode, lines, i + 1, version);
    } else if line == "[[package]]" {
      VersionStays(decode, lines, i + 1, State(version, [], Some(NOTHING)));
      packages := ReadArePackages(decode, lines, i + 1, State(version, [], Some(NOTHING)));
      assert [] + packages == packages;
    } else {
      packages := ReadIsLock(decode, lines, i + 1, VersionOf(line));
      VersionExactly(line);
    }
  }

  lemma ReadIsSome(decode: Decoder, lines: seq<string>, packages: seq<Package>)
    requires LockFrom(decode, lines, 0, false, packages) && Read(decode, lines, 0, START) == Ok(packages)
    ensures packages != []
  {
    hide LockFrom;
    LockIsRead(decode, lines, 0, false, packages);
  }

  /** A text is read as these packages exactly when its lines are a lock file of them: `version = 4` once and before
      any package, each field of a package known and given once, every string decoded, and 1 to 16384 packages. */
  lemma ReadsExactlyLockFiles(decode: Decoder, text: string, packages: seq<Package>)
    ensures Parsed(decode, text) == Ok(packages) <==>
            LockFrom(decode, SplitLines(text), 0, false, packages) && 1 <= |packages| <= 16_384
  {
    hide LockFrom, SplitLines, Read;
    var lines := SplitLines(text);
    if Parsed(decode, text) == Ok(packages) {
      var found := ReadIsLock(decode, lines, 0, None);
      ReadIsSome(decode, lines, packages);
    }
    if LockFrom(decode, lines, 0, false, packages) {
      LockIsRead(decode, lines, 0, false, packages);
    }
  }
}
