/** The comment blanker of the architecture checker (cli/ci/check_architecture.py). */
module Comments {
  import opened Wrappers
  import opened Text

  // ---------------------------------------------------------------- raw literals

  /** The end of the run of `#` that starts at `i`. */
  function HashesEnd(text: string, i: nat): (e: nat)
    requires i <= |text|
    ensures i <= e <= |text|
    ensures forall k :: i <= k < e ==> text[k] == '#'
    ensures e < |text| ==> text[e] != '#'
    decreases |text| - i
  {
    if i < |text| && text[i] == '#' then HashesEnd(text, i + 1) else i
  }

  /** The two characters at `i` are `a` and `b`. */
  predicate Pair(text: string, i: nat, a: char, b: char) {
    i + 1 < |text| && text[i] == a && text[i + 1] == b
  }

  /** Length of the `r`, `br` or `cr` that opens a raw literal at `i`, or 0. */
  function RawPrefix(text: string, i: nat): nat {
    if Pair(text, i, 'b', 'r') || Pair(text, i, 'c', 'r') then 2
    else if i < |text| && text[i] == 'r' then 1
    else 0
  }

  /** The opening quote of the raw literal that starts at `i`. */
  function RawQuote(text: string, i: nat): (r: Option<nat>)
    requires i < |text|
    ensures r.Some? ==> RawPrefix(text, i) > 0 && i + RawPrefix(text, i) <= r.value < |text|
  {
    var prefix := RawPrefix(text, i);
    if prefix == 0 then None else
    var quote := HashesEnd(text, i + prefix);
    if quote < |text| && text[quote] == '"' then Some(quote) else None
  }

  function Terminator(text: string, i: nat): (t: string)
    requires i < |text| && RawQuote(text, i).Some?
    ensures t != ""
  {
    "\"" + text[i + RawPrefix(text, i)..RawQuote(text, i).value]
  }

  /** The exclusive end of the raw literal that starts at `opening`, if there is one. */
  function RawLiteralEnd(text: string, opening: nat): (r: Option<nat>)
    requires opening < |text|
    ensures r.Some? ==> opening < r.value <= |text|
  {
    match RawQuote(text, opening)
    case None => None
    case Some(quote) =>
      match Find(text, Terminator(text, opening), quote + 1)
      case None => None
      case Some(closing) => Some(closing + |Terminator(text, opening)|)
  }

  method RustRawLiteralEnd(text: string, opening: nat) returns (r: Option<nat>)
    requires opening < |text|
    ensures r == RawLiteralEnd(text, opening)
  {
    hide Find;
    var cursor := opening;
    if Pair(text, cursor, 'b', 'r') || Pair(text, cursor, 'c', 'r') {
      cursor := cursor + 2;
    } else if text[cursor] == 'r' {
      cursor := cursor + 1;
    } else {
      return None;
    }
    var hashes := cursor;
    while cursor < |text| && text[cursor] == '#'
      invariant hashes <= cursor <= |text|
      invariant HashesEnd(text, hashes) == HashesEnd(text, cursor)
    {
      cursor := cursor + 1;
    }
    if cursor >= |text| || text[cursor] != '"' {
      return None;
    }
    var terminator := "\"" + text[hashes..cursor];
    var closing := Find(text, terminator, cursor + 1);
    r := match closing case None => None case Some(c) => Some(c + |terminator|);
  }

  // ---------------------------------------------------------------- the blanker

  datatype Mode =
    | Code
    | Quoted(quote: char, escaped: bool)
    | Block(depth: nat)

  predicate IsQuote(c: char, singleQuoted: bool) {
    c == '"' || c == '`' || (singleQuoted && c == '\'')
  }

  function AfterQuoted(c: char, quote: char, escaped: bool): Mode {
    if escaped then Quoted(quote, false)
    else if c == '\\' then Quoted(quote, true)
    else if c == quote then Code
    else Quoted(quote, false)
  }

  function BlankOf(c: char): char {
    if c == '\n' then '\n' else ' '
  }

  function LineEnd(text: string, i: nat): (e: nat)
    requires i <= |text|
    ensures i <= e <= |text|
    ensures forall k :: i <= k < e ==> text[k] != '\n'
    ensures e < |text| ==> text[e] == '\n'
    decreases |text| - i
  {
    if i < |text| && text[i] != '\n' then LineEnd(text, i + 1) else i
  }

  /** The raw literal the blanker copies at `i`: only Rust mode looks for one. */
  function CopiedRaw(text: string, singleQuoted: bool, i: nat): (r: Option<nat>)
    requires i < |text|
    ensures r.Some? ==> i < r.value <= |text| && text[i] in {'b', 'c', 'r'}
  {
    if !singleQuoted && text[i] in {'b', 'c', 'r'} then RawLiteralEnd(text, i) else None
  }

  /** One turn of the scan: what is emitted, where it goes on and in which mode. */
  datatype Turn = Turn(emitted: string, next: nat, mode: Mode)

  function Scan(text: string, singleQuoted: bool, i: nat, mode: Mode): (t: Turn)
    requires i < |text|
    ensures i < t.next <= |text|
  {
    match mode
    case Block(depth) =>
      if Pair(text, i, '/', '*') then Turn("  ", i + 2, Block(depth + 1))
      else if Pair(text, i, '*', '/') then Turn("  ", i + 2, if depth <= 1 then Code else Block(depth - 1))
      else Turn([BlankOf(text[i])], i + 1, mode)
    case Quoted(quote, escaped) =>
      Turn([text[i]], i + 1, AfterQuoted(text[i], quote, escaped))
    case Code =>
      match CopiedRaw(text, singleQuoted, i)
      case Some(end) => Turn(text[i..end], end, Code)
      case None =>
        if Pair(text, i, '/', '/') then
          var end := LineEnd(text, i + 2);
          Turn(Repeat(' ', end - i), end, Code)
        else if Pair(text, i, '/', '*') then Turn("  ", i + 2, Block(1))
        else Turn([text[i]], i + 1, if IsQuote(text[i], singleQuoted) then Quoted(text[i], false) else Code)
  }

  /** What the blanker emits for `text[i..]` when it reaches `i` in `mode`. */
  function Blanked(text: string, singleQuoted: bool, i: nat, mode: Mode): (out: string)
    requires i <= |text|
    decreases |text| - i
  {
    if i == |text| then "" else
    var turn := Scan(text, singleQuoted, i, mode);
    turn.emitted + Blanked(text, singleQuoted, turn.next, turn.mode)
  }

  lemma BlankedTurn(text: string, singleQuoted: bool, i: nat, mode: Mode)
    requires i < |text|
    ensures Blanked(text, singleQuoted, i, mode) ==
            var turn := Scan(text, singleQuoted, i, mode);
            turn.emitted + Blanked(text, singleQuoted, turn.next, turn.mode)
  {
    hide Scan;
  }

  function ModeOf(quote: Option<char>, escaped: bool, blockDepth: nat): Mode {
    if blockDepth > 0 then Block(blockDepth)
    else match quote case None => Code case Some(q) => Quoted(q, escaped)
  }

  lemma BlankedEnd(text: string, singleQuoted: bool, mode: Mode)
    ensures Blanked(text, singleQuoted, |text|, mode) == ""
  {
  }

  method WithoutComments(text: string, singleQuoted: bool) returns (result: string)
    ensures result == Blanked(text, singleQuoted, 0, Code)
  {
    hide Blanked, RawLiteralEnd;
    result := "";
    var index := 0;
    var quote: Option<char> := None;
    var escaped := false;
    var blockDepth: nat := 0;
    while index < |text|
      invariant 0 <= index <= |text|
      invariant escaped ==> quote.Some?
      invariant blockDepth > 0 ==> quote.None?
      invariant result + Blanked(text, singleQuoted, index, ModeOf(quote, escaped, blockDepth))
             == Blanked(text, singleQuoted, 0, Code)
      decreases |text| - index
    {
      ghost var before := result;
      ghost var turn := Scan(text, singleQuoted, index, ModeOf(quote, escaped, blockDepth));
      ghost var rest := Blanked(text, singleQuoted, turn.next, turn.mode);
      BlankedTurn(text, singleQuoted, index, ModeOf(quote, escaped, blockDepth));
      var character := text[index];
      var isPair := index + 1 < |text|;
      if blockDepth > 0 {
        if isPair && character == '/' && text[index + 1] == '*' {
          blockDepth := blockDepth + 1;
          result := result + "  ";
          index := index + 2;
        } else if isPair && character == '*' && text[index + 1] == '/' {
          blockDepth := blockDepth - 1;
          result := result + "  ";
          index := index + 2;
        } else {
          result := result + [if character == '\n' then '\n' else ' '];
          index := index + 1;
        }
      } else if quote.Some? {
        result := result + [character];
        if escaped {
          escaped := false;
        } else if character == '\\' {
          escaped := true;
        } else if character == quote.value {
          quote := None;
        }
        index := index + 1;
      } else {
        var rawEnd: Option<nat> := None;
        if !singleQuoted && character in {'b', 'c', 'r'} {
          rawEnd := RustRawLiteralEnd(text, index);
        }
        if rawEnd.Some? {
          result := result + text[index..rawEnd.value];
          index := rawEnd.value;
        } else if isPair && character == '/' && text[index + 1] == '/' {
          ghost var start := index;
          while index < |text| && text[index] != '\n'
            invariant start <= index <= |text|
            invariant index < start + 2 ==> text[index] == '/'
            invariant index >= start + 2 ==> LineEnd(text, index) == LineEnd(text, start + 2)
            invariant result == before + Repeat(' ', index - start)
          {
            result := result + " ";
            index := index + 1;
          }
        } else if isPair && character == '/' && text[index + 1] == '*' {
          blockDepth := 1;
          result := result + "  ";
          index := index + 2;
        } else {
          if IsQuote(character, singleQuoted) {
            quote := Some(character);
          }
          result := result + [character];
          index := index + 1;
        }
      }
      assert result == before + turn.emitted && index == turn.next;
      assert ModeOf(quote, escaped, blockDepth) == turn.mode;
      Associative(before, turn.emitted, rest);
    }
    BlankedEnd(text, singleQuoted, ModeOf(quote, escaped, blockDepth));
  }

  // ---------------------------------------------------------------- positions survive

  /** `out` is `text` with some characters, never a newline, replaced by a space. */
  ghost predicate Fades(out: string, text: string) {
    && |out| == |text|
    && forall k :: 0 <= k < |text| ==> out[k] == text[k] || (out[k] == ' ' && text[k] != '\n')
  }

  lemma TurnFades(text: string, singleQuoted: bool, i: nat, mode: Mode)
    requires i < |text|
    ensures var turn := Scan(text, singleQuoted, i, mode); Fades(turn.emitted, text[i..turn.next])
  {
    hide RawLiteralEnd;
  }

  lemma FadesConcat(a: string, b: string, text: string, i: nat, j: nat)
    requires i <= j <= |text| && Fades(a, text[i..j]) && Fades(b, text[j..])
    ensures Fades(a + b, text[i..])
  {
    assert text[i..] == text[i..j] + text[j..];
  }

  /** Every offset keeps its character, or a comment character becomes a space. */
  lemma {:induction false} BlankingFades(text: string, singleQuoted: bool, i: nat, mode: Mode)
    requires i <= |text|
    ensures Fades(Blanked(text, singleQuoted, i, mode), text[i..])
    decreases |text| - i
  {
    if i < |text| {
      hide Scan, Fades;
      var turn := Scan(text, singleQuoted, i, mode);
      BlankingFades(text, singleQuoted, turn.next, turn.mode);
      TurnFades(text, singleQuoted, i, mode);
      BlankedTurn(text, singleQuoted, i, mode);
      FadesConcat(turn.emitted, Blanked(text, singleQuoted, turn.next, turn.mode), text, i, turn.next);
    }
  }

  lemma {:induction false} KeepsPositions(text: string, singleQuoted: bool)
    ensures var out := Blanked(text, singleQuoted, 0, Code);
            && |out| == |text|
            && (forall k :: 0 <= k < |text| ==> out[k] == text[k] || out[k] == ' ')
            && (forall k :: 0 <= k < |text| ==> (out[k] == '\n' <==> text[k] == '\n'))
  {
    BlankingFades(text, singleQuoted, 0, Code);
    assert text[0..] == text;
  }

  // ---------------------------------------------------------------- idempotence

  /** A terminator that the faded text still shows was already in the text. */
  lemma OccursBefore(out: string, text: string, pat: string, k: nat)
    requires Fades(out, text) && ' ' !in pat && At(out, k, pat)
    ensures At(text, k, pat)
  {
  }

  lemma HashesEndUnique(text: string, i: nat, e: nat)
    requires i <= e <= |text|
    requires forall k :: i <= k < e ==> text[k] == '#'
    requires e < |text| ==> text[e] != '#'
    ensures HashesEnd(text, i) == e
  {
  }

  /** An opening that the faded text still shows was already in the text. */
  lemma SameRawQuote(out: string, text: string, i: nat)
    requires Fades(out, text) && i < |text| && RawQuote(out, i).Some?
    ensures RawQuote(text, i) == RawQuote(out, i)
    ensures Terminator(text, i) == Terminator(out, i)
    ensures ' ' !in Terminator(out, i)
  {
    var hashes, quote := i + RawPrefix(out, i), RawQuote(out, i).value;
    assert RawPrefix(text, i) == RawPrefix(out, i);
    HashesEndUnique(text, hashes, quote);
    assert text[hashes..quote] == out[hashes..quote];
  }

  /** Blanking later comments cannot create a raw literal. */
  lemma NoRawAppears(out: string, text: string, i: nat)
    requires Fades(out, text) && i < |text| && RawLiteralEnd(text, i).None?
    ensures RawLiteralEnd(out, i).None?
  {
    if RawQuote(out, i).Some? {
      SameRawQuote(out, text, i);
      var closing := Find(out, Terminator(out, i), RawQuote(out, i).value + 1);
      if closing.Some? {
        OccursBefore(out, text, Terminator(out, i), closing.value);
      }
    }
  }

  /** A raw literal copied verbatim is found again, with the same end. */
  lemma RawReappears(out: string, text: string, i: nat, end: nat)
    requires Fades(out, text) && i < |text| && RawLiteralEnd(text, i) == Some(end)
    requires forall k :: i <= k < end ==> out[k] == text[k]
    ensures RawLiteralEnd(out, i) == Some(end)
  {
    hide Find;
    var hashes, quote := i + RawPrefix(text, i), RawQuote(text, i).value;
    HashesEndUnique(out, hashes, quote);
    assert RawPrefix(out, i) == RawPrefix(text, i);
    SameRawQuote(out, text, i);
    var terminator := Terminator(text, i);
    var closing := end - |terminator|;
    assert At(out, closing, terminator);
    var again := Find(out, terminator, quote + 1);
    assert again.value <= closing;
    OccursBefore(out, text, terminator, again.value);
  }

  /** A turn in code, when `i` starts neither a comment nor a raw literal. */
  lemma CodeTurn(text: string, singleQuoted: bool, i: nat)
    requires i < |text| && !Pair(text, i, '/', '/') && !Pair(text, i, '/', '*')
    requires CopiedRaw(text, singleQuoted, i).None?
    ensures Blanked(text, singleQuoted, i, Code)
         == [text[i]] + Blanked(text, singleQuoted, i + 1,
                                if IsQuote(text[i], singleQuoted) then Quoted(text[i], false) else Code)
  {
  }

  /** In code, a stretch of spaces and newlines is copied. */
  lemma {:induction false} BlanksAreCopied(out: string, singleQuoted: bool, i: nat, e: nat)
    requires i <= e <= |out|
    requires forall k :: i <= k < e ==> out[k] == ' ' || out[k] == '\n'
    requires Blanked(out, singleQuoted, e, Code) == out[e..]
    ensures Blanked(out, singleQuoted, i, Code) == out[i..]
    decreases e - i
  {
    hide Scan, Blanked, RawLiteralEnd;
    if i < e {
      BlanksAreCopied(out, singleQuoted, i + 1, e);
      CodeTurn(out, singleQuoted, i);
    }
  }

  /** Outside comments the second pass takes the very turn of the first. */
  lemma SameTurn(out: string, text: string, singleQuoted: bool, i: nat, mode: Mode)
    requires Fades(out, text) && i < |text| && !mode.Block?
    requires var turn := Scan(text, singleQuoted, i, mode);
             out[i..turn.next] == turn.emitted && turn.emitted == text[i..turn.next]
    ensures Scan(out, singleQuoted, i, mode) == Scan(text, singleQuoted, i, mode)
  {
    var turn := Scan(text, singleQuoted, i, mode);
    assert out[i] == out[i..turn.next][0] == text[i];
    if mode.Code? {
      if CopiedRaw(text, singleQuoted, i).Some? {
        forall k | i <= k < turn.next ensures out[k] == text[k] {
          assert out[i..turn.next][k - i] == text[i..turn.next][k - i];
        }
        RawReappears(out, text, i, turn.next);
      } else if RawLiteralEnd(text, i).None? {
        NoRawAppears(out, text, i);
      }
    }
  }

  lemma Shows(out: string, i: nat, emitted: string, rest: string)
    requires i <= |out| && out[i..] == emitted + rest
    ensures out[i..i + |emitted|] == emitted && out[i + |emitted|..] == rest
    ensures forall k :: i <= k < i + |emitted| ==> out[k] == emitted[k - i]
  {
    forall k | i <= k < i + |emitted| ensures out[k] == emitted[k - i] {
      assert out[i..][k - i] == out[k];
    }
    assert out[i + |emitted|..] == out[i..][|emitted|..];
  }

  /** The characters of a comment turn, or of any turn inside a block comment, are blanks. */
  lemma CommentTurnIsBlank(text: string, singleQuoted: bool, i: nat, mode: Mode)
    requires i < |text|
    ensures var turn := Scan(text, singleQuoted, i, mode);
            && |turn.emitted| == turn.next - i
            && (mode.Block? || turn.emitted != text[i..turn.next] ==>
                 (forall k :: 0 <= k < |turn.emitted| ==> turn.emitted[k] in {' ', '\n'})
                 && !turn.mode.Quoted? && !mode.Quoted?)
            && (!mode.Block? && turn.emitted == text[i..turn.next] ==> !turn.mode.Block?)
  {
  }

  /** From any point of the first pass on, the second pass changes nothing. */
  lemma {:induction false} Settled(text: string, out: string, singleQuoted: bool, i: nat, mode: Mode)
    requires Fades(out, text) && i <= |text|
    requires out[i..] == Blanked(text, singleQuoted, i, mode)
    ensures Blanked(out, singleQuoted, i, if mode.Block? then Code else mode) == out[i..]
    decreases |text| - i
  {
    hide Scan, RawLiteralEnd;
    if i < |text| {
      var turn := Scan(text, singleQuoted, i, mode);
      CommentTurnIsBlank(text, singleQuoted, i, mode);
      Shows(out, i, turn.emitted, Blanked(text, singleQuoted, turn.next, turn.mode));
      Settled(text, out, singleQuoted, turn.next, turn.mode);
      if mode.Block? || turn.emitted != text[i..turn.next] {
        BlanksAreCopied(out, singleQuoted, i, turn.next);
      } else {
        SameTurn(out, text, singleQuoted, i, mode);
      }
    }
  }

  /** Blanking a blanked text changes nothing, in both language modes. */
  lemma {:induction false} BlankingIsIdempotent(text: string, singleQuoted: bool)
    ensures var out := Blanked(text, singleQuoted, 0, Code);
            Blanked(out, singleQuoted, 0, Code) == out
  {
    var out := Blanked(text, singleQuoted, 0, Code);
    BlankingFades(text, singleQuoted, 0, Code);
    assert text[0..] == text && out[0..] == out;
    Settled(text, out, singleQuoted, 0, Code);
  }

  // ---------------------------------------------------------------- exactly the comments

  /** The inside of a block comment: characters and nested block comments. */
  datatype Body = End | Text(c: char, rest: Body) | Nest(inner: Body, rest: Body)

  function PrintBody(b: Body): string {
    match b
    case End => ""
    case Text(c, rest) => [c] + PrintBody(rest)
    case Nest(inner, rest) => "/*" + PrintBody(inner) + "*/" + PrintBody(rest)
  }

  function FadeBody(b: Body): string {
    match b
    case End => ""
    case Text(c, rest) => [if c == '\n' then c else ' '] + FadeBody(rest)
    case Nest(inner, rest) => "  " + FadeBody(inner) + "  " + FadeBody(rest)
  }

  /** No character of the body reads as a delimiter together with what follows it. */
  ghost predicate BodyOk(b: Body) {
    match b
    case End => true
    case Text(c, rest) =>
      var next := (PrintBody(rest) + "*/")[0];
      !(c == '/' && next == '*') && !(c == '*' && next == '/') && BodyOk(rest)
    case Nest(inner, rest) => BodyOk(inner) && BodyOk(rest)
  }

  datatype Lexeme =
    | Plain(c: char)
    | Str(quote: char, body: string)
    | Raw(prefix: string, hashes: nat, text: string)
    | LineComment(line: string)
    | BlockComment(inside: Body)
    | OpenStr(quote: char, body: string)      // a string that is not closed
    | OpenBlock(remainder: string)            // a block comment that is not closed

  function PrintLexeme(l: Lexeme): (s: string)
    ensures s != ""
  {
    match l
    case Plain(c) => [c]
    case Str(quote, body) => [quote] + body + [quote]
    case Raw(prefix, hashes, text) =>
      prefix + Repeat('#', hashes) + "\"" + text + "\"" + Repeat('#', hashes)
    case LineComment(line) => "//" + line
    case BlockComment(inside) => "/*" + PrintBody(inside) + "*/"
    case OpenStr(quote, body) => [quote] + body
    case OpenBlock(remainder) => "/*" + remainder
  }

  function Print(ls: seq<Lexeme>): string {
    if ls == [] then "" else PrintLexeme(ls[0]) + Print(ls[1..])
  }

  /** The text of a comment: every character but a newline becomes a space. */
  function FadeText(text: string): string {
    seq(|text|, k requires 0 <= k < |text| => if text[k] == '\n' then '\n' else ' ')
  }

  /** What a lexeme becomes. */
  function FadeLexeme(l: Lexeme): string {
    match l
    case LineComment(line) => Repeat(' ', 2 + |line|)
    case BlockComment(inside) => "  " + FadeBody(inside) + "  "
    case OpenBlock(remainder) => "  " + FadeText(remainder)
    case _ => PrintLexeme(l)
  }

  /** The same text with every comment, and nothing else, turned into blanks. */
  function PrintFaded(ls: seq<Lexeme>): string {
    if ls == [] then "" else FadeLexeme(ls[0]) + PrintFaded(ls[1..])
  }

  predicate StartsWith(s: string, c: char) {
    s != "" && s[0] == c
  }

  /** The characters that open a string. */
  ghost function Quotes(singleQuoted: bool): set<char> {
    if singleQuoted then {'"', '`', '\''} else {'"', '`'}
  }

  /** `text` begins with this raw literal: `r`, `br` or `cr`, hashes, a quote, a body and the same hashes after the
      first quote that has them. */
  ghost predicate BeginsRaw(text: string, prefix: string, hashes: nat, body: string) {
    && prefix in {"r", "br", "cr"}
    && At(text, 0, prefix + Repeat('#', hashes) + "\"" + body + "\"" + Repeat('#', hashes))
    && forall k: nat :: !At(body, k, "\"" + Repeat('#', hashes))
  }

  /** No quote outside an escape. */
  ghost predicate NeverEnds(body: string, quote: char, escaped: bool) {
    body == "" ||
    if escaped then NeverEnds(body[1..], quote, false)
    else if body[0] == '\\' then NeverEnds(body[1..], quote, true)
    else body[0] != quote && NeverEnds(body[1..], quote, false)
  }

  /** Inside `depth` block comments there are not as many closings as would end them all. */
  ghost predicate NeverCloses(text: string, depth: nat)
    decreases |text|
  {
    if text == "" then true
    else if Pair(text, 0, '/', '*') then NeverCloses(text[2..], depth + 1)
    else if Pair(text, 0, '*', '/') then depth > 1 && NeverCloses(text[2..], depth - 1)
    else NeverCloses(text[1..], depth)
  }

  /** `l` stands for itself when `rest` is the text after it. */
  ghost predicate LexemeOk(l: Lexeme, rest: string, singleQuoted: bool) {
    match l
    case Plain(c) =>
      && c !in Quotes(singleQuoted)
      && !(c == '/' && (StartsWith(rest, '/') || StartsWith(rest, '*')))
      && (singleQuoted || forall prefix, hashes, body :: !BeginsRaw([c] + rest, prefix, hashes, body))
    case Str(quote, body) => quote in Quotes(singleQuoted) && WellEscaped(body, quote, false)
    case Raw(prefix, hashes, text) =>
      && !singleQuoted && prefix in {"r", "br", "cr"}
      && forall k: nat :: !At(text, k, "\"" + Repeat('#', hashes))
    case LineComment(line) => '\n' !in line && (rest == "" || rest[0] == '\n')
    case BlockComment(inside) => BodyOk(inside)
    case OpenStr(quote, body) => quote in Quotes(singleQuoted) && NeverEnds(body, quote, false) && rest == ""
    case OpenBlock(remainder) => NeverCloses(remainder, 1) && rest == ""
  }

  ghost predicate LexemesOk(ls: seq<Lexeme>, singleQuoted: bool) {
    ls == [] || (LexemeOk(ls[0], Print(ls[1..]), singleQuoted) && LexemesOk(ls[1..], singleQuoted))
  }

  lemma HashInside(text: string, k: nat, hashes: nat, j: nat)
    requires At(text, k, "\"" + Repeat('#', hashes)) && k < j < k + 1 + hashes
    ensures text[j] == '#'
  {
  }

  /** The search from a body's start finds exactly its closing terminator: a terminator can
      neither lie in the body nor start there and end in the closing one. */
  lemma TerminatorFound(text: string, from: nat, body: string, hashes: nat)
    requires At(text, from, body)
    requires At(text, from + |body|, "\"" + Repeat('#', hashes))
    requires forall j: nat :: !At(body, j, "\"" + Repeat('#', hashes))
    ensures Find(text, "\"" + Repeat('#', hashes), from) == Some(from + |body|)
  {
    var pat := "\"" + Repeat('#', hashes);
    var closing := from + |body|;
    forall k: nat | from <= k < closing ensures !At(text, k, pat) {
      if At(text, k, pat) {
        if k + |pat| > closing {
          HashInside(text, k, hashes, closing);
          assert false;
        }
        forall j | k - from <= j < k - from + |pat| ensures j < |body| && body[j] == pat[j - (k - from)] {
          assert text[j + from] == pat[j + from - k];
        }
        assert At(body, k - from, pat);
      }
    }
  }

  // Each lexeme, standing at `i`, is scanned whole and the scan goes on after it.

  lemma QuotedTurn(text: string, singleQuoted: bool, i: nat, quote: char, escaped: bool)
    requires i < |text|
    ensures Blanked(text, singleQuoted, i, Quoted(quote, escaped))
         == [text[i]] + Blanked(text, singleQuoted, i + 1, AfterQuoted(text[i], quote, escaped))
  {
  }

  lemma {:induction false} QuotedRun(text: string, singleQuoted: bool, i: nat, quote: char, escaped: bool,
                                     body: string)
    requires quote != '\\' && WellEscaped(body, quote, escaped)
    requires At(text, i, body + [quote])
    ensures Blanked(text, singleQuoted, i, Quoted(quote, escaped))
         == (body + [quote]) + Blanked(text, singleQuoted, i + |body| + 1, Code)
    decreases |body|
  {
    hide Scan, Blanked;
    assert text[i] == (body + [quote])[0];
    QuotedTurn(text, singleQuoted, i, quote, escaped);
    if body != "" {
      var mode := AfterQuoted(body[0], quote, escaped);
      var rest := body[1..] + [quote];
      assert body + [quote] == [body[0]] + rest;
      AtConcat(text, i, [body[0]], rest);
      QuotedRun(text, singleQuoted, i + 1, quote, mode.escaped, body[1..]);
      Associative([body[0]], rest, Blanked(text, singleQuoted, i + |body| + 1, Code));
    }
  }

  /** A turn that opens or closes a block comment emits two blanks. */
  lemma OpenTurn(text: string, singleQuoted: bool, i: nat, mode: Mode)
    requires Pair(text, i, '/', '*') && !mode.Quoted?
    ensures Blanked(text, singleQuoted, i, mode)
         == "  " + Blanked(text, singleQuoted, i + 2, Block(if mode.Block? then mode.depth + 1 else 1))
  {
    hide Blanked, RawLiteralEnd;
    BlankedTurn(text, singleQuoted, i, mode);
  }

  lemma CloseTurn(text: string, singleQuoted: bool, i: nat, depth: nat)
    requires Pair(text, i, '*', '/')
    ensures Blanked(text, singleQuoted, i, Block(depth))
         == "  " + Blanked(text, singleQuoted, i + 2, if depth <= 1 then Code else Block(depth - 1))
  {
    hide Blanked, RawLiteralEnd;
    BlankedTurn(text, singleQuoted, i, Block(depth));
  }

  lemma BodyTurn(text: string, singleQuoted: bool, i: nat, depth: nat)
    requires i < |text| && !Pair(text, i, '*', '/') && !Pair(text, i, '/', '*')
    ensures Blanked(text, singleQuoted, i, Block(depth))
         == [BlankOf(text[i])] + Blanked(text, singleQuoted, i + 1, Block(depth))
  {
  }

  /** The parts of a nested comment that stands at `i`. */
  lemma DelimitedAt(text: string, i: nat, inner: string, rest: string)
    requires At(text, i, "/*" + inner + "*/" + rest)
    ensures Pair(text, i, '/', '*') && At(text, i + 2, inner + "*/")
    ensures Pair(text, i + 2 + |inner|, '*', '/') && At(text, i + 4 + |inner|, rest)
  {
    assert "/*" + inner + "*/" + rest == "/*" + (inner + "*/" + rest);
    AtConcat(text, i, "/*", inner + "*/" + rest);
    AtConcat(text, i + 2, inner + "*/", rest);
    AtConcat(text, i + 2, inner, "*/");
    assert text[i] == '/' && text[i + 1] == '*';
    assert text[i + 2 + |inner|] == '*' && text[i + 3 + |inner|] == '/';
  }

  lemma {:induction false} BlockRun(text: string, singleQuoted: bool, i: nat, depth: nat, body: Body)
    requires depth > 0 && BodyOk(body)
    requires At(text, i, PrintBody(body) + "*/")
    ensures Blanked(text, singleQuoted, i, Block(depth))
         == FadeBody(body) + Blanked(text, singleQuoted, i + |PrintBody(body)|, Block(depth))
    decreases body
  {
    hide Scan, Blanked, At;
    var close := i + |PrintBody(body)|;
    match body
    case End =>
    case Text(c, after) =>
      var rest := PrintBody(after) + "*/";
      assert PrintBody(body) + "*/" == [c] + rest;
      AtConcat(text, i, [c], rest);
      FirstAt(text, i, [c]);
      FirstAt(text, i + 1, rest);
      BodyTurn(text, singleQuoted, i, depth);
      BlockRun(text, singleQuoted, i + 1, depth, after);
      Associative([BlankOf(c)], FadeBody(after), Blanked(text, singleQuoted, close, Block(depth)));
    case Nest(inner, after) =>
      var mid := i + 2 + |PrintBody(inner)|;
      assert PrintBody(body) + "*/" == "/*" + PrintBody(inner) + "*/" + (PrintBody(after) + "*/");
      DelimitedAt(text, i, PrintBody(inner), PrintBody(after) + "*/");
      OpenTurn(text, singleQuoted, i, Block(depth));
      CloseTurn(text, singleQuoted, mid, depth + 1);
      BlockRun(text, singleQuoted, i + 2, depth + 1, inner);
      BlockRun(text, singleQuoted, mid + 2, depth, after);
      AssociativeChain("  ", FadeBody(inner), "  ", FadeBody(after),
                   Blanked(text, singleQuoted, close, Block(depth)));
  }

  lemma FindFromSuffix(text: string, i: nat, pat: string, from: nat)
    requires i <= from <= |text|
    ensures Find(text, pat, from).None? <==> Find(text[i..], pat, from - i).None?
  {
    var tail := text[i..];
    if Find(text, pat, from).Some? {
      assert At(tail, Find(text, pat, from).value - i, pat);
    }
    if Find(tail, pat, from - i).Some? {
      var k := Find(tail, pat, from - i).value;
      forall j | k + i <= j < k + i + |pat| ensures text[j] == pat[j - k - i] {
        assert text[j] == tail[j - i];
      }
      assert At(text, k + i, pat);
    }
  }

  /** Whether a raw literal starts at `i` depends only on the text from `i` on. */
  lemma RawFromSuffix(text: string, i: nat)
    requires i < |text|
    ensures RawLiteralEnd(text, i).None? <==> RawLiteralEnd(text[i..], 0).None?
  {
    hide Find;
    var tail := text[i..];
    forall k | i <= k < |text| ensures text[k] == tail[k - i] {}
    var prefix := RawPrefix(text, i);
    assert RawPrefix(tail, 0) == prefix;
    if prefix > 0 {
      var quote := HashesEnd(text, i + prefix);
      HashesEndUnique(tail, prefix, quote - i);
      if RawQuote(text, i).Some? {
        assert tail[prefix..quote - i] == text[i + prefix..quote];
        FindFromSuffix(text, i, Terminator(text, i), quote + 1);
      }
    }
  }

  /** The parts of a raw literal that stands at `i`. */
  lemma RawAt(text: string, i: nat, prefix: string, hashes: nat, body: string)
    requires At(text, i, PrintLexeme(Raw(prefix, hashes, body)))
    ensures var hs := Repeat('#', hashes);
            var quote := i + |prefix| + hashes;
            && At(text, i, prefix) && At(text, i + |prefix|, hs) && At(text, quote, "\"")
            && At(text, quote + 1, body) && At(text, quote + 1 + |body|, "\"" + hs)
  {
    hide At;
    var hs := Repeat('#', hashes);
    assert PrintLexeme(Raw(prefix, hashes, body)) == prefix + hs + "\"" + body + ("\"" + hs);
    AtConcat(text, i, prefix + hs + "\"" + body, "\"" + hs);
    AtConcat(text, i, prefix + hs + "\"", body);
    AtConcat(text, i, prefix + hs, "\"");
    AtConcat(text, i, prefix, hs);
  }

  lemma RawQuoteAt(text: string, i: nat, prefix: string, hashes: nat)
    requires prefix in {"r", "br", "cr"} && At(text, i, prefix)
    requires At(text, i + |prefix|, Repeat('#', hashes))
    requires At(text, i + |prefix| + hashes, "\"")
    ensures RawPrefix(text, i) == |prefix|
    ensures RawQuote(text, i) == Some(i + |prefix| + hashes)
    ensures Terminator(text, i) == "\"" + Repeat('#', hashes)
    ensures HashesEnd(text, i + |prefix|) == i + |prefix| + hashes
    ensures text[i] == prefix[0] && text[i + |prefix| + hashes] == '"'
  {
    var hs := Repeat('#', hashes);
    var quote := i + |prefix| + hashes;
    FirstAt(text, quote, "\"");
    FirstAt(text, i, prefix);
    assert |prefix| == 2 ==> text[i + 1] == prefix[1];
    assert hashes > 0 ==> text[i + |prefix|] == hs[0];
    forall k | i + |prefix| <= k < quote ensures text[k] == '#' {
      assert text[k] == hs[k - i - |prefix|];
    }
    HashesEndUnique(text, i + |prefix|, quote);
    assert text[i + |prefix|..quote] == hs;
  }

  lemma RawRun(text: string, i: nat, prefix: string, hashes: nat, body: string)
    requires prefix in {"r", "br", "cr"}
    requires forall k: nat :: !At(body, k, "\"" + Repeat('#', hashes))
    requires At(text, i, PrintLexeme(Raw(prefix, hashes, body)))
    ensures RawLiteralEnd(text, i) == Some(i + |PrintLexeme(Raw(prefix, hashes, body))|)
  {
    hide Find, RawPrefix, RawQuote, Terminator, At;
    RawAt(text, i, prefix, hashes, body);
    RawQuoteAt(text, i, prefix, hashes);
    TerminatorFound(text, i + |prefix| + hashes + 1, body, hashes);
  }

  lemma PrefixesAre(text: string)
    ensures var n := RawPrefix(text, 0); 0 < n ==> n <= |text| && text[..n] in {"r", "br", "cr"}
  {
    var n := RawPrefix(text, 0);
    if n == 1 {
      assert text[..1] == [text[0]];
    } else if n == 2 {
      assert text[..2] == [text[0], text[1]];
    }
  }

  lemma RawParts(text: string, prefix: string, hashes: nat, body: string, e: nat)
    requires |prefix| + hashes + 1 <= |text| && text[..|prefix|] == prefix
    requires text[|prefix| + hashes] == '"' && forall k :: |prefix| <= k < |prefix| + hashes ==> text[k] == '#'
    requires |prefix| + hashes + 1 <= e - 1 - hashes && e <= |text|
    requires body == text[|prefix| + hashes + 1..e - 1 - hashes]
    requires At(text, e - 1 - hashes, "\"" + Repeat('#', hashes))
    ensures At(text, 0, prefix + Repeat('#', hashes) + "\"" + body + "\"" + Repeat('#', hashes))
    ensures e == |PrintLexeme(Raw(prefix, hashes, body))|
  {
    var hs := Repeat('#', hashes);
    AtConcat(text, 0, prefix + hs + "\"" + body, "\"" + hs);
    AtConcat(text, 0, prefix + hs + "\"", body);
    AtConcat(text, 0, prefix + hs, "\"");
    AtConcat(text, 0, prefix, hs);
    assert prefix + hs + "\"" + body + ("\"" + hs) == prefix + hs + "\"" + body + "\"" + hs;
  }

  /** What does not occur before `end` does not occur in the text up to there. */
  lemma NotInBody(text: string, from: nat, end: nat, pat: string)
    requires from <= end <= |text| && pat != "" && forall k: nat :: from <= k < end ==> !At(text, k, pat)
    ensures forall k: nat :: !At(text[from..end], k, pat)
  {
    forall k: nat ensures !At(text[from..end], k, pat) {
      if At(text[from..end], k, pat) {
        forall j | from + k <= j < from + k + |pat| ensures text[j] == pat[j - from - k] {
          assert text[j] == text[from..end][j - from];
        }
        assert At(text, from + k, pat);
      }
    }
  }

  lemma RawBegins(text: string, prefix: string, hashes: nat, body: string)
    requires prefix in {"r", "br", "cr"}
    requires At(text, 0, prefix + Repeat('#', hashes) + "\"" + body + "\"" + Repeat('#', hashes))
    requires forall k: nat :: !At(body, k, "\"" + Repeat('#', hashes))
    ensures BeginsRaw(text, prefix, hashes, body)
  {
  }

  /** The raw literal that was found is there. */
  lemma RawIsThere(text: string, e: nat) returns (prefix: string, hashes: nat, body: string)
    requires text != "" && RawLiteralEnd(text, 0) == Some(e)
    ensures BeginsRaw(text, prefix, hashes, body) && e == |PrintLexeme(Raw(prefix, hashes, body))|
  {
    hide Find, HashesEnd, BeginsRaw, PrintLexeme;
    var n, quote := RawPrefix(text, 0), RawQuote(text, 0).value;
    var terminator := Terminator(text, 0);
    prefix, hashes, body := text[..n], quote - n, text[quote + 1..e - |terminator|];
    PrefixesAre(text);
    assert text[n..quote] == Repeat('#', hashes);
    assert terminator == "\"" + Repeat('#', hashes);
    RawParts(text, prefix, hashes, body, e);
    NotInBody(text, quote + 1, e - |terminator|, terminator);
    assert BeginsRaw(text, prefix, hashes, body) by { RawBegins(text, prefix, hashes, body); }
  }

  lemma RawPrint(prefix: string, hashes: nat, body: string)
    ensures PrintLexeme(Raw(prefix, hashes, body)) == prefix + Repeat('#', hashes) + "\"" + body + "\"" + Repeat('#', hashes)
  {
  }

  /** Where a raw literal starts and ends: exactly where one stands. */
  lemma RawLiteralExactly(text: string, e: nat)
    requires text != ""
    ensures RawLiteralEnd(text, 0) == Some(e) <==>
            exists prefix, hashes, body ::
              BeginsRaw(text, prefix, hashes, body) && e == |PrintLexeme(Raw(prefix, hashes, body))|
  {
    hide RawLiteralEnd, PrintLexeme, At;
    if RawLiteralEnd(text, 0) == Some(e) {
      var prefix, hashes, body := RawIsThere(text, e);
    }
    if prefix, hashes, body :| BeginsRaw(text, prefix, hashes, body) && e == |PrintLexeme(Raw(prefix, hashes, body))| {
      assert At(text, 0, PrintLexeme(Raw(prefix, hashes, body))) by { RawPrint(prefix, hashes, body); }
      RawRun(text, 0, prefix, hashes, body);
    }
  }

  lemma LineEndUnique(text: string, i: nat, e: nat)
    requires i <= e <= |text|
    requires forall k :: i <= k < e ==> text[k] != '\n'
    requires e < |text| ==> text[e] == '\n'
    ensures LineEnd(text, i) == e
  {
  }

  lemma PlainRun(text: string, singleQuoted: bool, i: nat, c: char, rest: string)
    requires LexemeOk(Plain(c), rest, singleQuoted)
    requires i < |text| && text[i] == c && At(text, i + 1, rest) && i + 1 + |rest| == |text|
    ensures Blanked(text, singleQuoted, i, Code) == [c] + Blanked(text, singleQuoted, i + 1, Code)
  {
    hide Scan, Blanked, RawLiteralEnd, BeginsRaw, PrintLexeme;
    var suffix := [c] + rest;
    assert text[i..] == suffix;
    RawFromSuffix(text, i);
    if !singleQuoted && RawLiteralEnd(suffix, 0).Some? {
      RawLiteralExactly(suffix, RawLiteralEnd(suffix, 0).value);
      assert false;
    }
    assert rest != "" ==> text[i + 1] == rest[0];
    CodeTurn(text, singleQuoted, i);
  }

  lemma StrRun(text: string, singleQuoted: bool, i: nat, quote: char, body: string)
    requires LexemeOk(Str(quote, body), "", singleQuoted)
    requires At(text, i, PrintLexeme(Str(quote, body)))
    ensures Blanked(text, singleQuoted, i, Code)
         == PrintLexeme(Str(quote, body)) + Blanked(text, singleQuoted, i + |body| + 2, Code)
  {
    hide Scan, Blanked, RawLiteralEnd;
    assert PrintLexeme(Str(quote, body)) == [quote] + (body + [quote]);
    AtConcat(text, i, [quote], body + [quote]);
    assert text[i] == quote;
    CodeTurn(text, singleQuoted, i);
    QuotedRun(text, singleQuoted, i + 1, quote, false, body);
    Associative([quote], body + [quote], Blanked(text, singleQuoted, i + |body| + 2, Code));
  }

  lemma RawLexemeRun(text: string, i: nat, prefix: string, hashes: nat, body: string)
    requires LexemeOk(Raw(prefix, hashes, body), "", false)
    requires At(text, i, PrintLexeme(Raw(prefix, hashes, body)))
    ensures var l := PrintLexeme(Raw(prefix, hashes, body));
            Blanked(text, false, i, Code) == l + Blanked(text, false, i + |l|, Code)
  {
    hide RawLiteralEnd;
    var l := PrintLexeme(Raw(prefix, hashes, body));
    RawRun(text, i, prefix, hashes, body);
    assert text[i] == l[0];
    assert text[i..i + |l|] == l;
  }

  lemma LineRun(text: string, singleQuoted: bool, i: nat, line: string)
    requires At(text, i, "//" + line) && '\n' !in line
    requires i + 2 + |line| == |text| || text[i + 2 + |line|] == '\n'
    ensures Blanked(text, singleQuoted, i, Code)
         == Repeat(' ', 2 + |line|) + Blanked(text, singleQuoted, i + 2 + |line|, Code)
  {
    hide RawLiteralEnd;
    AtConcat(text, i, "//", line);
    assert text[i] == '/' && text[i + 1] == '/';
    LineEndUnique(text, i + 2, i + 2 + |line|);
  }

  lemma BlockLexemeRun(text: string, singleQuoted: bool, i: nat, inside: Body)
    requires BodyOk(inside) && At(text, i, PrintLexeme(BlockComment(inside)))
    ensures Blanked(text, singleQuoted, i, Code) == FadeLexeme(BlockComment(inside))
              + Blanked(text, singleQuoted, i + |PrintLexeme(BlockComment(inside))|, Code)
  {
    hide Scan, Blanked, At, PrintBody, FadeBody, BodyOk;
    var mid := i + 2 + |PrintBody(inside)|;
    assert PrintLexeme(BlockComment(inside)) == "/*" + PrintBody(inside) + "*/" + "";
    DelimitedAt(text, i, PrintBody(inside), "");
    OpenTurn(text, singleQuoted, i, Code);
    BlockRun(text, singleQuoted, i + 2, 1, inside);
    CloseTurn(text, singleQuoted, mid, 1);
    AssociativeChain("  ", FadeBody(inside), "  ", "", Blanked(text, singleQuoted, mid + 2, Code));
  }

  lemma {:induction false} OpenStrRun(text: string, singleQuoted: bool, i: nat, quote: char, escaped: bool)
    requires i <= |text| && NeverEnds(text[i..], quote, escaped)
    ensures Blanked(text, singleQuoted, i, Quoted(quote, escaped)) == text[i..]
    decreases |text| - i
  {
    hide Scan, Blanked;
    if i == |text| {
      BlankedEnd(text, singleQuoted, Quoted(quote, escaped));
    } else {
      QuotedTurn(text, singleQuoted, i, quote, escaped);
      assert text[i..][1..] == text[i + 1..] && text[i..][0] == text[i];
      OpenStrRun(text, singleQuoted, i + 1, quote, !escaped && text[i] == '\\');
    }
  }

  lemma FadeTwo(text: string)
    requires |text| >= 2 && text[0] != '\n' && text[1] != '\n'
    ensures FadeText(text) == "  " + FadeText(text[2..])
  {
  }

  lemma {:induction false} OpenBlockRun(text: string, singleQuoted: bool, i: nat, depth: nat)
    requires i <= |text| && depth > 0 && NeverCloses(text[i..], depth)
    ensures Blanked(text, singleQuoted, i, Block(depth)) == FadeText(text[i..])
    decreases |text| - i
  {
    hide Scan, Blanked;
    var rest := text[i..];
    if i == |text| {
      BlankedEnd(text, singleQuoted, Block(depth));
    } else if Pair(rest, 0, '/', '*') {
      assert Pair(text, i, '/', '*') && rest[2..] == text[i + 2..];
      OpenTurn(text, singleQuoted, i, Block(depth));
      OpenBlockRun(text, singleQuoted, i + 2, depth + 1);
      FadeTwo(rest);
    } else if Pair(rest, 0, '*', '/') {
      assert Pair(text, i, '*', '/') && rest[2..] == text[i + 2..];
      CloseTurn(text, singleQuoted, i, depth);
      OpenBlockRun(text, singleQuoted, i + 2, depth - 1);
      FadeTwo(rest);
    } else {
      assert !Pair(text, i, '/', '*') && !Pair(text, i, '*', '/') && rest[1..] == text[i + 1..];
      BodyTurn(text, singleQuoted, i, depth);
      OpenBlockRun(text, singleQuoted, i + 1, depth);
      assert FadeText(rest) == [BlankOf(rest[0])] + FadeText(rest[1..]);
    }
  }

  lemma OpenLexemeRun(text: string, singleQuoted: bool, i: nat, l: Lexeme)
    requires (l.OpenStr? || l.OpenBlock?) && LexemeOk(l, "", singleQuoted)
    requires At(text, i, PrintLexeme(l)) && i + |PrintLexeme(l)| == |text|
    ensures Blanked(text, singleQuoted, i, Code) == FadeLexeme(l)
  {
    hide Scan, Blanked, RawLiteralEnd, NeverEnds, NeverCloses;
    assert text[i..] == PrintLexeme(l);
    match l
    case OpenStr(quote, body) =>
      assert text[i] == quote && text[i + 1..] == body;
      CodeTurn(text, singleQuoted, i);
      OpenStrRun(text, singleQuoted, i + 1, quote, false);
    case OpenBlock(remainder) =>
      assert text[i] == '/' && text[i + 1] == '*' && text[i + 2..] == remainder;
      OpenTurn(text, singleQuoted, i, Code);
      OpenBlockRun(text, singleQuoted, i + 2, 1);
  }

  lemma LexemeRun(text: string, singleQuoted: bool, i: nat, l: Lexeme, rest: string)
    requires LexemeOk(l, rest, singleQuoted)
    requires At(text, i, PrintLexeme(l)) && At(text, i + |PrintLexeme(l)|, rest)
    requires i + |PrintLexeme(l)| + |rest| == |text|
    ensures Blanked(text, singleQuoted, i, Code)
         == FadeLexeme(l) + Blanked(text, singleQuoted, i + |PrintLexeme(l)|, Code)
  {
    hide Scan, Blanked, RawLiteralEnd;
    var next := i + |PrintLexeme(l)|;
    assert text[i] == PrintLexeme(l)[0];
    assert rest != "" ==> text[next] == rest[0];
    match l
    case Plain(c) => PlainRun(text, singleQuoted, i, c, rest);
    case Str(quote, body) => StrRun(text, singleQuoted, i, quote, body);
    case Raw(prefix, hashes, body) => RawLexemeRun(text, i, prefix, hashes, body);
    case LineComment(line) => LineRun(text, singleQuoted, i, line);
    case BlockComment(inside) => BlockLexemeRun(text, singleQuoted, i, inside);
    case _ =>
      OpenLexemeRun(text, singleQuoted, i, l);
      BlankedEnd(text, singleQuoted, Code);
      assert FadeLexeme(l) + "" == FadeLexeme(l);
  }

  lemma {:induction false} LexemesRun(text: string, singleQuoted: bool, i: nat, ls: seq<Lexeme>)
    requires LexemesOk(ls, singleQuoted)
    requires At(text, i, Print(ls)) && i + |Print(ls)| == |text|
    ensures Blanked(text, singleQuoted, i, Code) == PrintFaded(ls)
    decreases |ls|
  {
    hide Scan, LexemeOk, FadeLexeme, PrintLexeme, At;
    if ls != [] {
      AtConcat(text, i, PrintLexeme(ls[0]), Print(ls[1..]));
      LexemeRun(text, singleQuoted, i, ls[0], Print(ls[1..]));
      LexemesRun(text, singleQuoted, i + |PrintLexeme(ls[0])|, ls[1..]);
    }
  }

  /** On any text spelled by lexemes, the comments are blanked and nothing else is touched. */
  lemma BlanksExactlyTheComments(ls: seq<Lexeme>, singleQuoted: bool)
    requires LexemesOk(ls, singleQuoted)
    ensures Blanked(Print(ls), singleQuoted, 0, Code) == PrintFaded(ls)
  {
    LexemesRun(Print(ls), singleQuoted, 0, ls);
  }

  // ---------------------------------------------------------------- every text is spelled

  /** Where a string ends, if it does. */
  lemma {:induction false} EndsOrNever(text: string, quote: char, escaped: bool) returns (body: string, rest: string)
    requires !NeverEnds(text, quote, escaped) && quote != '\\'
    ensures text == body + [quote] + rest && WellEscaped(body, quote, escaped)
    decreases |text|
  {
    if !escaped && text[0] == quote {
      body, rest := "", text[1..];
    } else {
      var inner: string;
      inner, rest := EndsOrNever(text[1..], quote, !escaped && text[0] == '\\');
      body := [text[0]] + inner;
      assert body[1..] == inner;
    }
  }

  /** Bodies with their closings, one after the other. */
  function PrintBodies(bodies: seq<Body>, rest: string): string {
    if bodies == [] then rest else PrintBody(bodies[0]) + "*/" + PrintBodies(bodies[1..], rest)
  }

  ghost predicate BodiesOk(bodies: seq<Body>) {
    forall i :: 0 <= i < |bodies| ==> BodyOk(bodies[i])
  }

  lemma EndIsEmpty()
    ensures PrintBody(End) == "" && BodyOk(End)
  {
  }

  lemma NestPrint(inner: Body, rest: Body)
    ensures PrintBody(Nest(inner, rest)) == "/*" + PrintBody(inner) + "*/" + PrintBody(rest)
  {
  }

  lemma FiveParts(a: string, b: string, c: string)
    ensures ("/*" + a + "*/" + b) + "*/" + c == "/*" + (a + "*/" + (b + "*/" + c))
  {
  }

  lemma NestedPrint(inner: seq<Body>, rest: string)
    requires |inner| >= 2
    ensures PrintBodies([Nest(inner[0], inner[1])] + inner[2..], rest) == "/*" + PrintBodies(inner, rest)
  {
    hide PrintBody;
    var bodies := [Nest(inner[0], inner[1])] + inner[2..];
    assert bodies[1..] == inner[2..] && inner[1..][1..] == inner[2..];
    var (a, b, c) := (PrintBody(inner[0]), PrintBody(inner[1]), PrintBodies(inner[2..], rest));
    assert PrintBody(bodies[0]) == "/*" + a + "*/" + b by { NestPrint(inner[0], inner[1]); }
    assert PrintBodies(inner, rest) == a + "*/" + (b + "*/" + c);
    assert PrintBodies(bodies, rest) == ("/*" + a + "*/" + b) + "*/" + c;
    FiveParts(a, b, c);
  }

  lemma NestedOk(inner: seq<Body>)
    requires |inner| >= 2 && BodiesOk(inner)
    ensures BodiesOk([Nest(inner[0], inner[1])] + inner[2..])
  {
    hide PrintBody;
    var nest := Nest(inner[0], inner[1]);
    var bodies := [nest] + inner[2..];
    assert BodyOk(nest) by { assert BodyOk(inner[0]) && BodyOk(inner[1]); }
    forall i | 0 <= i < |bodies| ensures BodyOk(bodies[i]) {
      if i > 0 { assert bodies[i] == inner[i + 1]; }
    }
  }

  lemma CharacterOk(text: string, more: seq<Body>, rest: string)
    requires text != "" && more != [] && BodiesOk(more) && text[1..] == PrintBodies(more, rest)
    requires !Pair(text, 0, '/', '*') && !Pair(text, 0, '*', '/')
    ensures var bodies := [Text(text[0], more[0])] + more[1..];
            BodiesOk(bodies) && text == PrintBodies(bodies, rest)
  {
    var first := Text(text[0], more[0]);
    var bodies := [first] + more[1..];
    var printed := PrintBody(more[0]) + "*/";
    assert text[1..] == printed + PrintBodies(more[1..], rest);
    assert text[1] == printed[0];
    assert BodyOk(first) by { assert BodyOk(more[0]); }
    forall i | 0 <= i < |bodies| ensures BodyOk(bodies[i]) {
      if i > 0 { assert bodies[i] == more[i]; }
    }
    assert bodies[1..] == more[1..];
    assert text == [text[0]] + text[1..];
    assert PrintBody(first) + "*/" == [text[0]] + printed;
  }

  /** Inside `depth` comments that are all closed: the bodies up to their closings. */
  lemma {:induction false} ClosedBodies(text: string, depth: nat) returns (bodies: seq<Body>, rest: string)
    requires depth > 0 && !NeverCloses(text, depth)
    ensures |bodies| == depth && BodiesOk(bodies) && text == PrintBodies(bodies, rest)
    decreases |text|
  {
    hide PrintBody, BodyOk;
    if Pair(text, 0, '/', '*') {
      var inner: seq<Body>;
      inner, rest := ClosedBodies(text[2..], depth + 1);
      bodies := [Nest(inner[0], inner[1])] + inner[2..];
      NestedOk(inner);
      NestedPrint(inner, rest);
      assert text == "/*" + text[2..];
    } else if Pair(text, 0, '*', '/') {
      if depth == 1 {
        bodies, rest := [End], text[2..];
        assert bodies[1..] == [];
      } else {
        var outer: seq<Body>;
        outer, rest := ClosedBodies(text[2..], depth - 1);
        bodies := [End] + outer;
        assert bodies[1..] == outer;
      }
      EndIsEmpty();
      assert text == "" + "*/" + text[2..];
    } else {
      var more: seq<Body>;
      more, rest := ClosedBodies(text[1..], depth);
      bodies := [Text(text[0], more[0])] + more[1..];
      CharacterOk(text, more, rest);
    }
  }

  lemma LineCommentFirst(text: string, singleQuoted: bool) returns (l: Lexeme, rest: string)
    requires Pair(text, 0, '/', '/')
    ensures text == PrintLexeme(l) + rest && LexemeOk(l, rest, singleQuoted)
  {
    var e := LineEnd(text, 2);
    l, rest := LineComment(text[2..e]), text[e..];
    assert text == "//" + text[2..e] + rest;
  }

  lemma BlockCommentFirst(text: string, singleQuoted: bool) returns (l: Lexeme, rest: string)
    requires Pair(text, 0, '/', '*')
    ensures text == PrintLexeme(l) + rest && LexemeOk(l, rest, singleQuoted)
  {
    hide NeverCloses, BodyOk, PrintBody;
    assert text == "/*" + text[2..];
    if NeverCloses(text[2..], 1) {
      l, rest := OpenBlock(text[2..]), "";
    } else {
      var bodies: seq<Body>;
      bodies, rest := ClosedBodies(text[2..], 1);
      l := BlockComment(bodies[0]);
      assert bodies[1..] == [] && BodyOk(bodies[0]);
      assert PrintBodies(bodies, rest) == PrintBody(bodies[0]) + "*/" + rest;
      assert PrintLexeme(l) + rest == "/*" + (PrintBody(bodies[0]) + "*/" + rest);
    }
  }

  lemma StringFirst(text: string, singleQuoted: bool) returns (l: Lexeme, rest: string)
    requires text != "" && text[0] in Quotes(singleQuoted)
    ensures text == PrintLexeme(l) + rest && LexemeOk(l, rest, singleQuoted)
  {
    hide NeverEnds, WellEscaped;
    var (quote, tail) := (text[0], text[1..]);
    assert text == [quote] + tail;
    if NeverEnds(tail, quote, false) {
      l, rest := OpenStr(quote, tail), "";
    } else {
      var body: string;
      body, rest := EndsOrNever(tail, quote, false);
      l := Str(quote, body);
      assert [quote] + (body + [quote] + rest) == [quote] + body + [quote] + rest;
    }
  }

  lemma PlainFirst(text: string, singleQuoted: bool) returns (l: Lexeme, rest: string)
    requires text != "" && text[0] !in Quotes(singleQuoted)
    requires !Pair(text, 0, '/', '/') && !Pair(text, 0, '/', '*')
    requires singleQuoted || forall prefix, hashes, body :: !BeginsRaw(text, prefix, hashes, body)
    ensures text == PrintLexeme(l) + rest && LexemeOk(l, rest, singleQuoted)
  {
    hide BeginsRaw;
    l, rest := Plain(text[0]), text[1..];
    assert [text[0]] + rest == text;
    assert rest != "" ==> text[1] == rest[0];
  }

  lemma RawAndRest(text: string, prefix: string, hashes: nat, body: string) returns (rest: string)
    requires BeginsRaw(text, prefix, hashes, body)
    ensures text == PrintLexeme(Raw(prefix, hashes, body)) + rest && LexemeOk(Raw(prefix, hashes, body), rest, false)
  {
    var printed := PrintLexeme(Raw(prefix, hashes, body));
    RawPrint(prefix, hashes, body);
    rest := text[|printed|..];
    assert text[..|printed|] == printed;
  }

  /** One lexeme from the start of any text. */
  lemma FirstLexeme(text: string, singleQuoted: bool) returns (l: Lexeme, rest: string)
    requires text != ""
    ensures text == PrintLexeme(l) + rest && LexemeOk(l, rest, singleQuoted)
  {
    hide LexemeOk, PrintLexeme, BeginsRaw, Quotes;
    if !singleQuoted && exists prefix, hashes, body :: BeginsRaw(text, prefix, hashes, body) {
      var prefix, hashes, body :| BeginsRaw(text, prefix, hashes, body);
      l := Raw(prefix, hashes, body);
      rest := RawAndRest(text, prefix, hashes, body);
    } else if Pair(text, 0, '/', '/') {
      l, rest := LineCommentFirst(text, singleQuoted);
    } else if Pair(text, 0, '/', '*') {
      l, rest := BlockCommentFirst(text, singleQuoted);
    } else if text[0] in Quotes(singleQuoted) {
      l, rest := StringFirst(text, singleQuoted);
    } else {
      l, rest := PlainFirst(text, singleQuoted);
    }
  }

  /** Every text is spelled by lexemes in each mode, so that `BlanksExactlyTheComments` says what happens to it. */
  lemma {:induction false} EveryTextIsSpelled(text: string, singleQuoted: bool) returns (ls: seq<Lexeme>)
    ensures Print(ls) == text && LexemesOk(ls, singleQuoted)
    decreases |text|
  {
    hide LexemeOk, PrintLexeme;
    if text == "" {
      ls := [];
    } else {
      var l, rest := FirstLexeme(text, singleQuoted);
      var more := EveryTextIsSpelled(rest, singleQuoted);
      ls := [l] + more;
      assert ls[1..] == more;
    }
  }

  /** What happens to any text, in each mode: it is spelled by lexemes whose comments, and nothing else, become blanks. */
  lemma BlankingOfAnyText(text: string, singleQuoted: bool) returns (ls: seq<Lexeme>)
    ensures Print(ls) == text && LexemesOk(ls, singleQuoted)
    ensures Blanked(text, singleQuoted, 0, Code) == PrintFaded(ls)
  {
    ls := EveryTextIsSpelled(text, singleQuoted);
    BlanksExactlyTheComments(ls, singleQuoted);
  }
}
