/** The string-literal extractors of the architecture checker (cli/ci/check_architecture.py). */
module Literals {
  import opened Wrappers
  import opened Text
  import opened Comments

  // ---------------------------------------------------------------- escaped literals

  /** The closing delimiter of a literal whose body is scanned from `cursor`. */
  function ClosingDelimiter(code: string, cursor: nat, delimiter: char): (r: Option<nat>)
    ensures r.Some? ==> cursor <= r.value < |code|
    decreases |code| - cursor
  {
    if cursor >= |code| then None
    else if code[cursor] == '\\' then ClosingDelimiter(code, cursor + 2, delimiter)
    else if code[cursor] == delimiter then Some(cursor)
    else ClosingDelimiter(code, cursor + 1, delimiter)
  }

  method EscapedLiteral(code: string, opening: nat, delimiter: char) returns (r: Option<(string, nat)>)
    requires opening < |code|
    ensures r == match ClosingDelimiter(code, opening + 1, delimiter)
                 case None => None
                 case Some(close) => Some((code[opening + 1..close], close + 1))
  {
    var cursor := opening + 1;
    while cursor < |code|
      invariant opening + 1 <= cursor
      invariant ClosingDelimiter(code, cursor, delimiter) == ClosingDelimiter(code, opening + 1, delimiter)
      decreases |code| - cursor
    {
      var character := code[cursor];
      if character == '\\' {
        cursor := cursor + 2;
        continue;
      }
      if character == delimiter {
        return Some((code[opening + 1..cursor], cursor + 1));
      }
      cursor := cursor + 1;
    }
    return None;
  }

  /** A delimiter found for a well-escaped body is the one right after it. */
  lemma {:induction false} BodyCloses(code: string, i: nat, delimiter: char, escaped: bool, body: string)
    requires delimiter != '\\' && WellEscaped(body, delimiter, escaped)
    requires At(code, i, body + [delimiter])
    ensures ClosingDelimiter(code, if escaped then i + 1 else i, delimiter) == Some(i + |body|)
    decreases |body|
  {
    assert code[i] == (body + [delimiter])[0];
    if body != "" {
      assert body + [delimiter] == [body[0]] + (body[1..] + [delimiter]);
      AtConcat(code, i, [body[0]], body[1..] + [delimiter]);
      BodyCloses(code, i + 1, delimiter, !escaped && body[0] == '\\', body[1..]);
    }
  }

  // ---------------------------------------------------------------- Rust character literals

  predicate IsHexDigit(c: char) {
    '0' <= c <= '9' || 'a' <= c <= 'f' || 'A' <= c <= 'F'
  }

  /** The end of the run of hexadecimal digits and underscores from `i`. */
  function HexDigitsEnd(code: string, i: nat): (e: nat)
    requires i <= |code|
    ensures i <= e <= |code|
    ensures forall k :: i <= k < e ==> IsHexDigit(code[k]) || code[k] == '_'
    ensures e < |code| ==> !IsHexDigit(code[e]) && code[e] != '_'
    decreases |code| - i
  {
    if i < |code| && (IsHexDigit(code[i]) || code[i] == '_') then HexDigitsEnd(code, i + 1) else i
  }

  /** Where the closing quote of a character literal must stand. */
  function CharClosing(code: string, body: nat): Option<nat>
    requires body < |code|
  {
    if code[body] != '\\' then Some(body + 1)
    else if body + 1 >= |code| then None
    else if code[body + 1] == 'x' then Some(body + 4)
    else if code[body + 1] == 'u' && body + 2 < |code| && code[body + 2] == '{' then
      var end := HexDigitsEnd(code, body + 3);
      if end < |code| && code[end] == '}' && (exists k :: body + 3 <= k < end && code[k] != '_')
      then Some(end + 1) else None
    else Some(body + 2)
  }

  function CharLiteralEnd(code: string, opening: nat): (r: Option<nat>)
    ensures r.Some? ==> opening < r.value <= |code|
  {
    var body := opening + 1;
    if body >= |code| || code[body] in {'\'', '\r', '\n'} then None else
    match CharClosing(code, body)
    case None => None
    case Some(closing) => if closing < |code| && code[closing] == '\'' && closing > opening then Some(closing + 1) else None
  }

  method RustCharLiteralEnd(code: string, opening: nat) returns (r: Option<nat>)
    ensures r == CharLiteralEnd(code, opening)
  {
    var body := opening + 1;
    if body >= |code| || code[body] in {'\'', '\r', '\n'} {
      return None;
    }
    var closing: nat;
    if code[body] != '\\' {
      closing := body + 1;
    } else if body + 1 >= |code| {
      return None;
    } else if code[body + 1] == 'x' {
      closing := body + 4;
    } else if code[body + 1] == 'u' && body + 2 < |code| && code[body + 2] == '{' {
      closing := body + 3;
      var digits := 0;
      while closing < |code| && (IsHexDigit(code[closing]) || code[closing] == '_')
        invariant body + 3 <= closing <= |code|
        invariant HexDigitsEnd(code, closing) == HexDigitsEnd(code, body + 3)
        invariant digits >= 0
        invariant digits > 0 <==> exists k :: body + 3 <= k < closing && code[k] != '_'
      {
        digits := digits + if code[closing] != '_' then 1 else 0;
        closing := closing + 1;
      }
      if digits == 0 || closing >= |code| || code[closing] != '}' {
        return None;
      }
      closing := closing + 1;
    } else {
      closing := body + 2;
    }
    if closing < |code| && code[closing] == '\'' {
      return Some(closing + 1);
    }
    return None;
  }

  // ---------------------------------------------------------------- Rust string literals

  /** One turn of an extractor: go on, take a literal and go on, or give up. */
  datatype Reading = Skip(next: nat) | Take(value: string, next: nat) | Stop

  function TakeEscaped(code: string, opening: nat, delimiter: char): (t: Reading)
    requires opening < |code|
    ensures !t.Stop? ==> opening < t.next <= |code|
  {
    match ClosingDelimiter(code, opening + 1, delimiter)
    case None => Stop
    case Some(close) => Take(code[opening + 1..close], close + 1)
  }

  function RustTurn(code: string, cursor: nat): (t: Reading)
    requires cursor < |code|
    ensures !t.Stop? ==> cursor < t.next <= |code|
  {
    if code[cursor] == '\'' then
      match CharLiteralEnd(code, cursor)
      case Some(end) => Skip(end)
      case None => Skip(cursor + 1)
    else if code[cursor] == 'r' then
      var quote := HashesEnd(code, cursor + 1);
      if quote < |code| && code[quote] == '"' then
        var terminator := "\"" + Repeat('#', quote - cursor - 1);
        match Find(code, terminator, quote + 1)
        case None => Stop
        case Some(closing) => Take(code[quote + 1..closing], closing + |terminator|)
      else Skip(cursor + 1)
    else if code[cursor] != '"' then Skip(cursor + 1)
    else TakeEscaped(code, cursor, '"')
  }

  function RustLiterals(code: string, cursor: nat): seq<string>
    requires cursor <= |code|
    decreases |code| - cursor
  {
    if cursor == |code| then [] else
    match RustTurn(code, cursor)
    case Skip(next) => RustLiterals(code, next)
    case Take(value, next) => [value] + RustLiterals(code, next)
    case Stop => []
  }

  /** One turn of the loop, with the values collected so far in front. */
  lemma RustProgress(values: seq<string>, code: string, cursor: nat)
    requires cursor <= |code|
    ensures values + RustLiterals(code, cursor) ==
            if cursor == |code| then values else
            match RustTurn(code, cursor)
            case Skip(next) => values + RustLiterals(code, next)
            case Take(value, next) => (values + [value]) + RustLiterals(code, next)
            case Stop => values
  {
    hide RustTurn;
    if cursor < |code| && RustTurn(code, cursor).Take? {
      var turn := RustTurn(code, cursor);
      Associative(values, [turn.value], RustLiterals(code, turn.next));
    }
  }

  lemma OneMoreHash(code: string, i: nat)
    requires i < |code| && code[i] == '#'
    ensures HashesEnd(code, i) == HashesEnd(code, i + 1)
  {
  }

  lemma NoMoreHashes(code: string, i: nat)
    requires i <= |code| && (i < |code| ==> code[i] != '#')
    ensures HashesEnd(code, i) == i
  {
  }

  method RustStringLiterals(code: string) returns (values: seq<string>)
    ensures values == RustLiterals(code, 0)
  {
    hide CharLiteralEnd, Find, RustLiterals, ClosingDelimiter, At, HashesEnd;
    values := [];
    var cursor := 0;
    while cursor < |code|
      invariant cursor <= |code|
      invariant values + RustLiterals(code, cursor) == RustLiterals(code, 0)
      decreases |code| - cursor
    {
      RustProgress(values, code, cursor);
      var character := code[cursor];
      if character == '\'' {
        var charEnd := RustCharLiteralEnd(code, cursor);
        cursor := if charEnd.Some? then charEnd.value else cursor + 1;
        continue;
      }
      if character == 'r' {
        var hashesEnd := cursor + 1;
        while hashesEnd < |code| && code[hashesEnd] == '#'
          invariant cursor + 1 <= hashesEnd <= |code|
          invariant HashesEnd(code, hashesEnd) == HashesEnd(code, cursor + 1)
        {
          OneMoreHash(code, hashesEnd);
          hashesEnd := hashesEnd + 1;
        }
        NoMoreHashes(code, hashesEnd);
        var hashCount := hashesEnd - cursor - 1;
        if hashesEnd < |code| && code[hashesEnd] == '"' {
          var body := hashesEnd + 1;
          var terminator := "\"" + Repeat('#', hashCount);
          var closing := Find(code, terminator, body);
          if closing.None? {
            break;
          }
          values := values + [code[body..closing.value]];
          cursor := closing.value + |terminator|;
          continue;
        }
      }
      if character != '"' {
        cursor := cursor + 1;
        continue;
      }
      var literal := EscapedLiteral(code, cursor, '"');
      if literal.None? {
        break;
      }
      var (value, next) := literal.value;
      cursor := next;
      values := values + [value];
    }
    RustProgress(values, code, cursor);
  }

  // ---------------------------------------------------------------- TypeScript string literals

  predicate IsTsDelimiter(c: char) {
    c == '"' || c == '\'' || c == '`'
  }

  function TsTurn(code: string, cursor: nat): (t: Reading)
    requires cursor < |code|
    ensures !t.Stop? ==> cursor < t.next <= |code|
  {
    if IsTsDelimiter(code[cursor]) then TakeEscaped(code, cursor, code[cursor]) else Skip(cursor + 1)
  }

  function TsLiterals(code: string, cursor: nat): seq<string>
    requires cursor <= |code|
    decreases |code| - cursor
  {
    if cursor == |code| then [] else
    match TsTurn(code, cursor)
    case Skip(next) => TsLiterals(code, next)
    case Take(value, next) => [value] + TsLiterals(code, next)
    case Stop => []
  }

  lemma TsProgress(values: seq<string>, code: string, cursor: nat)
    requires cursor <= |code|
    ensures values + TsLiterals(code, cursor) ==
            if cursor == |code| then values else
            match TsTurn(code, cursor)
            case Skip(next) => values + TsLiterals(code, next)
            case Take(value, next) => (values + [value]) + TsLiterals(code, next)
            case Stop => values
  {
    hide TsTurn;
    if cursor < |code| && TsTurn(code, cursor).Take? {
      var turn := TsTurn(code, cursor);
      Associative(values, [turn.value], TsLiterals(code, turn.next));
    }
  }

  method TypescriptStringLiterals(code: string) returns (values: seq<string>)
    ensures values == TsLiterals(code, 0)
  {
    hide TsLiterals;
    values := [];
    var cursor := 0;
    while cursor < |code|
      invariant cursor <= |code|
      invariant values + TsLiterals(code, cursor) == TsLiterals(code, 0)
      decreases |code| - cursor
    {
      TsProgress(values, code, cursor);
      var delimiter := code[cursor];
      if !IsTsDelimiter(delimiter) {
        cursor := cursor + 1;
        continue;
      }
      var literal := EscapedLiteral(code, cursor, delimiter);
      if literal.None? {
        break;
      }
      var (value, next) := literal.value;
      cursor := next;
      values := values + [value];
    }
    TsProgress(values, code, cursor);
  }

  // ---------------------------------------------------------------- extraction undoes printing

  datatype Token =
    | Filler(text: string)                    // code without quotes
    | Apostrophe(name: string)                // a lifetime or label such as 'static
    | EscapedString(body: string)
    | RawString(hashes: nat, body: string)
    | PlainChar(c: char)                      // 'c'
    | EscapeChar(c: char)                     // '\c'
    | HexChar(a: char, b: char)               // '\xab'
    | UnicodeChar(digits: string)             // '\u{1f_600}'

  function PrintToken(t: Token): string {
    match t
    case Filler(text) => text
    case Apostrophe(name) => "'" + name
    case EscapedString(body) => "\"" + (body + "\"")
    case RawString(hashes, body) => PrintLexeme(Raw("r", hashes, body))
    case PlainChar(c) => ['\'', c, '\'']
    case EscapeChar(c) => ['\'', '\\', c, '\'']
    case HexChar(a, b) => ['\'', '\\', 'x', a, b, '\'']
    case UnicodeChar(digits) => "'\\u{" + digits + "}'"
  }

  function PrintTokens(ts: seq<Token>): string {
    if ts == [] then "" else PrintToken(ts[0]) + PrintTokens(ts[1..])
  }

  function Bodies(ts: seq<Token>): seq<string> {
    if ts == [] then [] else
    (match ts[0]
     case EscapedString(body) => [body]
     case RawString(_, body) => [body]
     case _ => []) + Bodies(ts[1..])
  }

  /** The text ends in `r` and hashes, so that a following quote would open a raw literal. */
  predicate OpensRaw(text: string) {
    text != "" && (text[|text| - 1] == 'r' || (text[|text| - 1] == '#' && OpensRaw(text[..|text| - 1])))
  }

  predicate FillerOk(text: string) {
    '"' !in text && '\'' !in text && !OpensRaw(text)
  }

  /** A hexadecimal digit, or an underscore between digits. */
  ghost predicate IsHexOrUnderscore(c: char) {
    c in {'0', '1', '2', '3', '4', '5', '6', '7', '8', '9', 'a', 'b', 'c', 'd', 'e', 'f', 'A', 'B', 'C', 'D', 'E', 'F', '_'}
  }

  lemma HexOrUnderscore(c: char)
    ensures IsHexOrUnderscore(c) <==> IsHexDigit(c) || c == '_'
  {
  }

  ghost predicate TokenOk(t: Token) {
    match t
    case Filler(text) => FillerOk(text)
    case Apostrophe(name) => |name| >= 2 && name[0] != '\\' && FillerOk(name)
    case EscapedString(body) => WellEscaped(body, '"', false)
    case RawString(hashes, body) => forall k: nat :: !At(body, k, "\"" + Repeat('#', hashes))
    case PlainChar(c) => c !in {'\'', '\\', '\r', '\n'}
    case EscapeChar(c) => c != 'x'
    case HexChar(_, _) => true
    case UnicodeChar(digits) =>
      && (forall k :: 0 <= k < |digits| ==> IsHexOrUnderscore(digits[k]))
      && (exists k :: 0 <= k < |digits| && digits[k] != '_')
  }

  lemma {:induction false} HashesBeforeQuote(text: string, k: nat, e: nat)
    requires k < e <= |text| && text[k] == 'r'
    requires forall j :: k < j < e ==> text[j] == '#'
    ensures OpensRaw(text[..e])
    decreases e
  {
    if k + 1 < e {
      assert text[..e][..e - 1] == text[..e - 1];
      HashesBeforeQuote(text, k, e - 1);
    }
  }

  /** Inside filler no raw literal opens: the hashes after an `r` end before the filler does. */
  lemma FillerTurn(code: string, i: nat, text: string, k: nat)
    requires At(code, i, text) && FillerOk(text) && k < |text|
    ensures RustTurn(code, i + k) == Skip(i + k + 1)
  {
    assert code[i + k] == text[k];
    assert text[..|text|] == text;
    if text[k] == 'r' {
      var e := HashesEnd(code, i + k + 1);
      if e >= i + |text| {
        forall j | k < j < |text| ensures text[j] == '#' {
          assert code[i + j] == text[j];
        }
        HashesBeforeQuote(text, k, |text|);
        assert false;
      }
      assert code[e] == text[e - i];
    }
  }

  lemma {:induction false} FillerRun(code: string, i: nat, text: string, k: nat)
    requires At(code, i, text) && FillerOk(text) && k <= |text|
    ensures RustLiterals(code, i + k) == RustLiterals(code, i + |text|)
    decreases |text| - k
  {
    hide RustTurn;
    if k < |text| {
      FillerTurn(code, i, text, k);
      FillerRun(code, i, text, k + 1);
    }
  }

  lemma DigitsEndUnique(code: string, i: nat, e: nat)
    requires i <= e < |code|
    requires forall k :: i <= k < e ==> IsHexDigit(code[k]) || code[k] == '_'
    requires !IsHexDigit(code[e]) && code[e] != '_'
    ensures HexDigitsEnd(code, i) == e
  {
  }

  predicate IsCharToken(t: Token) {
    t.PlainChar? || t.EscapeChar? || t.HexChar? || t.UnicodeChar?
  }

  lemma UnicodeEnd(code: string, i: nat, digits: string)
    requires TokenOk(UnicodeChar(digits)) && At(code, i, PrintToken(UnicodeChar(digits)))
    ensures CharLiteralEnd(code, i) == Some(i + |digits| + 6)
  {
    AtConcat(code, i, "'\\u{" + digits, "}'");
    AtConcat(code, i, "'\\u{", digits);
    var e := i + 4 + |digits|;
    assert code[i + 1] == '\\' && code[i + 2] == 'u' && code[i + 3] == '{';
    assert code[e] == '}' && code[e + 1] == '\'';
    forall k | i + 4 <= k < e ensures IsHexDigit(code[k]) || code[k] == '_' {
      assert code[k] == digits[k - i - 4];
      HexOrUnderscore(code[k]);
    }
    DigitsEndUnique(code, i + 4, e);
    var k :| 0 <= k < |digits| && digits[k] != '_';
    assert code[i + 4 + k] != '_';
  }

  /** A character literal is recognized whole, whatever quote it contains. */
  lemma CharTokenEnd(code: string, i: nat, t: Token)
    requires IsCharToken(t) && TokenOk(t) && At(code, i, PrintToken(t))
    ensures CharLiteralEnd(code, i) == Some(i + |PrintToken(t)|)
  {
    if t.UnicodeChar? {
      UnicodeEnd(code, i, t.digits);
    } else {
      var s := PrintToken(t);
      forall k | i <= k < i + |s| ensures code[k] == s[k - i] {}
      assert code[i + 1] == s[1] && code[i + 2] == s[2];
      assert t.EscapeChar? || t.HexChar? ==> code[i + 3] == s[3];
      assert t.HexChar? ==> code[i + 5] == s[5];
    }
  }

  lemma RawTurnAt(code: string, i: nat, hashes: nat, closing: nat)
    requires i + 1 + hashes < |code| && code[i] == 'r' && code[i + 1 + hashes] == '"'
    requires HashesEnd(code, i + 1) == i + 1 + hashes
    requires Find(code, "\"" + Repeat('#', hashes), i + 2 + hashes) == Some(closing)
    ensures RustTurn(code, i) == Take(code[i + 2 + hashes..closing], closing + 1 + hashes)
  {
    hide Find, HashesEnd;
  }

  lemma RawTurn(code: string, i: nat, hashes: nat, body: string)
    requires TokenOk(RawString(hashes, body)) && At(code, i, PrintToken(RawString(hashes, body)))
    ensures RustTurn(code, i) == Take(body, i + |PrintToken(RawString(hashes, body))|)
  {
    hide Find, RawPrefix, RawQuote, Terminator, HashesEnd, RustTurn;
    RawAt(code, i, "r", hashes, body);
    RawQuoteAt(code, i, "r", hashes);
    var quote := i + 1 + hashes;
    TerminatorFound(code, quote + 1, body, hashes);
    RawTurnAt(code, i, hashes, quote + 1 + |body|);
    assert code[quote + 1..quote + 1 + |body|] == body;
  }

  lemma TextAt(code: string, i: nat, part: string)
    requires At(code, i, part)
    ensures i + |part| <= |code| && code[i..i + |part|] == part
  {
  }

  lemma EscapedTurn(code: string, i: nat, body: string)
    requires WellEscaped(body, '"', false) && At(code, i, PrintToken(EscapedString(body)))
    ensures RustTurn(code, i) == Take(body, i + |body| + 2)
  {
    hide WellEscaped, ClosingDelimiter, CharLiteralEnd, HashesEnd, Find, At;
    AtConcat(code, i, "\"", body + "\"");
    AtConcat(code, i + 1, body, "\"");
    FirstAt(code, i, "\"");
    BodyCloses(code, i + 1, '"', false, body);
    TextAt(code, i + 1, body);
  }

  lemma ApostropheTurn(code: string, i: nat, name: string)
    requires TokenOk(Apostrophe(name)) && At(code, i, "'" + name)
    ensures RustTurn(code, i) == Skip(i + 1) && At(code, i + 1, name)
  {
    AtConcat(code, i, "'", name);
    FirstAt(code, i, "'");
    assert code[i + 1] == name[0] && code[i + 2] == name[1] != '\'';
  }

  lemma CharTurn(code: string, i: nat, t: Token)
    requires IsCharToken(t) && TokenOk(t) && At(code, i, PrintToken(t))
    ensures RustTurn(code, i) == Skip(i + |PrintToken(t)|)
  {
    hide CharLiteralEnd;
    CharTokenEnd(code, i, t);
    FirstAt(code, i, PrintToken(t));
  }

  lemma TokenRun(code: string, i: nat, t: Token)
    requires TokenOk(t) && At(code, i, PrintToken(t))
    ensures RustLiterals(code, i) == Bodies([t]) + RustLiterals(code, i + |PrintToken(t)|)
  {
    hide RustTurn, At;
    assert Bodies([t][1..]) == [];
    match t
    case Filler(text) => FillerRun(code, i, text, 0);
    case Apostrophe(name) =>
      ApostropheTurn(code, i, name);
      FillerRun(code, i + 1, name, 0);
    case EscapedString(body) => EscapedTurn(code, i, body);
    case RawString(hashes, body) => RawTurn(code, i, hashes, body);
    case _ => CharTurn(code, i, t);
  }

  lemma RustEnd(code: string)
    ensures RustLiterals(code, |code|) == []
  {
  }

  lemma {:induction false} TokensRun(code: string, i: nat, ts: seq<Token>)
    requires forall t :: t in ts ==> TokenOk(t)
    requires At(code, i, PrintTokens(ts)) && i + |PrintTokens(ts)| == |code|
    ensures RustLiterals(code, i) == Bodies(ts)
    decreases |ts|
  {
    hide RustTurn, RustLiterals, At, TokenOk, PrintToken;
    RustEnd(code);
    if ts != [] {
      AtConcat(code, i, PrintToken(ts[0]), PrintTokens(ts[1..]));
      TokenRun(code, i, ts[0]);
      TokensRun(code, i + |PrintToken(ts[0])|, ts[1..]);
      assert Bodies([ts[0]][1..]) == [];
    }
  }

  /** Extraction returns exactly the string bodies, in order. */
  lemma ExtractionUndoesPrinting(ts: seq<Token>)
    requires forall t :: t in ts ==> TokenOk(t)
    ensures RustLiterals(PrintTokens(ts), 0) == Bodies(ts)
  {
    TokensRun(PrintTokens(ts), 0, ts);
  }

  // ---------------------------------------------------------------- any Rust code

  /** A character outside literals, a literal, or one that is not closed. */
  datatype Piece =
    | Other(c: char)
    | Character(literal: Token)
    | Escaped(body: string)
    | RawPiece(hashes: nat, body: string)
    | OpenEscaped(body: string)
    | OpenRaw(hashes: nat, body: string)

  function PrintPiece(p: Piece): (s: string)
  {
    match p
    case Other(c) => [c]
    case Character(literal) => PrintToken(literal)
    case Escaped(body) => "\"" + (body + "\"")
    case RawPiece(hashes, body) => PrintToken(RawString(hashes, body))
    case OpenEscaped(body) => "\"" + body
    case OpenRaw(hashes, body) => "r" + Repeat('#', hashes) + "\"" + body
  }

  function PrintPieces(ps: seq<Piece>): string {
    if ps == [] then "" else PrintPiece(ps[0]) + PrintPieces(ps[1..])
  }

  /** The bodies of the closed strings. */
  function PieceBodies(ps: seq<Piece>): seq<string> {
    if ps == [] then []
    else (if ps[0].Escaped? || ps[0].RawPiece? then [ps[0].body] else []) + PieceBodies(ps[1..])
  }

  /** `text` begins with a character literal. */
  ghost predicate BeginsCharacter(text: string, t: Token) {
    IsCharToken(t) && TokenOk(t) && At(text, 0, PrintToken(t))
  }

  /** `p` stands for itself when `rest` is the text after it. */
  ghost predicate PieceOk(p: Piece, rest: string) {
    match p
    case Other(c) =>
      && c != '"'
      && (c == '\'' ==> forall t :: !BeginsCharacter([c] + rest, t))
      && (c == 'r' ==> forall n :: !At(rest, 0, Repeat('#', n) + "\""))
    case Character(literal) => IsCharToken(literal) && TokenOk(literal)
    case Escaped(body) => WellEscaped(body, '"', false)
    case RawPiece(hashes, body) => forall k: nat :: !At(body, k, "\"" + Repeat('#', hashes))
    case OpenEscaped(body) => NeverEnds(body, '"', false) && rest == ""
    case OpenRaw(hashes, body) => (forall k: nat :: !At(body, k, "\"" + Repeat('#', hashes))) && rest == ""
  }

  ghost predicate PiecesOk(ps: seq<Piece>) {
    ps == [] || (PieceOk(ps[0], PrintPieces(ps[1..])) && PiecesOk(ps[1..]))
  }

  lemma UnicodeThere(code: string, end: nat) returns (t: Token)
    requires |code| > 4 && code[0] == '\'' && code[1] == '\\' && code[2] == 'u' && code[3] == '{'
    requires end == HexDigitsEnd(code, 4) && end + 1 < |code| && code[end] == '}' && code[end + 1] == '\''
    requires exists k :: 4 <= k < end && code[k] != '_'
    ensures BeginsCharacter(code, t) && end + 2 == |PrintToken(t)|
  {
    var digits := code[4..end];
    t := UnicodeChar(digits);
    forall k | 0 <= k < |digits| ensures IsHexOrUnderscore(digits[k]) {
      assert digits[k] == code[k + 4];
      HexOrUnderscore(digits[k]);
    }
    var k :| 4 <= k < end && code[k] != '_';
    assert digits[k - 4] != '_';
    assert code[..end + 2] == "'\\u{" + digits + "}'";
  }

  /** What was recognized as a character literal is one. */
  lemma CharacterThere(code: string, e: nat) returns (t: Token)
    requires code != "" && code[0] == '\'' && CharLiteralEnd(code, 0) == Some(e)
    ensures BeginsCharacter(code, t) && e == |PrintToken(t)|
  {
    if code[1] != '\\' {
      t := PlainChar(code[1]);
    } else if code[2] == 'x' {
      t := HexChar(code[3], code[4]);
    } else if code[2] == 'u' && code[3] == '{' {
      var end := HexDigitsEnd(code, 4);
      t := UnicodeThere(code, end);
    } else {
      t := EscapeChar(code[2]);
    }
  }

  /** A character literal is recognized exactly where one of the four forms stands, and up to its end. */
  lemma CharLiteralExactly(code: string, e: nat)
    requires code != "" && code[0] == '\''
    ensures CharLiteralEnd(code, 0) == Some(e) <==> exists t :: BeginsCharacter(code, t) && e == |PrintToken(t)|
  {
    hide CharLiteralEnd, PrintToken, TokenOk;
    if CharLiteralEnd(code, 0) == Some(e) {
      var t := CharacterThere(code, e);
    }
    if t :| BeginsCharacter(code, t) && e == |PrintToken(t)| {
      CharTokenEnd(code, 0, t);
    }
  }

  lemma {:induction false} DigitsFromSuffix(code: string, i: nat, k: nat)
    requires i + k <= |code|
    ensures HexDigitsEnd(code, i + k) == i + HexDigitsEnd(code[i..], k)
    decreases |code| - i - k
  {
    if i + k < |code| {
      assert code[i..][k] == code[i + k];
      DigitsFromSuffix(code, i, k + 1);
    }
  }

  /** Whether a character literal starts at `i` depends only on the text from `i` on. */
  lemma CharacterFromSuffix(code: string, i: nat)
    requires i < |code|
    ensures CharLiteralEnd(code, i).None? <==> CharLiteralEnd(code[i..], 0).None?
  {
    var tail := code[i..];
    forall k | i <= k < |code| ensures code[k] == tail[k - i] {}
    if i + 4 <= |code| {
      DigitsFromSuffix(code, i, 3);
      DigitsFromSuffix(code, i, 4);
    }
  }

  lemma HashesThenQuote(code: string, i: nat, rest: string, e: nat)
    requires i < |code| && code[i + 1..] == rest && i < e < |code| && code[e] == '"'
    requires forall k :: i + 1 <= k < e ==> code[k] == '#'
    ensures At(rest, 0, Repeat('#', e - i - 1) + "\"")
  {
    var part := Repeat('#', e - i - 1) + "\"";
    forall k | 0 <= k < |part| ensures k < |rest| && rest[k] == part[k] {
      assert rest[k] == code[i + 1 + k];
    }
  }

  lemma OtherTurn(code: string, i: nat, c: char, rest: string)
    requires i < |code| && code[i..] == [c] + rest && PieceOk(Other(c), rest)
    ensures RustTurn(code, i) == Skip(i + 1)
  {
    hide CharLiteralEnd, BeginsCharacter;
    assert code[i] == c;
    if c == '\'' {
      CharacterFromSuffix(code, i);
      if CharLiteralEnd(code[i..], 0).Some? {
        CharLiteralExactly(code[i..], CharLiteralEnd(code[i..], 0).value);
        assert false;
      }
    } else if c == 'r' {
      var e := HashesEnd(code, i + 1);
      if e < |code| && code[e] == '"' {
        HashesThenQuote(code, i, rest, e);
        assert false;
      }
    }
  }

  lemma {:induction false} NeverClosed(code: string, i: nat, delimiter: char, escaped: bool)
    requires i <= |code| && NeverEnds(code[i..], delimiter, escaped)
    ensures ClosingDelimiter(code, if escaped then i + 1 else i, delimiter).None?
    decreases |code| - i
  {
    if i < |code| {
      assert code[i..][1..] == code[i + 1..] && code[i..][0] == code[i];
      NeverClosed(code, i + 1, delimiter, !escaped && code[i] == '\\');
    }
  }

  lemma StandsInSuffix(code: string, from: nat, k: nat, part: string)
    requires from <= k && At(code, k, part)
    ensures At(code[from..], k - from, part)
  {
  }

  lemma OpenRawTurn(code: string, i: nat, hashes: nat, body: string)
    requires i < |code| && code[i..] == "r" + Repeat('#', hashes) + "\"" + body
    requires forall k: nat :: !At(body, k, "\"" + Repeat('#', hashes))
    ensures RustTurn(code, i) == Stop
  {
    hide CharLiteralEnd;
    var hs, pat := Repeat('#', hashes), "\"" + Repeat('#', hashes);
    var tail := code[i..];
    forall k | 0 <= k < |tail| ensures code[i + k] == tail[k] {}
    var quote := i + 1 + hashes;
    assert tail[0] == 'r' && tail[1 + hashes] == '"';
    forall k | i + 1 <= k < quote ensures code[k] == '#' {
      assert code[i + (k - i)] == tail[k - i];
    }
    HashesEndUnique(code, i + 1, quote);
    assert code[quote + 1..] == body;
    forall k: nat | quote + 1 <= k ensures !At(code, k, pat) {
      if At(code, k, pat) { StandsInSuffix(code, quote + 1, k, pat); }
    }
  }

  lemma EscapedPieceTurn(code: string, i: nat, body: string)
    requires WellEscaped(body, '"', false) && At(code, i, "\"" + (body + "\""))
    ensures RustTurn(code, i) == Take(body, i + |"\"" + (body + "\"")|)
  {
    hide RustTurn, WellEscaped, At;
    EscapedTurn(code, i, body);
  }

  lemma RawTokenOk(hashes: nat, body: string)
    requires forall k: nat :: !At(body, k, "\"" + Repeat('#', hashes))
    ensures TokenOk(RawString(hashes, body))
  {
  }

  lemma SuffixStands(code: string, i: nat, part: string, rest: string)
    requires i <= |code| && code[i..] == part + rest
    ensures At(code, i, part)
  {
    forall k | i <= k < i + |part| ensures code[k] == part[k - i] {
      assert code[i..][k - i] == code[k];
    }
  }

  lemma OpenEscapedTurn(code: string, i: nat, body: string)
    requires i < |code| && code[i..] == "\"" + body && NeverEnds(body, '"', false)
    ensures RustTurn(code, i) == Stop
  {
    hide NeverEnds, ClosingDelimiter;
    assert code[i] == code[i..][0] == '"';
    assert code[i + 1..] == body;
    NeverClosed(code, i + 1, '"', false);
  }

  lemma PieceTurn(code: string, i: nat, p: Piece, rest: string)
    requires i < |code| && code[i..] == PrintPiece(p) + rest && PieceOk(p, rest)
    ensures RustTurn(code, i) ==
            var next := i + |PrintPiece(p)|;
            if p.Escaped? || p.RawPiece? then Take(p.body, next)
            else if p.OpenEscaped? || p.OpenRaw? then Stop
            else Skip(next)
  {
    hide RustTurn, TokenOk, NeverEnds, WellEscaped, PrintToken, At;
    SuffixStands(code, i, PrintPiece(p), rest);
    match p
    case Other(c) => OtherTurn(code, i, c, rest);
    case Character(literal) => CharTurn(code, i, literal);
    case Escaped(body) => EscapedPieceTurn(code, i, body);
    case RawPiece(hashes, body) =>
      RawTokenOk(hashes, body);
      RawTurn(code, i, hashes, body);
    case OpenEscaped(body) =>
      assert "\"" + body + "" == "\"" + body;
      OpenEscapedTurn(code, i, body);
    case OpenRaw(hashes, body) =>
      assert PrintPiece(p) + "" == PrintPiece(p);
      OpenRawTurn(code, i, hashes, body);
  }

  lemma PieceFacts(p: Piece, rest: string)
    requires PieceOk(p, rest)
    ensures PrintPiece(p) != "" && (p.OpenEscaped? || p.OpenRaw? ==> rest == "")
    ensures PieceBodies([p]) == if p.Escaped? || p.RawPiece? then [p.body] else []
  {
    hide TokenOk, NeverEnds, WellEscaped;
    assert PieceBodies([p][1..]) == [];
  }

  lemma RustLiteralsTurn(code: string, i: nat)
    requires i < |code|
    ensures RustLiterals(code, i) ==
            match RustTurn(code, i)
            case Skip(next) => RustLiterals(code, next)
            case Take(value, next) => [value] + RustLiterals(code, next)
            case Stop => []
  {
    hide RustTurn;
  }

  lemma PieceRun(code: string, i: nat, p: Piece, rest: string)
    requires i <= |code| && code[i..] == PrintPiece(p) + rest && PieceOk(p, rest)
    ensures i + |PrintPiece(p)| <= |code|
    ensures RustLiterals(code, i) == PieceBodies([p]) + RustLiterals(code, i + |PrintPiece(p)|)
  {
    hide RustTurn, RustLiterals, PrintPiece, PieceOk, PieceBodies;
    PieceFacts(p, rest);
    PieceTurn(code, i, p, rest);
    RustLiteralsTurn(code, i);
    RustEnd(code);
  }

  lemma PieceIsSome(p: Piece)
    requires p.Character? ==> IsCharToken(p.literal)
    ensures PrintPiece(p) != ""
  {
  }

  lemma {:induction false} PiecesRun(code: string, i: nat, ps: seq<Piece>)
    requires PiecesOk(ps) && i <= |code| && code[i..] == PrintPieces(ps)
    ensures RustLiterals(code, i) == PieceBodies(ps)
    decreases |ps|
  {
    hide RustLiterals, PieceOk, PrintPiece;
    if ps == [] {
      RustEnd(code);
    } else {
      PieceRun(code, i, ps[0], PrintPieces(ps[1..]));
      var next := i + |PrintPiece(ps[0])|;
      assert code[next..] == code[i..][|PrintPiece(ps[0])|..];
      PiecesRun(code, next, ps[1..]);
      assert PieceBodies([ps[0]][1..]) == [];
    }
  }

  lemma SplitAtPart(text: string, k: nat, part: string)
    requires At(text, k, part)
    ensures text == text[..k] + part + text[k + |part|..]
  {
  }

  lemma OpeningOfRaw(code: string, hs: string, after: string)
    requires code != "" && code[0] == 'r' && code[1..] == code[1..][..0] + (hs + "\"") + after
    ensures code == "r" + hs + "\"" + after
  {
    assert code == [code[0]] + code[1..];
  }

  lemma RawPieces(hs: string, body: string, rest: string)
    ensures "r" + hs + "\"" + (body + ("\"" + hs) + rest) == "r" + hs + "\"" + body + "\"" + hs + rest
  {
  }

  lemma RawFirst(code: string, n: nat) returns (p: Piece, rest: string)
    requires code != "" && code[0] == 'r' && At(code[1..], 0, Repeat('#', n) + "\"")
    ensures code == PrintPiece(p) + rest && PieceOk(p, rest)
  {
    hide Find, At;
    var hs, pat := Repeat('#', n), "\"" + Repeat('#', n);
    var opening := "r" + hs + "\"";
    SplitAtPart(code[1..], 0, hs + "\"");
    var after := code[1..][n + 1..];
    assert code == opening + after by { OpeningOfRaw(code, hs, after); }
    match Find(after, pat, 0)
    case None =>
      p, rest := OpenRaw(n, after), "";
    case Some(k) =>
      assert k + |pat| <= |after| by { FirstAt(after, k, pat); }
      var body := after[..k];
      p, rest := RawPiece(n, body), after[k + |pat|..];
      SplitAtPart(after, k, pat);
      NotInBody(after, 0, k, pat);
      assert after[0..k] == body;
      RawPieces(hs, body, rest);
      RawPrint("r", n, body);
  }

  lemma EscapedFirst(code: string) returns (p: Piece, rest: string)
    requires code != "" && code[0] == '"'
    ensures code == PrintPiece(p) + rest && PieceOk(p, rest)
  {
    hide NeverEnds, WellEscaped;
    var tail := code[1..];
    assert code == "\"" + tail;
    if NeverEnds(tail, '"', false) {
      p, rest := OpenEscaped(tail), "";
    } else {
      var body: string;
      body, rest := EndsOrNever(tail, '"', false);
      p := Escaped(body);
      assert "\"" + (body + "\"" + rest) == "\"" + (body + "\"") + rest;
    }
  }

  lemma FirstPiece(code: string) returns (p: Piece, rest: string)
    requires code != ""
    ensures code == PrintPiece(p) + rest && PieceOk(p, rest)
  {
    hide TokenOk, PrintToken;
    var tail := code[1..];
    assert code == [code[0]] + tail;
    if code[0] == '"' {
      p, rest := EscapedFirst(code);
    } else if code[0] == '\'' && exists t :: BeginsCharacter(code, t) {
      var t :| BeginsCharacter(code, t);
      p, rest := Character(t), code[|PrintToken(t)|..];
      assert code[..|PrintToken(t)|] == PrintToken(t);
    } else if code[0] == 'r' && exists n :: At(tail, 0, Repeat('#', n) + "\"") {
      var n :| At(tail, 0, Repeat('#', n) + "\"");
      p, rest := RawFirst(code, n);
    } else {
      p, rest := Other(code[0]), tail;
    }
  }

  lemma PieceOkIsSome(p: Piece, rest: string)
    requires PieceOk(p, rest)
    ensures PrintPiece(p) != ""
  {
  }

  lemma {:induction false} EveryCodeIsPieces(code: string) returns (ps: seq<Piece>)
    ensures PrintPieces(ps) == code && PiecesOk(ps)
    decreases |code|
  {
    hide PieceOk, PrintPiece;
    if code == "" {
      ps := [];
    } else {
      var p, rest := FirstPiece(code);
      assert PrintPiece(p) != "" by { PieceOkIsSome(p, rest); }
      var more := EveryCodeIsPieces(rest);
      ps := [p] + more;
      assert ps[1..] == more;
    }
  }

  /** What the extraction gives on any code: its pieces are literals and characters between them, the last literal
      perhaps not closed, and the bodies of the closed strings are returned in order. */
  lemma ExtractionOfAnyCode(code: string) returns (ps: seq<Piece>)
    ensures PrintPieces(ps) == code && PiecesOk(ps) && RustLiterals(code, 0) == PieceBodies(ps)
  {
    ps := EveryCodeIsPieces(code);
    assert code[0..] == code;
    PiecesRun(code, 0, ps);
  }

  // ---------------------------------------------------------------- the same for TypeScript

  datatype TsToken =
    | TsFiller(text: string)                       // code without string delimiters
    | TsString(delimiter: char, body: string)

  function PrintTsToken(t: TsToken): string {
    match t
    case TsFiller(text) => text
    case TsString(delimiter, body) => [delimiter] + (body + [delimiter])
  }

  function PrintTsTokens(ts: seq<TsToken>): string {
    if ts == [] then "" else PrintTsToken(ts[0]) + PrintTsTokens(ts[1..])
  }

  function TsBodies(ts: seq<TsToken>): seq<string> {
    if ts == [] then [] else (if ts[0].TsString? then [ts[0].body] else []) + TsBodies(ts[1..])
  }

  ghost predicate TsTokenOk(t: TsToken) {
    match t
    case TsFiller(text) => forall k :: 0 <= k < |text| ==> text[k] !in {'"', '\'', '`'}
    case TsString(delimiter, body) => delimiter in {'"', '\'', '`'} && WellEscaped(body, delimiter, false)
  }

  lemma {:induction false} TsFillerRun(code: string, i: nat, e: nat)
    requires i <= e <= |code| && forall k :: i <= k < e ==> !IsTsDelimiter(code[k])
    ensures TsLiterals(code, i) == TsLiterals(code, e)
    decreases e - i
  {
    if i < e {
      TsFillerRun(code, i + 1, e);
    }
  }

  lemma TsStringTurn(code: string, i: nat, delimiter: char, body: string)
    requires IsTsDelimiter(delimiter) && WellEscaped(body, delimiter, false)
    requires At(code, i, [delimiter] + (body + [delimiter]))
    ensures TsTurn(code, i) == Take(body, i + |body| + 2)
  {
    hide WellEscaped, ClosingDelimiter;
    AtConcat(code, i, [delimiter], body + [delimiter]);
    AtConcat(code, i + 1, body, [delimiter]);
    FirstAt(code, i, [delimiter]);
    BodyCloses(code, i + 1, delimiter, false, body);
    assert code[i + 1..i + 1 + |body|] == body;
  }

  lemma TsEnd(code: string)
    ensures TsLiterals(code, |code|) == []
  {
  }

  lemma TsTokenRun(code: string, i: nat, t: TsToken)
    requires TsTokenOk(t) && At(code, i, PrintTsToken(t))
    ensures TsLiterals(code, i) ==
            (if t.TsString? then [t.body] else []) + TsLiterals(code, i + |PrintTsToken(t)|)
  {
    match t
    case TsFiller(text) =>
      TsFillerRun(code, i, i + |text|);
    case TsString(delimiter, body) =>
      hide TsTurn, WellEscaped, IsTsDelimiter;
      TsStringTurn(code, i, delimiter, body);
  }

  lemma EndsWithin(code: string, i: nat, part: string)
    requires At(code, i, part)
    ensures i + |part| <= |code|
  {
  }

  lemma {:induction false} TsTokensRun(code: string, i: nat, ts: seq<TsToken>)
    requires (forall t :: t in ts ==> TsTokenOk(t)) && i <= |code| && At(code, i, PrintTsTokens(ts))
    ensures TsLiterals(code, i) == TsBodies(ts) + TsLiterals(code, i + |PrintTsTokens(ts)|)
    decreases |ts|
  {
    hide TsTurn, TsLiterals, TsTokenOk, PrintTsToken, At;
    if ts != [] {
      var next := i + |PrintTsToken(ts[0])|;
      AtConcat(code, i, PrintTsToken(ts[0]), PrintTsTokens(ts[1..]));
      assert next <= |code| by { EndsWithin(code, i, PrintTsToken(ts[0])); }
      TsTokenRun(code, i, ts[0]);
      TsTokensRun(code, next, ts[1..]);
    }
  }

  /** Extraction returns exactly the bodies of the strings, whatever other delimiters they hold. */
  lemma TsExtractionUndoesPrinting(ts: seq<TsToken>)
    requires forall t :: t in ts ==> TsTokenOk(t)
    ensures TsLiterals(PrintTsTokens(ts), 0) == TsBodies(ts)
  {
    TsTokensRun(PrintTsTokens(ts), 0, ts);
    TsEnd(PrintTsTokens(ts));
  }

  // ---------------------------------------------------------------- any TypeScript code

  /** Nothing, or a string that is not closed. */
  ghost predicate TsTailOk(tail: string) {
    tail == "" || (tail[0] in {'"', '\'', '`'} && NeverEnds(tail[1..], tail[0], false))
  }

  lemma TsTailRun(code: string, i: nat)
    requires i <= |code| && TsTailOk(code[i..])
    ensures TsLiterals(code, i) == []
  {
    hide NeverEnds, ClosingDelimiter;
    if i < |code| {
      assert code[i..][0] == code[i] && code[i..][1..] == code[i + 1..];
      NeverClosed(code, i + 1, code[i], false);
    }
  }

  lemma {:induction false} EveryCodeIsTsTokens(code: string) returns (ts: seq<TsToken>, tail: string)
    ensures code == PrintTsTokens(ts) + tail && TsTailOk(tail) && forall t :: t in ts ==> TsTokenOk(t)
    decreases |code|
  {
    hide NeverEnds, WellEscaped;
    if TsTailOk(code) {
      ts, tail := [], code;
    } else {
      var (c, rest) := (code[0], code[1..]);
      assert code == [c] + rest;
      var first: TsToken;
      var later := rest;
      if c in {'"', '\'', '`'} {
        var body: string;
        body, later := EndsOrNever(rest, c, false);
        first := TsString(c, body);
      } else {
        first := TsFiller([c]);
      }
      assert code == PrintTsToken(first) + later && TsTokenOk(first);
      var more: seq<TsToken>;
      more, tail := EveryCodeIsTsTokens(later);
      ts := [first] + more;
      assert ts[1..] == more;
      Associative(PrintTsToken(first), PrintTsTokens(more), tail);
    }
  }

  /** What the extraction gives on any code: it is strings with other characters between them, the last string perhaps
      not closed, and the bodies of the closed ones are returned in order. */
  lemma TsExtractionOfAnyCode(code: string) returns (ts: seq<TsToken>, tail: string)
    ensures code == PrintTsTokens(ts) + tail && TsTailOk(tail) && forall t :: t in ts ==> TsTokenOk(t)
    ensures TsLiterals(code, 0) == TsBodies(ts)
  {
    hide TsLiterals, TsTailOk, TsTokenOk;
    ts, tail := EveryCodeIsTsTokens(code);
    var n := |PrintTsTokens(ts)|;
    assert At(code, 0, PrintTsTokens(ts)) && code[n..] == tail;
    TsTokensRun(code, 0, ts);
    TsTailRun(code, n);
  }
}
