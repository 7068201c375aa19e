/** Removal of trailing commas from a Bun lockfile (cli/ci/dependency_evidence.py). */
module TrailingCommas {
  import opened Wrappers
  import opened Text

  // ---------------------------------------------------------------- the scan

  /** Where a position stands with respect to the string literals before it. */
  datatype Place = Outside | Inside(escaped: bool)

  function After(p: Place, c: char): Place {
    match p
    case Outside => if c == '"' then Inside(false) else Outside
    case Inside(true) => Inside(false)
    case Inside(false) => if c == '\\' then Inside(true) else if c == '"' then Outside else p
  }

  function PlaceAt(text: string, i: nat): Place
    requires i <= |text|
  {
    if i == 0 then Outside else After(PlaceAt(text, i - 1), text[i - 1])
  }

  /** The comma at `i` is outside strings and the next thing after it closes a container. */
  predicate IsTrailing(text: string, i: nat)
    requires i < |text|
  {
    && text[i] == ',' && PlaceAt(text, i).Outside?
    && var next := SkipSpaces(text, i + 1);
       next < |text| && text[next] in {']', '}'}
  }

  /** The first `n` characters of the text without its trailing commas. */
  function Kept(text: string, n: nat): string
    requires n <= |text|
  {
    if n == 0 then "" else
    Kept(text, n - 1) + if IsTrailing(text, n - 1) then "" else [text[n - 1]]
  }

  datatype Malformed = UnterminatedString

  function Stripped(text: string): Result<string, Malformed> {
    if PlaceAt(text, |text|).Inside? then Err(UnterminatedString) else Ok(Kept(text, |text|))
  }

  method StripJsonTrailingCommas(text: string) returns (r: Result<string, Malformed>)
    ensures r == Stripped(text)
  {
    var result := "";
    var quoted, escaped := false, false;
    var index := 0;
    while index < |text|
      invariant index <= |text|
      invariant PlaceAt(text, index) == if quoted then Inside(escaped) else Outside
      invariant result == Kept(text, index)
      invariant !quoted ==> !escaped
    {
      var character := text[index];
      if quoted {
        result := result + [character];
        if escaped {
          escaped := false;
        } else if character == '\\' {
          escaped := true;
        } else if character == '"' {
          quoted := false;
        }
        index := index + 1;
        continue;
      }
      if character == '"' {
        quoted := true;
        result := result + [character];
        index := index + 1;
        continue;
      }
      if character == ',' {
        var lookahead := index + 1;
        while lookahead < |text| && IsSpace(text[lookahead])
          invariant index + 1 <= lookahead <= |text|
          invariant SkipSpaces(text, lookahead) == SkipSpaces(text, index + 1)
        {
          lookahead := lookahead + 1;
        }
        if lookahead < |text| && text[lookahead] in {']', '}'} {
          index := index + 1;
          continue;
        }
      }
      result := result + [character];
      index := index + 1;
    }
    if quoted {
      return Err(UnterminatedString);
    }
    return Ok(result);
  }

  // ---------------------------------------------------------------- literals survive

  /** The string literals read so far, the one being read, and where the reader stands. */
  datatype Reader = Reader(literals: seq<string>, current: string, place: Place)

  function Read(r: Reader, c: char): Reader {
    match (r.place, After(r.place, c))
    case (Outside, Outside) => r
    case (Outside, Inside(e)) => Reader(r.literals, [c], Inside(e))
    case (Inside(_), Inside(e)) => Reader(r.literals, r.current + [c], Inside(e))
    case (Inside(_), Outside) => Reader(r.literals + [r.current + [c]], "", Outside)
  }

  function ReadAll(text: string): Reader {
    if text == "" then Reader([], "", Outside) else Read(ReadAll(text[..|text| - 1]), text[|text| - 1])
  }

  lemma ReadNext(text: string, c: char)
    ensures ReadAll(text + [c]) == Read(ReadAll(text), c)
  {
    assert (text + [c])[..|text|] == text;
  }

  lemma ReadNone()
    ensures ReadAll("") == Reader([], "", Outside)
  {
  }

  lemma {:induction false} ReaderKeepsPace(text: string, n: nat)
    requires n <= |text|
    ensures ReadAll(Kept(text, n)) == ReadAll(text[..n])
    ensures ReadAll(text[..n]).place == PlaceAt(text, n)
  {
    hide ReadAll, SkipSpaces;
    if n == 0 {
      ReadNone();
    } else {
      ReaderKeepsPace(text, n - 1);
      assert text[..n] == text[..n - 1] + [text[n - 1]];
      ReadNext(text[..n - 1], text[n - 1]);
      ReadNext(Kept(text, n - 1), text[n - 1]);
      if IsTrailing(text, n - 1) {
        assert Kept(text, n) == Kept(text, n - 1);
      }
    }
  }

  /** Every string literal survives unchanged, in order, and the text still ends outside them. */
  lemma LiteralsSurvive(text: string)
    requires Stripped(text).Ok?
    ensures ReadAll(Stripped(text).value) == ReadAll(text)
    ensures ReadAll(text).place.Outside?
  {
    ReaderKeepsPace(text, |text|);
    assert text[..|text|] == text;
  }

  // ---------------------------------------------------------------- printed documents

  /** A JSON document as printed: white space and trailing commas are part of the value. */
  datatype Json =
    | Atom(word: string)
    | Str(body: string)
    | Container(brace: bool, space: string, items: Items)

  datatype Items =
    | Empty
    | Last(head: Item, comma: bool, afterComma: string)
    | More(head: Item, afterComma: string, rest: Items)

  /** A member or an element, with the space after it. */
  datatype Item = Item(key: Key, value: Json, space: string)

  datatype Key = NoKey | Key(body: string, beforeColon: string, afterColon: string)

  function PrintKey(k: Key): string {
    match k
    case NoKey => ""
    case Key(body, beforeColon, afterColon) => Quoted(body) + (beforeColon + ":" + afterColon)
  }

  function Opener(brace: bool): char { if brace then '{' else '[' }

  function Closer(brace: bool): char { if brace then '}' else ']' }

  function Print(v: Json): string {
    match v
    case Atom(word) => word
    case Str(body) => Quoted(body)
    case Container(brace, space, items) => ([Opener(brace)] + space) + (PrintItems(items) + [Closer(brace)])
  }

  function PrintItem(item: Item): string {
    PrintKey(item.key) + (Print(item.value) + item.space)
  }

  function PrintItems(items: Items): string {
    match items
    case Empty => ""
    case Last(head, comma, afterComma) => PrintItem(head) + if comma then "," + afterComma else ""
    case More(head, afterComma, rest) => PrintItem(head) + (("," + afterComma) + PrintItems(rest))
  }

  ghost predicate IsWhite(c: char) {
    c in WHITE_SPACE
  }

  ghost predicate Spaces(s: string) {
    forall i :: 0 <= i < |s| ==> IsWhite(s[i])
  }

  lemma WhiteIsPlain(c: char)
    ensures IsWhite(c) <==> IsSpace(c)
    ensures IsWhite(c) ==> c !in {'"', ',', ':', '[', ']', '{', '}'}
  {
    SpacesAreWhiteSpace(c);
  }

  lemma SpacesArePlain(s: string)
    requires Spaces(s)
    ensures (forall i :: 0 <= i < |s| ==> IsSpace(s[i])) && '"' !in s && ',' !in s
  {
    hide IsWhite;
    forall i | 0 <= i < |s| ensures IsSpace(s[i]) && s[i] != '"' && s[i] != ',' { WhiteIsPlain(s[i]); }
  }

  ghost predicate KeyOk(k: Key) {
    k.Key? ==> WellEscaped(k.body, '"', false) && Spaces(k.beforeColon) && Spaces(k.afterColon)
  }

  ghost predicate ItemOk(item: Item) {
    KeyOk(item.key) && JsonOk(item.value) && Spaces(item.space)
  }

  ghost predicate ItemsOk(items: Items) {
    match items
    case Empty => true
    case Last(head, comma, afterComma) => ItemOk(head) && (comma ==> Spaces(afterComma))
    case More(head, afterComma, rest) => ItemOk(head) && Spaces(afterComma) && !rest.Empty? && ItemsOk(rest)
  }

  ghost predicate JsonOk(v: Json) {
    match v
    case Atom(word) =>
      word != "" && forall k :: 0 <= k < |word| ==> word[k] !in {'"', ',', ']', '}'} && !IsSpace(word[k])
    case Str(body) => WellEscaped(body, '"', false)
    case Container(_, space, items) => Spaces(space) && ItemsOk(items)
  }

  /** The same document without trailing commas; their white space stays. */
  function WithoutTrailing(v: Json): Json {
    match v
    case Container(brace, space, items) => Container(brace, space, ItemsWithoutTrailing(items))
    case _ => v
  }

  function ItemWithoutTrailing(item: Item): Item {
    item.(value := WithoutTrailing(item.value))
  }

  function ItemsWithoutTrailing(items: Items): Items {
    match items
    case Empty => Empty
    case Last(head, comma, afterComma) =>
      var bare := ItemWithoutTrailing(head);
      Last(if comma then bare.(space := bare.space + afterComma) else bare, false, "")
    case More(head, afterComma, rest) => More(ItemWithoutTrailing(head), afterComma, ItemsWithoutTrailing(rest))
  }

  /** Read from outside strings, `text[i..j]` leaves `out` and ends outside strings. */
  ghost predicate Leaves(text: string, i: nat, j: nat, out: string) {
    && i <= j <= |text|
    && (PlaceAt(text, i).Outside? ==> PlaceAt(text, j).Outside? && Kept(text, j) == Kept(text, i) + out)
  }

  lemma LeavesBoth(text: string, i: nat, j: nat, k: nat, a: string, b: string)
    requires Leaves(text, i, j, a) && Leaves(text, j, k, b)
    ensures Leaves(text, i, k, a + b)
  {
    Associative(Kept(text, i), a, b);
  }

  lemma {:induction false} PlainLeaves(text: string, i: nat, part: string)
    requires At(text, i, part) && '"' !in part && ',' !in part
    ensures Leaves(text, i, i + |part|, part)
    decreases |part|
  {
    if part != "" {
      var n := |part| - 1;
      assert part == part[..n] + [part[n]];
      AtConcat(text, i, part[..n], [part[n]]);
      PlainLeaves(text, i, part[..n]);
      assert text[i + n] == part[n];
      assert Leaves(text, i + n, i + n + 1, [part[n]]);
      LeavesBoth(text, i, i + n, i + n + 1, part[..n], [part[n]]);
    }
  }

  lemma {:induction false} BodyKept(text: string, i: nat, body: string, escaped: bool)
    requires At(text, i, body + "\"") && WellEscaped(body, '"', escaped)
    requires PlaceAt(text, i) == Inside(escaped)
    ensures PlaceAt(text, i + |body| + 1).Outside?
    ensures Kept(text, i + |body| + 1) == Kept(text, i) + (body + "\"")
    decreases |body|
  {
    assert text[i] == (body + "\"")[0];
    if body != "" {
      assert body + "\"" == [body[0]] + (body[1..] + "\"");
      AtConcat(text, i, [body[0]], body[1..] + "\"");
      BodyKept(text, i + 1, body[1..], !escaped && body[0] == '\\');
      Associative(Kept(text, i), [body[0]], body[1..] + "\"");
    }
  }

  lemma QuotedLeaves(text: string, i: nat, body: string)
    requires At(text, i, Quoted(body)) && WellEscaped(body, '"', false)
    ensures Leaves(text, i, i + |Quoted(body)|, Quoted(body))
  {
    AtConcat(text, i, "\"", body + "\"");
    FirstAt(text, i, "\"");
    if PlaceAt(text, i).Outside? {
      BodyKept(text, i + 1, body, false);
      Associative(Kept(text, i), "\"", body + "\"");
    }
  }

  /** A comma stays exactly when what follows its white space does not close. */
  lemma CommaLeaves(text: string, i: nat, space: string)
    requires At(text, i, "," + space) && Spaces(space)
    requires i + 1 + |space| < |text| && !IsSpace(text[i + 1 + |space|])
    ensures var next := i + 1 + |space|;
            Leaves(text, i, next, if text[next] in {']', '}'} then space else "," + space)
  {
    hide Spaces;
    var next := i + 1 + |space|;
    SpacesArePlain(space);
    AtConcat(text, i, ",", space);
    FirstAt(text, i, ",");
    SkipSpacesUnique(text, i + 1, next);
    PlainLeaves(text, i + 1, space);
    var out := if text[next] in {']', '}'} then "" else ",";
    assert Leaves(text, i, i + 1, out);
    LeavesBoth(text, i, i + 1, next, out, space);
    assert "" + space == space;
  }

  lemma KeyLeaves(text: string, i: nat, k: Key)
    requires At(text, i, PrintKey(k)) && KeyOk(k)
    ensures Leaves(text, i, i + |PrintKey(k)|, PrintKey(k))
  {
    if k.Key? {
      hide Leaves, At, WellEscaped;
      var colon := k.beforeColon + ":" + k.afterColon;
      AtConcat(text, i, Quoted(k.body), colon);
      QuotedLeaves(text, i, k.body);
      PlainLeaves(text, i + |Quoted(k.body)|, colon);
      LeavesBoth(text, i, i + |Quoted(k.body)|, i + |PrintKey(k)|, Quoted(k.body), colon);
    }
  }

  /** A comma outside strings with nothing but white space up to a closing bracket or brace. */
  ghost predicate StandsBeforeClosing(text: string, i: nat, j: nat) {
    && i < j < |text| && text[i] == ',' && PlaceAt(text, i).Outside? && text[j] in {']', '}'}
    && forall k :: i < k < j ==> IsWhite(text[k])
  }

  /** Of any text, exactly those commas are trailing, and so are dropped. */
  lemma TrailingExactly(text: string, i: nat)
    requires i < |text|
    ensures IsTrailing(text, i) <==> exists j: nat :: StandsBeforeClosing(text, i, j)
    ensures Kept(text, i + 1) == Kept(text, i) + if IsTrailing(text, i) then "" else [text[i]]
  {
    hide IsWhite;
    forall k: nat | k < |text| ensures IsWhite(text[k]) <==> IsSpace(text[k]) { WhiteIsPlain(text[k]); }
    if j: nat :| StandsBeforeClosing(text, i, j) {
      WhiteIsPlain(text[j]);
      SkipSpacesUnique(text, i + 1, j);
    }
    if IsTrailing(text, i) {
      assert StandsBeforeClosing(text, i, SkipSpaces(text, i + 1));
    }
  }

  /** What a separator comma sees next: the first character of the following item. */
  lemma ItemStarts(item: Item)
    requires ItemOk(item)
    ensures PrintItem(item) != "" && PrintItem(item)[0] !in {']', '}'} && !IsSpace(PrintItem(item)[0])
  {
    assert item.key.NoKey? ==> PrintItem(item) == Print(item.value) + item.space;
  }

  lemma LastPrint(head: Item, afterComma: string)
    ensures PrintItem(ItemWithoutTrailing(head)) + afterComma
         == PrintItems(ItemsWithoutTrailing(Last(head, true, afterComma)))
  {
    var bare := ItemWithoutTrailing(head);
    Associative(Print(bare.value), bare.space, afterComma);
    Associative(PrintKey(bare.key), Print(bare.value) + bare.space, afterComma);
    var grown := bare.(space := bare.space + afterComma);
    assert PrintItem(grown) + "" == PrintItem(grown);
  }

  lemma LastLeaves(text: string, i: nat, head: Item, comma: bool, afterComma: string, brace: bool)
    requires ItemsOk(Last(head, comma, afterComma))
    requires Leaves(text, i, i + |PrintItem(head)|, PrintItem(ItemWithoutTrailing(head)))
    requires comma ==> At(text, i + |PrintItem(head)|, "," + afterComma)
    requires var end := i + |PrintItems(Last(head, comma, afterComma))|;
             end < |text| && text[end] == Closer(brace) && Leaves(text, end, end + 1, [Closer(brace)])
    ensures Leaves(text, i, i + |PrintItems(Last(head, comma, afterComma))| + 1,
                   PrintItems(ItemsWithoutTrailing(Last(head, comma, afterComma))) + [Closer(brace)])
  {
    hide Leaves, At, ItemWithoutTrailing, PrintItem, ItemOk;
    var mid := i + |PrintItem(head)|;
    var end := i + |PrintItems(Last(head, comma, afterComma))|;
    var bare := PrintItem(ItemWithoutTrailing(head));
    if comma {
      CommaLeaves(text, mid, afterComma);
      LeavesBoth(text, i, mid, end, bare, afterComma);
      LastPrint(head, afterComma);
      LeavesBoth(text, i, end, end + 1, bare + afterComma, [Closer(brace)]);
    } else {
      assert bare + "" == bare;
      LeavesBoth(text, i, end, end + 1, bare, [Closer(brace)]);
    }
  }

  lemma NextItem(text: string, i: nat, items: Items)
    requires At(text, i, PrintItems(items)) && ItemsOk(items) && !items.Empty?
    ensures i < |text| && text[i] !in {']', '}'} && !IsSpace(text[i])
  {
    ItemStarts(items.head);
    assert PrintItems(items)[0] == PrintItem(items.head)[0];
    FirstAt(text, i, PrintItems(items));
  }

  lemma MoreLeave(text: string, i: nat, head: Item, afterComma: string, rest: Items, brace: bool)
    requires ItemsOk(More(head, afterComma, rest))
    requires Leaves(text, i, i + |PrintItem(head)|, PrintItem(ItemWithoutTrailing(head)))
    requires At(text, i + |PrintItem(head)|, "," + afterComma)
    requires var next := i + |PrintItem(head)| + 1 + |afterComma|;
             && At(text, next, PrintItems(rest))
             && Leaves(text, next, next + |PrintItems(rest)| + 1,
                       PrintItems(ItemsWithoutTrailing(rest)) + [Closer(brace)])
    ensures Leaves(text, i, i + |PrintItems(More(head, afterComma, rest))| + 1,
                   PrintItems(ItemsWithoutTrailing(More(head, afterComma, rest))) + [Closer(brace)])
  {
    hide Leaves, At, ItemWithoutTrailing, PrintItem, ItemOk;
    var mid := i + |PrintItem(head)|;
    var comma := "," + afterComma;
    var next := mid + |comma|;
    var end := next + |PrintItems(rest)| + 1;
    NextItem(text, next, rest);
    CommaLeaves(text, mid, afterComma);
    var bare, bares := PrintItem(ItemWithoutTrailing(head)), PrintItems(ItemsWithoutTrailing(rest));
    LeavesBoth(text, i, mid, next, bare, comma);
    LeavesBoth(text, i, next, end, bare + comma, bares + [Closer(brace)]);
    Associative(bare, comma, bares);
    Associative(bare + comma, bares, [Closer(brace)]);
  }

  lemma {:induction false} ValueLeaves(text: string, i: nat, v: Json)
    requires At(text, i, Print(v)) && JsonOk(v)
    ensures Leaves(text, i, i + |Print(v)|, Print(WithoutTrailing(v)))
    decreases v
  {
    hide Leaves, At;
    match v
    case Atom(word) => PlainLeaves(text, i, word);
    case Str(body) => QuotedLeaves(text, i, body);
    case Container(brace, space, items) =>
      var open, inside := [Opener(brace)] + space, PrintItems(items) + [Closer(brace)];
      var bare := ItemsWithoutTrailing(items);
      AtConcat(text, i, open, inside);
      assert open[0] == Opener(brace) && forall k :: 1 <= k < |open| ==> open[k] == space[k - 1];
      PlainLeaves(text, i, open);
      ItemsLeave(text, i + |open|, items, brace);
      LeavesBoth(text, i, i + |open|, i + |Print(v)|, open, PrintItems(bare) + [Closer(brace)]);
  }

  lemma {:induction false} ItemLeaves(text: string, i: nat, item: Item)
    requires At(text, i, PrintItem(item)) && ItemOk(item)
    ensures Leaves(text, i, i + |PrintItem(item)|, PrintItem(ItemWithoutTrailing(item)))
    decreases item
  {
    hide Leaves, At;
    var key, value := PrintKey(item.key), Print(item.value);
    var bare := Print(WithoutTrailing(item.value));
    AtConcat(text, i, key, value + item.space);
    AtConcat(text, i + |key|, value, item.space);
    KeyLeaves(text, i, item.key);
    ValueLeaves(text, i + |key|, item.value);
    PlainLeaves(text, i + |key| + |value|, item.space);
    LeavesBoth(text, i + |key|, i + |key| + |value|, i + |PrintItem(item)|, bare, item.space);
    LeavesBoth(text, i, i + |key|, i + |PrintItem(item)|, key, bare + item.space);
  }

  lemma {:induction false} ItemsLeave(text: string, i: nat, items: Items, brace: bool)
    requires At(text, i, PrintItems(items) + [Closer(brace)]) && ItemsOk(items)
    ensures Leaves(text, i, i + |PrintItems(items)| + 1,
                   PrintItems(ItemsWithoutTrailing(items)) + [Closer(brace)])
    decreases items
  {
    hide Leaves, At, PrintItem, ItemWithoutTrailing, ItemOk;
    var close := [Closer(brace)];
    var end := i + |PrintItems(items)|;
    AtConcat(text, i, PrintItems(items), close);
    FirstAt(text, end, close);
    PlainLeaves(text, end, close);
    match items
    case Empty => assert "" + close == close;
    case Last(head, comma, afterComma) =>
      AtConcat(text, i, PrintItem(head), if comma then "," + afterComma else "");
      ItemLeaves(text, i, head);
      LastLeaves(text, i, head, comma, afterComma, brace);
    case More(head, afterComma, rest) =>
      var comma := "," + afterComma;
      var next := i + |PrintItem(head)| + |comma|;
      AtConcat(text, i, PrintItem(head), comma + PrintItems(rest));
      AtConcat(text, i + |PrintItem(head)|, comma, PrintItems(rest));
      AtConcat(text, next, PrintItems(rest), close);
      ItemLeaves(text, i, head);
      ItemsLeave(text, next, rest, brace);
      MoreLeave(text, i, head, afterComma, rest, brace);
  }

  /** On every printed document exactly the trailing commas go. */
  lemma StripsExactlyTheTrailingCommas(v: Json, before: string, after: string)
    requires JsonOk(v) && Spaces(before) && Spaces(after)
    ensures Stripped(before + Print(v) + after) == Ok(before + Print(WithoutTrailing(v)) + after)
  {
    var text := before + Print(v) + after;
    AtConcat(text, 0, before + Print(v), after);
    AtConcat(text, 0, before, Print(v));
    PlainLeaves(text, 0, before);
    ValueLeaves(text, |before|, v);
    PlainLeaves(text, |before + Print(v)|, after);
    var bare := Print(WithoutTrailing(v));
    LeavesBoth(text, 0, |before|, |before + Print(v)|, before, bare);
    LeavesBoth(text, 0, |before + Print(v)|, |text|, before + bare, after);
    assert "" + (before + bare + after) == before + bare + after;
  }

  // ---------------------------------------------------------------- when a second pass changes nothing

  lemma {:induction false} KeptGrows(text: string, a: nat, b: nat)
    requires a <= b <= |text|
    ensures |Kept(text, a)| <= |Kept(text, b)| && Kept(text, b)[..|Kept(text, a)|] == Kept(text, a)
    decreases b
  {
    hide IsTrailing;
    if a < b {
      KeptGrows(text, a, b - 1);
      var before := Kept(text, b - 1);
      assert Kept(text, b)[..|before|] == before;
      assert Kept(text, b)[..|Kept(text, a)|] == before[..|Kept(text, a)|];
    }
  }

  /** A kept character stands in the output where the kept characters before it end. */
  lemma KeptAt(text: string, i: nat)
    requires i < |text| && !IsTrailing(text, i)
    ensures var out := Kept(text, |text|);
            |Kept(text, i)| < |out| && out[|Kept(text, i)|] == text[i]
  {
    KeptGrows(text, i + 1, |text|);
    var out, upTo := Kept(text, |text|), Kept(text, i + 1);
    assert out[|Kept(text, i)|] == out[..|upTo|][|Kept(text, i)|];
  }

  lemma PlaceInOutput(text: string, i: nat)
    requires i <= |text|
    ensures var out := Kept(text, |text|);
            |Kept(text, i)| <= |out| && PlaceAt(out, |Kept(text, i)|) == PlaceAt(text, i)
  {
    var out := Kept(text, |text|);
    KeptGrows(text, i, |text|);
    ReaderKeepsPace(text, i);
    ReaderKeepsPace(out, |Kept(text, i)|);
  }

  /** White space is kept, so it stands between the same neighbours. */
  lemma {:induction false} SpacesKept(text: string, a: nat, b: nat)
    requires a <= b <= |text| && forall k :: a <= k < b ==> IsSpace(text[k])
    ensures var out, base := Kept(text, |text|), |Kept(text, a)|;
            && |Kept(text, b)| == base + b - a <= |out|
            && forall k :: base <= k < base + b - a ==> IsSpace(out[k])
    decreases b
  {
    KeptGrows(text, b, |text|);
    if a < b {
      SpacesKept(text, a, b - 1);
      KeptAt(text, b - 1);
    }
  }

  /** A kept comma whose next significant character is a dropped comma. */
  predicate Doubled(text: string, i: nat)
    requires i < |text|
  {
    && text[i] == ',' && PlaceAt(text, i).Outside? && !IsTrailing(text, i)
    && var next := SkipSpaces(text, i + 1);
       next < |text| && IsTrailing(text, next)
  }

  lemma {:induction false} PlaceAcrossSpaces(text: string, a: nat, b: nat)
    requires a <= b <= |text| && PlaceAt(text, a).Outside?
    requires forall k :: a <= k < b ==> IsSpace(text[k])
    ensures PlaceAt(text, b).Outside?
    decreases b
  {
    if a < b { PlaceAcrossSpaces(text, a, b - 1); }
  }

  lemma KeptNext(text: string, i: nat)
    requires i < |text|
    ensures |Kept(text, i + 1)| == |Kept(text, i)| + if IsTrailing(text, i) then 0 else 1
  {
  }

  lemma PlaceAfterComma(text: string, i: nat)
    requires i < |text| && text[i] == ',' && PlaceAt(text, i).Outside?
    ensures PlaceAt(text, i + 1).Outside?
  {
  }

  /** A kept comma is trailing in the output exactly when it was doubled in the text. */
  lemma TrailingInOutput(text: string, i: nat)
    requires i < |text| && !IsTrailing(text, i)
    ensures var out := Kept(text, |text|);
            && |Kept(text, i)| < |out|
            && (IsTrailing(out, |Kept(text, i)|) <==> Doubled(text, i))
  {
    hide Kept, PlaceAt;
    var out := Kept(text, |text|);
    KeptAt(text, i);
    PlaceInOutput(text, i);
    if text[i] == ',' && PlaceAt(text, i).Outside? {
      var at := |Kept(text, i)|;
      var next := SkipSpaces(text, i + 1);
      KeptNext(text, i);
      SpacesKept(text, i + 1, next);
      var outNext := at + next - i;
      if next < |text| {
        KeptNext(text, next);
        if IsTrailing(text, next) {
          var after := SkipSpaces(text, next + 1);
          SpacesKept(text, next + 1, after);
          KeptAt(text, after);
          SkipSpacesUnique(out, at + 1, outNext + after - next - 1);
        } else {
          KeptAt(text, next);
          PlaceAfterComma(text, i);
          PlaceAcrossSpaces(text, i + 1, next);
          SkipSpacesUnique(out, at + 1, outNext);
        }
      } else {
        SkipSpacesUnique(out, at + 1, outNext);
      }
    }
  }

  /** Every position of the output comes from a kept position of the text. */
  lemma {:induction false} Origin(text: string, n: nat, p: nat) returns (i: nat)
    requires n <= |text| && p < |Kept(text, n)|
    ensures i < n && !IsTrailing(text, i) && |Kept(text, i)| == p
    decreases n
  {
    if p < |Kept(text, n - 1)| { i := Origin(text, n - 1, p); } else { i := n - 1; }
  }

  lemma {:induction false} KeptLength(text: string, n: nat)
    requires n <= |text|
    ensures |Kept(text, n)| <= n
    ensures (forall i :: 0 <= i < n ==> !IsTrailing(text, i)) ==> Kept(text, n) == text[..n]
    ensures (exists i :: 0 <= i < n && IsTrailing(text, i)) ==> |Kept(text, n)| < n
  {
    hide IsTrailing;
    if n > 0 {
      KeptLength(text, n - 1);
      assert text[..n] == text[..n - 1] + [text[n - 1]];
    }
  }

  lemma DoubledIsKept(text: string, i: nat)
    requires i < |text| && Doubled(text, i)
    ensures !IsTrailing(text, i)
  {
  }

  /** The output of an accepted text is accepted again; the second pass changes it exactly when
      the text holds a kept comma directly before a dropped one. */
  lemma SecondPass(text: string)
    requires Stripped(text).Ok?
    ensures var out := Stripped(text).value;
            Stripped(out).Ok?
            && (Stripped(out).value == out <==> forall i :: 0 <= i < |text| ==> !Doubled(text, i))
  {
    hide Kept, IsTrailing, Doubled;
    var out := Kept(text, |text|);
    PlaceInOutput(text, |text|);
    KeptLength(out, |out|);
    assert out[..|out|] == out;
    forall i: nat | i < |text| && Doubled(text, i) ensures exists p :: 0 <= p < |out| && IsTrailing(out, p) {
      DoubledIsKept(text, i);
      TrailingInOutput(text, i);
    }
    forall p: nat | p < |out| && IsTrailing(out, p) ensures exists i :: 0 <= i < |text| && Doubled(text, i) {
      var i := Origin(text, |text|, p);
      TrailingInOutput(text, i);
    }
  }

  lemma StripsTwo()
    ensures Stripped("[1,,]") == Ok("[1,]")
  {
    var text := "[1,,]";
    assert PlaceAt(text, 1) == PlaceAt(text, 2) == PlaceAt(text, 3) == PlaceAt(text, 4) == PlaceAt(text, 5) == Outside;
    assert SkipSpaces(text, 3) == 3 && SkipSpaces(text, 4) == 4;
    assert Kept(text, 1) == "[" && Kept(text, 2) == "[1" && Kept(text, 3) == "[1," && Kept(text, 4) == "[1,";
    assert Kept(text, 5) == "[1,]";
  }

  /** So removal is not idempotent. */
  lemma SecondPassCanChange()
    ensures Stripped("[1,,]") == Ok("[1,]") && Stripped("[1,]") == Ok("[1]")
  {
    StripsTwo();
    var text := "[1,]";
    assert PlaceAt(text, 1) == PlaceAt(text, 2) == PlaceAt(text, 3) == PlaceAt(text, 4) == Outside;
    assert SkipSpaces(text, 3) == 3;
    assert Kept(text, 1) == "[" && Kept(text, 2) == "[1" && Kept(text, 3) == "[1" && Kept(text, 4) == "[1]";
  }
}
