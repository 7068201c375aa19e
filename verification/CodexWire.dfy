/** The functional-alpha prompt frame: markers replaced one after another (cli/ci/alpha_package_admission.py). */
module CodexWire {
  import opened Wrappers
  import opened Text

  // ---------------------------------------------------------------- the string operations

  predicate Starts(text: string, part: string) {
    |part| <= |text| && text[..|part|] == part
  }

  /** `str.count`: occurrences from the left that do not overlap. */
  function Count(text: string, part: string): nat
    requires part != ""
    decreases |text|
  {
    if text == "" then 0
    else if Starts(text, part) then 1 + Count(text[|part|..], part)
    else Count(text[1..], part)
  }

  /** `str.replace`. */
  function Replace(text: string, part: string, value: string): string
    requires part != ""
    decreases |text|
  {
    if text == "" then ""
    else if Starts(text, part) then value + Replace(text[|part|..], part, value)
    else [text[0]] + Replace(text[1..], part, value)
  }

  // ---------------------------------------------------------------- the markers

  type Slot = k: nat | k < 4

  const MARKERS: seq<string> := ["{{IMAGE_SHA256}}", "{{IMAGE_BYTES}}", "{{TASK_SHA256}}", "{{TASK_JSON}}"]

  function Marker(k: Slot): (m: string)
    ensures m != ""
  {
    MARKERS[k]
  }

  /** Two opening braces, and none after them; no closing brace before the last two characters. */
  ghost predicate Braced(m: string) {
    && |m| > 4 && m[0] == '{' && m[1] == '{' && m[|m| - 1] == '}' && m[|m| - 2] == '}'
    && (forall i :: 2 <= i < |m| ==> m[i] != '{')
    && (forall i :: 0 <= i < |m| - 2 ==> m[i] != '}')
  }

  lemma MarkersAreBraced(k: Slot)
    ensures Braced(Marker(k))
  {
  }

  lemma MarkersDiffer(text: string, j: Slot, k: Slot)
    requires Starts(text, Marker(j)) && Starts(text, Marker(k))
    ensures j == k
  {
    var a, b := Marker(j), Marker(k);
    assert text[|a| - 2] == a[|a| - 2] && text[|b| - 2] == b[|b| - 2];
    assert |a| == |b|;
    assert text[2] == a[2] == b[2];
  }

  /** No marker begins inside another one. */
  lemma NoOverlap(text: string, m: string, n: string, p: nat)
    requires Braced(m) && Braced(n) && 0 < p <= |text|
    requires Starts(text, m) && Starts(text[p..], n)
    ensures |m| <= p
  {
    if p < |m| {
      assert false;
    }
  }

  // ---------------------------------------------------------------- one replacement

  lemma {:induction false} NoneToReplace(text: string, m: string, value: string)
    requires m != "" && Count(text, m) == 0
    ensures Replace(text, m, value) == text
    decreases |text|
  {
    if text != "" {
      NoneToReplace(text[1..], m, value);
    }
  }

  lemma {:induction false} PresentIsCounted(before: string, m: string, after: string)
    requires Braced(m)
    ensures Count(before + m + after, m) >= 1
    decreases |before|
  {
    var text := before + m + after;
    if before == "" {
      assert text[..|m|] == m;
    } else if !Starts(text, m) {
      PresentIsCounted(before[1..], m, after);
      assert text[1..] == before[1..] + m + after;
    }
  }

  /** A marker with another one before it is counted more than once. */
  lemma NotTheFirst(before: string, m: string, after: string)
    requires Braced(m) && before != "" && Starts(before + m + after, m)
    ensures Count(before + m + after, m) > 1
  {
    var text := before + m + after;
    assert text[|before|..][..|m|] == m;
    NoOverlap(text, m, m, |before|);
    PresentIsCounted(before[|m|..], m, after);
    assert text[|m|..] == before[|m|..] + m + after;
  }

  /** A marker counted once is replaced where it is known to stand, and nothing else changes. */
  lemma {:induction false} ReplacedThere(before: string, m: string, after: string, value: string)
    requires Braced(m) && Count(before + m + after, m) == 1
    ensures Replace(before + m + after, m, value) == before + value + after
    decreases |before|
  {
    hide Braced;
    var text := before + m + after;
    if before == "" {
      assert text[..|m|] == m && text[|m|..] == after;
      NoneToReplace(after, m, value);
    } else if Starts(text, m) {
      NotTheFirst(before, m, after);
      assert false;
    } else {
      assert text[1..] == before[1..] + m + after;
      ReplacedThere(before[1..], m, after, value);
      assert [text[0]] + before[1..] == before;
    }
  }

  // ---------------------------------------------------------------- simultaneous substitution

  datatype Piece = Literal(c: char) | Hole(k: Slot)

  function Leading(text: string): (k: Option<Slot>)
    ensures k.Some? ==> Starts(text, Marker(k.value))
    ensures k.None? ==> forall j: Slot :: !Starts(text, Marker(j))
  {
    if Starts(text, Marker(0)) then Some(0)
    else if Starts(text, Marker(1)) then Some(1)
    else if Starts(text, Marker(2)) then Some(2)
    else if Starts(text, Marker(3)) then Some(3)
    else None
  }

  /** The template read once, from left to right. */
  function Pieces(text: string): seq<Piece>
    decreases |text|
  {
    if text == "" then []
    else match Leading(text)
      case Some(k) => [Hole(k)] + Pieces(text[|Marker(k)|..])
      case None => [Literal(text[0])] + Pieces(text[1..])
  }

  /** The pieces with the first `n` markers replaced. */
  function Fill(pieces: seq<Piece>, values: seq<string>, n: nat): string
    requires |values| == 4
  {
    if pieces == [] then ""
    else
      (match pieces[0]
       case Literal(c) => [c]
       case Hole(k) => if k < n then values[k] else Marker(k))
      + Fill(pieces[1..], values, n)
  }

  /** Every marker of the template replaced at once; what the values hold is never read. */
  function Simultaneous(template: string, values: seq<string>): string
    requires |values| == 4
  {
    Fill(Pieces(template), values, 4)
  }

  function Holes(pieces: seq<Piece>, k: Slot): nat {
    if pieces == [] then 0 else (if pieces[0] == Hole(k) then 1 else 0) + Holes(pieces[1..], k)
  }

  lemma {:induction false} UnfilledIsTheTemplate(text: string, values: seq<string>)
    requires |values| == 4
    ensures Fill(Pieces(text), values, 0) == text
    decreases |text|
  {
    if text != "" {
      match Leading(text)
      case Some(k) =>
        UnfilledIsTheTemplate(text[|Marker(k)|..], values);
        assert text == Marker(k) + text[|Marker(k)|..];
      case None =>
        UnfilledIsTheTemplate(text[1..], values);
        assert text == [text[0]] + text[1..];
    }
  }

  lemma {:induction false} SkipMarker(text: string, j: Slot, k: Slot, p: nat)
    requires Starts(text, Marker(j)) && j != k && p <= |Marker(j)|
    ensures Count(text, Marker(k)) == Count(text[p..], Marker(k))
    decreases p
  {
    if p == 0 {
      assert text[0..] == text;
    } else {
      SkipMarker(text, j, k, p - 1);
      if p == 1 {
        if Starts(text, Marker(k)) { MarkersDiffer(text, j, k); }
        assert text[0..] == text;
      } else {
        MarkersAreBraced(j);
        MarkersAreBraced(k);
        if Starts(text[p - 1..], Marker(k)) { NoOverlap(text, Marker(j), Marker(k), p - 1); }
      }
      assert text[p - 1..][1..] == text[p..];
    }
  }

  /** Counting a marker in the text is counting its holes. */
  lemma {:induction false} CountIsHoles(text: string, k: Slot)
    ensures Count(text, Marker(k)) == Holes(Pieces(text), k)
    decreases |text|
  {
    if text != "" {
      match Leading(text)
      case Some(j) =>
        CountIsHoles(text[|Marker(j)|..], k);
        if j != k {
          SkipMarker(text, j, k, |Marker(j)|);
        }
      case None =>
        CountIsHoles(text[1..], k);
    }
  }

  lemma {:induction false} FillConcat(a: seq<Piece>, b: seq<Piece>, values: seq<string>, n: nat)
    requires |values| == 4
    ensures Fill(a + b, values, n) == Fill(a, values, n) + Fill(b, values, n)
    decreases |a|
  {
    if a == [] {
      assert a + b == b;
    } else {
      FillConcat(a[1..], b, values, n);
      assert (a + b)[1..] == a[1..] + b;
    }
  }

  lemma {:induction false} OneHole(pieces: seq<Piece>, k: Slot) returns (i: nat)
    requires Holes(pieces, k) == 1
    ensures i < |pieces| && pieces[i] == Hole(k)
    ensures Holes(pieces[..i], k) == 0 && Holes(pieces[i + 1..], k) == 0
  {
    if pieces[0] == Hole(k) {
      i := 0;
    } else {
      var j := OneHole(pieces[1..], k);
      i := j + 1;
      assert pieces[..i][1..] == pieces[1..][..j];
      assert pieces[i + 1..] == pieces[1..][j + 1..];
    }
  }

  lemma {:induction false} NoHoleNoChange(pieces: seq<Piece>, values: seq<string>, k: Slot)
    requires |values| == 4 && Holes(pieces, k) == 0
    ensures Fill(pieces, values, k) == Fill(pieces, values, k + 1)
    decreases |pieces|
  {
    if pieces != [] {
      NoHoleNoChange(pieces[1..], values, k);
    }
  }

  lemma FillAround(pieces: seq<Piece>, i: nat, values: seq<string>, n: nat)
    requires |values| == 4 && i < |pieces| && pieces[i].Hole?
    ensures var k := pieces[i].k;
            Fill(pieces, values, n) ==
            Fill(pieces[..i], values, n) + (if k < n then values[k] else Marker(k)) + Fill(pieces[i + 1..], values, n)
  {
    var a, b := pieces[..i], pieces[i..];
    assert pieces == a + b;
    FillConcat(a, b, values, n);
    assert b[1..] == pieces[i + 1..];
  }

  /** Around its one hole, filling marker `k` is replacing it. */
  lemma FillSplit(pieces: seq<Piece>, values: seq<string>, k: Slot) returns (before: string, after: string)
    requires |values| == 4 && Holes(pieces, k) == 1
    ensures Fill(pieces, values, k) == before + Marker(k) + after
    ensures Fill(pieces, values, k + 1) == before + values[k] + after
  {
    hide Fill, Holes, Marker;
    var i := OneHole(pieces, k);
    NoHoleNoChange(pieces[..i], values, k);
    NoHoleNoChange(pieces[i + 1..], values, k);
    FillAround(pieces, i, values, k);
    FillAround(pieces, i, values, k + 1);
    before, after := Fill(pieces[..i], values, k), Fill(pieces[i + 1..], values, k);
  }

  // ---------------------------------------------------------------- the frame

  datatype Refusal = MarkerDiffers(marker: string)

  /** The framing from marker `k` on. */
  function Framed(template: string, values: seq<string>, k: nat): Result<string, Refusal>
    requires |values| == 4 && k <= 4
    decreases 4 - k
  {
    if k == 4 then Ok(template)
    else if Count(template, Marker(k)) != 1 then Err(MarkerDiffers(Marker(k)))
    else Framed(Replace(template, Marker(k), values[k]), values, k + 1)
  }

  /** What the markers stand for. */
  datatype Texts = Texts(imageSha256: string, imageBytes: string, taskSha256: string, taskJson: string)

  function ValuesOf(texts: Texts): (values: seq<string>)
    ensures |values| == 4
  {
    [texts.imageSha256, texts.imageBytes, texts.taskSha256, texts.taskJson]
  }

  method Frame(framing: string, texts: Texts) returns (r: Result<string, Refusal>)
    ensures r == Framed(framing, ValuesOf(texts), 0)
  {
    var template, values := framing, ValuesOf(texts);
    for k := 0 to 4
      invariant Framed(framing, values, 0) == Framed(template, values, k)
    {
      if Count(template, Marker(k)) != 1 {
        return Err(MarkerDiffers(Marker(k)));
      }
      template := Replace(template, Marker(k), values[k]);
    }
    return Ok(template);
  }

  ghost predicate HoldsEachOnce(framing: string) {
    forall k: Slot :: Count(framing, Marker(k)) == 1
  }

  /** Marker `k` is still found once when its turn comes: no earlier value holds it or completes it. */
  ghost predicate FoundOnce(framing: string, values: seq<string>, k: Slot)
    requires |values| == 4
  {
    Count(Fill(Pieces(framing), values, k), Marker(k)) == 1
  }

  lemma {:induction false} FramedFrom(framing: string, values: seq<string>, n: nat)
    requires |values| == 4 && n <= 4 && HoldsEachOnce(framing)
    ensures var r := Framed(Fill(Pieces(framing), values, n), values, n);
            && (r.Ok? <==> forall k: Slot :: n <= k ==> FoundOnce(framing, values, k))
            && (r.Ok? ==> r.value == Simultaneous(framing, values))
    decreases 4 - n
  {
    hide Fill, Pieces, Holes, Marker, Replace, Count, Braced;
    if n < 4 {
      var k: Slot := n;
      assert Count(framing, Marker(k)) == 1;
      CountIsHoles(framing, k);
      var before, after := FillSplit(Pieces(framing), values, k);
      if FoundOnce(framing, values, k) {
        MarkersAreBraced(k);
        ReplacedThere(before, Marker(k), after, values[k]);
        FramedFrom(framing, values, n + 1);
      }
    }
  }

  /** For a framing that holds each marker once, replacing one after another either stops at a marker an earlier
      value disturbed, or is simultaneous substitution. */
  lemma OneByOneIsSimultaneous(framing: string, values: seq<string>)
    requires |values| == 4 && HoldsEachOnce(framing)
    ensures Framed(framing, values, 0).Ok? <==> forall k: Slot :: FoundOnce(framing, values, k)
    ensures Framed(framing, values, 0).Ok? ==> Framed(framing, values, 0).value == Simultaneous(framing, values)
  {
    UnfilledIsTheTemplate(framing, values);
    FramedFrom(framing, values, 0);
  }

  /** The frame holds the image and the task's JSON as they are. */
  lemma FrameHoldsTheTexts(framing: string, values: seq<string>, k: Slot) returns (before: string, after: string)
    requires |values| == 4 && HoldsEachOnce(framing) && Framed(framing, values, 0).Ok?
    ensures Framed(framing, values, 0).value == before + values[k] + after
  {
    OneByOneIsSimultaneous(framing, values);
    CountIsHoles(framing, k);
    var i := OneHole(Pieces(framing), k);
    FillAround(Pieces(framing), i, values, 4);
    before, after := Fill(Pieces(framing)[..i], values, 4), Fill(Pieces(framing)[i + 1..], values, 4);
  }

  // ---------------------------------------------------------------- values that hold markers

  /** One more marker in front is one more to count. */
  lemma {:induction false} CountedBefore(before: string, m: string, after: string)
    requires Braced(m)
    ensures Count(before + m + after, m) >= 1 + Count(after, m)
    decreases |before|
  {
    var text := before + m + after;
    if before == "" {
      assert text[..|m|] == m && text[|m|..] == after;
    } else if Starts(text, m) {
      assert text[|before|..][..|m|] == m;
      NoOverlap(text, m, m, |before|);
      assert text[|m|..] == before[|m|..] + m + after;
      CountedBefore(before[|m|..], m, after);
    } else {
      assert text[1..] == before[1..] + m + after;
      CountedBefore(before[1..], m, after);
    }
  }

  lemma TwoCounted(a: string, m: string, b: string, c: string)
    requires Braced(m)
    ensures Count(a + m + (b + m + c), m) >= 2
  {
    CountedBefore(a, m, b + m + c);
    PresentIsCounted(b, m, c);
  }

  /** Text around two holes, one already filled and one not yet. */
  lemma TwoHoles(pieces: seq<Piece>, values: seq<string>, i: nat, j: nat, n: nat)
    returns (a: string, b: string, c: string)
    requires |values| == 4 && i < j < |pieces| && pieces[i].Hole? && pieces[j].Hole?
    ensures var x := if pieces[i].k < n then values[pieces[i].k] else Marker(pieces[i].k);
            var y := if pieces[j].k < n then values[pieces[j].k] else Marker(pieces[j].k);
            Fill(pieces, values, n) == a + x + (b + y + c)
  {
    hide Fill, Marker;
    var rest := pieces[i + 1..];
    FillAround(pieces, i, values, n);
    assert rest[j - i - 1] == pieces[j];
    FillAround(rest, j - i - 1, values, n);
    a, b, c := Fill(pieces[..i], values, n), Fill(rest[..j - i - 1], values, n), Fill(rest[j - i..], values, n);
  }

  /** A value that holds a later marker is found out: the template is refused although it is right. */
  lemma HeldMarkerRefuses(framing: string, values: seq<string>, k: Slot, j: Slot, left: string, right: string)
    requires |values| == 4 && HoldsEachOnce(framing) && k < j && values[k] == left + Marker(j) + right
    ensures Framed(framing, values, 0).Err?
  {
    hide Fill, Marker, Pieces, Framed, Holes;
    var pieces, m := Pieces(framing), Marker(j);
    OneByOneIsSimultaneous(framing, values);
    MarkersAreBraced(j);
    CountIsHoles(framing, k);
    CountIsHoles(framing, j);
    var p := OneHole(pieces, k);
    var q := OneHole(pieces, j);
    if p < q {
      var a, b, c := TwoHoles(pieces, values, p, q, j);
      assert a + (left + m + right) + (b + m + c) == (a + left) + m + ((right + b) + m + c);
      TwoCounted(a + left, m, right + b, c);
    } else {
      var a, b, c := TwoHoles(pieces, values, q, p, j);
      assert a + m + (b + (left + m + right) + c) == a + m + ((b + left) + m + (right + c));
      TwoCounted(a, m, b + left, right + c);
    }
    assert !FoundOnce(framing, values, j);
  }

  lemma PiecesOfMarker(k: Slot, rest: string)
    ensures Pieces(Marker(k) + rest) == [Hole(k)] + Pieces(rest)
  {
    var text := Marker(k) + rest;
    assert Starts(text, Marker(k)) && text[|Marker(k)|..] == rest;
    var found := Leading(text);
    assert found.Some?;
    MarkersDiffer(text, k, found.value);
  }

  lemma NoPieces()
    ensures Pieces("") == []
  {
  }

  lemma OneOfEach(k: Slot)
    ensures Holes([Hole(0), Hole(1), Hole(2), Hole(3)], k) == 1
  {
    var pieces := [Hole(0), Hole(1), Hole(2), Hole(3)];
    assert pieces[1..] == [Hole(1), Hole(2), Hole(3)] && pieces[1..][1..] == [Hole(2), Hole(3)];
    assert [Hole(2), Hole(3)][1..] == [Hole(3)] && [Hole(3)][1..] == [];
  }

  /** The four markers after one another are a template that holds each once. */
  lemma PlainFramingHoldsEachOnce()
    ensures HoldsEachOnce(Marker(0) + (Marker(1) + (Marker(2) + (Marker(3) + ""))))
  {
    hide Marker, Pieces;
    var framing := Marker(0) + (Marker(1) + (Marker(2) + (Marker(3) + "")));
    PiecesOfMarker(3, "");
    PiecesOfMarker(2, Marker(3) + "");
    PiecesOfMarker(1, Marker(2) + (Marker(3) + ""));
    PiecesOfMarker(0, Marker(1) + (Marker(2) + (Marker(3) + "")));
    assert Pieces("") == [] by { NoPieces(); }
    var pieces := Pieces(framing);
    assert pieces == [Hole(0), Hole(1), Hole(2), Hole(3)];
    forall k: Slot ensures Count(framing, Marker(k)) == 1 {
      CountIsHoles(framing, k);
      OneOfEach(k);
    }
  }

  /** An image that mentions the task's marker makes a right template refused: here the four markers in a row. */
  lemma RightTemplateCanBeRefused()
    ensures var framing := MARKERS[0] + (MARKERS[1] + (MARKERS[2] + MARKERS[3]));
            var values := ["0", "{{TASK_JSON}}", "1", "{}"];
            HoldsEachOnce(framing) && Framed(framing, values, 0).Err?
  {
    hide HoldsEachOnce, Framed;
    assert Marker(3) + "" == Marker(3);
    PlainFramingHoldsEachOnce();
    var framing := MARKERS[0] + (MARKERS[1] + (MARKERS[2] + MARKERS[3]));
    assert "{{TASK_JSON}}" == "" + Marker(3) + "";
    HeldMarkerRefuses(framing, ["0", "{{TASK_JSON}}", "1", "{}"], 1, 3, "", "");
  }

  // ---------------------------------------------------------------- by name and place

  /** The one position at which `m` stands. */
  ghost predicate StandsAt(text: string, m: string, p: nat) {
    p + |m| <= |text| && text[p..p + |m|] == m
  }

  ghost predicate StandsOnce(text: string, m: string) {
    exists p: nat :: StandsAt(text, m, p) && forall q: nat :: StandsAt(text, m, q) ==> q == p
  }

  lemma StandsLater(text: string, m: string, n: nat, p: nat)
    requires n <= |text|
    ensures StandsAt(text, m, n + p) <==> StandsAt(text[n..], m, p)
  {
    if n + p + |m| <= |text| {
      assert text[n + p..n + p + |m|] == text[n..][p..p + |m|];
    }
  }

  lemma StandingIsCounted(text: string, m: string, p: nat)
    requires Braced(m) && StandsAt(text, m, p)
    ensures Count(text, m) >= 1
  {
    assert text == text[..p] + m + text[p + |m|..];
    PresentIsCounted(text[..p], m, text[p + |m|..]);
  }

  lemma {:induction false} CountIsNone(text: string, m: string)
    requires Braced(m)
    ensures Count(text, m) == 0 <==> forall p: nat :: !StandsAt(text, m, p)
    decreases |text|
  {
    if Count(text, m) == 0 {
      forall p: nat ensures !StandsAt(text, m, p) {
        if StandsAt(text, m, p) { StandingIsCounted(text, m, p); }
      }
    } else {
      if Starts(text, m) {
        assert StandsAt(text, m, 0);
      } else {
        CountIsNone(text[1..], m);
        var p: nat :| StandsAt(text[1..], m, p);
        StandsLater(text, m, 1, p);
      }
    }
  }

  lemma OnceLater(text: string, m: string)
    requires text != "" && (forall p: nat | StandsAt(text, m, p) :: p > 0 && StandsAt(text[1..], m, p - 1))
    requires forall p: nat | StandsAt(text[1..], m, p) :: StandsAt(text, m, p + 1)
    ensures StandsOnce(text, m) <==> StandsOnce(text[1..], m)
  {
    if StandsOnce(text, m) {
      var p: nat :| StandsAt(text, m, p) && forall q: nat :: StandsAt(text, m, q) ==> q == p;
      assert StandsAt(text[1..], m, p - 1);
      forall q: nat | StandsAt(text[1..], m, q) ensures q == p - 1 { assert StandsAt(text, m, q + 1); }
    }
    if StandsOnce(text[1..], m) {
      var p: nat :| StandsAt(text[1..], m, p) && forall q: nat :: StandsAt(text[1..], m, q) ==> q == p;
      assert StandsAt(text, m, p + 1);
      forall q: nat | StandsAt(text, m, q) ensures q == p + 1 { assert StandsAt(text[1..], m, q - 1); }
    }
  }

  /** A marker is counted once exactly if it stands at one position. */
  lemma {:induction false} CountIsOnce(text: string, m: string)
    requires Braced(m)
    ensures Count(text, m) == 1 <==> StandsOnce(text, m)
    decreases |text|
  {
    if text == "" {
      forall p: nat ensures !StandsAt(text, m, p) {}
    } else if Starts(text, m) {
      var rest := text[|m|..];
      CountIsNone(rest, m);
      assert StandsAt(text, m, 0);
      forall q: nat | StandsAt(text, m, q) && q != 0 ensures |m| <= q && StandsAt(rest, m, q - |m|) {
        assert text[q..][..|m|] == m;
        NoOverlap(text, m, m, q);
        StandsLater(text, m, |m|, q - |m|);
      }
      forall p: nat | StandsAt(rest, m, p) ensures StandsAt(text, m, |m| + p) {
        StandsLater(text, m, |m|, p);
      }
    } else {
      CountIsOnce(text[1..], m);
      forall p: nat | StandsAt(text, m, p) ensures p > 0 && StandsAt(text[1..], m, p - 1) {
        if p > 0 { StandsLater(text, m, 1, p - 1); }
      }
      forall p: nat | StandsAt(text[1..], m, p) ensures StandsAt(text, m, p + 1) {
        StandsLater(text, m, 1, p);
      }
      OnceLater(text, m);
    }
  }

  /** The markers by name, and the texts they stand for. */
  ghost function Spelled(k: Slot): string {
    if k == 0 then "{{IMAGE_SHA256}}" else if k == 1 then "{{IMAGE_BYTES}}"
    else if k == 2 then "{{TASK_SHA256}}" else "{{TASK_JSON}}"
  }

  ghost function TextOf(k: Slot, texts: Texts): string {
    if k == 0 then texts.imageSha256 else if k == 1 then texts.imageBytes
    else if k == 2 then texts.taskSha256 else texts.taskJson
  }

  /** The parts of a framing with the markers between them in this order, the first `n` of which are replaced. */
  ghost function Mixed(parts: seq<string>, order: seq<Slot>, texts: Texts, n: nat): string
    requires |parts| == |order| + 1
  {
    if order == [] then parts[0]
    else parts[0] + (if order[0] < n then TextOf(order[0], texts) else Spelled(order[0])) + Mixed(parts[1..], order[1..], texts, n)
  }

  lemma {:induction false} SameWithout(parts: seq<string>, order: seq<Slot>, texts: Texts, k: Slot)
    requires |parts| == |order| + 1 && k !in order
    ensures Mixed(parts, order, texts, k) == Mixed(parts, order, texts, k + 1)
    decreases |order|
  {
    hide Spelled, TextOf;
    if order != [] {
      assert order[0] in order && forall x :: x in order[1..] ==> x in order;
      SameWithout(parts[1..], order[1..], texts, k);
    }
  }

  lemma {:induction false} MixedSplits(parts: seq<string>, order: seq<Slot>, texts: Texts, k: Slot) returns (before: string, after: string)
    requires |parts| == |order| + 1 && k in order && forall i, j :: 0 <= i < j < |order| ==> order[i] != order[j]
    ensures Mixed(parts, order, texts, k) == before + Spelled(k) + after
    ensures Mixed(parts, order, texts, k + 1) == before + TextOf(k, texts) + after
    decreases |order|
  {
    hide Spelled, TextOf;
    if order[0] == k {
      before, after := parts[0], Mixed(parts[1..], order[1..], texts, k);
      SameWithout(parts[1..], order[1..], texts, k);
    } else {
      var inner: string;
      inner, after := MixedSplits(parts[1..], order[1..], texts, k);
      var first := parts[0] + if order[0] < k then TextOf(order[0], texts) else Spelled(order[0]);
      before := first + inner;
      Associative(first, inner + Spelled(k), after);
      Associative(first, inner, Spelled(k));
      Associative(first, inner + TextOf(k, texts), after);
      Associative(first, inner, TextOf(k, texts));
    }
  }

  lemma SpelledIsMarker(k: Slot)
    ensures Spelled(k) == Marker(k)
  {
  }

  lemma ValueIsText(k: Slot, texts: Texts)
    ensures TextOf(k, texts) == ValuesOf(texts)[k]
  {
  }

  lemma {:induction false} MixedIsFramed(parts: seq<string>, order: seq<Slot>, texts: Texts, n: nat)
    requires |parts| == |order| + 1 && n <= 4
    requires (forall k: Slot :: k in order) && forall i, j :: 0 <= i < j < |order| ==> order[i] != order[j]
    requires Framed(Mixed(parts, order, texts, n), ValuesOf(texts), n).Ok?
    ensures Framed(Mixed(parts, order, texts, n), ValuesOf(texts), n).value == Mixed(parts, order, texts, 4)
    decreases 4 - n
  {
    hide Mixed, Spelled, Marker, Replace, Count;
    if n < 4 {
      var k: Slot := n;
      var before, after := MixedSplits(parts, order, texts, k);
      SpelledIsMarker(k);
      MarkersAreBraced(k);
      assert TextOf(k, texts) == ValuesOf(texts)[k] by { ValueIsText(k, texts); }
      ReplacedThere(before, Marker(k), after, TextOf(k, texts));
      MixedIsFramed(parts, order, texts, n + 1);
    }
  }

  /** In whatever order the four markers stand in a framing, and whatever the texts hold: a frame that is returned has
      each text where its marker stood, and everything else as it was. */
  lemma FramedByName(parts: seq<string>, order: seq<Slot>, texts: Texts)
    requires |parts| == |order| + 1
    requires (forall k: Slot :: k in order) && forall i, j :: 0 <= i < j < |order| ==> order[i] != order[j]
    ensures var framing := Mixed(parts, order, texts, 0);
            var r := Framed(framing, ValuesOf(texts), 0);
            r.Ok? ==> r.value == Mixed(parts, order, texts, 4)
  {
    hide Mixed, Framed;
    if Framed(Mixed(parts, order, texts, 0), ValuesOf(texts), 0).Ok? {
      MixedIsFramed(parts, order, texts, 0);
    }
  }
}
