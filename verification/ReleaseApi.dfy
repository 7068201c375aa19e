/** Paged discovery, exact asset listing and tag peeling against the GitHub API (cli/ci/create_draft_release.py). */
module ReleaseApi {
  import opened Collections
  import opened Wrappers
  import opened Text

  const MAX_TAG_PEEL_DEPTH: nat := 8
  const MAX_RELEASE_DISCOVERY_PAGES: nat := 10
  const MAX_PER_PAGE: nat := 100

  /** Digests are injective: they carry the content they were taken of. */
  datatype Digest = Sha256(content: string)

  /** A captured member of the assembly with its recorded identity. */
  datatype Asset = Asset(name: string, body: string, byteLength: nat, sha256: Digest)

  /** An asset as the API reports it. `wellFormed` stands for its url, node id and content type;
      `uploaded` is false for the stub an interrupted upload leaves. */
  datatype RemoteAsset = RemoteAsset(id: int, name: string, size: int, digest: Digest, uploaded: bool, wellFormed: bool)

  /** A release as the API reports it. `legible` says it is an object with a tag name, `wellFormed` stands for
      its urls, node id and target. */
  datatype Release = Release(id: int, tag: string, title: string, notes: string, draft: bool, prerelease: bool,
                             immutable: bool, legible: bool, wellFormed: bool, assets: seq<RemoteAsset>)

  datatype Failure =
    | RequestFailed | PageTooLarge | Malformed | Ambiguous | PaginationLimit
    | UnexpectedAsset | AssetMismatch | DuplicateName | DuplicateId | TooMany
    | InexactIdentity | TagUnresolved | PeelDepth | CyclicTag | RecaptureFailed | WrongUpload
    | IncompleteInventory | IdentityChanged

  /** What the n-th page request brings. */
  datatype Response<T> = Fault | Values(values: seq<T>)

  function Least(a: nat, b: nat): nat {
    if a < b then a else b
  }

  /** The responses of a server that truthfully pages through a list. */
  function PagesOf<T>(all: seq<T>): int -> Response<T> {
    page => if page < 1 then Fault else
            var from := Least((page - 1) * MAX_PER_PAGE, |all|);
            Values(all[from..Least(from + MAX_PER_PAGE, |all|)])
  }

  // ---------------------------------------------------------------- discovery of the draft

  /** Scan one page for the tag. */
  function CollectMatches(values: seq<Release>, tag: string, matches: seq<Release>): Result<seq<Release>, Failure> {
    if values == [] then Ok(matches)
    else if !values[0].legible then Err(Malformed)
    else if values[0].tag != tag then CollectMatches(values[1..], tag, matches)
    else if |matches| + 1 > 1 then Err(Ambiguous)
    else CollectMatches(values[1..], tag, matches + [values[0]])
  }

  /** The one release of the tag, or none, before its identity is checked. */
  function SearchFrom(feed: int -> Response<Release>, tag: string, page: nat, matches: seq<Release>)
    : Result<Option<Release>, Failure>
    decreases MAX_RELEASE_DISCOVERY_PAGES + 1 - page
  {
    if page > MAX_RELEASE_DISCOVERY_PAGES then Err(PaginationLimit) else
    match feed(page)
    case Fault => Err(RequestFailed)
    case Values(values) =>
      if |values| > MAX_PER_PAGE then Err(PageTooLarge) else
      match CollectMatches(values, tag, matches)
      case Err(e) => Err(e)
      case Ok(found) =>
        if |values| < MAX_PER_PAGE then Ok(if found == [] then None else Some(found[0]))
        else SearchFrom(feed, tag, page + 1, found)
  }

  method Search(feed: int -> Response<Release>, tag: string) returns (r: Result<Option<Release>, Failure>)
    ensures r == SearchFrom(feed, tag, 1, [])
  {
    var matches: seq<Release> := [];
    for page := 1 to MAX_RELEASE_DISCOVERY_PAGES + 1
      invariant SearchFrom(feed, tag, page, matches) == SearchFrom(feed, tag, 1, [])
    {
      var response := feed(page);
      if response.Fault? {
        return Err(RequestFailed);
      }
      var values := response.values;
      if |values| > MAX_PER_PAGE {
        return Err(PageTooLarge);
      }
      ghost var before := matches;
      for i := 0 to |values|
        invariant CollectMatches(values[i..], tag, matches) == CollectMatches(values, tag, before)
      {
        assert values[i..][1..] == values[i + 1..];
        var value := values[i];
        if !value.legible {
          return Err(Malformed);
        }
        if value.tag == tag {
          matches := matches + [value];
          if |matches| > 1 {
            return Err(Ambiguous);
          }
        }
      }
      if |values| < MAX_PER_PAGE {
        return Ok(if matches == [] then None else Some(matches[0]));
      }
    }
    return Err(PaginationLimit);
  }

  /** The simple search that the paged one must equal. */
  function Filter(all: seq<Release>, tag: string): (r: seq<Release>)
  {
    if all == [] then [] else
    (if all[0].tag == tag then [all[0]] else []) + Filter(all[1..], tag)
  }

  ghost predicate Legible(all: seq<Release>) {
    forall i :: 0 <= i < |all| ==> all[i].legible
  }

  lemma {:induction false} CollectIsFilter(values: seq<Release>, tag: string, matches: seq<Release>)
    requires Legible(values) && |matches| <= 1
    ensures CollectMatches(values, tag, matches) ==
            if |matches| + |Filter(values, tag)| <= 1 then Ok(matches + Filter(values, tag)) else Err(Ambiguous)
    decreases |values|
  {
    if values == [] {
      assert matches + [] == matches;
    } else if values[0].tag != tag {
      CollectIsFilter(values[1..], tag, matches);
      assert [] + Filter(values[1..], tag) == Filter(values[1..], tag);
    } else if matches == [] {
      CollectIsFilter(values[1..], tag, matches + [values[0]]);
      assert [] + [values[0]] + Filter(values[1..], tag) == [] + Filter(values, tag);
    }
  }

  lemma {:induction false} FilterConcat(a: seq<Release>, b: seq<Release>, tag: string)
    ensures Filter(a + b, tag) == Filter(a, tag) + Filter(b, tag)
    decreases |a|
  {
    if a == [] {
      assert a + b == b;
    } else {
      FilterConcat(a[1..], b, tag);
      assert (a + b)[1..] == a[1..] + b;
      var first := if a[0].tag == tag then [a[0]] else [];
      Associative(first, Filter(a[1..], tag), Filter(b, tag));
    }
  }

  /** From the page after `done` releases on. */
  lemma {:induction false} SearchIsFilterFrom(all: seq<Release>, tag: string, page: nat)
    requires Legible(all) && 1 <= page <= MAX_RELEASE_DISCOVERY_PAGES + 1
    requires (page - 1) * MAX_PER_PAGE <= |all|
    requires |Filter(all[..(page - 1) * MAX_PER_PAGE], tag)| <= 1
    ensures var r := SearchFrom(PagesOf(all), tag, page, Filter(all[..(page - 1) * MAX_PER_PAGE], tag));
            && (r.Ok? <==> |all| < MAX_RELEASE_DISCOVERY_PAGES * MAX_PER_PAGE && |Filter(all, tag)| <= 1)
            && (r.Ok? ==> r.value == if Filter(all, tag) == [] then None else Some(Filter(all, tag)[0]))
            && (r.Err? && |Filter(all, tag)| <= 1 ==> r.error == PaginationLimit)
    decreases MAX_RELEASE_DISCOVERY_PAGES + 1 - page
  {
    hide CollectMatches, Filter;
    var done := (page - 1) * MAX_PER_PAGE;
    if page <= MAX_RELEASE_DISCOVERY_PAGES {
      var end := Least(done + MAX_PER_PAGE, |all|);
      var values := all[done..end];
      assert PagesOf(all)(page) == Values(values);
      assert all[..end] == all[..done] + values;
      FilterConcat(all[..done], values, tag);
      CollectIsFilter(values, tag, Filter(all[..done], tag));
      assert all == all[..end] + all[end..];
      FilterConcat(all[..end], all[end..], tag);
      if |values| < MAX_PER_PAGE {
        assert all[end..] == [] && all[..end] == all;
      } else if |Filter(all[..end], tag)| <= 1 {
        SearchIsFilterFrom(all, tag, page + 1);
      }
    }
  }

  /** Over a truthful server the paged search is the plain filter for fewer than 1000 releases: none, the one
      match, or refused as ambiguous; from 1000 releases on it always refuses. */
  lemma SearchIsFilter(all: seq<Release>, tag: string)
    requires Legible(all)
    ensures var r, found := SearchFrom(PagesOf(all), tag, 1, []), Filter(all, tag);
            && (r == Ok(None) <==> |all| < 1000 && found == [])
            && (forall one :: r == Ok(Some(one)) <==> |all| < 1000 && found == [one])
            && (r.Err? <==> |all| >= 1000 || |found| > 1)
  {
    assert all[..0] == [];
    SearchIsFilterFrom(all, tag, 1);
  }

  // ---------------------------------------------------------------- the search over any responses

  /** From page `page` on the server answers with full pages and ends with the short page `last`; `rest` is what they
      hold. */
  ghost predicate Serves<T>(feed: int -> Response<T>, page: nat, last: nat, rest: seq<T>)
    decreases |rest|
  {
    if |rest| < 100 then page == last && feed(page) == Values(rest)
    else feed(page) == Values(rest[..100]) && Serves(feed, page + 1, last, rest[100..])
  }

  lemma {:induction false} ServesUpTo<T>(feed: int -> Response<T>, page: nat, last: nat, rest: seq<T>)
    requires Serves(feed, page, last, rest)
    ensures (last - page) * 100 <= |rest| < (last - page + 1) * 100
    decreases |rest|
  {
    if |rest| >= 100 {
      ServesUpTo(feed, page + 1, last, rest[100..]);
    }
  }

  /** What the search does with the matches it has and those still to come. */
  ghost function Found(matches: seq<Release>): Result<Option<Release>, Failure> {
    if |matches| > 1 then Err(Ambiguous) else Ok(if matches == [] then None else Some(matches[0]))
  }

  lemma {:induction false} SearchServed(feed: int -> Response<Release>, tag: string, page: nat, last: nat,
                                        rest: seq<Release>, matches: seq<Release>)
    requires Serves(feed, page, last, rest) && Legible(rest) && |matches| <= 1
    requires 1 <= page && last <= MAX_RELEASE_DISCOVERY_PAGES
    ensures SearchFrom(feed, tag, page, matches) == Found(matches + Filter(rest, tag))
    decreases |rest|
  {
    hide CollectMatches, Filter;
    ServesUpTo(feed, page, last, rest);
    if |rest| < 100 {
      CollectIsFilter(rest, tag, matches);
    } else {
      var (values, later) := (rest[..100], rest[100..]);
      assert rest == values + later;
      CollectIsFilter(values, tag, matches);
      FilterConcat(values, later, tag);
      Associative(matches, Filter(values, tag), Filter(later, tag));
      if |matches + Filter(values, tag)| <= 1 {
        SearchServed(feed, tag, page + 1, last, later, matches + Filter(values, tag));
      }
    }
  }

  lemma {:induction false} CollectedAreLegible(values: seq<Release>, tag: string, matches: seq<Release>)
    requires CollectMatches(values, tag, matches).Ok? && |matches| <= 1
    ensures Legible(values) && |CollectMatches(values, tag, matches).value| <= 1
    decreases |values|
  {
    if values != [] {
      CollectedAreLegible(values[1..], tag, if values[0].tag == tag then matches + [values[0]] else matches);
      assert forall i :: 0 < i < |values| ==> values[i] == values[1..][i - 1];
    }
  }

  lemma {:induction false} SearchedIsServed(feed: int -> Response<Release>, tag: string, page: nat, matches: seq<Release>)
    returns (last: nat, rest: seq<Release>)
    requires 1 <= page && |matches| <= 1 && SearchFrom(feed, tag, page, matches).Ok?
    ensures page <= last <= 10 && Serves(feed, page, last, rest) && Legible(rest)
    decreases MAX_RELEASE_DISCOVERY_PAGES + 1 - page
  {
    hide CollectMatches;
    var values := feed(page).values;
    CollectedAreLegible(values, tag, matches);
    if |values| < 100 {
      last, rest := page, values;
    } else {
      var later: seq<Release>;
      last, later := SearchedIsServed(feed, tag, page + 1, CollectMatches(values, tag, matches).value);
      rest := values + later;
      assert rest[..100] == values && rest[100..] == later;
    }
  }

  /** The releases of at most ten pages, all full but the last, and all of them legible. */
  ghost predicate Discoverable(feed: int -> Response<Release>, last: nat, all: seq<Release>) {
    1 <= last <= 10 && Serves(feed, 1, last, all) && Legible(all)
  }

  /** Whatever the pages hold: the search finds exactly what at most ten well-formed pages hold for the tag, and
      refuses anything else, or more than one. */
  lemma SearchOverAnyPages(feed: int -> Response<Release>, tag: string, found: Option<Release>)
    ensures SearchFrom(feed, tag, 1, []) == Ok(found) <==>
            exists last, all :: Discoverable(feed, last, all) && Filter(all, tag) == if found.None? then [] else [found.value]
  {
    var r := SearchFrom(feed, tag, 1, []);
    if r == Ok(found) {
      var last, all := SearchedIsServed(feed, tag, 1, []);
      SearchServed(feed, tag, 1, last, all, []);
      assert [] + Filter(all, tag) == Filter(all, tag);
      assert Discoverable(feed, last, all);
    }
    if last, all :| Discoverable(feed, last, all) && Filter(all, tag) == if found.None? then [] else [found.value] {
      SearchServed(feed, tag, 1, last, all, []);
      assert [] + Filter(all, tag) == Filter(all, tag);
    }
  }

  // ---------------------------------------------------------------- the asset listing

  function Validate(value: RemoteAsset, expected: map<string, Asset>): Result<string, Failure> {
    if value.name !in expected then Err(UnexpectedAsset) else
    var asset := expected[value.name];
    if value.id <= 0 || !value.wellFormed || !value.uploaded || value.size != asset.byteLength || value.digest != asset.sha256
    then Err(AssetMismatch) else Ok(value.name)
  }

  /** A completed upload of an expected asset: its name, size and digest, under a proper id. */
  ghost predicate Exact(value: RemoteAsset, expected: map<string, Asset>) {
    && value.name in expected && value.id > 0 && value.wellFormed && value.uploaded
    && value.size == expected[value.name].byteLength
    && value.digest == expected[value.name].sha256
  }

  /** Validation accepts exactly those, and returns the name. */
  lemma ValidateIsExact(value: RemoteAsset, expected: map<string, Asset>)
    ensures Validate(value, expected).Ok? <==> Exact(value, expected)
    ensures Validate(value, expected).Ok? ==> Validate(value, expected).value == value.name
  {
  }

  datatype Seen = Seen(observed: map<string, RemoteAsset>, ids: set<int>)

  function Absorb(values: seq<RemoteAsset>, expected: map<string, Asset>, seen: Seen): Result<Seen, Failure> {
    if values == [] then Ok(seen) else
    match Validate(values[0], expected)
    case Err(e) => Err(e)
    case Ok(name) =>
      if name in seen.observed then Err(DuplicateName)
      else if values[0].id in seen.ids then Err(DuplicateId)
      else Absorb(values[1..], expected, Seen(seen.observed[name := values[0]], seen.ids + {values[0].id}))
  }

  function ListFrom(feed: int -> Response<RemoteAsset>, expected: map<string, Asset>, page: nat, seen: Seen)
    : Result<map<string, RemoteAsset>, Failure>
    decreases |expected| / MAX_PER_PAGE + 3 - page
  {
    if page > |expected| / MAX_PER_PAGE + 2 then Err(PaginationLimit) else
    match feed(page)
    case Fault => Err(RequestFailed)
    case Values(values) =>
      if |values| > MAX_PER_PAGE then Err(PageTooLarge) else
      match Absorb(values, expected, seen)
      case Err(e) => Err(e)
      case Ok(next) =>
        if |next.observed| > |expected| then Err(TooMany)
        else if |values| < MAX_PER_PAGE then Ok(next.observed)
        else ListFrom(feed, expected, page + 1, next)
  }

  method AbsorbPage(values: seq<RemoteAsset>, expected: map<string, Asset>, seen: Seen)
    returns (r: Result<Seen, Failure>)
    ensures r == Absorb(values, expected, seen)
  {
    var observed, observedIds := seen.observed, seen.ids;
    for i := 0 to |values|
      invariant Absorb(values[i..], expected, Seen(observed, observedIds)) == Absorb(values, expected, seen)
    {
      assert values[i..][1..] == values[i + 1..];
      var value := values[i];
      var name := Validate(value, expected);
      if name.Err? {
        return Err(name.error);
      }
      if name.value in observed {
        return Err(DuplicateName);
      }
      if value.id in observedIds {
        return Err(DuplicateId);
      }
      observedIds := observedIds + {value.id};
      observed := observed[name.value := value];
    }
    return Ok(Seen(observed, observedIds));
  }

  method ListExactAssets(feed: int -> Response<RemoteAsset>, expected: map<string, Asset>)
    returns (r: Result<map<string, RemoteAsset>, Failure>)
    ensures r == ListFrom(feed, expected, 1, Seen(map[], {}))
  {
    hide Absorb;
    var seen := Seen(map[], {});
    var maximumPages := |expected| / MAX_PER_PAGE + 2;
    for page := 1 to maximumPages + 1
      invariant ListFrom(feed, expected, page, seen) == ListFrom(feed, expected, 1, Seen(map[], {}))
    {
      var response := feed(page);
      if response.Fault? {
        return Err(RequestFailed);
      }
      var values := response.values;
      if |values| > MAX_PER_PAGE {
        return Err(PageTooLarge);
      }
      var absorbed := AbsorbPage(values, expected, seen);
      if absorbed.Err? {
        return Err(absorbed.error);
      }
      seen := absorbed.value;
      if |seen.observed| > |expected| {
        return Err(TooMany);
      }
      if |values| < MAX_PER_PAGE {
        return Ok(seen.observed);
      }
    }
    return Err(PaginationLimit);
  }

  lemma {:induction false} AbsorbCounts(values: seq<RemoteAsset>, expected: map<string, Asset>, seen: Seen)
    requires seen.observed.Keys <= expected.Keys
    ensures var r := Absorb(values, expected, seen);
            if r.Ok? then r.value.observed.Keys <= expected.Keys && |r.value.observed| == |seen.observed| + |values|
            else r.error != PaginationLimit && r.error != TooMany
    decreases |values|
  {
    if values != [] && Validate(values[0], expected).Ok? {
      var name := values[0].name;
      if name !in seen.observed && values[0].id !in seen.ids {
        var next := seen.observed[name := values[0]];
        assert next.Keys == seen.observed.Keys + {name};
        AbsorbCounts(values[1..], expected, Seen(next, seen.ids + {values[0].id}));
      }
    }
  }

  lemma KeysBound(a: map<string, RemoteAsset>, b: map<string, Asset>)
    requires a.Keys <= b.Keys
    ensures |a| <= |b|
  {
    SubsetSize(a.Keys, b.Keys);
  }

  lemma {:induction false} ListingFitsFrom(feed: int -> Response<RemoteAsset>, expected: map<string, Asset>, page: nat, seen: Seen)
    requires 1 <= page && seen.observed.Keys <= expected.Keys && |seen.observed| == (page - 1) * MAX_PER_PAGE
    ensures var r := ListFrom(feed, expected, page, seen); r != Err(PaginationLimit) && r != Err(TooMany)
    decreases |expected| / MAX_PER_PAGE + 3 - page
  {
    KeysBound(seen.observed, expected);
    if page <= |expected| / MAX_PER_PAGE + 2 && feed(page).Values? {
      var values := feed(page).values;
      AbsorbCounts(values, expected, seen);
      var next := Absorb(values, expected, seen);
      if |values| == MAX_PER_PAGE && next.Ok? {
        KeysBound(next.value.observed, expected);
        ListingFitsFrom(feed, expected, page + 1, next.value);
      } else if next.Ok? {
        KeysBound(next.value.observed, expected);
      }
    }
  }

  /** Whatever the pages hold, neither the page limit nor the count limit is ever what stops a listing: every
      full page names a hundred more of the expected assets. */
  lemma ListingNeverRunsOut(feed: int -> Response<RemoteAsset>, expected: map<string, Asset>)
    ensures var r := ListFrom(feed, expected, 1, Seen(map[], {})); r != Err(PaginationLimit) && r != Err(TooMany)
  {
    ListingFitsFrom(feed, expected, 1, Seen(map[], {}));
  }

  lemma {:induction false} AbsorbConcat(a: seq<RemoteAsset>, b: seq<RemoteAsset>, expected: map<string, Asset>, seen: Seen)
    ensures Absorb(a + b, expected, seen) ==
            match Absorb(a, expected, seen) case Err(e) => Err(e) case Ok(next) => Absorb(b, expected, next)
    decreases |a|
  {
    if a == [] {
      assert a + b == b;
    } else {
      assert (a + b)[1..] == a[1..] + b;
      if Validate(a[0], expected).Ok? {
        AbsorbConcat(a[1..], b, expected, Seen(seen.observed[a[0].name := a[0]], seen.ids + {a[0].id}));
      }
    }
  }

  lemma AbsorbNothing(expected: map<string, Asset>, seen: Seen)
    ensures Absorb([], expected, seen) == Ok(seen)
  {
  }

  lemma {:induction false} ListingAbsorbsFrom(all: seq<RemoteAsset>, expected: map<string, Asset>, page: nat, seen: Seen)
    requires 1 <= page && (page - 1) * MAX_PER_PAGE <= |all|
    requires seen.observed.Keys <= expected.Keys && |seen.observed| == (page - 1) * MAX_PER_PAGE
    ensures ListFrom(PagesOf(all), expected, page, seen) ==
            match Absorb(all[(page - 1) * MAX_PER_PAGE..], expected, seen)
            case Err(e) => Err(e) case Ok(next) => Ok(next.observed)
    decreases |expected| / MAX_PER_PAGE + 3 - page
  {
    hide Absorb, Validate;
    var done := (page - 1) * MAX_PER_PAGE;
    var end := Least(done + MAX_PER_PAGE, |all|);
    var values, rest := all[done..end], all[end..];
    assert all[done..] == values + rest;
    AbsorbConcat(values, rest, expected, seen);
    AbsorbCounts(values, expected, seen);
    KeysBound(seen.observed, expected);
    assert PagesOf(all)(page) == Values(values);
    var next := Absorb(values, expected, seen);
    if next.Ok? {
      KeysBound(next.value.observed, expected);
      if |values| == MAX_PER_PAGE {
        ListingAbsorbsFrom(all, expected, page + 1, next.value);
      } else {
        assert rest == [];
        AbsorbNothing(expected, next.value);
      }
    }
  }

  /** Every asset is an expected one with its exact size and digest, and no name or id comes twice. */
  ghost predicate Clean(values: seq<RemoteAsset>, expected: map<string, Asset>) {
    && (forall i :: 0 <= i < |values| ==> Exact(values[i], expected))
    && (forall i, j :: 0 <= i < j < |values| ==> values[i].name != values[j].name && values[i].id != values[j].id)
  }

  ghost function Names(values: seq<RemoteAsset>): set<string> {
    set i | 0 <= i < |values| :: values[i].name
  }

  ghost predicate Unseen(values: seq<RemoteAsset>, seen: Seen) {
    forall i :: 0 <= i < |values| ==> values[i].name !in seen.observed && values[i].id !in seen.ids
  }

  ghost predicate Differ(first: RemoteAsset, rest: seq<RemoteAsset>) {
    forall i :: 0 <= i < |rest| ==> rest[i].name != first.name && rest[i].id != first.id
  }

  lemma CleanCons(first: RemoteAsset, rest: seq<RemoteAsset>, expected: map<string, Asset>)
    requires Exact(first, expected)
    ensures Clean([first] + rest, expected) <==>
            Clean(rest, expected) && Differ(first, rest)
  {
    var values := [first] + rest;
    assert forall i :: 0 <= i < |rest| ==> rest[i] == values[i + 1];
    if Clean(values, expected) {
      forall i | 0 <= i < |rest| ensures Exact(rest[i], expected) && rest[i].name != first.name && rest[i].id != first.id {
        assert values[i + 1] == rest[i];
        assert values[0] == first;
      }
      forall i, j | 0 <= i < j < |rest| ensures rest[i].name != rest[j].name && rest[i].id != rest[j].id {
        assert values[i + 1] == rest[i] && values[j + 1] == rest[j];
      }
    }
  }

  lemma NamesCons(first: RemoteAsset, rest: seq<RemoteAsset>)
    ensures Names([first] + rest) == {first.name} + Names(rest)
  {
    var values := [first] + rest;
    forall n | n in Names(values) ensures n in {first.name} + Names(rest) {
      var i :| 0 <= i < |values| && values[i].name == n;
      if i > 0 { assert rest[i - 1].name == n; }
    }
    forall n | n in Names(rest) ensures n in Names(values) {
      var i :| 0 <= i < |rest| && rest[i].name == n;
      assert values[i + 1].name == n;
    }
    assert values[0].name == first.name;
  }

  lemma CleanNeedsFirst(first: RemoteAsset, rest: seq<RemoteAsset>, expected: map<string, Asset>)
    requires Clean([first] + rest, expected)
    ensures Exact(first, expected)
  {
    assert ([first] + rest)[0] == first;
  }

  lemma UnseenCons(first: RemoteAsset, rest: seq<RemoteAsset>, seen: Seen)
    ensures Unseen([first] + rest, seen) <==>
            first.name !in seen.observed && first.id !in seen.ids && Unseen(rest, seen)
    ensures var next := Seen(seen.observed[first.name := first], seen.ids + {first.id});
            Unseen(rest, next) <==> Unseen(rest, seen) && Differ(first, rest)
  {
    var values := [first] + rest;
    assert values[0] == first;
    assert forall i :: 0 <= i < |rest| ==> rest[i] == values[i + 1];
  }

  lemma {:induction false} AbsorbIsClean(values: seq<RemoteAsset>, expected: map<string, Asset>, seen: Seen)
    ensures var r := Absorb(values, expected, seen);
            && (r.Ok? <==> (Clean(values, expected) && Unseen(values, seen)))
            && (r.Ok? ==> r.value.observed.Keys == seen.observed.Keys + Names(values))
    decreases |values|
  {
    if values == [] {
      assert Names(values) == {};
    } else {
      hide Validate, Exact, Clean, Unseen, Names;
      var first, rest := values[0], values[1..];
      assert values == [first] + rest;
      ValidateIsExact(first, expected);
      NamesCons(first, rest);
      UnseenCons(first, rest, seen);
      if Exact(first, expected) {
        CleanCons(first, rest, expected);
        var next := Seen(seen.observed[first.name := first], seen.ids + {first.id});
        AbsorbIsClean(rest, expected, next);
        assert next.observed.Keys == seen.observed.Keys + {first.name};
      } else if Clean(values, expected) {
        CleanNeedsFirst(first, rest, expected);
      }
    }
  }

  /** Over a truthful server the listing succeeds exactly on a clean inventory and returns its names. */
  lemma ListingIsExact(all: seq<RemoteAsset>, expected: map<string, Asset>)
    ensures var r := ListFrom(PagesOf(all), expected, 1, Seen(map[], {}));
            (r.Ok? <==> Clean(all, expected)) && (r.Ok? ==> r.value.Keys == Names(all) && |r.value| == |all|)
  {
    assert all[0..] == all;
    ListingAbsorbsFrom(all, expected, 1, Seen(map[], {}));
    AbsorbIsClean(all, expected, Seen(map[], {}));
    AbsorbCounts(all, expected, Seen(map[], {}));
  }

  // ---------------------------------------------------------------- the listing over any responses

  lemma {:induction false} ListServed(feed: int -> Response<RemoteAsset>, expected: map<string, Asset>, page: nat,
                                      last: nat, rest: seq<RemoteAsset>, seen: Seen)
    requires Serves(feed, page, last, rest) && 1 <= page
    requires seen.observed.Keys <= expected.Keys && |seen.observed| == (page - 1) * MAX_PER_PAGE
    ensures ListFrom(feed, expected, page, seen) ==
            match Absorb(rest, expected, seen) case Err(e) => Err(e) case Ok(next) => Ok(next.observed)
    decreases |rest|
  {
    hide Absorb, Validate;
    KeysBound(seen.observed, expected);
    var values := if |rest| < 100 then rest else rest[..100];
    AbsorbCounts(values, expected, seen);
    var next := Absorb(values, expected, seen);
    if next.Ok? { KeysBound(next.value.observed, expected); }
    if |rest| >= 100 {
      assert rest == values + rest[100..];
      AbsorbConcat(values, rest[100..], expected, seen);
      if next.Ok? {
        ListServed(feed, expected, page + 1, last, rest[100..], next.value);
      }
    }
  }

  lemma {:induction false} ListedIsServed(feed: int -> Response<RemoteAsset>, expected: map<string, Asset>, page: nat, seen: Seen)
    returns (last: nat, rest: seq<RemoteAsset>)
    requires 1 <= page && ListFrom(feed, expected, page, seen).Ok?
    ensures page <= last && Serves(feed, page, last, rest)
    decreases |expected| / MAX_PER_PAGE + 3 - page
  {
    hide Absorb;
    var values := feed(page).values;
    if |values| < 100 {
      last, rest := page, values;
    } else {
      var later: seq<RemoteAsset>;
      last, later := ListedIsServed(feed, expected, page + 1, Absorb(values, expected, seen).value);
      rest := values + later;
      assert rest[..100] == values && rest[100..] == later;
    }
  }

  /** The assets of pages that are all full but the last, every one expected, exact and unrepeated. */
  ghost predicate CleanPages(feed: int -> Response<RemoteAsset>, expected: map<string, Asset>, last: nat, all: seq<RemoteAsset>) {
    1 <= last && Serves(feed, 1, last, all) && Clean(all, expected)
  }

  /** Whatever the pages hold: a listing returns exactly the names of a clean inventory that well-formed pages hold,
      and refuses anything else. */
  lemma ListingOverAnyPages(feed: int -> Response<RemoteAsset>, expected: map<string, Asset>)
    ensures var r := ListFrom(feed, expected, 1, Seen(map[], {}));
            && (r.Ok? <==> exists last, all :: CleanPages(feed, expected, last, all))
            && (forall last, all :: CleanPages(feed, expected, last, all) ==> r.Ok? && r.value.Keys == Names(all))
  {
    hide ListFrom, Absorb, Serves, Clean;
    var start := Seen(map[], {});
    forall last, all | 1 <= last && Serves(feed, 1, last, all)
      ensures var r := ListFrom(feed, expected, 1, start);
              (r.Ok? <==> Clean(all, expected)) && (r.Ok? ==> r.value.Keys == Names(all))
    {
      ListServed(feed, expected, 1, last, all, start);
      AbsorbIsClean(all, expected, start);
    }
    if ListFrom(feed, expected, 1, start).Ok? {
      var last, all := ListedIsServed(feed, expected, 1, start);
      assert CleanPages(feed, expected, last, all);
    }
  }

  // ---------------------------------------------------------------- peeling the tag

  datatype GitObject = GitObject(isTag: bool, sha: string)

  /** The tag objects the server holds and the object the release tag points at. */
  datatype Git = Git(tags: map<string, GitObject>, tagRef: GitObject)

  function PeelFrom(tags: map<string, GitObject>, object_: GitObject, depth: nat, seen: set<string>): Result<string, Failure>
    decreases MAX_TAG_PEEL_DEPTH - depth
  {
    if !object_.isTag then Ok(object_.sha)
    else if depth >= MAX_TAG_PEEL_DEPTH then Err(PeelDepth)
    else if object_.sha in seen then Err(CyclicTag)
    else if object_.sha !in tags then Err(Malformed)
    else PeelFrom(tags, tags[object_.sha], depth + 1, seen + {object_.sha})
  }

  function TagResult(git: Git, sourceSha: string): Result<(), Failure> {
    match PeelFrom(git.tags, git.tagRef, 0, {})
    case Err(e) => Err(e)
    case Ok(sha) => if sha == sourceSha then Ok(()) else Err(TagUnresolved)
  }

  method ResolveExistingTag(git: Git, sourceSha: string) returns (r: Result<(), Failure>)
    ensures r == TagResult(git, sourceSha)
  {
    var current := git.tagRef;
    var seen: set<string> := {};
    var depth := 0;
    while current.isTag
      invariant depth <= MAX_TAG_PEEL_DEPTH
      invariant PeelFrom(git.tags, current, depth, seen) == PeelFrom(git.tags, git.tagRef, 0, {})
      decreases MAX_TAG_PEEL_DEPTH - depth
    {
      if depth >= MAX_TAG_PEEL_DEPTH {
        return Err(PeelDepth);
      }
      if current.sha in seen {
        return Err(CyclicTag);
      }
      seen := seen + {current.sha};
      if current.sha !in git.tags {
        return Err(Malformed);
      }
      current := git.tags[current.sha];
      depth := depth + 1;
    }
    if current.sha != sourceSha {
      return Err(TagUnresolved);
    }
    return Ok(());
  }

  /** The object `n` tags further on. */
  function Ahead(tags: map<string, GitObject>, object_: GitObject, n: nat): Option<GitObject>
    decreases n
  {
    if n == 0 then Some(object_)
    else if object_.isTag && object_.sha in tags then Ahead(tags, tags[object_.sha], n - 1)
    else None
  }

  lemma {:induction false} AheadLater(tags: map<string, GitObject>, object_: GitObject, m: nat, n: nat)
    ensures Ahead(tags, object_, m + n) ==
            match Ahead(tags, object_, m) case None => None case Some(mid) => Ahead(tags, mid, n)
    decreases m
  {
    if m > 0 && object_.isTag && object_.sha in tags {
      AheadLater(tags, tags[object_.sha], m - 1, n);
    }
  }

  /** A chain that returns to an object never reaches a commit. */
  lemma {:induction false} CyclesNeverEnd(tags: map<string, GitObject>, object_: GitObject, period: nat, n: nat)
    requires period > 0 && Ahead(tags, object_, period) == Some(object_)
    ensures Ahead(tags, object_, n).Some? ==> Ahead(tags, object_, n).value.isTag
    decreases n
  {
    if n < period {
      AheadLater(tags, object_, n, period - n);
    } else {
      AheadLater(tags, object_, period, n - period);
      CyclesNeverEnd(tags, object_, period, n - period);
    }
  }

  ghost predicate PassedAt(tags: map<string, GitObject>, start: GitObject, k: nat, sha: string) {
    Ahead(tags, start, k) == Some(GitObject(true, sha))
  }

  /** `seen` holds exactly the tags on the way from `start`. */
  ghost predicate OnTheWay(tags: map<string, GitObject>, start: GitObject, depth: nat, seen: set<string>) {
    forall sha :: sha in seen <==> exists k: nat :: k < depth && PassedAt(tags, start, k, sha)
  }

  lemma OneFurther(tags: map<string, GitObject>, start: GitObject, object_: GitObject, depth: nat, seen: set<string>)
    requires OnTheWay(tags, start, depth, seen) && object_.isTag && Ahead(tags, start, depth) == Some(object_)
    ensures OnTheWay(tags, start, depth + 1, seen + {object_.sha})
  {
    assert PassedAt(tags, start, depth, object_.sha);
    forall sha | PassedAt(tags, start, depth, sha) ensures sha == object_.sha {}
    hide PassedAt, Ahead;
  }

  lemma {:induction false} PeelFinds(tags: map<string, GitObject>, start: GitObject, object_: GitObject, depth: nat,
                                     seen: set<string>, commit: string)
    requires depth <= MAX_TAG_PEEL_DEPTH && Ahead(tags, start, depth) == Some(object_)
    requires OnTheWay(tags, start, depth, seen)
    ensures PeelFrom(tags, object_, depth, seen) == Ok(commit) <==>
            exists n :: depth <= n <= MAX_TAG_PEEL_DEPTH && Ahead(tags, start, n) == Some(GitObject(false, commit))
    decreases MAX_TAG_PEEL_DEPTH - depth
  {
    forall n | depth <= n ensures Ahead(tags, start, n) == Ahead(tags, object_, n - depth) {
      AheadLater(tags, start, depth, n - depth);
    }
    if !object_.isTag {
      assert Ahead(tags, start, depth) == Some(object_);
    } else if depth < MAX_TAG_PEEL_DEPTH {
      if object_.sha in seen {
        var k: nat :| k < depth && PassedAt(tags, start, k, object_.sha);
        AheadLater(tags, start, k, depth - k);
        forall m: nat ensures Ahead(tags, object_, m).Some? ==> Ahead(tags, object_, m).value.isTag {
          CyclesNeverEnd(tags, object_, depth - k, m);
        }
      } else if object_.sha in tags {
        AheadLater(tags, start, depth, 1);
        var next := tags[object_.sha];
        assert Ahead(tags, object_, 1) == Some(next);
        OneFurther(tags, start, object_, depth, seen);
        PeelFinds(tags, start, next, depth + 1, seen + {object_.sha}, commit);
        assert Ahead(tags, start, depth).value.isTag;
      }
    }
  }

  /** The tag resolves exactly when at most eight tag objects lead from it to the requested commit: the cycle
      check never turns away a chain that the depth limit admits. */
  lemma TagResolvesWithinDepth(git: Git, sourceSha: string)
    ensures TagResult(git, sourceSha).Ok? <==>
            exists n :: 0 <= n <= 8 && Ahead(git.tags, git.tagRef, n) == Some(GitObject(false, sourceSha))
  {
    PeelFinds(git.tags, git.tagRef, git.tagRef, 0, {}, sourceSha);
  }
}
