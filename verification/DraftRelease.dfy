/** Creation and exact resumption of one draft release (cli/ci/create_draft_release.py). */
module DraftRelease {
  import opened Wrappers
  import opened Text
  import opened ReleaseApi

  datatype Plan = Plan(tag: string, title: string, notes: string, prerelease: bool, sourceSha: string, assets: seq<Asset>)

  /** `{asset.name: asset for asset in assets}` */
  function Expected(assets: seq<Asset>): map<string, Asset> {
    if assets == [] then map[] else
    var last := assets[|assets| - 1];
    Expected(assets[..|assets| - 1])[last.name := last]
  }

  /** The assembly's member names are distinct. */
  ghost predicate DistinctNames(assets: seq<Asset>) {
    forall i, j :: 0 <= i < j < |assets| ==> assets[i].name != assets[j].name
  }

  /** What a failed request may have left behind: nothing, its full effect, or for an upload a stub. */
  datatype Effect = Nothing | Done | Stub

  /** How the server answers one request. `Answer` is a success with an arbitrary body. */
  datatype Reply = Good | Answer(response: RemoteAsset, stored: bool) | Failed(effect: Effect)

  /** One upload request, whether the draft already had the name and whether the bytes were stored. */
  datatype Upload = Upload(name: string, existed: bool, stored: bool)

  /** The server, the uploads requested so far and the answers still to come; without one the run is
      interrupted. */
  datatype World = World(releases: seq<Release>, git: Git, nextId: int, log: seq<Upload>, replies: seq<Reply>) {
    function Ask(): (Reply, World) {
      if replies == [] then (Failed(Nothing), this) else (replies[0], this.(replies := replies[1..]))
    }
  }

  function IndexOf(releases: seq<Release>, id: int): (k: nat)
    ensures k <= |releases|
    ensures k < |releases| ==> releases[k].id == id
    ensures forall j :: 0 <= j < k ==> releases[j].id != id
  {
    if releases == [] || releases[0].id == id then 0 else 1 + IndexOf(releases[1..], id)
  }

  // ---------------------------------------------------------------- requests

  predicate ExactIdentity(r: Release, plan: Plan) {
    && r.id > 0 && r.tag == plan.tag && r.title == plan.title && r.notes == plan.notes
    && r.draft && r.prerelease == plan.prerelease && !r.immutable && r.wellFormed
  }

  /** A draft with the plan's tag, title, notes and kind that may still be changed. */
  ghost predicate PlansDraft(r: Release, plan: Plan) {
    && r.tag == plan.tag && r.title == plan.title && r.notes == plan.notes && r.prerelease == plan.prerelease
    && r.draft && !r.immutable && r.wellFormed && r.id > 0
  }

  function Discovered(releases: seq<Release>, plan: Plan): Result<Option<int>, Failure> {
    match SearchFrom(PagesOf(releases), plan.tag, 1, [])
    case Err(e) => Err(e)
    case Ok(None) => Ok(None)
    case Ok(Some(r)) => if ExactIdentity(r, plan) then Ok(Some(r.id)) else Err(InexactIdentity)
  }

  function Discover(w: World, plan: Plan): (World, Result<Option<int>, Failure>) {
    var (reply, w') := w.Ask();
    (w', if reply.Good? then Discovered(w.releases, plan) else Err(RequestFailed))
  }

  function CheckTag(w: World, plan: Plan): (World, Result<(), Failure>) {
    var (reply, w') := w.Ask();
    (w', if reply.Good? then TagResult(w.git, plan.sourceSha) else Err(RequestFailed))
  }

  function NewRelease(plan: Plan, id: int): Release {
    Release(id, plan.tag, plan.title, plan.notes, true, plan.prerelease, false, true, true, [])
  }

  function Create(w: World, plan: Plan): (World, Result<int, Failure>) {
    var (reply, w1) := w.Ask();
    var created := reply.Good? || reply == Failed(Done) || (reply.Answer? && reply.stored);
    (if created then w1.(releases := [NewRelease(plan, w.nextId)] + w.releases, nextId := w.nextId + 1) else w1,
     if reply.Good? then Ok(w.nextId) else Err(RequestFailed))
  }

  function List(w: World, plan: Plan, id: int): (World, Result<map<string, RemoteAsset>, Failure>) {
    var (reply, w') := w.Ask();
    var k := IndexOf(w.releases, id);
    (w', if reply.Good? && k < |w.releases|
         then ListFrom(PagesOf(w.releases[k].assets), Expected(plan.assets), 1, Seen(map[], {}))
         else Err(RequestFailed))
  }

  function Stored(asset: Asset, id: int): RemoteAsset {
    RemoteAsset(id, asset.name, |asset.body|, Sha256(asset.body), true, true)
  }

  function StubOf(asset: Asset, id: int): RemoteAsset {
    RemoteAsset(id, asset.name, 0, Sha256(""), false, true)
  }

  function EffectOf(reply: Reply): Effect {
    match reply
    case Good => Done
    case Answer(_, stored) => if stored then Done else Nothing
    case Failed(effect) => effect
  }

  predicate HasName(assets: seq<RemoteAsset>, name: string) {
    exists i :: 0 <= i < |assets| && assets[i].name == name
  }

  /** The server appends what it received; it does not refuse a second asset of the same name. */
  function Attach(w: World, id: int, asset: Asset, effect: Effect): World {
    var k := IndexOf(w.releases, id);
    if k == |w.releases| then w else
    var r := w.releases[k];
    var w1 := w.(log := w.log + [Upload(asset.name, HasName(r.assets, asset.name), effect.Done?)]);
    if effect.Nothing? then w1 else
    var added := if effect.Done? then Stored(asset, w.nextId) else StubOf(asset, w.nextId);
    w1.(releases := w.releases[k := r.(assets := r.assets + [added])], nextId := w.nextId + 1)
  }

  predicate Recaptured(asset: Asset) {
    |asset.body| == asset.byteLength && Sha256(asset.body) == asset.sha256
  }

  function UploadAsset(w: World, plan: Plan, id: int, asset: Asset): (World, Result<(), Failure>) {
    if !Recaptured(asset) then (w, Err(RecaptureFailed)) else
    var (reply, w1) := w.Ask();
    var w2 := Attach(w1, id, asset, EffectOf(reply));
    var response := if reply.Answer? then reply.response else Stored(asset, w.nextId);
    (w2, if reply.Failed? then Err(RequestFailed) else
         match Validate(response, Expected(plan.assets))
         case Err(e) => Err(e)
         case Ok(name) => if name == asset.name then Ok(()) else Err(WrongUpload))
  }

  // ---------------------------------------------------------------- one run

  function UploadMissing(w: World, plan: Plan, id: int, i: nat, existing: map<string, RemoteAsset>, uploaded: set<string>)
    : (World, Result<set<string>, Failure>)
    requires i <= |plan.assets|
    decreases |plan.assets| - i
  {
    if i == |plan.assets| then (w, Ok(uploaded)) else
    var asset := plan.assets[i];
    if asset.name in existing then UploadMissing(w, plan, id, i + 1, existing, uploaded) else
    var (w1, r) := UploadAsset(w, plan, id, asset);
    match r
    case Err(e) => (w1, Err(e))
    case Ok(_) => UploadMissing(w1, plan, id, i + 1, existing, uploaded + {asset.name})
  }

  datatype Receipt = Receipt(id: int, resumed: bool, assetCount: nat, uploadedCount: nat, reusedCount: nat)

  /** The rechecks after the uploads: exact inventory, same draft, same tag. */
  function Recheck(w: World, plan: Plan, id: int): (World, Result<(), Failure>) {
    var (w1, listed) := List(w, plan, id);
    if listed.Err? then (w1, Err(listed.error))
    else if listed.value.Keys != Expected(plan.assets).Keys then (w1, Err(IncompleteInventory)) else
    var (w2, found) := Discover(w1, plan);
    if found.Err? then (w2, Err(found.error))
    else if found.value != Some(id) then (w2, Err(IdentityChanged)) else
    CheckTag(w2, plan)
  }

  function Fill(w: World, plan: Plan, id: int, resumed: bool): (World, Result<Receipt, Failure>) {
    var (w1, existing) := List(w, plan, id);
    if existing.Err? then (w1, Err(existing.error)) else
    var (w2, uploaded) := UploadMissing(w1, plan, id, 0, existing.value, {});
    if uploaded.Err? then (w2, Err(uploaded.error)) else
    var (w3, checked) := Recheck(w2, plan, id);
    (w3, if checked.Err? then Err(checked.error)
         else Ok(Receipt(id, resumed, |plan.assets|, |uploaded.value|, |existing.value|)))
  }

  function Run(w: World, plan: Plan): (World, Result<Receipt, Failure>) {
    var (w1, tagged) := CheckTag(w, plan);
    if tagged.Err? then (w1, Err(tagged.error)) else
    var (w2, found) := Discover(w1, plan);
    match found
    case Err(e) => (w2, Err(e))
    case Ok(Some(id)) => Fill(w2, plan, id, true)
    case Ok(None) =>
      var (w3, created) := Create(w2, plan);
      if created.Err? then (w3, Err(created.error)) else Fill(w3, plan, created.value, false)
  }

  // ---------------------------------------------------------------- the invariant

  /** The tag's releases; the protocol keeps this at most one. */
  ghost function Drafts(w: World, plan: Plan): seq<Release> {
    Filter(w.releases, plan.tag)
  }

  /** Named by the plan, no name twice, and exact unless the upload was cut off. */
  ghost predicate PartOfPlan(assets: seq<RemoteAsset>, plan: Plan, nextId: int) {
    && (forall i :: 0 <= i < |assets| ==>
          && assets[i].name in Expected(plan.assets) && 0 < assets[i].id < nextId
          && (assets[i].uploaded ==> Exact(assets[i], Expected(plan.assets))))
    && (forall i, j :: 0 <= i < j < |assets| ==> assets[i].name != assets[j].name && assets[i].id != assets[j].id)
  }

  /** No upload was ever requested for a name that was there, and no name was stored twice. */
  ghost predicate LogOk(log: seq<Upload>, drafts: seq<Release>) {
    && (forall k :: 0 <= k < |log| ==> !log[k].existed)
    && (forall k, l :: 0 <= k < l < |log| && log[k].stored && log[l].stored ==> log[k].name != log[l].name)
    && (forall k :: 0 <= k < |log| && log[k].stored ==> drafts != [] && HasName(drafts[0].assets, log[k].name))
  }

  ghost predicate IdsOk(w: World) {
    && w.nextId > 0
    && (forall i :: 0 <= i < |w.releases| ==> w.releases[i].id < w.nextId)
    && (forall i, j :: 0 <= i < j < |w.releases| ==> w.releases[i].id != w.releases[j].id)
  }

  ghost predicate Inv(w: World, plan: Plan) {
    && IdsOk(w) && Legible(w.releases)
    && |Drafts(w, plan)| <= 1
    && (Drafts(w, plan) != [] ==>
          PartOfPlan(Drafts(w, plan)[0].assets, plan, w.nextId) && PlansDraft(Drafts(w, plan)[0], plan))
    && LogOk(w.log, Drafts(w, plan))
  }

  /** Releases of other tags are left alone. */
  ghost predicate OthersKept(w: World, w': World, plan: Plan) {
    forall r: Release :: r.tag != plan.tag ==> (r in w.releases <==> r in w'.releases)
  }

  /** The draft's inventory is exactly the plan. */
  ghost predicate Complete(w: World, plan: Plan) {
    && |Drafts(w, plan)| == 1
    && Clean(Drafts(w, plan)[0].assets, Expected(plan.assets))
    && Names(Drafts(w, plan)[0].assets) == Expected(plan.assets).Keys
  }

  // ---------------------------------------------------------------- the tag's release among the others

  lemma FilterAround(rs: seq<Release>, tag: string, k: nat, r: Release)
    requires k < |rs|
    ensures Filter(rs[k := r], tag) == Filter(rs[..k], tag) + (Filter([r], tag) + Filter(rs[k + 1..], tag))
  {
    hide Filter;
    assert rs[k := r] == rs[..k] + ([r] + rs[k + 1..]);
    FilterConcat(rs[..k], [r] + rs[k + 1..], tag);
    FilterConcat([r], rs[k + 1..], tag);
  }

  lemma FilterOne(r: Release, tag: string)
    ensures Filter([r], tag) == if r.tag == tag then [r] else []
  {
    assert [r][1..] == [];
  }

  /** With at most one release of the tag, one found there is the one. */
  lemma OnlyDraft(rs: seq<Release>, tag: string, k: nat, r: Release)
    requires k < |rs| && rs[k].tag == tag && r.tag == tag && |Filter(rs, tag)| <= 1
    ensures Filter(rs, tag) == [rs[k]] && Filter(rs[k := r], tag) == [r]
  {
    hide Filter;
    assert rs[k := rs[k]] == rs;
    FilterAround(rs, tag, k, rs[k]);
    FilterAround(rs, tag, k, r);
    FilterOne(rs[k], tag);
    FilterOne(r, tag);
    assert [] + ([rs[k]] + []) == [rs[k]] && [] + ([r] + []) == [r];
  }

  lemma {:induction false} DraftIndex(rs: seq<Release>, tag: string, r: Release) returns (k: nat)
    requires r in Filter(rs, tag)
    ensures k < |rs| && rs[k] == r && r.tag == tag
  {
    if rs[0].tag == tag && rs[0] == r {
      k := 0;
    } else {
      var j := DraftIndex(rs[1..], tag, r);
      k := j + 1;
    }
  }

  lemma IndexOfUnique(rs: seq<Release>, k: nat)
    requires k < |rs| && forall i, j :: 0 <= i < j < |rs| ==> rs[i].id != rs[j].id
    ensures IndexOf(rs, rs[k].id) == k
  {
  }

  /** `id` is the draft's. */
  ghost predicate AtDraft(w: World, plan: Plan, id: int) {
    |Drafts(w, plan)| == 1 && Drafts(w, plan)[0].id == id
  }

  lemma DraftPosition(w: World, plan: Plan, id: int)
    requires Inv(w, plan) && AtDraft(w, plan, id)
    ensures var k := IndexOf(w.releases, id);
            k < |w.releases| && w.releases[k] == Drafts(w, plan)[0] && w.releases[k].tag == plan.tag
  {
    hide Filter;
    var k := DraftIndex(w.releases, plan.tag, Drafts(w, plan)[0]);
    IndexOfUnique(w.releases, k);
  }

  // ---------------------------------------------------------------- what each request keeps

  ghost predicate IsNamed(assets: seq<Asset>, name: string) {
    exists i :: 0 <= i < |assets| && assets[i].name == name
  }

  lemma {:induction false} ExpectedNames(assets: seq<Asset>, name: string)
    ensures name in Expected(assets) <==> IsNamed(assets, name)
    decreases |assets|
  {
    if assets != [] {
      var n := |assets| - 1;
      ExpectedNames(assets[..n], name);
      if IsNamed(assets[..n], name) {
        var i :| 0 <= i < n && assets[..n][i].name == name;
        assert assets[i].name == name;
      }
      if IsNamed(assets, name) && name != assets[n].name {
        var i :| 0 <= i < |assets| && assets[i].name == name;
        assert assets[..n][i].name == name;
      }
    }
  }

  lemma {:induction false} ExpectedAt(assets: seq<Asset>, i: nat)
    requires DistinctNames(assets) && i < |assets|
    ensures assets[i].name in Expected(assets) && Expected(assets)[assets[i].name] == assets[i]
    decreases |assets|
  {
    var n := |assets| - 1;
    if i < n {
      ExpectedAt(assets[..n], i);
    }
  }

  lemma {:induction false} ExpectedCount(assets: seq<Asset>)
    requires DistinctNames(assets)
    ensures |Expected(assets)| == |assets|
    decreases |assets|
  {
    if assets != [] {
      var n := |assets| - 1;
      var before := assets[..n];
      ExpectedCount(before);
      ExpectedNames(before, assets[n].name);
    }
  }

  lemma ExpectedOf(assets: seq<Asset>)
    requires DistinctNames(assets)
    ensures |Expected(assets)| == |assets|
    ensures forall name :: name in Expected(assets) ==> IsNamed(assets, name)
    ensures forall i :: 0 <= i < |assets| ==> assets[i].name in Expected(assets) && Expected(assets)[assets[i].name] == assets[i]
  {
    hide Expected, IsNamed;
    ExpectedCount(assets);
    forall name ensures name in Expected(assets) ==> IsNamed(assets, name) { ExpectedNames(assets, name); }
    forall i | 0 <= i < |assets|
      ensures assets[i].name in Expected(assets) && Expected(assets)[assets[i].name] == assets[i] { ExpectedAt(assets, i); }
  }

  lemma AnswersDoNotMatter(w: World, w': World, plan: Plan)
    requires w' == w.(replies := w'.replies) && Inv(w, plan)
    ensures Inv(w', plan) && OthersKept(w, w', plan) && Drafts(w', plan) == Drafts(w, plan)
  {
  }

  lemma CreateKeeps(w: World, plan: Plan)
    requires Inv(w, plan) && Drafts(w, plan) == []
    ensures var (w', r) := Create(w, plan);
            && Inv(w', plan) && OthersKept(w, w', plan) && w'.git == w.git && w'.log == w.log
            && (r.Ok? ==> AtDraft(w', plan, r.value) && Drafts(w', plan)[0] == NewRelease(plan, r.value))
  {
    hide Filter;
    var (w', r) := Create(w, plan);
    var made := NewRelease(plan, w.nextId);
    if w'.releases != w.releases {
      FilterConcat([made], w.releases, plan.tag);
      FilterOne(made, plan.tag);
      assert Drafts(w', plan) == [made];
      assert forall i :: 0 < i < |w'.releases| ==> w'.releases[i] == w.releases[i - 1];
      forall q: Release | q.tag != plan.tag ensures q in w.releases <==> q in w'.releases {
        assert w'.releases == [made] + w.releases;
      }
    }
  }

  lemma NameAdded(assets: seq<RemoteAsset>, added: RemoteAsset)
    ensures Names(assets + [added]) == Names(assets) + {added.name}
    ensures forall name :: HasName(assets, name) ==> HasName(assets + [added], name)
    ensures HasName(assets + [added], added.name)
    ensures forall name :: HasName(assets, name) <==> name in Names(assets)
  {
    var longer := assets + [added];
    assert longer[|assets|] == added;
    forall n | n in Names(longer) ensures n in Names(assets) + {added.name} {
      var i :| 0 <= i < |longer| && longer[i].name == n;
      if i < |assets| { assert assets[i].name == n; }
    }
    forall n | n in Names(assets) ensures n in Names(longer) {
      var i :| 0 <= i < |assets| && assets[i].name == n;
      assert longer[i].name == n;
    }
    forall name | HasName(assets, name) ensures HasName(longer, name) {
      var i :| 0 <= i < |assets| && assets[i].name == name;
      assert longer[i].name == name;
    }
  }

  lemma PartGrows(assets: seq<RemoteAsset>, added: RemoteAsset, plan: Plan, nextId: int)
    requires PartOfPlan(assets, plan, nextId) && !HasName(assets, added.name)
    requires added.name in Expected(plan.assets) && added.id == nextId > 0
    requires added.uploaded ==> Exact(added, Expected(plan.assets))
    ensures PartOfPlan(assets + [added], plan, nextId + 1)
  {
    hide Exact, Expected;
  }

  lemma LogGrows(log: seq<Upload>, draft: Release, draft': Release, name: string, stored: bool)
    requires LogOk(log, [draft]) && !HasName(draft.assets, name)
    requires forall n :: HasName(draft.assets, n) ==> HasName(draft'.assets, n)
    requires stored ==> HasName(draft'.assets, name)
    ensures LogOk(log + [Upload(name, false, stored)], [draft'])
  {
    hide HasName;
    var longer := log + [Upload(name, false, stored)];
    forall k, l | 0 <= k < l < |longer| && longer[k].stored && longer[l].stored ensures longer[k].name != longer[l].name {
      if l == |log| { assert HasName(draft.assets, log[k].name); }
    }
  }

  lemma IdsSame(w: World, w': World)
    requires IdsOk(w) && w'.releases == w.releases && w'.nextId == w.nextId
    ensures IdsOk(w')
  {
  }

  lemma IdsKept(w: World, k: nat, r: Release, w': World)
    requires IdsOk(w) && Legible(w.releases) && k < |w.releases| && r.id == w.releases[k].id && r.legible == w.releases[k].legible
    requires w'.releases == w.releases[k := r] && w'.nextId == w.nextId + 1
    ensures IdsOk(w') && Legible(w'.releases) && w.nextId > 0
  {
  }

  lemma OthersAround(w: World, w': World, plan: Plan, k: nat)
    requires k < |w.releases| && w.releases[k].tag == plan.tag
    requires |w'.releases| == |w.releases| && w'.releases == w.releases[k := w'.releases[k]] && w'.releases[k].tag == plan.tag
    ensures OthersKept(w, w', plan)
  {
    forall r: Release | r.tag != plan.tag ensures r in w.releases <==> r in w'.releases {
      if r in w.releases {
        var i :| 0 <= i < |w.releases| && w.releases[i] == r;
        assert w'.releases[i] == r;
      }
      if r in w'.releases {
        var i :| 0 <= i < |w'.releases| && w'.releases[i] == r;
        assert w.releases[i] == r;
      }
    }
  }

  /** An upload of a missing asset adds at most that name. */
  lemma AttachKeeps(w: World, plan: Plan, id: int, asset: Asset, effect: Effect)
    requires Inv(w, plan) && AtDraft(w, plan, id)
    requires asset.name in Expected(plan.assets) && Expected(plan.assets)[asset.name] == asset && Recaptured(asset)
    requires !HasName(Drafts(w, plan)[0].assets, asset.name)
    ensures var w' := Attach(w, id, asset, effect);
            && Inv(w', plan) && AtDraft(w', plan, id) && OthersKept(w, w', plan) && w'.git == w.git
            && Names(Drafts(w', plan)[0].assets) <= Names(Drafts(w, plan)[0].assets) + {asset.name}
            && w'.replies == w.replies
  {
    hide Filter, LogOk, PartOfPlan, HasName, Expected, IdsOk;
    DraftPosition(w, plan, id);
    var k := IndexOf(w.releases, id);
    var r := w.releases[k];
    var w' := Attach(w, id, asset, effect);
    assert Drafts(w, plan) == [r];
    if effect.Nothing? {
      LogGrows(w.log, r, r, asset.name, false);
      IdsSame(w, w');
      OthersAround(w, w', plan, k);
    } else {
      var added := if effect.Done? then Stored(asset, w.nextId) else StubOf(asset, w.nextId);
      var r' := r.(assets := r.assets + [added]);
      IdsKept(w, k, r', w');
      OnlyDraft(w.releases, plan.tag, k, r');
      NameAdded(r.assets, added);
      PartGrows(r.assets, added, plan, w.nextId);
      LogGrows(w.log, r, r', asset.name, effect.Done?);
      OthersAround(w, w', plan, k);
    }
  }

  lemma UploadKeeps(w: World, plan: Plan, id: int, asset: Asset)
    requires Inv(w, plan) && AtDraft(w, plan, id)
    requires asset.name in Expected(plan.assets) && Expected(plan.assets)[asset.name] == asset
    requires !HasName(Drafts(w, plan)[0].assets, asset.name)
    ensures var w' := UploadAsset(w, plan, id, asset).0;
            && Inv(w', plan) && AtDraft(w', plan, id) && OthersKept(w, w', plan) && w'.git == w.git
            && Names(Drafts(w', plan)[0].assets) <= Names(Drafts(w, plan)[0].assets) + {asset.name}
  {
    hide Inv, Attach, Drafts, HasName, Expected;
    if Recaptured(asset) {
      var (reply, w1) := w.Ask();
      AnswersDoNotMatter(w, w1, plan);
      AttachKeeps(w1, plan, id, asset, EffectOf(reply));
    }
  }

  // ---------------------------------------------------------------- what a run keeps

  ghost predicate Kept(w: World, w': World, plan: Plan) {
    Inv(w', plan) && OthersKept(w, w', plan) && w'.git == w.git
  }

  /** The names of the plan's assets from the `i`-th on that the listing did not show. */
  ghost function Missing(plan: Plan, i: nat, existing: map<string, RemoteAsset>): set<string> {
    set j | i <= j < |plan.assets| && plan.assets[j].name !in existing :: plan.assets[j].name
  }

  ghost predicate Covered(w: World, plan: Plan, i: nat, existing: map<string, RemoteAsset>)
    requires |Drafts(w, plan)| > 0 && i <= |plan.assets|
  {
    Names(Drafts(w, plan)[0].assets) <= existing.Keys + set j | 0 <= j < i :: plan.assets[j].name
  }

  lemma NotYetThere(w: World, plan: Plan, i: nat, existing: map<string, RemoteAsset>)
    requires DistinctNames(plan.assets) && |Drafts(w, plan)| > 0 && i < |plan.assets| && Covered(w, plan, i, existing)
    requires plan.assets[i].name !in existing
    ensures !HasName(Drafts(w, plan)[0].assets, plan.assets[i].name)
  {
    hide Drafts;
    var name := plan.assets[i].name;
    if HasName(Drafts(w, plan)[0].assets, name) {
      NameAdded(Drafts(w, plan)[0].assets, Stored(plan.assets[i], 1));
    }
  }

  lemma CoveredNext(w: World, w': World, plan: Plan, i: nat, existing: map<string, RemoteAsset>)
    requires |Drafts(w, plan)| > 0 && |Drafts(w', plan)| > 0 && i < |plan.assets| && Covered(w, plan, i, existing)
    requires Names(Drafts(w', plan)[0].assets) <= Names(Drafts(w, plan)[0].assets) + {plan.assets[i].name}
    ensures Covered(w', plan, i + 1, existing)
  {
    hide Drafts, Names;
  }

  lemma OthersTwice(w: World, w1: World, w2: World, plan: Plan)
    requires OthersKept(w, w1, plan) && OthersKept(w1, w2, plan)
    ensures OthersKept(w, w2, plan)
  {
  }

  lemma MissingSplits(plan: Plan, i: nat, existing: map<string, RemoteAsset>)
    requires i < |plan.assets|
    ensures Missing(plan, i, existing) ==
            Missing(plan, i + 1, existing) + if plan.assets[i].name in existing then {} else {plan.assets[i].name}
  {
  }

  lemma {:induction false} UploadMissingKeeps(w: World, plan: Plan, id: int, i: nat, existing: map<string, RemoteAsset>,
                                              uploaded: set<string>)
    requires DistinctNames(plan.assets) && i <= |plan.assets|
    requires Inv(w, plan) && AtDraft(w, plan, id) && Covered(w, plan, i, existing)
    ensures var (w', r) := UploadMissing(w, plan, id, i, existing, uploaded);
            && Kept(w, w', plan) && AtDraft(w', plan, id)
            && (r.Ok? ==> r.value == uploaded + Missing(plan, i, existing))
    decreases |plan.assets| - i
  {
    hide Inv, UploadAsset, Drafts, OthersKept, Covered, HasName, DistinctNames, Expected;
    if i == |plan.assets| {
      AnswersDoNotMatter(w, w, plan);
      assert Missing(plan, i, existing) == {};
    } else {
      var asset := plan.assets[i];
      MissingSplits(plan, i, existing);
      hide Missing;
      if asset.name in existing {
        CoveredNext(w, w, plan, i, existing);
        UploadMissingKeeps(w, plan, id, i + 1, existing, uploaded);
      } else {
        ExpectedOf(plan.assets);
        NotYetThere(w, plan, i, existing);
        UploadKeeps(w, plan, id, asset);
        var (w1, r) := UploadAsset(w, plan, id, asset);
        if r.Ok? {
          CoveredNext(w, w1, plan, i, existing);
          UploadMissingKeeps(w1, plan, id, i + 1, existing, uploaded + {asset.name});
          OthersTwice(w, w1, UploadMissing(w1, plan, id, i + 1, existing, uploaded + {asset.name}).0, plan);
        }
      }
    }
  }

  lemma ListKeeps(w: World, plan: Plan, id: int)
    requires Inv(w, plan) && AtDraft(w, plan, id)
    ensures var (w', r) := List(w, plan, id);
            && Kept(w, w', plan) && Drafts(w', plan) == Drafts(w, plan) && w'.releases == w.releases && w'.log == w.log
            && (r.Ok? ==> Clean(Drafts(w, plan)[0].assets, Expected(plan.assets))
                          && r.value.Keys == Names(Drafts(w, plan)[0].assets))
  {
    hide Inv, Drafts, Clean, ListFrom, Expected;
    var (w', r) := List(w, plan, id);
    AnswersDoNotMatter(w, w', plan);
    DraftPosition(w, plan, id);
    ListingIsExact(Drafts(w, plan)[0].assets, Expected(plan.assets));
  }

  lemma CleanNames(assets: seq<RemoteAsset>, expected: map<string, Asset>)
    requires Clean(assets, expected)
    ensures Names(assets) <= expected.Keys
  {
  }

  lemma DiscoverFinds(w: World, plan: Plan)
    requires Inv(w, plan)
    ensures var (w', r) := Discover(w, plan);
            && Kept(w, w', plan) && Drafts(w', plan) == Drafts(w, plan) && w'.releases == w.releases && w'.log == w.log
            && (r == Ok(None) ==> Drafts(w, plan) == [])
            && (r.Ok? && r.value.Some? ==> AtDraft(w, plan, r.value.value) && PlansDraft(Drafts(w, plan)[0], plan))
  {
    hide SearchFrom, Filter;
    AnswersDoNotMatter(w, Discover(w, plan).0, plan);
    SearchIsFilter(w.releases, plan.tag);
    var found := SearchFrom(PagesOf(w.releases), plan.tag, 1, []);
    if found.Ok? && found.value.Some? {
      assert Filter(w.releases, plan.tag) == [found.value.value];
    }
  }

  lemma RecheckKeeps(w: World, plan: Plan, id: int)
    requires Inv(w, plan) && AtDraft(w, plan, id)
    ensures var (w', r) := Recheck(w, plan, id);
            Kept(w, w', plan) && Drafts(w', plan) == Drafts(w, plan)
            && (r.Ok? ==> Complete(w', plan) && PlansDraft(Drafts(w', plan)[0], plan) && TagResult(w.git, plan.sourceSha).Ok?)
  {
    hide Inv, Drafts, List, Discover, OthersKept, PlansDraft, Clean, Names, Expected, TagResult;
    ListKeeps(w, plan, id);
    var (w1, listed) := List(w, plan, id);
    if listed.Ok? && listed.value.Keys == Expected(plan.assets).Keys {
      DiscoverFinds(w1, plan);
      var (w2, found) := Discover(w1, plan);
      OthersTwice(w, w1, w2, plan);
      if found.Ok? && found.value == Some(id) {
        var (w3, tagged) := CheckTag(w2, plan);
        AnswersDoNotMatter(w2, w3, plan);
        OthersTwice(w, w2, w3, plan);
      }
    }
  }

  lemma CoveredByListing(w: World, plan: Plan, existing: map<string, RemoteAsset>)
    requires |Drafts(w, plan)| > 0 && existing.Keys == Names(Drafts(w, plan)[0].assets)
    ensures Covered(w, plan, 0, existing)
  {
    hide Drafts, Names;
  }

  lemma MissingAreTheRest(plan: Plan, existing: map<string, RemoteAsset>)
    requires DistinctNames(plan.assets) && existing.Keys <= Expected(plan.assets).Keys
    ensures Missing(plan, 0, existing) == Expected(plan.assets).Keys - existing.Keys
  {
    ExpectedOf(plan.assets);
    hide Expected;
    forall name | name in Expected(plan.assets).Keys - existing.Keys ensures name in Missing(plan, 0, existing) {
      assert IsNamed(plan.assets, name);
      var i :| 0 <= i < |plan.assets| && plan.assets[i].name == name;
    }
  }

  lemma DisjointSizes(a: set<string>, b: set<string>, all: set<string>)
    requires b <= all && a == all - b
    ensures |a| + |b| == |all|
  {
    assert a + b == all && a !! b;
  }

  lemma CountsAddUp(plan: Plan, existing: map<string, RemoteAsset>)
    requires DistinctNames(plan.assets) && existing.Keys <= Expected(plan.assets).Keys
    ensures |{} + Missing(plan, 0, existing)| + |existing| == |plan.assets|
  {
    hide Expected, Missing, DistinctNames;
    ExpectedOf(plan.assets);
    MissingAreTheRest(plan, existing);
    assert {} + Missing(plan, 0, existing) == Missing(plan, 0, existing);
    DisjointSizes(Missing(plan, 0, existing), existing.Keys, Expected(plan.assets).Keys);
  }

  /** A run that returns has filled the draft: nothing is missing, nothing extra, and the counts add up. */
  lemma FillKeeps(w: World, plan: Plan, id: int, resumed: bool)
    requires DistinctNames(plan.assets) && Inv(w, plan) && AtDraft(w, plan, id)
    ensures var (w', r) := Fill(w, plan, id, resumed);
            && Kept(w, w', plan)
            && (r.Ok? ==> Complete(w', plan) && PlansDraft(Drafts(w', plan)[0], plan)
                          && TagResult(w.git, plan.sourceSha).Ok?
                          && r.value.resumed == resumed && r.value.id == id && Drafts(w', plan)[0].id == id
                          && r.value.assetCount == |plan.assets|
                          && r.value.uploadedCount + r.value.reusedCount == r.value.assetCount)
  {
    hide Inv, Drafts, List, UploadMissing, Recheck, OthersKept, PlansDraft, Clean, Names, Expected, Complete, TagResult;
    ListKeeps(w, plan, id);
    var (w1, existing) := List(w, plan, id);
    if existing.Ok? {
      CleanNames(Drafts(w, plan)[0].assets, Expected(plan.assets));
      CoveredByListing(w1, plan, existing.value);
      UploadMissingKeeps(w1, plan, id, 0, existing.value, {});
      var (w2, uploaded) := UploadMissing(w1, plan, id, 0, existing.value, {});
      OthersTwice(w, w1, w2, plan);
      if uploaded.Ok? {
        RecheckKeeps(w2, plan, id);
        OthersTwice(w, w2, Recheck(w2, plan, id).0, plan);
        CountsAddUp(plan, existing.value);
      }
    }
  }

  /** Any run, with any answers and interrupted anywhere, keeps the invariant and the other releases; one that
      returns leaves the exact inventory and says how it got there. */
  lemma RunKeeps(w: World, plan: Plan)
    requires DistinctNames(plan.assets) && Inv(w, plan)
    ensures var (w', r) := Run(w, plan);
            && Kept(w, w', plan)
            && (r.Ok? ==> Complete(w', plan) && PlansDraft(Drafts(w', plan)[0], plan)
                          && TagResult(w.git, plan.sourceSha).Ok?
                          && (r.value.resumed <==> Drafts(w, plan) != [])
                          && r.value.assetCount == |plan.assets|
                          && r.value.uploadedCount + r.value.reusedCount == r.value.assetCount)
  {
    hide Inv, Drafts, Fill, Discover, Create, OthersKept, PlansDraft, Complete, TagResult;
    var (w1, tagged) := CheckTag(w, plan);
    AnswersDoNotMatter(w, w1, plan);
    if tagged.Ok? {
      DiscoverFinds(w1, plan);
      var (w2, found) := Discover(w1, plan);
      OthersTwice(w, w1, w2, plan);
      if found.Ok? && found.value.Some? {
        FillKeeps(w2, plan, found.value.value, true);
        OthersTwice(w, w2, Fill(w2, plan, found.value.value, true).0, plan);
      } else if found.Ok? {
        CreateKeeps(w2, plan);
        var (w3, created) := Create(w2, plan);
        OthersTwice(w, w2, w3, plan);
        if created.Ok? {
          FillKeeps(w3, plan, created.value, false);
          OthersTwice(w, w3, Fill(w3, plan, created.value, false).0, plan);
        }
      }
    }
  }

  /** Runs of one plan after each other, each with the answers it meets. */
  function History(w: World, plan: Plan, sessions: seq<seq<Reply>>): World
    decreases |sessions|
  {
    if sessions == [] then w else History(Run(w.(replies := sessions[0]), plan).0, plan, sessions[1..])
  }

  /** A server without a release for the tag, before any run. */
  ghost predicate Fresh(w: World, plan: Plan) {
    IdsOk(w) && Legible(w.releases) && Drafts(w, plan) == [] && w.log == []
  }

  lemma {:induction false} HistoryKeeps(w: World, plan: Plan, sessions: seq<seq<Reply>>)
    requires DistinctNames(plan.assets) && Inv(w, plan)
    ensures var w' := History(w, plan, sessions); Inv(w', plan) && OthersKept(w, w', plan)
    decreases |sessions|
  {
    hide Inv, OthersKept, Run;
    if sessions == [] {
      AnswersDoNotMatter(w, w, plan);
    } else {
      var started := w.(replies := sessions[0]);
      AnswersDoNotMatter(w, started, plan);
      RunKeeps(started, plan);
      var w1 := Run(started, plan).0;
      HistoryKeeps(w1, plan, sessions[1..]);
      OthersTwice(w, started, w1, plan);
      OthersTwice(w, w1, History(w1, plan, sessions[1..]), plan);
    }
  }

  lemma NoUploadsYet(plan: Plan)
    ensures LogOk([], [])
  {
  }

  /** Over any number of interrupted runs from a server without the release: never more than one release for
      the tag; its assets are named by the plan, no name twice, and every completed one has the exact size and
      digest; no upload was ever requested for a name that was there and no name was stored twice in the whole
      history; releases of other tags are untouched. */
  lemma HistoryIsSafe(w: World, plan: Plan, sessions: seq<seq<Reply>>)
    requires DistinctNames(plan.assets) && Fresh(w, plan)
    ensures var w' := History(w, plan, sessions);
            && |Drafts(w', plan)| <= 1
            && (forall d :: d in Drafts(w', plan) ==> PartOfPlan(d.assets, plan, w'.nextId))
            && LogOk(w'.log, Drafts(w', plan))
            && OthersKept(w, w', plan)
  {
    hide History, PartOfPlan, LogOk, OthersKept, Filter, IdsOk;
    NoUploadsYet(plan);
    HistoryKeeps(w, plan, sessions);
  }

  // ---------------------------------------------------------------- resuming

  lemma {:induction false} NothingMissing(w: World, plan: Plan, id: int, i: nat, existing: map<string, RemoteAsset>,
                                          uploaded: set<string>)
    requires i <= |plan.assets| && forall j :: i <= j < |plan.assets| ==> plan.assets[j].name in existing
    ensures UploadMissing(w, plan, id, i, existing, uploaded) == (w, Ok(uploaded))
    decreases |plan.assets| - i
  {
    if i < |plan.assets| {
      NothingMissing(w, plan, id, i + 1, existing, uploaded);
    }
  }

  lemma RecheckReads(w: World, plan: Plan, id: int)
    ensures var w' := Recheck(w, plan, id).0; w'.releases == w.releases && w'.log == w.log && w'.git == w.git
  {
    hide ListFrom, Expected, Discovered, TagResult;
  }

  /** On a complete draft a run changes nothing and requests no upload, whatever answers it meets. */
  lemma CompleteIsLeftAlone(w: World, plan: Plan)
    requires DistinctNames(plan.assets) && Inv(w, plan) && Complete(w, plan)
    ensures var (w', r) := Run(w, plan);
            && w'.releases == w.releases && w'.log == w.log
            && (r.Ok? ==> r.value.resumed && r.value.uploadedCount == 0 && r.value.reusedCount == |plan.assets|)
  {
    hide Inv, Drafts, Discover, List, PlansDraft, Clean, Names, Expected, OthersKept, DistinctNames, TagResult;
    var (w1, tagged) := CheckTag(w, plan);
    AnswersDoNotMatter(w, w1, plan);
    if tagged.Ok? {
      DiscoverFinds(w1, plan);
      var (w2, found) := Discover(w1, plan);
      if found.Ok? {
        var id := found.value.value;
        ListKeeps(w2, plan, id);
        var (w3, existing) := List(w2, plan, id);
        if existing.Ok? {
          ExpectedOf(plan.assets);
          NothingMissing(w3, plan, id, 0, existing.value, {});
          assert |existing.value.Keys| == |Expected(plan.assets).Keys|;
          RecheckReads(w3, plan, id);
        }
      }
    }
  }

  ghost predicate Plenty(w: World, n: nat) {
    |w.replies| >= n && forall k :: 0 <= k < |w.replies| ==> w.replies[k].Good?
  }

  lemma Answered(w: World, n: nat)
    requires Plenty(w, n + 1)
    ensures var (reply, w') := w.Ask(); reply.Good? && Plenty(w', n) && w' == w.(replies := w'.replies)
  {
  }

  /** No upload was cut off half-way. */
  ghost predicate NoStub(w: World, plan: Plan) {
    forall d :: d in Drafts(w, plan) ==> forall i :: 0 <= i < |d.assets| ==> d.assets[i].uploaded
  }

  lemma PositiveIds(w: World)
    requires IdsOk(w)
    ensures w.nextId > 0
  {
  }

  lemma UploadStores(w: World, plan: Plan, id: int, asset: Asset, n: nat)
    requires Inv(w, plan) && AtDraft(w, plan, id) && NoStub(w, plan) && Plenty(w, n + 1)
    requires asset.name in Expected(plan.assets) && Expected(plan.assets)[asset.name] == asset && Recaptured(asset)
    ensures var (w', r) := UploadAsset(w, plan, id, asset);
            && r.Ok? && Plenty(w', n) && |w'.releases| == |w.releases| && w'.git == w.git
            && Drafts(w', plan) == [Drafts(w, plan)[0].(assets := Drafts(w, plan)[0].assets + [Stored(asset, w.nextId)])]
  {
    hide Filter, Expected, LogOk, PartOfPlan, HasName, IdsOk;
    Answered(w, n);
    var (reply, w1) := w.Ask();
    AnswersDoNotMatter(w, w1, plan);
    DraftPosition(w1, plan, id);
    var k := IndexOf(w.releases, id);
    var r := w.releases[k];
    OnlyDraft(w.releases, plan.tag, k, r.(assets := r.assets + [Stored(asset, w.nextId)]));
    PositiveIds(w);
  }

  lemma StoredHasNoStub(w: World, w': World, plan: Plan, added: RemoteAsset)
    requires |Drafts(w, plan)| == 1 && NoStub(w, plan) && added.uploaded
    requires Drafts(w', plan) == [Drafts(w, plan)[0].(assets := Drafts(w, plan)[0].assets + [added])]
    ensures NoStub(w', plan) && Names(Drafts(w', plan)[0].assets) == Names(Drafts(w, plan)[0].assets) + {added.name}
  {
    hide Drafts;
    NameAdded(Drafts(w, plan)[0].assets, added);
    var d := Drafts(w, plan)[0];
    assert d in Drafts(w, plan);
  }

  lemma FewerNeeded(w: World, m: nat, n: nat)
    requires m <= n && Plenty(w, n)
    ensures Plenty(w, m)
  {
  }

  lemma {:induction false} UploadMissingCompletes(w: World, plan: Plan, id: int, i: nat,
                                                  existing: map<string, RemoteAsset>, uploaded: set<string>, n: nat)
    requires DistinctNames(plan.assets) && (forall a :: a in plan.assets ==> Recaptured(a)) && i <= |plan.assets|
    requires Inv(w, plan) && AtDraft(w, plan, id) && NoStub(w, plan) && Covered(w, plan, i, existing)
    requires Plenty(w, n + |plan.assets| - i)
    ensures var (w', r) := UploadMissing(w, plan, id, i, existing, uploaded);
            && r.Ok? && Plenty(w', n) && NoStub(w', plan) && AtDraft(w', plan, id)
            && Names(Drafts(w', plan)[0].assets) == Names(Drafts(w, plan)[0].assets) + Missing(plan, i, existing)
            && |w'.releases| == |w.releases| && w'.git == w.git
    decreases |plan.assets| - i
  {
    hide Inv, UploadAsset, Drafts, OthersKept, Covered, HasName, DistinctNames, Expected, Recaptured, NoStub, Plenty, Names;
    if i == |plan.assets| {
      assert Missing(plan, i, existing) == {};
      FewerNeeded(w, n, n + |plan.assets| - i);
    } else {
      var asset := plan.assets[i];
      MissingSplits(plan, i, existing);
      hide Missing;
      if asset.name in existing {
        CoveredNext(w, w, plan, i, existing);
        FewerNeeded(w, n + |plan.assets| - i - 1, n + |plan.assets| - i);
        UploadMissingCompletes(w, plan, id, i + 1, existing, uploaded, n);
      } else {
        ExpectedOf(plan.assets);
        NotYetThere(w, plan, i, existing);
        UploadKeeps(w, plan, id, asset);
        UploadStores(w, plan, id, asset, n + |plan.assets| - i - 1);
        var (w1, r) := UploadAsset(w, plan, id, asset);
        StoredHasNoStub(w, w1, plan, Stored(asset, w.nextId));
        CoveredNext(w, w1, plan, i, existing);
        UploadMissingCompletes(w1, plan, id, i + 1, existing, uploaded + {asset.name}, n);
      }
    }
  }

  lemma PartIsClean(w: World, plan: Plan)
    requires Inv(w, plan) && |Drafts(w, plan)| == 1 && NoStub(w, plan)
    ensures Clean(Drafts(w, plan)[0].assets, Expected(plan.assets))
  {
    hide Exact, Expected, Drafts, LogOk, IdsOk;
    assert Drafts(w, plan)[0] in Drafts(w, plan);
  }

  lemma ListSucceeds(w: World, plan: Plan, id: int, n: nat)
    requires Inv(w, plan) && AtDraft(w, plan, id) && NoStub(w, plan) && Plenty(w, n + 1)
    ensures var (w', r) := List(w, plan, id); r.Ok? && Plenty(w', n)
  {
    hide Inv, Drafts, Clean, ListFrom, Expected, NoStub, Plenty, Names;
    Answered(w, n);
    DraftPosition(w, plan, id);
    PartIsClean(w, plan);
    ListingIsExact(Drafts(w, plan)[0].assets, Expected(plan.assets));
  }

  lemma DiscoverSucceeds(w: World, plan: Plan, n: nat)
    requires Inv(w, plan) && |w.releases| < 1000 && Plenty(w, n + 1)
    ensures var (w', r) := Discover(w, plan);
            && Plenty(w', n)
            && r == Ok(if Drafts(w, plan) == [] then None else Some(Drafts(w, plan)[0].id))
  {
    hide SearchFrom, Filter, IdsOk, LogOk, PartOfPlan, Plenty;
    Answered(w, n);
    SearchIsFilter(w.releases, plan.tag);
    if Drafts(w, plan) != [] {
      assert Filter(w.releases, plan.tag) == [Drafts(w, plan)[0]];
    }
  }

  lemma NoStubOf(w: World, w': World, plan: Plan)
    requires Drafts(w', plan) == Drafts(w, plan) && NoStub(w, plan)
    ensures NoStub(w', plan)
  {
  }

  lemma FillCompletes(w: World, plan: Plan, id: int, resumed: bool)
    requires DistinctNames(plan.assets) && (forall a :: a in plan.assets ==> Recaptured(a))
    requires Inv(w, plan) && AtDraft(w, plan, id) && NoStub(w, plan) && |w.releases| < 1000
    requires TagResult(w.git, plan.sourceSha).Ok? && Plenty(w, |plan.assets| + 4)
    ensures Fill(w, plan, id, resumed).1.Ok?
  {
    hide Inv, Drafts, List, UploadMissing, Discover, OthersKept, PlansDraft, Clean, Names, Expected, TagResult,
         NoStub, Plenty, Covered, Missing, DistinctNames, Recaptured;
    ListSucceeds(w, plan, id, |plan.assets| + 3);
    ListKeeps(w, plan, id);
    var (w1, existing) := List(w, plan, id);
    NoStubOf(w, w1, plan);
    CleanNames(Drafts(w, plan)[0].assets, Expected(plan.assets));
    CoveredByListing(w1, plan, existing.value);
    UploadMissingKeeps(w1, plan, id, 0, existing.value, {});
    UploadMissingCompletes(w1, plan, id, 0, existing.value, {}, 3);
    var (w2, uploaded) := UploadMissing(w1, plan, id, 0, existing.value, {});
    MissingAreTheRest(plan, existing.value);
    assert Names(Drafts(w2, plan)[0].assets) == Expected(plan.assets).Keys;
    ListSucceeds(w2, plan, id, 2);
    ListKeeps(w2, plan, id);
    var (w3, listed) := List(w2, plan, id);
    DiscoverSucceeds(w3, plan, 1);
    DiscoverFinds(w3, plan);
    var (w4, found) := Discover(w3, plan);
    Answered(w4, 0);
  }

  /** Room for the paged search: below a thousand releases, counting the draft a run would create. */
  ghost predicate Searchable(w: World, plan: Plan) {
    |w.releases| + (if Drafts(w, plan) == [] then 1 else 0) < 1000
  }

  lemma SameReplies(w: World, w': World, n: nat)
    requires Plenty(w, n) && w'.replies == w.replies
    ensures Plenty(w', n)
  {
  }

  lemma NewHasNoStub(w: World, plan: Plan, id: int)
    requires |Drafts(w, plan)| == 1 && Drafts(w, plan)[0] == NewRelease(plan, id)
    ensures NoStub(w, plan)
  {
    hide Drafts;
  }

  lemma RunCompletes(w: World, plan: Plan)
    requires DistinctNames(plan.assets) && (forall a :: a in plan.assets ==> Recaptured(a))
    requires Inv(w, plan) && NoStub(w, plan) && Searchable(w, plan)
    requires TagResult(w.git, plan.sourceSha).Ok? && Plenty(w, |plan.assets| + 7)
    ensures var (w', r) := Run(w, plan); r.Ok? && Complete(w', plan)
  {
    hide Inv, Drafts, Fill, Discover, OthersKept, PlansDraft, Complete, TagResult, NoStub, Plenty, DistinctNames, Recaptured;
    RunKeeps(w, plan);
    Answered(w, |plan.assets| + 6);
    var (w1, tagged) := CheckTag(w, plan);
    AnswersDoNotMatter(w, w1, plan);
    DiscoverSucceeds(w1, plan, |plan.assets| + 5);
    DiscoverFinds(w1, plan);
    var (w2, found) := Discover(w1, plan);
    NoStubOf(w, w2, plan);
    if found.value.Some? {
      FewerNeeded(w2, |plan.assets| + 4, |plan.assets| + 5);
      FillCompletes(w2, plan, found.value.value, true);
    } else {
      Answered(w2, |plan.assets| + 4);
      CreateKeeps(w2, plan);
      var (w3, created) := Create(w2, plan);
      NewHasNoStub(w3, plan, created.value);
      SameReplies(w2.Ask().1, w3, |plan.assets| + 4);
      FillCompletes(w3, plan, created.value, false);
    }
  }

  lemma UploadCount(w: World, plan: Plan, id: int, asset: Asset)
    ensures |UploadAsset(w, plan, id, asset).0.releases| == |w.releases|
  {
    hide Validate, Expected, HasName;
  }

  lemma {:induction false} UploadMissingCount(w: World, plan: Plan, id: int, i: nat,
                                              existing: map<string, RemoteAsset>, uploaded: set<string>)
    requires i <= |plan.assets|
    ensures |UploadMissing(w, plan, id, i, existing, uploaded).0.releases| == |w.releases|
    decreases |plan.assets| - i
  {
    hide UploadAsset;
    if i < |plan.assets| {
      var asset := plan.assets[i];
      if asset.name in existing {
        UploadMissingCount(w, plan, id, i + 1, existing, uploaded);
      } else {
        UploadCount(w, plan, id, asset);
        UploadMissingCount(UploadAsset(w, plan, id, asset).0, plan, id, i + 1, existing, uploaded + {asset.name});
      }
    }
  }

  lemma DiscoverNeeds(w: World, plan: Plan)
    requires Legible(w.releases) && Discover(w, plan).1.Ok?
    ensures |w.releases| < 1000
  {
    hide SearchFrom, Filter;
    SearchIsFilter(w.releases, plan.tag);
  }

  lemma InvIsLegible(w: World, plan: Plan)
    requires Inv(w, plan)
    ensures Legible(w.releases)
  {
  }

  lemma CleanHasNoStub(w: World, plan: Plan)
    requires |Drafts(w, plan)| == 1 && Clean(Drafts(w, plan)[0].assets, Expected(plan.assets))
    ensures NoStub(w, plan)
  {
    hide Drafts, Expected;
  }

  lemma RecheckNeeds(w: World, plan: Plan, id: int)
    requires Inv(w, plan) && AtDraft(w, plan, id) && Recheck(w, plan, id).1.Ok?
    ensures |w.releases| < 1000
  {
    hide Inv, Drafts, List, Discover, OthersKept, Clean, Names, Expected, TagResult;
    ListKeeps(w, plan, id);
    var w1 := List(w, plan, id).0;
    InvIsLegible(w1, plan);
    DiscoverNeeds(w1, plan);
  }

  /** The listing before the uploads refuses a cut-off upload, the search after them a thousand releases. */
  lemma FillNeeds(w: World, plan: Plan, id: int, resumed: bool)
    requires DistinctNames(plan.assets) && Inv(w, plan) && AtDraft(w, plan, id) && Fill(w, plan, id, resumed).1.Ok?
    ensures NoStub(w, plan) && |w.releases| < 1000
  {
    hide Inv, Drafts, List, UploadMissing, Recheck, OthersKept, Clean, Names, Expected, NoStub, DistinctNames;
    ListKeeps(w, plan, id);
    var (w1, existing) := List(w, plan, id);
    assert existing.Ok?;
    CleanHasNoStub(w, plan);
    CoveredByListing(w1, plan, existing.value);
    UploadMissingKeeps(w1, plan, id, 0, existing.value, {});
    UploadMissingCount(w1, plan, id, 0, existing.value, {});
    var (w2, uploaded) := UploadMissing(w1, plan, id, 0, existing.value, {});
    RecheckNeeds(w2, plan, id);
  }

  lemma CreateCount(w: World, plan: Plan)
    requires Create(w, plan).1.Ok?
    ensures |Create(w, plan).0.releases| == |w.releases| + 1
  {
  }

  lemma NoDraftNoStub(w: World, plan: Plan)
    requires Drafts(w, plan) == []
    ensures NoStub(w, plan)
  {
  }

  lemma RunNeeds(w: World, plan: Plan)
    requires DistinctNames(plan.assets) && Inv(w, plan) && Run(w, plan).1.Ok?
    ensures NoStub(w, plan) && Searchable(w, plan) && TagResult(w.git, plan.sourceSha).Ok?
  {
    hide Inv, Drafts, Fill, Discover, Create, OthersKept, PlansDraft, Complete, TagResult, NoStub, DistinctNames;
    RunKeeps(w, plan);
    var (w1, tagged) := CheckTag(w, plan);
    AnswersDoNotMatter(w, w1, plan);
    DiscoverFinds(w1, plan);
    var (w2, found) := Discover(w1, plan);
    if found.value.Some? {
      FillNeeds(w2, plan, found.value.value, true);
      NoStubOf(w2, w, plan);
    } else {
      CreateKeeps(w2, plan);
      var (w3, created) := Create(w2, plan);
      FillNeeds(w3, plan, created.value, false);
      CreateCount(w2, plan);
      NoDraftNoStub(w, plan);
    }
  }

  /** From every state runs can leave, a run that meets no fault returns, and so leaves the exact inventory,
      exactly when no upload was cut off, the tag resolves to the source, and the search has room. */
  lemma ReturnsExactlyWhen(w: World, plan: Plan)
    requires DistinctNames(plan.assets) && (forall a :: a in plan.assets ==> Recaptured(a))
    requires Inv(w, plan) && Plenty(w, |plan.assets| + 7)
    ensures Run(w, plan).1.Ok? <==> NoStub(w, plan) && Searchable(w, plan) && TagResult(w.git, plan.sourceSha).Ok?
    ensures Run(w, plan).1.Ok? ==> Complete(Run(w, plan).0, plan)
  {
    hide Inv, Run, NoStub, Searchable, TagResult, Plenty, Complete, DistinctNames, Recaptured;
    if Run(w, plan).1.Ok? { RunNeeds(w, plan); }
    if NoStub(w, plan) && Searchable(w, plan) && TagResult(w.git, plan.sourceSha).Ok? { RunCompletes(w, plan); }
  }

  // ---------------------------------------------------------------- servers nobody prepared

  /** The same server, with other uploads on record. */
  ghost predicate Alike(w: World, w': World) {
    w' == w.(log := w'.log)
  }

  lemma UploadAlike(w: World, w': World, plan: Plan, id: int, asset: Asset)
    requires Alike(w, w')
    ensures UploadAsset(w, plan, id, asset).1 == UploadAsset(w', plan, id, asset).1
    ensures Alike(UploadAsset(w, plan, id, asset).0, UploadAsset(w', plan, id, asset).0)
  {
    hide Validate, Expected, HasName;
  }

  lemma {:induction false} UploadMissingAlike(w: World, w': World, plan: Plan, id: int, i: nat,
                                              existing: map<string, RemoteAsset>, uploaded: set<string>)
    requires Alike(w, w') && i <= |plan.assets|
    ensures UploadMissing(w, plan, id, i, existing, uploaded).1 == UploadMissing(w', plan, id, i, existing, uploaded).1
    ensures Alike(UploadMissing(w, plan, id, i, existing, uploaded).0, UploadMissing(w', plan, id, i, existing, uploaded).0)
    decreases |plan.assets| - i
  {
    hide UploadAsset, Alike;
    if i < |plan.assets| {
      var asset := plan.assets[i];
      if asset.name in existing {
        UploadMissingAlike(w, w', plan, id, i + 1, existing, uploaded);
      } else {
        UploadAlike(w, w', plan, id, asset);
        UploadMissingAlike(UploadAsset(w, plan, id, asset).0, UploadAsset(w', plan, id, asset).0, plan, id, i + 1,
                           existing, uploaded + {asset.name});
      }
    }
  }

  lemma ReadsAlike(w: World, w': World, plan: Plan, id: int)
    requires Alike(w, w')
    ensures CheckTag(w, plan).1 == CheckTag(w', plan).1 && Alike(CheckTag(w, plan).0, CheckTag(w', plan).0)
    ensures Discover(w, plan).1 == Discover(w', plan).1 && Alike(Discover(w, plan).0, Discover(w', plan).0)
    ensures Create(w, plan).1 == Create(w', plan).1 && Alike(Create(w, plan).0, Create(w', plan).0)
    ensures List(w, plan, id).1 == List(w', plan, id).1 && Alike(List(w, plan, id).0, List(w', plan, id).0)
  {
    hide ListFrom, Expected, Discovered, TagResult;
  }

  lemma FillAlike(w: World, w': World, plan: Plan, id: int, resumed: bool)
    requires Alike(w, w')
    ensures Fill(w, plan, id, resumed).1 == Fill(w', plan, id, resumed).1
  {
    hide Alike, List, Discover, CheckTag, UploadMissing;
    ReadsAlike(w, w', plan, id);
    var (w1, existing) := List(w, plan, id);
    var w1' := List(w', plan, id).0;
    if existing.Ok? {
      UploadMissingAlike(w1, w1', plan, id, 0, existing.value, {});
      var w2, w2' := UploadMissing(w1, plan, id, 0, existing.value, {}).0, UploadMissing(w1', plan, id, 0, existing.value, {}).0;
      ReadsAlike(w2, w2', plan, id);
      var w3, w3' := List(w2, plan, id).0, List(w2', plan, id).0;
      ReadsAlike(w3, w3', plan, id);
      ReadsAlike(Discover(w3, plan).0, Discover(w3', plan).0, plan, id);
    }
  }

  /** What a run returns does not depend on the uploads made before. */
  lemma RunAlike(w: World, w': World, plan: Plan)
    requires Alike(w, w')
    ensures Run(w, plan).1 == Run(w', plan).1
  {
    hide Alike, Fill, Discover, CheckTag, Create;
    ReadsAlike(w, w', plan, 0);
    var w1, w1' := CheckTag(w, plan).0, CheckTag(w', plan).0;
    ReadsAlike(w1, w1', plan, 0);
    var (w2, found) := Discover(w1, plan);
    var w2' := Discover(w1', plan).0;
    ReadsAlike(w2, w2', plan, 0);
    if found.Ok? && found.value.Some? {
      FillAlike(w2, w2', plan, found.value.value, true);
    } else if found.Ok? && Create(w2, plan).1.Ok? {
      FillAlike(Create(w2, plan).0, Create(w2', plan).0, plan, Create(w2, plan).1.value, false);
    }
  }

  /** Any truthful server that numbers what it stores. */
  ghost predicate AnyServer(w: World, plan: Plan) {
    && IdsOk(w) && Legible(w.releases)
    && forall d :: d in Drafts(w, plan) ==> forall i :: 0 <= i < |d.assets| ==> d.assets[i].id < w.nextId
  }

  /** At most one release of the tag, an exact draft of the plan whose every asset is complete and exact. */
  ghost predicate Resumable(w: World, plan: Plan) {
    && |Drafts(w, plan)| <= 1
    && (Drafts(w, plan) != [] ==>
          PlansDraft(Drafts(w, plan)[0], plan) && Clean(Drafts(w, plan)[0].assets, Expected(plan.assets)))
  }

  lemma CleanIsPart(assets: seq<RemoteAsset>, plan: Plan, nextId: int)
    requires Clean(assets, Expected(plan.assets)) && forall i :: 0 <= i < |assets| ==> assets[i].id < nextId
    ensures PartOfPlan(assets, plan, nextId) && forall i :: 0 <= i < |assets| ==> assets[i].uploaded
  {
    hide Expected;
  }

  lemma ResumableIsInv(w: World, plan: Plan)
    requires AnyServer(w, plan) && Resumable(w, plan)
    ensures var forgotten := w.(log := []); Inv(forgotten, plan) && NoStub(forgotten, plan)
  {
    hide Filter, Exact, Expected, PlansDraft, IdsOk;
    var forgotten := w.(log := []);
    assert Drafts(forgotten, plan) == Drafts(w, plan) && IdsOk(forgotten) by { IdsSame(w, forgotten); }
    if Drafts(w, plan) != [] {
      var d := Drafts(w, plan)[0];
      assert d in Drafts(w, plan);
      CleanIsPart(d.assets, plan, w.nextId);
    }
  }

  lemma IdsDiffer(w: World)
    requires IdsOk(w)
    ensures forall i, j :: 0 <= i < j < |w.releases| ==> w.releases[i].id != w.releases[j].id
  {
  }

  lemma RunFindsResumable(w: World, plan: Plan)
    requires AnyServer(w, plan) && Run(w, plan).1.Ok?
    ensures Resumable(w, plan)
  {
    hide Filter, SearchFrom, UploadMissing, Recheck, ListFrom, Clean, Expected, TagResult, IdsOk;
    SearchIsFilter(w.releases, plan.tag);
    var w2 := Discover(CheckTag(w, plan).0, plan).0;
    if Drafts(w, plan) != [] {
      var d := Drafts(w, plan)[0];
      assert Filter(w.releases, plan.tag) == [d];
      var k := DraftIndex(w.releases, plan.tag, d);
      assert IndexOf(w.releases, d.id) == k by { IdsDiffer(w); IndexOfUnique(w.releases, k); }
      ListingIsExact(d.assets, Expected(plan.assets));
    }
  }

  lemma SameDrafts(w: World, w': World, plan: Plan)
    requires Alike(w, w')
    ensures Drafts(w', plan) == Drafts(w, plan)
  {
  }

  /** From any server, a run that meets no fault returns exactly when what the tag has there can be resumed, the tag
      resolves to the source, and the search has room: drafts and assets of others are refused. */
  lemma ReturnsOnAnyServer(w: World, plan: Plan)
    requires DistinctNames(plan.assets) && (forall a :: a in plan.assets ==> Recaptured(a))
    requires AnyServer(w, plan) && Plenty(w, |plan.assets| + 7)
    ensures Run(w, plan).1.Ok? <==> Resumable(w, plan) && Searchable(w, plan) && TagResult(w.git, plan.sourceSha).Ok?
  {
    hide Run, Inv, NoStub, TagResult, DistinctNames, Recaptured, Drafts, AnyServer, Resumable;
    var forgotten := w.(log := []);
    RunAlike(w, forgotten, plan);
    assert Drafts(forgotten, plan) == Drafts(w, plan) by { SameDrafts(w, forgotten, plan); }
    if Run(w, plan).1.Ok? { RunFindsResumable(w, plan); }
    if Resumable(w, plan) {
      ResumableIsInv(w, plan);
      ReturnsExactlyWhen(forgotten, plan);
    }
  }

  /** Nothing is created or uploaded unless the tag resolves and what the tag has can be resumed, whatever the
      answers. */
  lemma ChangesNeedAPreflight(w: World, plan: Plan)
    requires AnyServer(w, plan) && (Run(w, plan).0.releases != w.releases || Run(w, plan).0.log != w.log)
    ensures Resumable(w, plan) && TagResult(w.git, plan.sourceSha).Ok? && |w.releases| < 1000
  {
    hide Filter, SearchFrom, UploadMissing, Recheck, ListFrom, Clean, Expected, TagResult, IdsOk;
    SearchIsFilter(w.releases, plan.tag);
    if Drafts(w, plan) != [] {
      var d := Drafts(w, plan)[0];
      assert |Drafts(w, plan)| == 1 ==> Filter(w.releases, plan.tag) == [d];
      var k := DraftIndex(w.releases, plan.tag, d);
      assert IndexOf(w.releases, d.id) == k by { IdsDiffer(w); IndexOfUnique(w.releases, k); }
      ListingIsExact(d.assets, Expected(plan.assets));
    }
  }

  // ---------------------------------------------------------------- the requests of a run

  /** `n` answers were used up. */
  ghost predicate Asked(w: World, w': World, n: nat) {
    |w'.replies| + n == |w.replies|
  }

  lemma RequestsAsk(w: World, plan: Plan, id: int)
    ensures CheckTag(w, plan).1.Ok? ==> Asked(w, CheckTag(w, plan).0, 1)
    ensures Discover(w, plan).1.Ok? ==> Asked(w, Discover(w, plan).0, 1)
    ensures Create(w, plan).1.Ok? ==> Asked(w, Create(w, plan).0, 1)
    ensures List(w, plan, id).1.Ok? ==> Asked(w, List(w, plan, id).0, 1)
  {
    hide Discovered, ListFrom, TagResult, Expected;
  }

  lemma UploadAsks(w: World, plan: Plan, id: int, asset: Asset)
    requires UploadAsset(w, plan, id, asset).1.Ok?
    ensures Asked(w, UploadAsset(w, plan, id, asset).0, 1)
  {
    hide Validate, Expected, HasName;
  }

  lemma NotMissingLater(plan: Plan, i: nat, existing: map<string, RemoteAsset>)
    requires DistinctNames(plan.assets) && i < |plan.assets|
    ensures plan.assets[i].name !in Missing(plan, i + 1, existing)
  {
  }

  lemma {:induction false} UploadsAsk(w: World, plan: Plan, id: int, i: nat, existing: map<string, RemoteAsset>,
                                      uploaded: set<string>)
    requires DistinctNames(plan.assets) && i <= |plan.assets|
    requires UploadMissing(w, plan, id, i, existing, uploaded).1.Ok?
    ensures Asked(w, UploadMissing(w, plan, id, i, existing, uploaded).0, |Missing(plan, i, existing)|)
    decreases |plan.assets| - i
  {
    hide UploadAsset, DistinctNames;
    if i == |plan.assets| {
      assert Missing(plan, i, existing) == {};
    } else {
      var asset := plan.assets[i];
      MissingSplits(plan, i, existing);
      NotMissingLater(plan, i, existing);
      hide Missing;
      if asset.name in existing {
        UploadsAsk(w, plan, id, i + 1, existing, uploaded);
      } else {
        UploadAsks(w, plan, id, asset);
        UploadsAsk(UploadAsset(w, plan, id, asset).0, plan, id, i + 1, existing, uploaded + {asset.name});
      }
    }
  }

  lemma RecheckAsks(w: World, plan: Plan, id: int)
    requires Recheck(w, plan, id).1.Ok?
    ensures Asked(w, Recheck(w, plan, id).0, 3)
  {
    hide List, Discover, CheckTag, Expected;
    RequestsAsk(w, plan, id);
    var w1 := List(w, plan, id).0;
    RequestsAsk(w1, plan, id);
    RequestsAsk(Discover(w1, plan).0, plan, id);
  }

  lemma FillAsks(w: World, plan: Plan, id: int, resumed: bool)
    requires DistinctNames(plan.assets) && Inv(w, plan) && AtDraft(w, plan, id) && Fill(w, plan, id, resumed).1.Ok?
    ensures Asked(w, Fill(w, plan, id, resumed).0, 4 + Fill(w, plan, id, resumed).1.value.uploadedCount)
  {
    hide Inv, Drafts, List, UploadMissing, Recheck, OthersKept, Clean, Names, Expected, DistinctNames, Missing, Covered;
    ListKeeps(w, plan, id);
    RequestsAsk(w, plan, id);
    var (w1, existing) := List(w, plan, id);
    assert existing.Ok?;
    CoveredByListing(w1, plan, existing.value);
    UploadMissingKeeps(w1, plan, id, 0, existing.value, {});
    UploadsAsk(w1, plan, id, 0, existing.value, {});
    var (w2, uploaded) := UploadMissing(w1, plan, id, 0, existing.value, {});
    assert uploaded.value == Missing(plan, 0, existing.value);
    RecheckAsks(w2, plan, id);
  }

  lemma CheckTagKeeps(w: World, plan: Plan)
    requires Inv(w, plan)
    ensures Inv(CheckTag(w, plan).0, plan)
  {
    hide Inv, TagResult;
    AnswersDoNotMatter(w, CheckTag(w, plan).0, plan);
  }

  /** A run that returns made every request there is: the tag, the search, the creation unless it resumes, the
      listing, one upload for each missing asset, and then the listing, the search and the tag again. */
  lemma RunAsksEverything(w: World, plan: Plan)
    requires DistinctNames(plan.assets) && Inv(w, plan) && Run(w, plan).1.Ok?
    ensures var (w', r) := Run(w, plan);
            Asked(w, w', 6 + (if r.value.resumed then 0 else 1) + r.value.uploadedCount)
  {
    hide Inv, Drafts, Fill, Discover, Create, OthersKept, PlansDraft, TagResult, DistinctNames, CheckTag;
    RequestsAsk(w, plan, 0);
    var w1 := CheckTag(w, plan).0;
    assert Inv(w1, plan) by { CheckTagKeeps(w, plan); }
    RequestsAsk(w1, plan, 0);
    DiscoverFinds(w1, plan);
    var (w2, found) := Discover(w1, plan);
    if found.value.Some? {
      FillKeeps(w2, plan, found.value.value, true);
      FillAsks(w2, plan, found.value.value, true);
    } else {
      RequestsAsk(w2, plan, 0);
      CreateKeeps(w2, plan);
      var (w3, created) := Create(w2, plan);
      FillKeeps(w3, plan, created.value, false);
      FillAsks(w3, plan, created.value, false);
    }
  }

  /** Whatever others did to the server before: rechecks that succeed have just seen the plan's draft under the same
      id, with exactly the plan's assets, and the tag at the source. */
  lemma RecheckSeesTheServer(w: World, plan: Plan, id: int)
    requires AnyServer(w, plan) && Recheck(w, plan, id).1.Ok?
    ensures Complete(w, plan) && PlansDraft(Drafts(w, plan)[0], plan) && Drafts(w, plan)[0].id == id
    ensures TagResult(w.git, plan.sourceSha).Ok?
  {
    hide Filter, SearchFrom, ListFrom, Clean, Expected, TagResult, IdsOk, Names;
    SearchIsFilter(w.releases, plan.tag);
    var d := SearchFrom(PagesOf(w.releases), plan.tag, 1, []).value.value;
    assert Filter(w.releases, plan.tag) == [d] && d.id == id;
    var k := DraftIndex(w.releases, plan.tag, d);
    assert IndexOf(w.releases, d.id) == k by { IdsDiffer(w); IndexOfUnique(w.releases, k); }
    ListingIsExact(d.assets, Expected(plan.assets));
  }

  // ---------------------------------------------------------------- a cut-off upload

  lemma DiscoverNothing(w: World, plan: Plan)
    requires w.replies != [] && w.replies[0].Good?
    requires Legible(w.releases) && Drafts(w, plan) == [] && |w.releases| < 1000
    ensures Discover(w, plan) == (w.(replies := w.replies[1..]), Ok(None))
  {
    hide SearchFrom, Filter;
    SearchIsFilter(w.releases, plan.tag);
  }

  lemma NothingIsClean(expected: map<string, Asset>)
    ensures Clean([], expected)
  {
  }

  /** An empty draft is listed as such. */
  lemma ListNothing(w: World, plan: Plan, id: int)
    requires Inv(w, plan) && AtDraft(w, plan, id) && Drafts(w, plan)[0].assets == []
    requires w.replies != [] && w.replies[0].Good?
    ensures List(w, plan, id) == (w.(replies := w.replies[1..]), Ok(map[]))
  {
    hide Inv, Drafts, ListFrom, Expected;
    DraftPosition(w, plan, id);
    ListingIsExact([], Expected(plan.assets));
    var r := List(w, plan, id).1;
    assert Clean([], Expected(plan.assets)) by { NothingIsClean(Expected(plan.assets)); }
    assert r.Ok? && r.value.Keys == {};
  }

  /** The first upload breaks off and leaves a stub. */
  lemma UploadBreaksOff(w: World, plan: Plan, id: int)
    requires Inv(w, plan) && AtDraft(w, plan, id) && plan.assets != [] && Recaptured(plan.assets[0])
    requires w.replies != [] && w.replies[0] == Failed(Stub)
    ensures var (w', r) := UploadMissing(w, plan, id, 0, map[], {});
            && r.Err?
            && |Drafts(w', plan)| == 1
            && StubOf(plan.assets[0], w.nextId) in Drafts(w', plan)[0].assets
  {
    hide Filter, Expected, LogOk, PartOfPlan, HasName, IdsOk;
    DraftPosition(w, plan, id);
    var k := IndexOf(w.releases, id);
    var r := w.releases[k];
    var stub := StubOf(plan.assets[0], w.nextId);
    OnlyDraft(w.releases, plan.tag, k, r.(assets := r.assets + [stub]));
    assert (r.assets + [stub])[|r.assets|] == stub;
  }

  lemma StubIsSeen(w: World, plan: Plan, stub: RemoteAsset)
    requires |Drafts(w, plan)| == 1 && stub in Drafts(w, plan)[0].assets && !stub.uploaded
    ensures !NoStub(w, plan)
  {
    hide Drafts;
    var d := Drafts(w, plan)[0];
    assert d in Drafts(w, plan);
    var i :| 0 <= i < |d.assets| && d.assets[i] == stub;
  }

  const BREAKS_OFF := [Good, Good, Good, Good, Failed(Stub)]

  lemma CreateAnswer(w: World, plan: Plan)
    requires w.replies != [] && w.replies[0].Good?
    ensures Create(w, plan).1.Ok? && Create(w, plan).0.replies == w.replies[1..]
  {
  }

  lemma RunBreaksOff(w: World, plan: Plan)
    requires DistinctNames(plan.assets) && plan.assets != [] && Recaptured(plan.assets[0])
    requires Inv(w, plan) && Drafts(w, plan) == [] && |w.releases| < 1000 && TagResult(w.git, plan.sourceSha).Ok?
    requires w.replies == BREAKS_OFF
    ensures !NoStub(Run(w, plan).0, plan)
  {
    hide Inv, Drafts, UploadMissing, Discover, Create, List, OthersKept, TagResult, DistinctNames, Recaptured, NoStub;
    var w1 := CheckTag(w, plan).0;
    AnswersDoNotMatter(w, w1, plan);
    assert w1.replies == [Good, Good, Good, Failed(Stub)];
    InvIsLegible(w1, plan);
    DiscoverNothing(w1, plan);
    var w2 := Discover(w1, plan).0;
    AnswersDoNotMatter(w1, w2, plan);
    assert w2.replies == [Good, Good, Failed(Stub)];
    CreateKeeps(w2, plan);
    CreateAnswer(w2, plan);
    var (w3, created) := Create(w2, plan);
    assert w3.replies == [Good, Failed(Stub)];
    ListNothing(w3, plan, created.value);
    var w4 := List(w3, plan, created.value).0;
    AnswersDoNotMatter(w3, w4, plan);
    assert w4.replies == [Failed(Stub)];
    UploadBreaksOff(w4, plan, created.value);
    StubIsSeen(UploadMissing(w4, plan, created.value, 0, map[], {}).0, plan, StubOf(plan.assets[0], w4.nextId));
  }

  lemma FreshKeeps(w: World, plan: Plan)
    requires Fresh(w, plan)
    ensures Inv(w, plan)
  {
    NoUploadsYet(plan);
  }

  lemma FreshHasNone(w: World, plan: Plan)
    requires Fresh(w, plan)
    ensures Drafts(w, plan) == []
  {
  }

  lemma OneSession(w: World, plan: Plan)
    ensures History(w, plan, [BREAKS_OFF]) == Run(w.(replies := BREAKS_OFF), plan).0
  {
    hide Run;
    assert [BREAKS_OFF][1..] == [];
    assert History(Run(w.(replies := BREAKS_OFF), plan).0, plan, []) == Run(w.(replies := BREAKS_OFF), plan).0;
  }

  /** Wherever a first upload can be made and breaks off after a stub was stored, no later run ever returns, whatever
      answers it meets. */
  lemma CutOffBlocks(w: World, plan: Plan, replies: seq<Reply>)
    requires DistinctNames(plan.assets) && plan.assets != [] && Recaptured(plan.assets[0])
    requires Fresh(w, plan) && |w.releases| < 1000 && TagResult(w.git, plan.sourceSha).Ok?
    ensures var left := History(w, plan, [BREAKS_OFF]);
            !NoStub(left, plan) && Run(left.(replies := replies), plan).1.Err?
  {
    hide Run, Fresh, Inv, NoStub, Drafts, DistinctNames, TagResult, Recaptured;
    var started := w.(replies := BREAKS_OFF);
    FreshKeeps(w, plan);
    assert Drafts(w, plan) == [] by { FreshHasNone(w, plan); }
    AnswersDoNotMatter(w, started, plan);
    RunBreaksOff(started, plan);
    RunKeeps(started, plan);
    var left := Run(started, plan).0;
    OneSession(w, plan);
    var again := left.(replies := replies);
    AnswersDoNotMatter(left, again, plan);
    if Run(again, plan).1.Ok? {
      RunNeeds(again, plan);
      NoStubOf(again, left, plan);
    }
  }

  /** One asset, an empty server, one upload cut off: a run that meets no fault is refused from then on. */
  lemma CutOffInput()
    ensures var plan := Plan("v1", "title", "notes", false, "commit", [Asset("a", "b", 1, Sha256("b"))]);
            var empty := World([], Git(map[], GitObject(false, "commit")), 1, [], []);
            var left := History(empty, plan, [BREAKS_OFF]);
            !NoStub(left, plan) && Run(left.(replies := seq(8, _ => Good)), plan).1.Err?
  {
    hide Run, NoStub, History;
    var plan := Plan("v1", "title", "notes", false, "commit", [Asset("a", "b", 1, Sha256("b"))]);
    var empty := World([], Git(map[], GitObject(false, "commit")), 1, [], []);
    assert Filter([], plan.tag) == [];
    CutOffBlocks(empty, plan, seq(8, _ => Good));
  }

  // ---------------------------------------------------------------- the program

  /** The server as the program meets it: every request may change it and uses up one answer. */
  class GitHub {
    var releases: seq<Release>
    var nextId: int
    var replies: seq<Reply>
    ghost var log: seq<Upload>
    const git: Git

    constructor (releases: seq<Release>, git: Git, nextId: int, replies: seq<Reply>)
      ensures State() == World(releases, git, nextId, [], replies)
    {
      this.releases, this.git, this.nextId, this.replies, this.log := releases, git, nextId, replies, [];
    }

    ghost function State(): World
      reads this
    {
      World(releases, git, nextId, log, replies)
    }

    method Ask() returns (reply: Reply)
      modifies this
      ensures (reply, State()) == old(State()).Ask()
    {
      if replies == [] {
        return Failed(Nothing);
      }
      reply := replies[0];
      replies := replies[1..];
    }

    method CheckReleaseTag(plan: Plan) returns (r: Result<(), Failure>)
      modifies this
      ensures (State(), r) == CheckTag(old(State()), plan)
    {
      var reply := Ask();
      if !reply.Good? {
        return Err(RequestFailed);
      }
      r := ResolveExistingTag(git, plan.sourceSha);
    }

    method DiscoverDraft(plan: Plan) returns (r: Result<Option<int>, Failure>)
      modifies this
      ensures (State(), r) == Discover(old(State()), plan)
    {
      var reply := Ask();
      if !reply.Good? {
        return Err(RequestFailed);
      }
      var found := Search(PagesOf(releases), plan.tag);
      match found
      case Err(e) => r := Err(e);
      case Ok(None) => r := Ok(None);
      case Ok(Some(release)) =>
        r := if ExactIdentity(release, plan) then Ok(Some(release.id)) else Err(InexactIdentity);
    }

    method CreateDraft(plan: Plan) returns (r: Result<int, Failure>)
      modifies this
      ensures (State(), r) == Create(old(State()), plan)
    {
      var reply := Ask();
      var id := nextId;
      if reply.Good? || reply == Failed(Done) || (reply.Answer? && reply.stored) {
        releases := [NewRelease(plan, id)] + releases;
        nextId := id + 1;
      }
      return if reply.Good? then Ok(id) else Err(RequestFailed);
    }

    method ListAssets(plan: Plan, id: int) returns (r: Result<map<string, RemoteAsset>, Failure>)
      modifies this
      ensures (State(), r) == List(old(State()), plan, id)
    {
      var reply := Ask();
      var k := IndexOf(releases, id);
      if !reply.Good? || k == |releases| {
        return Err(RequestFailed);
      }
      r := ListExactAssets(PagesOf(releases[k].assets), Expected(plan.assets));
    }

    method UploadOne(plan: Plan, id: int, asset: Asset) returns (r: Result<(), Failure>)
      modifies this
      ensures (State(), r) == UploadAsset(old(State()), plan, id, asset)
    {
      if !Recaptured(asset) {
        return Err(RecaptureFailed);
      }
      var reply := Ask();
      var effect := EffectOf(reply);
      var response := if reply.Answer? then reply.response else Stored(asset, nextId);
      var k := IndexOf(releases, id);
      if k < |releases| {
        var release := releases[k];
        log := log + [Upload(asset.name, HasName(release.assets, asset.name), effect.Done?)];
        if !effect.Nothing? {
          var added := if effect.Done? then Stored(asset, nextId) else StubOf(asset, nextId);
          releases := releases[k := release.(assets := release.assets + [added])];
          nextId := nextId + 1;
        }
      }
      if reply.Failed? {
        return Err(RequestFailed);
      }
      var name := Validate(response, Expected(plan.assets));
      if name.Err? {
        return Err(name.error);
      }
      if name.value != asset.name {
        return Err(WrongUpload);
      }
      return Ok(());
    }

    method UploadAll(plan: Plan, id: int, existing: map<string, RemoteAsset>) returns (r: Result<set<string>, Failure>)
      modifies this
      ensures (State(), r) == UploadMissing(old(State()), plan, id, 0, existing, {})
    {
      hide UploadAsset;
      var uploaded: set<string> := {};
      for i := 0 to |plan.assets|
        invariant UploadMissing(State(), plan, id, i, existing, uploaded)
               == UploadMissing(old(State()), plan, id, 0, existing, {})
      {
        var asset := plan.assets[i];
        if asset.name in existing {
          continue;
        }
        var sent := UploadOne(plan, id, asset);
        if sent.Err? {
          return Err(sent.error);
        }
        uploaded := uploaded + {asset.name};
      }
      return Ok(uploaded);
    }

    method RecheckDraft(plan: Plan, id: int) returns (r: Result<(), Failure>)
      modifies this
      ensures (State(), r) == Recheck(old(State()), plan, id)
    {
      hide List, Discover, CheckTag;
      var finalAssets := ListAssets(plan, id);
      if finalAssets.Err? {
        return Err(finalAssets.error);
      }
      if finalAssets.value.Keys != Expected(plan.assets).Keys {
        return Err(IncompleteInventory);
      }
      var finalIdentity := DiscoverDraft(plan);
      if finalIdentity.Err? {
        return Err(finalIdentity.error);
      }
      if finalIdentity.value != Some(id) {
        return Err(IdentityChanged);
      }
      r := CheckReleaseTag(plan);
    }

    method CreateDraftRelease(plan: Plan) returns (r: Result<Receipt, Failure>)
      modifies this
      ensures (State(), r) == Run(old(State()), plan)
    {
      hide List, Discover, CheckTag, Create, UploadMissing, Recheck;
      var tagged := CheckReleaseTag(plan);
      if tagged.Err? {
        return Err(tagged.error);
      }
      var found := DiscoverDraft(plan);
      if found.Err? {
        return Err(found.error);
      }
      var resumed := found.value.Some?;
      var id: int;
      if resumed {
        id := found.value.value;
      } else {
        var created := CreateDraft(plan);
        if created.Err? {
          return Err(created.error);
        }
        id := created.value;
      }
      var existing := ListAssets(plan, id);
      if existing.Err? {
        return Err(existing.error);
      }
      var uploaded := UploadAll(plan, id, existing.value);
      if uploaded.Err? {
        return Err(uploaded.error);
      }
      var checked := RecheckDraft(plan, id);
      if checked.Err? {
        return Err(checked.error);
      }
      return Ok(Receipt(id, resumed, |plan.assets|, |uploaded.value|, |existing.value|));
    }
  }
}
