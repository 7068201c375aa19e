/** Resumable upload of a draft's assets with bounded retries (cli/ci/stage_upload.py). */
module StageUpload {
  import opened Wrappers
  import opened Text

  const ATTEMPTS: nat := 3

  datatype Digest = Sha256(content: string)

  /** One artifact of the reviewed plan. */
  datatype Artifact = Artifact(name: string, size: nat, sha256: Digest, evidence: bool)

  datatype Plan = Plan(source: string, artifacts: seq<Artifact>)

  datatype RemoteAsset = RemoteAsset(name: string, uploaded: bool, size: nat, digest: Digest)

  /** What an upload left behind and what the command reported. `Killed` ends the run during the upload. */
  datatype Effect = Nothing | Done | Stub

  datatype Outcome = Success | Transient | Permanent | Timeout | Killed

  /** How the world answers: a read, a local check, or an upload. */
  datatype Reply = Good | Fault | Uploading(outcome: Outcome, effect: Effect)

  /** One upload request: which attempt, whether the latest snapshot or the server had the name, how it ended. */
  datatype Request = Request(name: string, attempt: nat, listed: bool, existed: bool, outcome: Outcome)

  datatype Failure =
    | LookupFailed | WrongTag | NotDraft | UnknownOrDuplicate | Incomplete | Differs
    | LocalChanged | InvalidEvidence | TimedOut | ReportedButAbsent | PermanentError | Exhausted
    | Interrupted | FinalIncomplete

  datatype World = World(tagSha: string, isDraft: bool, assets: seq<RemoteAsset>, log: seq<Request>, replies: seq<Reply>) {
    function Ask(): (Reply, World) {
      if replies == [] then (Fault, this) else (replies[0], this.(replies := replies[1..]))
    }
  }

  // ---------------------------------------------------------------- the snapshot

  /** `{a['name']: a for a in plan['artifacts'] if a['size'] > 0}` */
  function Wanted(artifacts: seq<Artifact>): map<string, Artifact> {
    if artifacts == [] then map[] else
    var last := artifacts[|artifacts| - 1];
    var before := Wanted(artifacts[..|artifacts| - 1]);
    if last.size > 0 then before[last.name := last] else before
  }

  function Check(asset: RemoteAsset, wanted: map<string, Artifact>, observed: set<string>): Option<Failure> {
    if asset.name !in wanted || asset.name in observed then Some(UnknownOrDuplicate)
    else if !asset.uploaded then Some(Incomplete)
    else if asset.size != wanted[asset.name].size || asset.digest != wanted[asset.name].sha256 then Some(Differs)
    else None
  }

  function Observe(assets: seq<RemoteAsset>, wanted: map<string, Artifact>, observed: set<string>): Result<set<string>, Failure> {
    if assets == [] then Ok(observed) else
    match Check(assets[0], wanted, observed)
    case Some(e) => Err(e)
    case None => Observe(assets[1..], wanted, observed + {assets[0].name})
  }

  function Snapshot(w: World, plan: Plan): (World, Result<set<string>, Failure>) {
    var (reply, w') := w.Ask();
    (w', if !reply.Good? then Err(LookupFailed)
         else if w.tagSha != plan.source then Err(WrongTag)
         else if !w.isDraft then Err(NotDraft)
         else Observe(w.assets, Wanted(plan.artifacts), {}))
  }

  // ---------------------------------------------------------------- uploads

  predicate HasName(assets: seq<RemoteAsset>, name: string) {
    exists i :: 0 <= i < |assets| && assets[i].name == name
  }

  function LocalCheck(w: World, failure: Failure): (World, Result<(), Failure>) {
    var (reply, w') := w.Ask();
    (w', if reply.Good? then Ok(()) else Err(failure))
  }

  /** `gh release upload`: the server appends what it received. A plain good answer is a success with effect. */
  function Send(w: World, item: Artifact, attempt: nat, listed: bool): (World, Outcome) {
    var (reply, w1) := w.Ask();
    var outcome := match reply case Good => Success case Fault => Killed case Uploading(o, _) => o;
    var effect := match reply case Good => Done case Fault => Nothing case Uploading(_, e) => e;
    var w2 := w1.(log := w1.log + [Request(item.name, attempt, listed, HasName(w.assets, item.name), outcome)]);
    (match effect
     case Nothing => w2
     case Done => w2.(assets := w2.assets + [RemoteAsset(item.name, true, item.size, item.sha256)])
     case Stub => w2.(assets := w2.assets + [RemoteAsset(item.name, false, 0, Sha256(""))]),
     outcome)
  }

  /** The attempts for one missing artifact; after the last one the loop would fall through. */
  function Attempts(w: World, plan: Plan, item: Artifact, attempt: nat, observed: set<string>): (World, Result<set<string>, Failure>)
    decreases ATTEMPTS - attempt
  {
    if attempt >= ATTEMPTS then (w, Ok(observed)) else
    var (w1, local) := LocalCheck(w, LocalChanged);
    if local.Err? then (w1, Err(local.error)) else
    var (w2, outcome) := Send(w1, item, attempt, item.name in observed);
    if outcome.Killed? then (w2, Err(Interrupted)) else
    var (w3, snapshot) := Snapshot(w2, plan);
    match snapshot
    case Err(e) => (w3, Err(e))
    case Ok(now) =>
      if item.name in now then (w3, Ok(now))
      else if outcome.Timeout? then (w3, Err(TimedOut))
      else if outcome.Success? then (w3, Err(ReportedButAbsent))
      else if outcome.Permanent? then (w3, Err(PermanentError))
      else if attempt >= 2 then (w3, Err(Exhausted))
      else Attempts(w3, plan, item, attempt + 1, now)
  }

  function StageFrom(w: World, plan: Plan, i: nat, observed: set<string>): (World, Result<set<string>, Failure>)
    requires i <= |plan.artifacts|
    decreases |plan.artifacts| - i
  {
    if i == |plan.artifacts| then (w, Ok(observed)) else
    var item := plan.artifacts[i];
    if item.size == 0 then
      if !item.evidence || item.sha256 != Sha256("") then (w, Err(InvalidEvidence)) else
      var (w1, local) := LocalCheck(w, LocalChanged);
      if local.Err? then (w1, Err(local.error)) else StageFrom(w1, plan, i + 1, observed)
    else if item.name in observed then StageFrom(w, plan, i + 1, observed)
    else
      var (w1, r) := Attempts(w, plan, item, 0, observed);
      match r
      case Err(e) => (w1, Err(e))
      case Ok(now) => StageFrom(w1, plan, i + 1, now)
  }

  function Stage(w: World, plan: Plan): (World, Result<(), Failure>) {
    var (w0, local) := LocalCheck(w, LocalChanged);
    if local.Err? then (w0, Err(local.error)) else
    var (w1, first) := Snapshot(w0, plan);
    if first.Err? then (w1, Err(first.error)) else
    var (w2, staged) := StageFrom(w1, plan, 0, first.value);
    if staged.Err? then (w2, Err(staged.error)) else
    var (w3, last) := Snapshot(w2, plan);
    (w3, if last.Err? then Err(last.error)
         else if last.value != Wanted(plan.artifacts).Keys then Err(FinalIncomplete)
         else Ok(()))
  }

  // ---------------------------------------------------------------- what a snapshot says

  ghost predicate Named(artifacts: seq<Artifact>, name: string) {
    exists i :: 0 <= i < |artifacts| && artifacts[i].name == name && artifacts[i].size > 0
  }

  ghost predicate DistinctNames(artifacts: seq<Artifact>) {
    forall i, j :: 0 <= i < j < |artifacts| ==> artifacts[i].name != artifacts[j].name
  }

  lemma {:induction false} WantedNames(artifacts: seq<Artifact>, name: string)
    ensures name in Wanted(artifacts) <==> Named(artifacts, name)
    decreases |artifacts|
  {
    if artifacts != [] {
      var n := |artifacts| - 1;
      WantedNames(artifacts[..n], name);
      if Named(artifacts[..n], name) {
        var i :| 0 <= i < n && artifacts[..n][i].name == name && artifacts[..n][i].size > 0;
        assert artifacts[i].name == name;
      }
      if Named(artifacts, name) {
        var i :| 0 <= i < |artifacts| && artifacts[i].name == name && artifacts[i].size > 0;
        assert i < n ==> artifacts[..n][i].name == name;
      }
    }
  }

  lemma {:induction false} WantedAt(artifacts: seq<Artifact>, i: nat)
    requires DistinctNames(artifacts) && i < |artifacts| && artifacts[i].size > 0
    ensures artifacts[i].name in Wanted(artifacts) && Wanted(artifacts)[artifacts[i].name] == artifacts[i]
    decreases |artifacts|
  {
    var n := |artifacts| - 1;
    if i < n {
      WantedAt(artifacts[..n], i);
    }
  }

  ghost function Names(assets: seq<RemoteAsset>): set<string> {
    set i | 0 <= i < |assets| :: assets[i].name
  }

  ghost predicate Exact(asset: RemoteAsset, wanted: map<string, Artifact>) {
    asset.name in wanted && asset.size == wanted[asset.name].size && asset.digest == wanted[asset.name].sha256
  }

  /** Every asset complete and exact, no name twice. */
  ghost predicate Clean(assets: seq<RemoteAsset>, wanted: map<string, Artifact>) {
    && (forall i :: 0 <= i < |assets| ==> assets[i].uploaded && Exact(assets[i], wanted))
    && (forall i, j :: 0 <= i < j < |assets| ==> assets[i].name != assets[j].name)
  }

  lemma NamesSplit(assets: seq<RemoteAsset>)
    requires assets != []
    ensures Names(assets) == {assets[0].name} + Names(assets[1..])
  {
    var rest := assets[1..];
    assert forall i :: 0 <= i < |rest| ==> rest[i] == assets[i + 1];
    forall n | n in Names(assets) ensures n in {assets[0].name} + Names(rest) {
      var i :| 0 <= i < |assets| && assets[i].name == n;
      if i > 0 { assert rest[i - 1].name == n; }
    }
    forall n | n in Names(rest) ensures n in Names(assets) {
      var i :| 0 <= i < |rest| && rest[i].name == n;
      assert assets[i + 1].name == n;
    }
  }

  lemma CleanSplit(assets: seq<RemoteAsset>, wanted: map<string, Artifact>)
    requires assets != []
    ensures Clean(assets, wanted) <==>
            assets[0].uploaded && Exact(assets[0], wanted) && assets[0].name !in Names(assets[1..]) && Clean(assets[1..], wanted)
  {
    hide Exact;
    var rest := assets[1..];
    assert forall i :: 0 <= i < |rest| ==> rest[i] == assets[i + 1];
    if Clean(assets, wanted) {
      forall i, j | 0 <= i < j < |rest| ensures rest[i].name != rest[j].name {
        assert assets[i + 1].name != assets[j + 1].name;
      }
    }
    if assets[0].uploaded && Exact(assets[0], wanted) && assets[0].name !in Names(rest) && Clean(rest, wanted) {
      forall i, j | 0 <= i < j < |assets| ensures assets[i].name != assets[j].name {
        assert assets[j] == rest[j - 1];
        if i == 0 {
          assert rest[j - 1].name in Names(rest);
        } else {
          assert assets[i] == rest[i - 1];
        }
      }
      forall i | 0 <= i < |assets| ensures assets[i].uploaded && Exact(assets[i], wanted) {
        if i > 0 { assert assets[i] == rest[i - 1]; }
      }
    }
  }

  lemma {:induction false} ObserveIsClean(assets: seq<RemoteAsset>, wanted: map<string, Artifact>, observed: set<string>)
    ensures var r := Observe(assets, wanted, observed);
            && (r.Ok? ==> Clean(assets, wanted) && Names(assets) !! observed && r.value == observed + Names(assets))
            && (Clean(assets, wanted) && Names(assets) !! observed ==> r.Ok?)
    decreases |assets|
  {
    if assets == [] {
      assert Names(assets) == {};
    } else {
      var first, rest := assets[0], assets[1..];
      NamesSplit(assets);
      assert forall i :: 0 <= i < |rest| ==> rest[i] == assets[i + 1];
      ObserveIsClean(rest, wanted, observed + {first.name});
      CleanSplit(assets, wanted);
    }
  }

  // ---------------------------------------------------------------- safety

  /** Named by the plan, no name twice, and exact unless the upload was cut off. */
  ghost predicate PartOfPlan(assets: seq<RemoteAsset>, plan: Plan) {
    && (forall i :: 0 <= i < |assets| ==>
          assets[i].name in Wanted(plan.artifacts) && (assets[i].uploaded ==> Exact(assets[i], Wanted(plan.artifacts))))
    && (forall i, j :: 0 <= i < j < |assets| ==> assets[i].name != assets[j].name)
  }

  /** `observed` is the verified inventory of the draft. */
  ghost predicate Verified(w: World, plan: Plan, observed: set<string>) {
    Clean(w.assets, Wanted(plan.artifacts)) && observed == Names(w.assets)
  }

  /** Requests of one run: only for names the latest snapshot, and the server, lacked; at most three per name,
      and a repetition only after a transient error. */
  ghost predicate RequestsOk(requests: seq<Request>) {
    && (forall k :: 0 <= k < |requests| ==>
          !requests[k].listed && !requests[k].existed && requests[k].attempt < ATTEMPTS)
    && (forall k, l :: 0 <= k < l < |requests| && requests[k].name == requests[l].name ==>
          requests[k].attempt < requests[l].attempt && requests[k].outcome.Transient?)
  }

  /** Nothing on the draft is removed or replaced. */
  ghost predicate Extends(w: World, w': World) {
    && |w.assets| <= |w'.assets| && w'.assets[..|w.assets|] == w.assets
    && w'.tagSha == w.tagSha && w'.isDraft == w.isDraft
  }

  lemma ExtendsTwice(w: World, w1: World, w2: World)
    requires Extends(w, w1) && Extends(w1, w2)
    ensures Extends(w, w2)
  {
    assert w2.assets[..|w.assets|] == w2.assets[..|w1.assets|][..|w.assets|];
  }

  lemma HasNameIsIn(assets: seq<RemoteAsset>, name: string)
    ensures HasName(assets, name) <==> name in Names(assets)
  {
  }

  lemma SnapshotVerifies(w: World, plan: Plan)
    ensures var (w', r) := Snapshot(w, plan);
            && w' == w.(replies := w'.replies)
            && (r.Ok? ==> Verified(w', plan, r.value) && w.tagSha == plan.source && w.isDraft)
  {
    ObserveIsClean(w.assets, Wanted(plan.artifacts), {});
    assert {} + Names(w.assets) == Names(w.assets);
  }

  lemma CleanIsPart(w: World, plan: Plan)
    requires Clean(w.assets, Wanted(plan.artifacts))
    ensures PartOfPlan(w.assets, plan)
  {
  }

  /** One upload of a missing artifact keeps the draft part of the plan. */
  lemma SendSafe(w: World, plan: Plan, item: Artifact, attempt: nat, observed: set<string>)
    requires Verified(w, plan, observed) && item.name !in observed
    requires item.name in Wanted(plan.artifacts) && Wanted(plan.artifacts)[item.name] == item
    ensures var (w', outcome) := Send(w, item, attempt, item.name in observed);
            && PartOfPlan(w'.assets, plan) && Extends(w, w')
            && w'.log == w.log + [Request(item.name, attempt, false, false, outcome)]
  {
    hide Wanted;
    HasNameIsIn(w.assets, item.name);
    assert forall i :: 0 <= i < |w.assets| ==> w.assets[i].name in Names(w.assets);
  }

  /** The requests of one artifact: increasing attempts, each but the last ended in a transient error. */
  ghost predicate AttemptsOk(requests: seq<Request>, name: string, attempt: nat) {
    && (forall k :: 0 <= k < |requests| ==>
          && requests[k].name == name && attempt <= requests[k].attempt < ATTEMPTS
          && !requests[k].listed && !requests[k].existed)
    && (forall k, l :: 0 <= k < l < |requests| ==>
          requests[k].attempt < requests[l].attempt && requests[k].outcome.Transient?)
  }

  lemma NoAttempt(name: string, attempt: nat)
    ensures AttemptsOk([], name, attempt)
  {
  }

  lemma OneMoreAttempt(request: Request, rest: seq<Request>, name: string, attempt: nat)
    requires request.name == name && request.attempt == attempt < ATTEMPTS && !request.listed && !request.existed
    requires rest == [] || request.outcome.Transient?
    requires AttemptsOk(rest, name, attempt + 1)
    ensures AttemptsOk([request] + rest, name, attempt)
  {
  }

  lemma NamesGrow(w: World, w': World)
    requires Extends(w, w')
    ensures Names(w.assets) <= Names(w'.assets)
  {
    forall n | n in Names(w.assets) ensures n in Names(w'.assets) {
      var i :| 0 <= i < |w.assets| && w.assets[i].name == n;
      assert w'.assets[i] == w'.assets[..|w.assets|][i];
    }
  }

  /** The retry loop never falls through: it ends with the artifact verified or with an error. */
  lemma {:induction false} AttemptsSafe(w: World, plan: Plan, item: Artifact, attempt: nat, observed: set<string>)
    returns (requests: seq<Request>)
    requires attempt < ATTEMPTS && Verified(w, plan, observed) && item.name !in observed
    requires item.name in Wanted(plan.artifacts) && Wanted(plan.artifacts)[item.name] == item
    ensures var (w', r) := Attempts(w, plan, item, attempt, observed);
            && PartOfPlan(w'.assets, plan) && Extends(w, w')
            && w'.log == w.log + requests && AttemptsOk(requests, item.name, attempt)
            && (r.Ok? ==> Verified(w', plan, r.value) && item.name in r.value && observed <= r.value)
    decreases ATTEMPTS - attempt
  {
    hide Wanted, Clean, Send, Snapshot, PartOfPlan, AttemptsOk;
    requests := [];
    NoAttempt(item.name, attempt);
    CleanIsPart(w, plan);
    var (w1, local) := LocalCheck(w, LocalChanged);
    assert w1.log == w.log + [];
    if local.Ok? {
      SendSafe(w1, plan, item, attempt, observed);
      var (w2, outcome) := Send(w1, item, attempt, item.name in observed);
      var request := Request(item.name, attempt, false, false, outcome);
      requests := [request];
      NoAttempt(item.name, attempt + 1);
      OneMoreAttempt(request, [], item.name, attempt);
      assert requests == [request] + [];
      if !outcome.Killed? {
        SnapshotVerifies(w2, plan);
        var (w3, now) := Snapshot(w2, plan);
        if now.Ok? {
          NamesGrow(w, w3);
          if item.name !in now.value && outcome.Transient? && attempt < 2 {
            var rest := AttemptsSafe(w3, plan, item, attempt + 1, now.value);
            ExtendsTwice(w, w3, Attempts(w3, plan, item, attempt + 1, now.value).0);
            Associative(w.log, requests, rest);
            OneMoreAttempt(request, rest, item.name, attempt);
            requests := requests + rest;
          }
        }
      }
    }
  }

  /** Requests that are only for artifacts from the `i`-th on. */
  ghost predicate From(requests: seq<Request>, plan: Plan, i: nat) {
    forall k :: 0 <= k < |requests| ==> exists j :: i <= j < |plan.artifacts| && requests[k].name == plan.artifacts[j].name
  }

  lemma RequestsJoin(plan: Plan, first: seq<Request>, rest: seq<Request>, i: nat)
    requires DistinctNames(plan.artifacts) && i < |plan.artifacts|
    requires AttemptsOk(first, plan.artifacts[i].name, 0)
    requires RequestsOk(rest) && From(rest, plan, i + 1)
    ensures RequestsOk(first + rest) && From(first + rest, plan, i)
  {
    var all := first + rest;
    forall k, l | 0 <= k < l < |all| && all[k].name == all[l].name
      ensures all[k].attempt < all[l].attempt && all[k].outcome.Transient?
    {
      assert l >= |first| ==> all[l] == rest[l - |first|];
    }
  }

  /** All artifacts before the `i`-th that have bytes are verified on the draft. */
  ghost predicate DoneBefore(plan: Plan, i: nat, observed: set<string>) {
    i <= |plan.artifacts| && forall j :: 0 <= j < i && plan.artifacts[j].size > 0 ==> plan.artifacts[j].name in observed
  }

  lemma NoRequests(plan: Plan, i: nat)
    ensures RequestsOk([]) && From([], plan, i)
  {
  }

  lemma {:induction false} StageFromSafe(w: World, plan: Plan, i: nat, observed: set<string>) returns (requests: seq<Request>)
    requires DistinctNames(plan.artifacts) && DoneBefore(plan, i, observed) && Verified(w, plan, observed)
    ensures var (w', r) := StageFrom(w, plan, i, observed);
            && PartOfPlan(w'.assets, plan) && Extends(w, w')
            && w'.log == w.log + requests && RequestsOk(requests) && From(requests, plan, i)
            && (r.Ok? ==> Verified(w', plan, r.value) && DoneBefore(plan, |plan.artifacts|, r.value))
    decreases |plan.artifacts| - i
  {
    hide Wanted, Clean, PartOfPlan, Attempts, DistinctNames;
    requests := [];
    CleanIsPart(w, plan);
    assert w.log == w.log + [];
    if i < |plan.artifacts| {
      var item := plan.artifacts[i];
      if item.size == 0 {
        var (w1, local) := LocalCheck(w, LocalChanged);
        if item.evidence && item.sha256 == Sha256("") && local.Ok? {
          requests := StageFromSafe(w1, plan, i + 1, observed);
        }
      } else if item.name in observed {
        requests := StageFromSafe(w, plan, i + 1, observed);
      } else {
        WantedAt(plan.artifacts, i);
        var first := AttemptsSafe(w, plan, item, 0, observed);
        var (w1, r) := Attempts(w, plan, item, 0, observed);
        NoRequests(plan, i + 1);
        RequestsJoin(plan, first, [], i);
        requests := first + [];
        assert first + [] == first;
        if r.Ok? {
          var rest := StageFromSafe(w1, plan, i + 1, r.value);
          RequestsJoin(plan, first, rest, i);
          Associative(w.log, first, rest);
          ExtendsTwice(w, w1, StageFrom(w1, plan, i + 1, r.value).0);
          requests := first + rest;
        }
      }
    }
  }

  /** With every artifact verified the inventory is the plan's: the final comparison cannot fail. */
  lemma InventoryIsPlan(w: World, plan: Plan, observed: set<string>)
    requires Verified(w, plan, observed) && DoneBefore(plan, |plan.artifacts|, observed)
    ensures observed == Wanted(plan.artifacts).Keys
  {
    forall name | name in Wanted(plan.artifacts) ensures name in observed {
      WantedNames(plan.artifacts, name);
    }
  }

  lemma {:induction false} ObserveFailure(assets: seq<RemoteAsset>, wanted: map<string, Artifact>, observed: set<string>)
    ensures Observe(assets, wanted, observed) != Err(FinalIncomplete)
    decreases |assets|
  {
    if assets != [] && Check(assets[0], wanted, observed).None? {
      ObserveFailure(assets[1..], wanted, observed + {assets[0].name});
    }
  }

  lemma SnapshotFailure(w: World, plan: Plan)
    ensures Snapshot(w, plan).1 != Err(FinalIncomplete)
  {
    hide Wanted;
    ObserveFailure(w.assets, Wanted(plan.artifacts), {});
  }

  lemma {:induction false} AttemptsFailure(w: World, plan: Plan, item: Artifact, attempt: nat, observed: set<string>)
    ensures Attempts(w, plan, item, attempt, observed).1 != Err(FinalIncomplete)
    decreases ATTEMPTS - attempt
  {
    hide Snapshot;
    if attempt < ATTEMPTS {
      var (w1, local) := LocalCheck(w, LocalChanged);
      var (w2, outcome) := Send(w1, item, attempt, item.name in observed);
      SnapshotFailure(w2, plan);
      var (w3, now) := Snapshot(w2, plan);
      if now.Ok? {
        AttemptsFailure(w3, plan, item, attempt + 1, now.value);
      }
    }
  }

  lemma {:induction false} StageFromFailure(w: World, plan: Plan, i: nat, observed: set<string>)
    requires i <= |plan.artifacts|
    ensures StageFrom(w, plan, i, observed).1 != Err(FinalIncomplete)
    decreases |plan.artifacts| - i
  {
    hide Attempts;
    if i < |plan.artifacts| {
      var item := plan.artifacts[i];
      if item.size == 0 {
        StageFromFailure(LocalCheck(w, LocalChanged).0, plan, i + 1, observed);
      } else if item.name in observed {
        StageFromFailure(w, plan, i + 1, observed);
      } else {
        AttemptsFailure(w, plan, item, 0, observed);
        var (w1, r) := Attempts(w, plan, item, 0, observed);
        if r.Ok? {
          StageFromFailure(w1, plan, i + 1, r.value);
        }
      }
    }
  }

  /** Any run on any draft, however it ends: nothing is replaced, a draft that was changed or was part of the plan
      is part of the plan, every request is acceptable; and a run that returns leaves exactly the plan's nonempty
      artifacts. */
  lemma StageIsSafe(w: World, plan: Plan) returns (requests: seq<Request>)
    requires DistinctNames(plan.artifacts)
    ensures var (w', r) := Stage(w, plan);
            && (w'.assets == w.assets || PartOfPlan(w'.assets, plan)) && Extends(w, w')
            && w'.log == w.log + requests && RequestsOk(requests)
            && (r.Ok? ==> Verified(w', plan, Wanted(plan.artifacts).Keys))
            && r != Err(FinalIncomplete)
  {
    hide Wanted, Clean, PartOfPlan, StageFrom, Snapshot, DistinctNames;
    requests := [];
    NoRequests(plan, 0);
    assert w.log == w.log + [];
    var (w0, local) := LocalCheck(w, LocalChanged);
    if local.Ok? {
      SnapshotVerifies(w0, plan);
      var (w1, first) := Snapshot(w0, plan);
      SnapshotFailure(w0, plan);
      if first.Ok? {
        requests := StageFromSafe(w1, plan, 0, first.value);
        StageFromFailure(w1, plan, 0, first.value);
        var (w2, staged) := StageFrom(w1, plan, 0, first.value);
        if staged.Ok? {
          SnapshotVerifies(w2, plan);
          SnapshotFailure(w2, plan);
          var (w3, last) := Snapshot(w2, plan);
          InventoryIsPlan(w2, plan, staged.value);
        }
      }
    }
  }

  /** Runs of one plan after each other, each with the answers it meets. */
  function History(w: World, plan: Plan, sessions: seq<seq<Reply>>): World
    decreases |sessions|
  {
    if sessions == [] then w else History(Stage(w.(replies := sessions[0]), plan).0, plan, sessions[1..])
  }

  lemma ExtendsItself(w: World)
    ensures Extends(w, w)
  {
  }

  lemma SameDraftExtends(w: World, started: World, w': World)
    requires started == w.(replies := started.replies) && Extends(started, w')
    ensures Extends(w, w')
  {
  }

  lemma SessionLog(w: World, w1: World, w': World, requests: seq<Request>)
    requires w1.log == w.log + requests && RequestsOk(requests)
    requires |w1.log| <= |w'.log| && w'.log[..|w1.log|] == w1.log
    requires forall k :: |w1.log| <= k < |w'.log| ==> !w'.log[k].existed && !w'.log[k].listed
    ensures |w.log| <= |w'.log| && w'.log[..|w.log|] == w.log
    ensures forall k :: |w.log| <= k < |w'.log| ==> !w'.log[k].existed && !w'.log[k].listed
  {
    assert w'.log[..|w.log|] == w1.log[..|w.log|];
    forall k | |w.log| <= k < |w1.log| ensures !w'.log[k].existed && !w'.log[k].listed {
      assert w'.log[k] == w'.log[..|w1.log|][k] == requests[k - |w.log|];
    }
  }

  /** Over any number of runs on any draft it only grows, a draft that was changed or was part of the plan is part
      of the plan, and no upload was ever requested for a name the server already had. */
  lemma {:induction false} HistoryIsSafe(w: World, plan: Plan, sessions: seq<seq<Reply>>)
    requires DistinctNames(plan.artifacts)
    ensures var w' := History(w, plan, sessions);
            && (w'.assets == w.assets || PartOfPlan(w'.assets, plan)) && Extends(w, w')
            && |w.log| <= |w'.log| && w'.log[..|w.log|] == w.log
            && forall k :: |w.log| <= k < |w'.log| ==> !w'.log[k].existed && !w'.log[k].listed
    decreases |sessions|
  {
    hide PartOfPlan, DistinctNames, Stage, RequestsOk, Extends;
    if sessions == [] {
      assert Extends(w, w) by { ExtendsItself(w); }
    } else {
      var started := w.(replies := sessions[0]);
      var requests := StageIsSafe(started, plan);
      var w1 := Stage(started, plan).0;
      HistoryIsSafe(w1, plan, sessions[1..]);
      var w' := History(w1, plan, sessions[1..]);
      assert Extends(w, w1) by { SameDraftExtends(w, started, w1); }
      ExtendsTwice(w, w1, w');
      SessionLog(w, w1, w', requests);
    }
  }

  // ---------------------------------------------------------------- a fault-free run completes

  ghost predicate Plenty(w: World, n: nat) {
    |w.replies| >= n && forall k :: 0 <= k < |w.replies| ==> w.replies[k].Good?
  }

  lemma Answered(w: World, n: nat)
    requires Plenty(w, n + 1)
    ensures var (reply, w') := w.Ask(); reply.Good? && Plenty(w', n) && w' == w.(replies := w'.replies)
  {
  }

  ghost predicate EvidenceOk(plan: Plan) {
    forall a :: a in plan.artifacts && a.size == 0 ==> a.evidence && a.sha256 == Sha256("")
  }

  lemma SnapshotSucceeds(w: World, plan: Plan, n: nat)
    requires Plenty(w, n + 1) && Clean(w.assets, Wanted(plan.artifacts)) && w.tagSha == plan.source && w.isDraft
    ensures var (w', r) := Snapshot(w, plan); r.Ok? && Plenty(w', n)
  {
    hide Wanted, Clean;
    Answered(w, n);
    ObserveIsClean(w.assets, Wanted(plan.artifacts), {});
  }

  lemma SendSucceeds(w: World, plan: Plan, item: Artifact, observed: set<string>, n: nat)
    requires Plenty(w, n + 1) && Verified(w, plan, observed) && item.name !in observed
    requires item.name in Wanted(plan.artifacts) && Wanted(plan.artifacts)[item.name] == item
    ensures var (w', outcome) := Send(w, item, 0, false);
            && outcome.Success? && Plenty(w', n) && Extends(w, w')
            && Clean(w'.assets, Wanted(plan.artifacts)) && item.name in Names(w'.assets)
  {
    hide Wanted;
    Answered(w, n);
    var w' := Send(w, item, 0, false).0;
    assert forall i :: 0 <= i < |w.assets| ==> w.assets[i].name in Names(w.assets);
    assert w'.assets[|w.assets|].name == item.name;
  }

  lemma AttemptSucceeds(w: World, plan: Plan, item: Artifact, observed: set<string>, n: nat)
    requires Plenty(w, n + 3) && Verified(w, plan, observed) && item.name !in observed
    requires item.name in Wanted(plan.artifacts) && Wanted(plan.artifacts)[item.name] == item
    requires w.tagSha == plan.source && w.isDraft
    ensures var (w', r) := Attempts(w, plan, item, 0, observed); r.Ok? && Plenty(w', n)
  {
    hide Wanted, Clean, Send, Snapshot, Plenty;
    Answered(w, n + 2);
    var (w1, local) := LocalCheck(w, LocalChanged);
    SendSucceeds(w1, plan, item, observed, n + 1);
    var (w2, outcome) := Send(w1, item, 0, false);
    SnapshotSucceeds(w2, plan, n);
    SnapshotVerifies(w2, plan);
  }

  lemma {:induction false} StageFromSucceeds(w: World, plan: Plan, i: nat, observed: set<string>, n: nat)
    requires DistinctNames(plan.artifacts) && EvidenceOk(plan) && DoneBefore(plan, i, observed) && Verified(w, plan, observed)
    requires Plenty(w, n + 3 * (|plan.artifacts| - i)) && w.tagSha == plan.source && w.isDraft
    ensures var (w', r) := StageFrom(w, plan, i, observed); r.Ok? && Plenty(w', n)
    decreases |plan.artifacts| - i
  {
    hide Wanted, Clean, Attempts, DistinctNames;
    if i < |plan.artifacts| {
      var item := plan.artifacts[i];
      if item.size == 0 {
        assert item in plan.artifacts;
        StageFromSucceeds(LocalCheck(w, LocalChanged).0, plan, i + 1, observed, n);
      } else if item.name in observed {
        StageFromSucceeds(w, plan, i + 1, observed, n);
      } else {
        WantedAt(plan.artifacts, i);
        AttemptSucceeds(w, plan, item, observed, n + 3 * (|plan.artifacts| - i - 1));
        var requests := AttemptsSafe(w, plan, item, 0, observed);
        var (w1, r) := Attempts(w, plan, item, 0, observed);
        StageFromSucceeds(w1, plan, i + 1, r.value, n);
      }
    }
  }

  lemma StageSucceeds(w: World, plan: Plan)
    requires DistinctNames(plan.artifacts) && EvidenceOk(plan) && Clean(w.assets, Wanted(plan.artifacts))
    requires w.tagSha == plan.source && w.isDraft && Plenty(w, 3 + 3 * |plan.artifacts|)
    ensures Stage(w, plan).1.Ok?
  {
    hide Wanted, Clean, StageFrom, Snapshot, DistinctNames, EvidenceOk, PartOfPlan, Plenty;
    Answered(w, 2 + 3 * |plan.artifacts|);
    var (w0, local) := LocalCheck(w, LocalChanged);
    SnapshotSucceeds(w0, plan, 1 + 3 * |plan.artifacts|);
    SnapshotVerifies(w0, plan);
    var (w1, first) := Snapshot(w0, plan);
    StageFromSucceeds(w1, plan, 0, first.value, 1);
    var requests := StageFromSafe(w1, plan, 0, first.value);
    var (w2, staged) := StageFrom(w1, plan, 0, first.value);
    SnapshotSucceeds(w2, plan, 0);
    SnapshotVerifies(w2, plan);
    InventoryIsPlan(w2, plan, staged.value);
  }

  lemma {:induction false} StageFromNeeds(w: World, plan: Plan, i: nat, observed: set<string>)
    requires i <= |plan.artifacts| && StageFrom(w, plan, i, observed).1.Ok?
    ensures forall j :: i <= j < |plan.artifacts| && plan.artifacts[j].size == 0 ==>
              plan.artifacts[j].evidence && plan.artifacts[j].sha256 == Sha256("")
    decreases |plan.artifacts| - i
  {
    hide Attempts;
    if i < |plan.artifacts| {
      var item := plan.artifacts[i];
      if item.size == 0 {
        StageFromNeeds(LocalCheck(w, LocalChanged).0, plan, i + 1, observed);
      } else if item.name in observed {
        StageFromNeeds(w, plan, i + 1, observed);
      } else {
        var (w1, r) := Attempts(w, plan, item, 0, observed);
        StageFromNeeds(w1, plan, i + 1, r.value);
      }
    }
  }

  lemma SnapshotNeeds(w: World, plan: Plan)
    requires Snapshot(w, plan).1.Ok?
    ensures Clean(w.assets, Wanted(plan.artifacts)) && w.tagSha == plan.source && w.isDraft
  {
    hide Wanted, Clean;
    ObserveIsClean(w.assets, Wanted(plan.artifacts), {});
  }

  /** A run that meets no fault returns exactly when it starts on the plan's tag, on a draft whose every asset is
      complete and exact, and every empty artifact of the plan is acceptable evidence. */
  lemma ReturnsExactlyWhen(w: World, plan: Plan)
    requires DistinctNames(plan.artifacts) && Plenty(w, 3 + 3 * |plan.artifacts|)
    ensures Stage(w, plan).1.Ok? <==>
            (w.tagSha == plan.source && w.isDraft && Clean(w.assets, Wanted(plan.artifacts)) && EvidenceOk(plan))
  {
    if w.tagSha == plan.source && w.isDraft && Clean(w.assets, Wanted(plan.artifacts)) && EvidenceOk(plan) {
      hide Wanted, Clean, StageFrom, Snapshot, DistinctNames, EvidenceOk, Plenty, Stage;
      StageSucceeds(w, plan);
    }
    if Stage(w, plan).1.Ok? {
      hide Wanted, Clean, StageFrom, Snapshot, DistinctNames, Plenty;
      var w0 := LocalCheck(w, LocalChanged).0;
      SnapshotNeeds(w0, plan);
      var (w1, first) := Snapshot(w0, plan);
      StageFromNeeds(w1, plan, 0, first.value);
    }
  }

  // ---------------------------------------------------------------- which answers make a run return

  /** The upload took full effect, whatever it reported short of ending the run. */
  ghost predicate TakesEffect(reply: Reply) {
    reply.Good? || (reply.Uploading? && reply.effect.Done? && !reply.outcome.Killed?)
  }

  /** A transient error that left nothing behind. */
  ghost predicate NotYet(reply: Reply) {
    reply == Uploading(Transient, Nothing)
  }

  /** Each attempt meets a local check, an upload and a snapshot. After `k` uploads that failed without effect in a
      transient way one takes effect. */
  ghost predicate Tries(replies: seq<Reply>, k: nat)
    decreases k
  {
    && |replies| >= 3 && replies[0].Good? && replies[2].Good?
    && if k == 0 then TakesEffect(replies[1]) else NotYet(replies[1]) && Tries(replies[3..], k - 1)
  }

  ghost predicate Reached(w: World, plan: Plan, observed: set<string>) {
    Verified(w, plan, observed) && w.tagSha == plan.source && w.isDraft
  }

  ghost predicate IsMissing(plan: Plan, item: Artifact, observed: set<string>) {
    item.name !in observed && item.name in Wanted(plan.artifacts) && Wanted(plan.artifacts)[item.name] == item
  }

  lemma NamesGrowBy(assets: seq<RemoteAsset>, added: RemoteAsset)
    ensures Names(assets + [added]) == Names(assets) + {added.name}
  {
    var longer := assets + [added];
    forall n | n in Names(assets) ensures n in Names(longer) {
      var i :| 0 <= i < |assets| && assets[i].name == n;
      assert longer[i].name == n;
    }
    assert longer[|assets|].name == added.name;
  }

  /** One attempt, by what its upload did. */
  lemma EffectOfSending(w: World, plan: Plan, item: Artifact, attempt: nat, observed: set<string>)
    requires Reached(w, plan, observed) && IsMissing(plan, item, observed) && w.replies != []
    ensures var (w', outcome) := Send(w, item, attempt, false);
            && w'.replies == w.replies[1..]
            && (outcome.Killed? ==> !TakesEffect(w.replies[0]) && !NotYet(w.replies[0]))
            && (TakesEffect(w.replies[0]) ==> Reached(w', plan, observed + {item.name}))
            && (NotYet(w.replies[0]) ==> Reached(w', plan, observed) && outcome.Transient?)
            && (!TakesEffect(w.replies[0]) && !NotYet(w.replies[0]) && !outcome.Killed? ==>
                  !Clean(w'.assets, Wanted(plan.artifacts)) || (Verified(w', plan, observed) && !outcome.Transient?))
  {
    hide Wanted;
    var w' := Send(w, item, attempt, false).0;
    if w'.assets != w.assets {
      var added := w'.assets[|w.assets|];
      assert w'.assets == w.assets + [added] && added.name == item.name;
      NamesGrowBy(w.assets, added);
      forall i | 0 <= i < |w.assets| ensures w.assets[i].name in Names(w.assets) {}
    }
  }

  lemma SnapshotExactly(w: World, plan: Plan)
    ensures Snapshot(w, plan).1.Ok? <==>
            w.replies != [] && w.replies[0].Good? && w.tagSha == plan.source && w.isDraft && Clean(w.assets, Wanted(plan.artifacts))
    ensures Snapshot(w, plan).1.Ok? ==>
              && Snapshot(w, plan).1.value == Names(w.assets)
              && Snapshot(w, plan).0 == w.(replies := w.replies[1..])
  {
    hide Wanted, Clean;
    ObserveIsClean(w.assets, Wanted(plan.artifacts), {});
    assert {} + Names(w.assets) == Names(w.assets);
  }

  /** With `left` attempts to go, an artifact is returned if and only if one of them takes effect after transient
      errors only. */
  ghost predicate Gets(replies: seq<Reply>, left: nat) {
    exists k :: 0 <= k < left && Tries(replies, k)
  }

  lemma {:induction false} TriesOnce(replies: seq<Reply>, k: nat, l: nat)
    requires Tries(replies, k) && Tries(replies, l)
    ensures k == l
    decreases k
  {
    if k > 0 && l > 0 { TriesOnce(replies[3..], k - 1, l - 1); }
  }

  lemma GetsNow(replies: seq<Reply>, left: nat)
    requires left > 0
    ensures Gets(replies, left) <==>
            Tries(replies, 0) ||
            (|replies| >= 3 && replies[0].Good? && NotYet(replies[1]) && replies[2].Good? && Gets(replies[3..], left - 1))
  {
    hide NotYet, TakesEffect;
    if Gets(replies, left) {
      var k :| 0 <= k < left && Tries(replies, k);
      if k > 0 { assert Tries(replies[3..], k - 1); }
    }
    if |replies| >= 3 && replies[0].Good? && NotYet(replies[1]) && replies[2].Good? && Gets(replies[3..], left - 1) {
      var k :| 0 <= k < left - 1 && Tries(replies[3..], k);
      assert Tries(replies, k + 1);
    }
  }

  lemma FirstTry(replies: seq<Reply>)
    ensures Tries(replies, 0) <==> |replies| >= 3 && replies[0].Good? && TakesEffect(replies[1]) && replies[2].Good?
    ensures !Gets(replies, 0)
  {
  }

  lemma TryIsNoRetry(reply: Reply)
    ensures !(TakesEffect(reply) && NotYet(reply))
  {
  }

  lemma NoAnswer(w: World, item: Artifact, attempt: nat)
    requires w.replies == []
    ensures Send(w, item, attempt, false).1.Killed? && Send(w, item, attempt, true).1.Killed?
  {
  }

  /** One turn of the attempts from a verified draft, by its three answers. */
  lemma OneAttempt(w: World, plan: Plan, item: Artifact, attempt: nat, observed: set<string>)
    requires attempt < 3 && Reached(w, plan, observed) && IsMissing(plan, item, observed)
    ensures var answered := |w.replies| >= 3 && w.replies[0].Good? && w.replies[2].Good?;
            var (w', r) := Attempts(w, plan, item, attempt, observed);
            && (answered && TakesEffect(w.replies[1]) ==>
                  r == Ok(observed + {item.name}) && Reached(w', plan, observed + {item.name}) && w'.replies == w.replies[3..])
            && (answered && NotYet(w.replies[1]) && attempt < 2 ==>
                  exists w3 :: Reached(w3, plan, observed) && w3.replies == w.replies[3..]
                               && (w', r) == Attempts(w3, plan, item, attempt + 1, observed))
            && (!answered || !(TakesEffect(w.replies[1]) || (NotYet(w.replies[1]) && attempt < 2)) ==> r.Err?)
  {
    hide Wanted, Clean, Send, Snapshot, TakesEffect, NotYet;
    var w1 := LocalCheck(w, LocalChanged).0;
    if w.replies != [] && w.replies[0].Good? {
      if w1.replies == [] {
        NoAnswer(w1, item, attempt);
      } else {
        TryIsNoRetry(w1.replies[0]);
        EffectOfSending(w1, plan, item, attempt, observed);
        var (w2, outcome) := Send(w1, item, attempt, false);
        SnapshotExactly(w2, plan);
        var (w3, now) := Snapshot(w2, plan);
        if now.Ok? {
          assert w3.replies == w.replies[3..];
          assert NotYet(w1.replies[0]) ==> Reached(w3, plan, observed);
        }
      }
    }
  }

  /** With `3 - attempt` attempts to go, an artifact is returned if and only if one of them takes effect after transient
      errors only. */
  lemma {:induction false} AttemptsExactly(w: World, plan: Plan, item: Artifact, attempt: nat, observed: set<string>)
    requires attempt < 3 && Reached(w, plan, observed) && IsMissing(plan, item, observed)
    ensures Attempts(w, plan, item, attempt, observed).1.Ok? <==> Gets(w.replies, 3 - attempt)
    decreases 3 - attempt
  {
    hide Reached, Attempts, Tries, TakesEffect, NotYet, Gets;
    OneAttempt(w, plan, item, attempt, observed);
    GetsNow(w.replies, 3 - attempt);
    FirstTry(w.replies);
    if |w.replies| >= 3 {
      FirstTry(w.replies[3..]);
      TryIsNoRetry(w.replies[1]);
      if w.replies[0].Good? && w.replies[2].Good? && NotYet(w.replies[1]) && attempt < 2 {
        var w3 :| Reached(w3, plan, observed) && w3.replies == w.replies[3..]
                  && Attempts(w, plan, item, attempt, observed) == Attempts(w3, plan, item, attempt + 1, observed);
        AttemptsExactly(w3, plan, item, attempt + 1, observed);
      }
    }
  }

  lemma TriesUnfolds(replies: seq<Reply>, k: nat)
    requires Tries(replies, k)
    ensures |replies| >= 3 && replies[0].Good? && replies[2].Good?
    ensures k == 0 ==> TakesEffect(replies[1])
    ensures k > 0 ==> NotYet(replies[1]) && Tries(replies[3..], k - 1)
  {
  }

  /** Then the artifact is verified on the draft, and the answers that were not needed are left. */
  lemma {:induction false} AttemptsLeave(w: World, plan: Plan, item: Artifact, attempt: nat, observed: set<string>, k: nat)
    requires attempt + k < 3 && Reached(w, plan, observed) && IsMissing(plan, item, observed) && Tries(w.replies, k)
    ensures |w.replies| >= 3 * k + 3
    ensures var (w', r) := Attempts(w, plan, item, attempt, observed);
            && r == Ok(observed + {item.name}) && Reached(w', plan, observed + {item.name})
            && w'.replies == w.replies[3 * k + 3..]
    decreases k
  {
    hide Reached, IsMissing, Attempts, TakesEffect, NotYet, Tries;
    OneAttempt(w, plan, item, attempt, observed);
    TriesUnfolds(w.replies, k);
    if k > 0 {
      var w3 :| Reached(w3, plan, observed) && w3.replies == w.replies[3..]
                && Attempts(w, plan, item, attempt, observed) == Attempts(w3, plan, item, attempt + 1, observed);
      AttemptsLeave(w3, plan, item, attempt + 1, observed, k - 1);
      assert w.replies[3..][3 * (k - 1) + 3..] == w.replies[3 * k + 3..];
    }
  }

  ghost predicate TriesThen(replies: seq<Reply>, k: nat, plan: Plan, i: nat, present: set<string>)
    requires i <= |plan.artifacts|
    decreases |plan.artifacts| - i, 1
  {
    Tries(replies, k) && |replies| >= 3 * k + 3 && LetsThrough(plan, i, present, replies[3 * k + 3..])
  }

  /** The answers let every artifact from the `i`-th on through, and the last snapshot: an empty one needs a check of
      its bytes, one that the draft had needs nothing, any other needs its attempts. */
  ghost predicate LetsThrough(plan: Plan, i: nat, present: set<string>, replies: seq<Reply>)
    requires i <= |plan.artifacts|
    decreases |plan.artifacts| - i, 0
  {
    if i == |plan.artifacts| then replies != [] && replies[0].Good?
    else
      var (item, next) := (plan.artifacts[i], i + 1);
      if item.size == 0 then
        && item.evidence && item.sha256 == Sha256("")
        && replies != [] && replies[0].Good? && LetsThrough(plan, i + 1, present, replies[1..])
      else if item.name in present then LetsThrough(plan, i + 1, present, replies)
      else exists k :: 0 <= k < 3 && TriesThen(replies, k, plan, next, present)
  }

  /** The draft holds what it had at the start and the artifacts before the `i`-th. */
  ghost predicate Holding(plan: Plan, i: nat, present: set<string>, observed: set<string>)
    requires i <= |plan.artifacts|
  {
    && present <= observed
    && forall name :: name in observed ==> name in present || exists j :: 0 <= j < i && plan.artifacts[j].name == name
  }

  lemma VerifiedLater(w: World, w1: World, plan: Plan, observed: set<string>)
    requires w1 == w.(replies := w1.replies) && Reached(w, plan, observed)
    ensures Reached(w1, plan, observed)
  {
  }

  lemma {:induction false} StageFromExactly(w: World, plan: Plan, i: nat, observed: set<string>, present: set<string>)
    requires DistinctNames(plan.artifacts) && i <= |plan.artifacts| && Reached(w, plan, observed)
    requires Holding(plan, i, present, observed)
    ensures var (w', r) := StageFrom(w, plan, i, observed);
            (r.Ok? && w'.replies != [] && w'.replies[0].Good?) <==> LetsThrough(plan, i, present, w.replies)
    decreases |plan.artifacts| - i
  {
    hide Wanted, Clean, Attempts, Verified, Tries;
    if i < |plan.artifacts| {
      var item := plan.artifacts[i];
      if item.size == 0 {
        var w1 := LocalCheck(w, LocalChanged).0;
        if w.replies != [] {
          assert Reached(w1, plan, observed) by { VerifiedLater(w, w1, plan, observed); }
          StageFromExactly(w1, plan, i + 1, observed, present);
        }
      } else if item.name in present {
        StageFromExactly(w, plan, i + 1, observed, present);
      } else {
        WantedAt(plan.artifacts, i);
        assert item.name !in observed;
        AttemptsExactly(w, plan, item, 0, observed);
        var (w1, r) := Attempts(w, plan, item, 0, observed);
        if r.Ok? {
          var k :| 0 <= k < 3 && Tries(w.replies, k);
          AttemptsLeave(w, plan, item, 0, observed, k);
          StageFromExactly(w1, plan, i + 1, r.value, present);
          var next := i + 1;
          forall l | 0 <= l < 3 && TriesThen(w.replies, l, plan, next, present) ensures l == k { TriesOnce(w.replies, k, l); }
          assert TriesThen(w.replies, k, plan, i + 1, present) <==> LetsThrough(plan, i + 1, present, w1.replies);
        }
      }
    }
  }

  /** For any answers, faults of any kind included: a run returns if and only if it starts on the plan's tag, on a
      clean draft, and every answer it comes to is good, except that uploads may fail transiently without effect up to
      twice for each artifact, or report anything as long as they took effect. */
  lemma ReturnsForAnyAnswers(w: World, plan: Plan)
    requires DistinctNames(plan.artifacts)
    ensures Stage(w, plan).1.Ok? <==>
            && |w.replies| >= 2 && w.replies[0].Good? && w.replies[1].Good?
            && w.tagSha == plan.source && w.isDraft && Clean(w.assets, Wanted(plan.artifacts))
            && LetsThrough(plan, 0, Names(w.assets), w.replies[2..])
  {
    hide Wanted, Clean, StageFrom, Snapshot, DistinctNames, LetsThrough;
    var w0 := LocalCheck(w, LocalChanged).0;
    SnapshotExactly(w0, plan);
    var (w1, first) := Snapshot(w0, plan);
    if w.replies != [] && w.replies[0].Good? && first.Ok? {
      assert w1.replies == w.replies[2..];
      StageFromExactly(w1, plan, 0, first.value, Names(w.assets));
      var requests := StageFromSafe(w1, plan, 0, first.value);
      var (w2, staged) := StageFrom(w1, plan, 0, first.value);
      SnapshotExactly(w2, plan);
      if staged.Ok? { InventoryIsPlan(w2, plan, staged.value); }
    }
  }

  // ---------------------------------------------------------------- the program

  /** The draft as the program meets it. */
  class Draft {
    const tagSha: string
    const isDraft: bool
    var assets: seq<RemoteAsset>
    ghost var log: seq<Request>
    var replies: seq<Reply>

    constructor (tagSha: string, isDraft: bool, assets: seq<RemoteAsset>, replies: seq<Reply>)
      ensures State() == World(tagSha, isDraft, assets, [], replies)
    {
      this.tagSha, this.isDraft, this.assets, this.replies, this.log := tagSha, isDraft, assets, replies, [];
    }

    ghost function State(): World
      reads this
    {
      World(tagSha, isDraft, assets, log, replies)
    }

    method Ask() returns (reply: Reply)
      modifies this
      ensures (reply, State()) == old(State()).Ask()
    {
      if replies == [] {
        return Fault;
      }
      reply := replies[0];
      replies := replies[1..];
    }

    method CheckLocal(failure: Failure) returns (r: Result<(), Failure>)
      modifies this
      ensures (State(), r) == LocalCheck(old(State()), failure)
    {
      var reply := Ask();
      return if reply.Good? then Ok(()) else Err(failure);
    }

    method TakeSnapshot(plan: Plan) returns (r: Result<set<string>, Failure>)
      modifies this
      ensures (State(), r) == Snapshot(old(State()), plan)
    {
      var reply := Ask();
      if !reply.Good? {
        return Err(LookupFailed);
      }
      if tagSha != plan.source {
        return Err(WrongTag);
      }
      if !isDraft {
        return Err(NotDraft);
      }
      var wanted := Wanted(plan.artifacts);
      var observed: set<string> := {};
      for i := 0 to |assets|
        invariant State() == old(State()).Ask().1
        invariant Observe(assets[i..], wanted, observed) == Observe(assets, wanted, {})
      {
        assert assets[i..][1..] == assets[i + 1..];
        var asset := assets[i];
        if asset.name !in wanted || asset.name in observed {
          return Err(UnknownOrDuplicate);
        }
        if !asset.uploaded {
          return Err(Incomplete);
        }
        var item := wanted[asset.name];
        if asset.size != item.size || asset.digest != item.sha256 {
          return Err(Differs);
        }
        observed := observed + {asset.name};
      }
      return Ok(observed);
    }

    method Upload(item: Artifact, attempt: nat, ghost listed: bool) returns (outcome: Outcome)
      modifies this
      ensures (State(), outcome) == Send(old(State()), item, attempt, listed)
    {
      ghost var existed := HasName(assets, item.name);
      var reply := Ask();
      outcome := match reply case Good => Success case Fault => Killed case Uploading(o, _) => o;
      var effect := match reply case Good => Done case Fault => Nothing case Uploading(_, e) => e;
      log := log + [Request(item.name, attempt, listed, existed, outcome)];
      if effect.Done? {
        assets := assets + [RemoteAsset(item.name, true, item.size, item.sha256)];
      } else if effect.Stub? {
        assets := assets + [RemoteAsset(item.name, false, 0, Sha256(""))];
      }
    }

    method UploadWithRetries(plan: Plan, item: Artifact, observed0: set<string>) returns (r: Result<set<string>, Failure>)
      modifies this
      ensures (State(), r) == Attempts(old(State()), plan, item, 0, observed0)
    {
      hide Send, Snapshot;
      var observed := observed0;
      for attempt := 0 to ATTEMPTS
        invariant Attempts(State(), plan, item, attempt, observed) == Attempts(old(State()), plan, item, 0, observed0)
      {
        var local := CheckLocal(LocalChanged);
        if local.Err? {
          return Err(local.error);
        }
        var outcome := Upload(item, attempt, item.name in observed);
        if outcome.Killed? {
          return Err(Interrupted);
        }
        var snapshot := TakeSnapshot(plan);
        if snapshot.Err? {
          return Err(snapshot.error);
        }
        observed := snapshot.value;
        if outcome.Timeout? {
          return if item.name in observed then Ok(observed) else Err(TimedOut);
        }
        if item.name in observed {
          return Ok(observed);
        }
        if outcome.Success? {
          return Err(ReportedButAbsent);
        }
        if !outcome.Transient? {
          return Err(PermanentError);
        }
        if attempt >= 2 {
          return Err(Exhausted);
        }
      }
      return Ok(observed);
    }

    method StageAll(plan: Plan, observed0: set<string>) returns (r: Result<set<string>, Failure>)
      modifies this
      ensures (State(), r) == StageFrom(old(State()), plan, 0, observed0)
    {
      hide Attempts;
      var observed := observed0;
      for i := 0 to |plan.artifacts|
        invariant StageFrom(State(), plan, i, observed) == StageFrom(old(State()), plan, 0, observed0)
      {
        var item := plan.artifacts[i];
        if item.size == 0 {
          if !item.evidence || item.sha256 != Sha256("") {
            return Err(InvalidEvidence);
          }
          var local := CheckLocal(LocalChanged);
          if local.Err? {
            return Err(local.error);
          }
          continue;
        }
        if item.name in observed {
          continue;
        }
        var uploaded := UploadWithRetries(plan, item, observed);
        if uploaded.Err? {
          return Err(uploaded.error);
        }
        observed := uploaded.value;
      }
      return Ok(observed);
    }

    method StagePlan(plan: Plan) returns (r: Result<(), Failure>)
      modifies this
      ensures (State(), r) == Stage(old(State()), plan)
    {
      hide Snapshot, StageFrom;
      var local := CheckLocal(LocalChanged);
      if local.Err? {
        return Err(local.error);
      }
      var first := TakeSnapshot(plan);
      if first.Err? {
        return Err(first.error);
      }
      var staged := StageAll(plan, first.value);
      if staged.Err? {
        return Err(staged.error);
      }
      var last := TakeSnapshot(plan);
      if last.Err? {
        return Err(last.error);
      }
      if last.value != Wanted(plan.artifacts).Keys {
        return Err(FinalIncomplete);
      }
      return Ok(());
    }
  }
}
