/** The resumable npm publication (cli/ci/publication.py). */
module Publication {
  import opened Wrappers

  const PLATFORM_PACKAGES: seq<string> :=
    ["@openprose/prose-cli-darwin-arm64", "@openprose/prose-cli-darwin-x64",
     "@openprose/prose-cli-linux-arm64-gnu", "@openprose/prose-cli-linux-x64-gnu"]

  const ROOT_PACKAGE := "@openprose/prose-cli"
  const PACKAGES: seq<string> := PLATFORM_PACKAGES + [ROOT_PACKAGE]

  /** Digests are injective: they carry the content they were taken of. */
  datatype Digest = Sha256(content: string)

  datatype Integrity = Sha512(content: string)

  /** The reviewed plan: one version and the exact bytes of every package. */
  datatype Plan = Plan(version: string, content: map<string, string>)

  datatype Route = AlreadyPublished | Oidc | BootstrapToken

  /** What a run is allowed to do. `workflow` stands for the checks of the environment and the repository. */
  datatype Authority = Authority(workflow: bool, bootstrap: bool, token: bool, signOnly: bool)

  /** How the world answers one request. A publication that fails may still have taken effect, and one
      that reports success may not have. `Disk` answers a read of a local package. */
  datatype Reply = Good | Hollow | Fault(effect: bool) | Disk(content: string)

  /** One publication request, with what the registry held when it was made. */
  datatype Request = Request(name: string, route: Route, nameExisted: bool, versionExisted: bool, content: string)

  datatype Failure =
    | WrongWorkflow | LocalArtifacts | LookupFailed | DifferentBytes | NotAuthorized | SigningFailed
    | PackageChanged | BootstrapRefused | PublicationFailed | IntegrityMismatch

  /** The registry, the requests made so far, and the answers still to come; when they run out the run is
      interrupted. */
  datatype World = World(published: map<string, map<string, Integrity>>, log: seq<Request>, replies: seq<Reply>) {
    function Ask(): (Reply, World) {
      if replies == [] then (Fault(false), this) else (replies[0], this.(replies := replies[1..]))
    }

    function Lookup(name: string, version: string): Option<Integrity> {
      if name in published && version in published[name] then Some(published[name][version]) else None
    }

    function Put(name: string, version: string, content: string): World {
      var versions := if name in published then published[name] else map[];
      this.(published := published[name := versions[version := Sha512(content)]])
    }
  }

  // ---------------------------------------------------------------- requests

  function ReadIntegrity(w: World, name: string, version: string): (World, Result<Option<Integrity>, Failure>) {
    var (reply, w') := w.Ask();
    (w', if reply.Good? then Ok(w.Lookup(name, version)) else Err(LookupFailed))
  }

  function ReadExists(w: World, name: string): (World, Result<bool, Failure>) {
    var (reply, w') := w.Ask();
    (w', if reply.Good? then Ok(name in w.published) else Err(LookupFailed))
  }

  function ReadDisk(w: World, plan: Plan, name: string): (World, Result<string, Failure>)
    requires name in plan.content
  {
    var (reply, w') := w.Ask();
    (w', match reply
         case Good => Ok(plan.content[name])
         case Disk(content) => Ok(content)
         case _ => Err(LocalArtifacts))
  }

  /** `npm publish`: the registry takes whatever it is sent. */
  function Send(w: World, name: string, version: string, content: string, route: Route): (World, Result<(), Failure>) {
    var (reply, w1) := w.Ask();
    var w2 := w1.(log := w1.log + [Request(name, route, name in w.published, w.Lookup(name, version).Some?, content)]);
    var effect := reply.Good? || reply == Fault(true);
    (if effect then w2.Put(name, version, content) else w2,
     if reply.Good? || reply.Hollow? then Ok(()) else Err(PublicationFailed))
  }

  function PublishPackage(w: World, name: string, version: string, content: string, route: Route, token: bool)
    : (World, Result<(), Failure>)
  {
    if route.AlreadyPublished? then (w, Err(NotAuthorized))
    else if route.BootstrapToken? then
      if name !in PLATFORM_PACKAGES || !token then (w, Err(BootstrapRefused)) else
      var (w1, exists_) := ReadExists(w, name);
      match exists_
      case Err(e) => (w1, Err(e))
      case Ok(true) => (w1, Err(BootstrapRefused))
      case Ok(false) => Send(w1, name, version, content, route)
    else Send(w, name, version, content, route)
  }

  // ---------------------------------------------------------------- one run

  /** The published integrity of every package from the `i`-th on, read in order. */
  function ReadExisting(w: World, version: string, i: nat, existing: map<string, Option<Integrity>>)
    : (World, Result<map<string, Option<Integrity>>, Failure>)
    requires i <= |PACKAGES|
    decreases |PACKAGES| - i
  {
    if i == |PACKAGES| then (w, Ok(existing)) else
    var (w1, r) := ReadIntegrity(w, PACKAGES[i], version);
    match r
    case Err(e) => (w1, Err(e))
    case Ok(integrity) => ReadExisting(w1, version, i + 1, existing[PACKAGES[i] := integrity])
  }

  /** A version that exists must have the local bytes. */
  function CompareExisting(w: World, plan: Plan, i: nat, existing: map<string, Option<Integrity>>)
    : (World, Result<(), Failure>)
    requires i <= |PACKAGES|
    requires forall name :: name in PACKAGES ==> name in plan.content && name in existing
    decreases |PACKAGES| - i
  {
    if i == |PACKAGES| then (w, Ok(())) else
    var name := PACKAGES[i];
    if existing[name].None? then CompareExisting(w, plan, i + 1, existing) else
    var (w1, r) := ReadDisk(w, plan, name);
    match r
    case Err(e) => (w1, Err(e))
    case Ok(content) =>
      if existing[name].value != Sha512(content) then (w1, Err(DifferentBytes))
      else CompareExisting(w1, plan, i + 1, existing)
  }

  function ReadNames(w: World, i: nat, names: map<string, bool>): (World, Result<map<string, bool>, Failure>)
    requires i <= |PACKAGES|
    decreases |PACKAGES| - i
  {
    if i == |PACKAGES| then (w, Ok(names)) else
    var (w1, r) := ReadExists(w, PACKAGES[i]);
    match r
    case Err(e) => (w1, Err(e))
    case Ok(exists_) => ReadNames(w1, i + 1, names[PACKAGES[i] := exists_])
  }

  /** The credential route of one package, chosen before anything is changed. */
  function RouteOf(name: string, existing: Option<Integrity>, nameExists: bool, auth: Authority): Result<Route, Failure> {
    if existing.Some? then Ok(AlreadyPublished)
    else if nameExists then Ok(Oidc)
    else if name in PLATFORM_PACKAGES && auth.bootstrap && auth.token then Ok(BootstrapToken)
    else Err(NotAuthorized)
  }

  function Routes(existing: map<string, Option<Integrity>>, names: map<string, bool>, auth: Authority, i: nat,
                  routes: map<string, Route>): Result<map<string, Route>, Failure>
    requires i <= |PACKAGES|
    requires forall name :: name in PACKAGES ==> name in existing && name in names
    decreases |PACKAGES| - i
  {
    if i == |PACKAGES| then Ok(routes) else
    var name := PACKAGES[i];
    match RouteOf(name, existing[name], names[name], auth)
    case Err(e) => Err(e)
    case Ok(route) => Routes(existing, names, auth, i + 1, routes[name := route])
  }

  /** One turn of the publishing loop. */
  function PublishOne(w: World, plan: Plan, name: string, existing: Option<Integrity>, route: Route, token: bool)
    : (World, Result<(), Failure>)
    requires name in plan.content
  {
    var (w1, disk) := ReadDisk(w, plan, name);
    match disk
    case Err(e) => (w1, Err(e))
    case Ok(content) =>
      if Sha256(content) != Sha256(plan.content[name]) then (w1, Err(PackageChanged)) else
      var (w2, sent) := if existing.None? then PublishPackage(w1, name, plan.version, content, route, token)
                        else (w1, Ok(()));
      match sent
      case Err(e) => (w2, Err(e))
      case Ok(_) =>
        var (w3, read) := ReadIntegrity(w2, name, plan.version);
        match read
        case Err(e) => (w3, Err(e))
        case Ok(integrity) =>
          if integrity == Some(Sha512(content)) then (w3, Ok(())) else (w3, Err(IntegrityMismatch))
  }

  function PublishFrom(w: World, plan: Plan, i: nat, existing: map<string, Option<Integrity>>,
                       routes: map<string, Route>, token: bool): (World, Result<(), Failure>)
    requires i <= |PACKAGES|
    requires forall name :: name in PACKAGES ==> name in plan.content && name in existing && name in routes
    decreases |PACKAGES| - i
  {
    if i == |PACKAGES| then (w, Ok(())) else
    var name := PACKAGES[i];
    var (w1, r) := PublishOne(w, plan, name, existing[name], routes[name], token);
    match r
    case Err(e) => (w1, Err(e))
    case Ok(_) => PublishFrom(w1, plan, i + 1, existing, routes, token)
  }

  datatype Receipt = SignedOnly | Published(routes: map<string, Route>)

  /** A step outside the registry: verification of the artifacts, signing. */
  function Local(w: World, failure: Failure): (World, Result<(), Failure>) {
    var (reply, w') := w.Ask();
    (w', if reply.Good? then Ok(()) else Err(failure))
  }

  lemma ReadExistingKeys(w: World, version: string, i: nat, existing: map<string, Option<Integrity>>)
    requires i <= |PACKAGES| && forall j :: 0 <= j < i ==> PACKAGES[j] in existing
    ensures var r := ReadExisting(w, version, i, existing).1;
            r.Ok? ==> forall name :: name in PACKAGES ==> name in r.value
    decreases |PACKAGES| - i
  {
    if i < |PACKAGES| {
      var (w1, r) := ReadIntegrity(w, PACKAGES[i], version);
      if r.Ok? {
        ReadExistingKeys(w1, version, i + 1, existing[PACKAGES[i] := r.value]);
      }
    }
  }

  lemma ReadNamesKeys(w: World, i: nat, names: map<string, bool>)
    requires i <= |PACKAGES| && forall j :: 0 <= j < i ==> PACKAGES[j] in names
    ensures var r := ReadNames(w, i, names).1;
            r.Ok? ==> forall name :: name in PACKAGES ==> name in r.value
    decreases |PACKAGES| - i
  {
    if i < |PACKAGES| {
      var (w1, r) := ReadExists(w, PACKAGES[i]);
      if r.Ok? {
        ReadNamesKeys(w1, i + 1, names[PACKAGES[i] := r.value]);
      }
    }
  }

  lemma RoutesKeys(existing: map<string, Option<Integrity>>, names: map<string, bool>, auth: Authority, i: nat,
                   routes: map<string, Route>)
    requires i <= |PACKAGES| && forall name :: name in PACKAGES ==> name in existing && name in names
    requires forall j :: 0 <= j < i ==>
               PACKAGES[j] in routes && Ok(routes[PACKAGES[j]]) == RouteOf(PACKAGES[j], existing[PACKAGES[j]], names[PACKAGES[j]], auth)
    ensures var r := Routes(existing, names, auth, i, routes);
            r.Ok? ==> forall name :: name in PACKAGES ==>
              name in r.value && Ok(r.value[name]) == RouteOf(name, existing[name], names[name], auth)
    decreases |PACKAGES| - i
  {
    if i < |PACKAGES| {
      var r := RouteOf(PACKAGES[i], existing[PACKAGES[i]], names[PACKAGES[i]], auth);
      if r.Ok? {
        RoutesKeys(existing, names, auth, i + 1, routes[PACKAGES[i] := r.value]);
      }
    }
  }

  /** The registry part of a run: preflight, routes, signing, publication. */
  function Publishing(w: World, plan: Plan, auth: Authority): (World, Result<Receipt, Failure>)
    requires forall name :: name in PACKAGES ==> name in plan.content
  {
    var (w1, existing) := ReadExisting(w, plan.version, 0, map[]);
    if existing.Err? then (w1, Err(existing.error)) else
    ReadExistingKeys(w, plan.version, 0, map[]);
    var (w2, compared) := CompareExisting(w1, plan, 0, existing.value);
    if compared.Err? then (w2, Err(compared.error)) else
    var (w3, names) := ReadNames(w2, 0, map[]);
    if names.Err? then (w3, Err(names.error)) else
    ReadNamesKeys(w2, 0, map[]);
    var routes := Routes(existing.value, names.value, auth, 0, map[]);
    if routes.Err? then (w3, Err(routes.error)) else
    RoutesKeys(existing.value, names.value, auth, 0, map[]);
    var (w4, signed) := Local(w3, SigningFailed);
    if signed.Err? then (w4, Err(signed.error)) else
    var (w5, published) := PublishFrom(w4, plan, 0, existing.value, routes.value, auth.token);
    (w5, if published.Ok? then Ok(Published(routes.value)) else Err(published.error))
  }

  function Run(w: World, plan: Plan, auth: Authority): (World, Result<Receipt, Failure>)
    requires forall name :: name in PACKAGES ==> name in plan.content
  {
    if !auth.workflow then (w, Err(WrongWorkflow))
    else if auth.signOnly && (auth.bootstrap || auth.token) then (w, Err(NotAuthorized))
    else if auth.token && !auth.bootstrap then (w, Err(NotAuthorized)) else
    var (w1, verified) := Local(w, LocalArtifacts);
    if verified.Err? then (w1, Err(verified.error))
    else if auth.signOnly then
      var (w2, signed) := Local(w1, SigningFailed);
      (w2, if signed.Ok? then Ok(SignedOnly) else Err(signed.error))
    else Publishing(w1, plan, auth)
  }

  // ---------------------------------------------------------------- safety of one run

  /** A read leaves the registry and the requests alone. */
  ghost predicate OnlyRead(w: World, w': World) {
    w'.published == w.published && w'.log == w.log
  }

  /** Nothing published changed, and what was added are plan bytes of the plan's version. */
  ghost predicate Grew(w: World, w': World, plan: Plan) {
    && w.published.Keys <= w'.published.Keys
    && (forall name, v :: w.Lookup(name, v).Some? ==> w'.Lookup(name, v) == w.Lookup(name, v))
    && (forall name, v :: w.Lookup(name, v).None? && w'.Lookup(name, v).Some? ==>
          name in PACKAGES && v == plan.version && name in plan.content
          && w'.Lookup(name, v) == Some(Sha512(plan.content[name])))
  }

  /** A request never touches an existing version; the token only opens absent platform names. */
  ghost predicate RequestOk(plan: Plan, r: Request) {
    && r.name in PACKAGES && r.name in plan.content && r.content == plan.content[r.name]
    && !r.versionExisted && !r.route.AlreadyPublished?
    && (r.route.BootstrapToken? ==> r.name in PLATFORM_PACKAGES && !r.nameExisted)
    && (r.route.Oidc? ==> r.nameExisted)
  }

  ghost predicate Holds(w: World, plan: Plan, name: string) {
    name in plan.content && w.Lookup(name, plan.version) == Some(Sha512(plan.content[name]))
  }

  ghost predicate Complete(w: World, plan: Plan) {
    forall name :: name in PACKAGES ==> Holds(w, plan, name)
  }

  /** The root package depends on the platform packages: it is never there without them. */
  ghost predicate RootComplete(w: World, plan: Plan) {
    w.Lookup(ROOT_PACKAGE, plan.version).Some? ==> Complete(w, plan)
  }

  lemma PackagesDistinct()
    ensures |PACKAGES| == 5 && PACKAGES[4] == ROOT_PACKAGE
    ensures forall i, j :: 0 <= i < j < 5 ==> PACKAGES[i] != PACKAGES[j]
    ensures forall i :: 0 <= i < 4 ==> PACKAGES[i] == PLATFORM_PACKAGES[i]
    ensures ROOT_PACKAGE !in PLATFORM_PACKAGES
  {
    var a, b := PLATFORM_PACKAGES, |ROOT_PACKAGE|;
    assert |a[0]| == 33 && |a[1]| == 31 && |a[2]| == 36 && |a[3]| == 34 && b == 20;
  }

  lemma {:induction false} ExistingIsTrue(w: World, version: string, i: nat, existing: map<string, Option<Integrity>>)
    requires i <= |PACKAGES| && forall j :: 0 <= j < i ==>
               PACKAGES[j] in existing && existing[PACKAGES[j]] == w.Lookup(PACKAGES[j], version)
    ensures var (w', r) := ReadExisting(w, version, i, existing);
            && OnlyRead(w, w')
            && (r.Ok? ==> forall name :: name in PACKAGES ==> name in r.value && r.value[name] == w.Lookup(name, version))
    decreases |PACKAGES| - i
  {
    PackagesDistinct();
    if i < |PACKAGES| {
      var (w1, r) := ReadIntegrity(w, PACKAGES[i], version);
      if r.Ok? {
        ExistingIsTrue(w1, version, i + 1, existing[PACKAGES[i] := r.value]);
      }
    }
  }

  lemma {:induction false} NamesAreTrue(w: World, i: nat, names: map<string, bool>)
    requires i <= |PACKAGES| && forall j :: 0 <= j < i ==>
               PACKAGES[j] in names && names[PACKAGES[j]] == (PACKAGES[j] in w.published)
    ensures var (w', r) := ReadNames(w, i, names);
            && OnlyRead(w, w')
            && (r.Ok? ==> forall name :: name in PACKAGES ==> name in r.value && r.value[name] == (name in w.published))
    decreases |PACKAGES| - i
  {
    PackagesDistinct();
    if i < |PACKAGES| {
      var (w1, r) := ReadExists(w, PACKAGES[i]);
      if r.Ok? {
        NamesAreTrue(w1, i + 1, names[PACKAGES[i] := r.value]);
      }
    }
  }

  lemma {:induction false} ComparingOnlyReads(w: World, plan: Plan, i: nat, existing: map<string, Option<Integrity>>)
    requires i <= |PACKAGES|
    requires forall name :: name in PACKAGES ==> name in plan.content && name in existing
    ensures OnlyRead(w, CompareExisting(w, plan, i, existing).0)
    decreases |PACKAGES| - i
  {
    if i < |PACKAGES| {
      if existing[PACKAGES[i]].None? {
        ComparingOnlyReads(w, plan, i + 1, existing);
      } else {
        var (w1, r) := ReadDisk(w, plan, PACKAGES[i]);
        if r.Ok? && existing[PACKAGES[i]].value == Sha512(r.value) {
          ComparingOnlyReads(w1, plan, i + 1, existing);
        }
      }
    }
  }

  /** What the preflight established for the packages not yet handled. */
  ghost predicate Pending(w: World, plan: Plan, i: nat, existing: map<string, Option<Integrity>>,
                          routes: map<string, Route>) {
    && (forall name :: name in PACKAGES ==> name in plan.content && name in existing && name in routes)
    && (forall j :: i <= j < |PACKAGES| ==>
          var name := PACKAGES[j];
          && existing[name] == w.Lookup(name, plan.version)
          && (existing[name].None? ==> !routes[name].AlreadyPublished?)
          && (routes[name].Oidc? ==> name in w.published))
  }

  /** The requests of one run so far: each acceptable, on the chosen route, no package twice. */
  ghost predicate RequestsOk(plan: Plan, routes: map<string, Route>, requests: seq<Request>, i: nat) {
    && (forall k :: 0 <= k < |requests| ==>
          RequestOk(plan, requests[k]) && requests[k].name in routes && routes[requests[k].name] == requests[k].route)
    && (forall k :: 0 <= k < |requests| ==> exists j :: i <= j < |PACKAGES| && requests[k].name == PACKAGES[j])
    && (forall k, l :: 0 <= k < l < |requests| ==> requests[k].name != requests[l].name)
  }

  /** At most one request, and afterwards, on success, the package is there. */
  ghost predicate OneStep(w: World, w': World, plan: Plan, name: string, route: Route) {
    && Grew(w, w', plan)
    && (forall other, v :: other != name || v != plan.version ==> w'.Lookup(other, v) == w.Lookup(other, v))
    && (forall other :: other != name ==> (other in w'.published <==> other in w.published))
    && (w'.log == w.log || exists r :: w'.log == w.log + [r] && r.name == name && r.route == route && RequestOk(plan, r))
  }

  lemma SendSafe(w: World, plan: Plan, name: string, route: Route)
    requires name in PACKAGES && name in plan.content && w.Lookup(name, plan.version).None?
    requires route.Oidc? ==> name in w.published
    requires route.BootstrapToken? ==> name in PLATFORM_PACKAGES && name !in w.published
    requires !route.AlreadyPublished?
    ensures OneStep(w, Send(w, name, plan.version, plan.content[name], route).0, plan, name, route)
  {
    var w' := Send(w, name, plan.version, plan.content[name], route).0;
    var r := Request(name, route, name in w.published, w.Lookup(name, plan.version).Some?, plan.content[name]);
    assert w'.log == w.log + [r] && RequestOk(plan, r);
  }

  lemma StepBetweenReads(w: World, w1: World, w2: World, w3: World, plan: Plan, name: string, route: Route)
    requires OnlyRead(w, w1) && OneStep(w1, w2, plan, name, route) && OnlyRead(w2, w3)
    ensures OneStep(w, w3, plan, name, route)
  {
    assert forall n, v :: w1.Lookup(n, v) == w.Lookup(n, v) && w3.Lookup(n, v) == w2.Lookup(n, v);
  }

  lemma NoStep(w: World, w': World, plan: Plan, name: string, route: Route)
    requires OnlyRead(w, w')
    ensures OneStep(w, w', plan, name, route)
  {
    assert forall n, v :: w'.Lookup(n, v) == w.Lookup(n, v);
  }

  lemma PublishPackageSafe(w: World, plan: Plan, name: string, route: Route, token: bool)
    requires name in PACKAGES && name in plan.content && w.Lookup(name, plan.version).None?
    requires route.Oidc? ==> name in w.published
    ensures OneStep(w, PublishPackage(w, name, plan.version, plan.content[name], route, token).0, plan, name, route)
  {
    hide OneStep, Send;
    NoStep(w, w, plan, name, route);
    if route.BootstrapToken? {
      var (w1, exists_) := ReadExists(w, name);
      NoStep(w, w1, plan, name, route);
      if name in PLATFORM_PACKAGES && exists_ == Ok(false) {
        SendSafe(w1, plan, name, route);
        var w2 := Send(w1, name, plan.version, plan.content[name], route).0;
        StepBetweenReads(w, w1, w2, w2, plan, name, route);
      }
    } else if route.Oidc? {
      SendSafe(w, plan, name, route);
    }
  }

  lemma PublishOneSafe(w: World, plan: Plan, name: string, existing: Option<Integrity>, route: Route, token: bool)
    requires name in PACKAGES && name in plan.content && existing == w.Lookup(name, plan.version)
    requires route.Oidc? ==> name in w.published
    ensures var (w', r) := PublishOne(w, plan, name, existing, route, token);
            OneStep(w, w', plan, name, route) && (r.Ok? ==> Holds(w', plan, name))
  {
    hide OneStep, PublishPackage;
    var (w1, disk) := ReadDisk(w, plan, name);
    NoStep(w, w1, plan, name, route);
    if disk.Ok? && disk.value == plan.content[name] {
      var (w2, sent) := if existing.None? then PublishPackage(w1, name, plan.version, disk.value, route, token)
                        else (w1, Ok(()));
      if existing.None? {
        PublishPackageSafe(w1, plan, name, route, token);
      } else {
        NoStep(w1, w1, plan, name, route);
      }
      var (w3, read) := ReadIntegrity(w2, name, plan.version);
      StepBetweenReads(w, w1, w2, w2, plan, name, route);
      StepBetweenReads(w, w1, w2, w3, plan, name, route);
    }
  }

  /** What the publishing loop guarantees from the `i`-th package on. */
  ghost predicate LoopSafe(w: World, w': World, plan: Plan, ok: bool, requests: seq<Request>,
                           routes: map<string, Route>, i: nat) {
    && Grew(w, w', plan)
    && w'.log == w.log + requests && RequestsOk(plan, routes, requests, i)
    && (ok ==> Complete(w', plan))
    && (w.Lookup(ROOT_PACKAGE, plan.version).None? ==> RootComplete(w', plan))
  }

  lemma LoopDone(w: World, plan: Plan, routes: map<string, Route>)
    requires forall j :: 0 <= j < |PACKAGES| ==> Holds(w, plan, PACKAGES[j])
    ensures LoopSafe(w, w, plan, true, [], routes, |PACKAGES|)
  {
    assert w.log == w.log + [];
    forall name | name in PACKAGES ensures Holds(w, plan, name) {
      var j :| 0 <= j < |PACKAGES| && PACKAGES[j] == name;
    }
  }

  lemma StepRequests(w: World, w': World, plan: Plan, name: string, route: Route) returns (first: seq<Request>)
    requires OneStep(w, w', plan, name, route)
    ensures w'.log == w.log + first && |first| <= 1
    ensures forall r :: r in first ==> r.name == name && r.route == route && RequestOk(plan, r)
  {
    hide RequestOk, Grew;
    if w'.log == w.log {
      first := [];
    } else {
      var r :| w'.log == w.log + [r] && r.name == name && r.route == route && RequestOk(plan, r);
      first := [r];
    }
  }

  lemma RequestsJoin(plan: Plan, routes: map<string, Route>, first: seq<Request>, rest: seq<Request>, i: nat)
    requires i < |PACKAGES| && PACKAGES[i] in routes && |first| <= 1
    requires forall r :: r in first ==> r.name == PACKAGES[i] && r.route == routes[r.name] && RequestOk(plan, r)
    requires RequestsOk(plan, routes, rest, i + 1)
    ensures RequestsOk(plan, routes, first + rest, i)
  {
    hide RequestOk;
    PackagesDistinct();
    var all := first + rest;
    forall k | 0 <= k < |all| ensures all[k] in first || (|first| <= k && all[k] == rest[k - |first|]) {}
  }

  lemma StepGrew(w: World, w1: World, plan: Plan, name: string, route: Route)
    requires OneStep(w, w1, plan, name, route)
    ensures Grew(w, w1, plan)
  {
  }

  lemma NoRequests(plan: Plan, routes: map<string, Route>, i: nat)
    ensures RequestsOk(plan, routes, [], i)
  {
  }

  /** A step on a platform package leaves the root alone; the step on the root finds the others in place. */
  lemma RootUntouched(w: World, w1: World, plan: Plan, i: nat, route: Route)
    requires i < |PACKAGES| && OneStep(w, w1, plan, PACKAGES[i], route)
    requires forall j :: 0 <= j < i ==> Holds(w1, plan, PACKAGES[j])
    requires forall name :: name in PACKAGES ==> name in plan.content
    ensures w.Lookup(ROOT_PACKAGE, plan.version).None? ==> RootComplete(w1, plan)
  {
    hide RequestOk;
    PackagesDistinct();
    if w.Lookup(ROOT_PACKAGE, plan.version).None? && w1.Lookup(ROOT_PACKAGE, plan.version).Some? {
      assert i == 4;
      assert Holds(w1, plan, PACKAGES[4]);
      forall name | name in PACKAGES ensures Holds(w1, plan, name) {
        var j :| 0 <= j < |PACKAGES| && PACKAGES[j] == name;
      }
    }
  }

  /** One turn, and either the loop stops there or the later turns are safe. */
  lemma LoopTurn(w: World, w1: World, plan: Plan, routes: map<string, Route>, i: nat) returns (first: seq<Request>)
    requires i < |PACKAGES| && PACKAGES[i] in routes && OneStep(w, w1, plan, PACKAGES[i], routes[PACKAGES[i]])
    requires forall j :: 0 <= j < i ==> Holds(w1, plan, PACKAGES[j])
    requires forall name :: name in PACKAGES ==> name in plan.content
    ensures LoopSafe(w, w1, plan, false, first, routes, i)
    ensures |first| <= 1
    ensures forall r :: r in first ==> r.name == PACKAGES[i] && r.route == routes[r.name] && RequestOk(plan, r)
  {
    hide RequestOk, Holds, RootComplete, RequestsOk, OneStep, Grew;
    StepGrew(w, w1, plan, PACKAGES[i], routes[PACKAGES[i]]);
    RootUntouched(w, w1, plan, i, routes[PACKAGES[i]]);
    first := StepRequests(w, w1, plan, PACKAGES[i], routes[PACKAGES[i]]);
    NoRequests(plan, routes, i + 1);
    RequestsJoin(plan, routes, first, [], i);
    assert first + [] == first;
  }

  lemma GrewTwice(w: World, w1: World, w2: World, plan: Plan)
    requires Grew(w, w1, plan) && Grew(w1, w2, plan)
    ensures Grew(w, w2, plan)
  {
    forall name, v | w.Lookup(name, v).None? && w2.Lookup(name, v).Some?
      ensures name in PACKAGES && v == plan.version && name in plan.content
      ensures w2.Lookup(name, v) == Some(Sha512(plan.content[name]))
    {
      if w1.Lookup(name, v).Some? { assert w2.Lookup(name, v) == w1.Lookup(name, v); }
    }
  }

  /** Completeness is never lost. */
  lemma CompleteStays(w: World, w': World, plan: Plan)
    requires Grew(w, w', plan) && Complete(w, plan)
    ensures Complete(w', plan)
  {
  }

  lemma RootLater(w: World, w1: World, w2: World, plan: Plan)
    requires Grew(w1, w2, plan)
    requires w.Lookup(ROOT_PACKAGE, plan.version).None? ==> RootComplete(w1, plan)
    requires w1.Lookup(ROOT_PACKAGE, plan.version).None? ==> RootComplete(w2, plan)
    ensures w.Lookup(ROOT_PACKAGE, plan.version).None? ==> RootComplete(w2, plan)
  {
    if w1.Lookup(ROOT_PACKAGE, plan.version).Some? && RootComplete(w1, plan) {
      CompleteStays(w1, w2, plan);
    }
  }

  lemma LoopTurns(w: World, w1: World, w2: World, plan: Plan, ok: bool, first: seq<Request>, rest: seq<Request>,
                  routes: map<string, Route>, i: nat)
    requires i < |PACKAGES| && PACKAGES[i] in routes
    requires LoopSafe(w, w1, plan, false, first, routes, i) && LoopSafe(w1, w2, plan, ok, rest, routes, i + 1)
    requires |first| <= 1 && forall r :: r in first ==> r.name == PACKAGES[i] && r.route == routes[r.name] && RequestOk(plan, r)
    ensures LoopSafe(w, w2, plan, ok, first + rest, routes, i)
  {
    hide RequestOk, Holds, RootComplete, RequestsOk, Grew, Complete;
    GrewTwice(w, w1, w2, plan);
    RequestsJoin(plan, routes, first, rest, i);
    RootLater(w, w1, w2, plan);
  }

  lemma PendingAfter(w: World, w1: World, plan: Plan, i: nat, existing: map<string, Option<Integrity>>,
                     routes: map<string, Route>)
    requires i < |PACKAGES| && Pending(w, plan, i, existing, routes)
    requires OneStep(w, w1, plan, PACKAGES[i], routes[PACKAGES[i]])
    requires forall j :: 0 <= j < i ==> Holds(w, plan, PACKAGES[j])
    ensures Pending(w1, plan, i + 1, existing, routes)
    ensures forall j :: 0 <= j < i ==> Holds(w1, plan, PACKAGES[j])
  {
    hide RequestOk;
    PackagesDistinct();
  }

  lemma {:induction false} PublishFromSafe(w: World, plan: Plan, i: nat, existing: map<string, Option<Integrity>>,
                                           routes: map<string, Route>, token: bool)
    returns (requests: seq<Request>)
    requires i <= |PACKAGES| && Pending(w, plan, i, existing, routes)
    requires forall j :: 0 <= j < i ==> Holds(w, plan, PACKAGES[j])
    ensures var (w', r) := PublishFrom(w, plan, i, existing, routes, token);
            LoopSafe(w, w', plan, r.Ok?, requests, routes, i)
    decreases |PACKAGES| - i
  {
    hide PublishOne, LoopSafe, Holds, OneStep;
    if i == |PACKAGES| {
      requests := [];
      LoopDone(w, plan, routes);
    } else {
      var name := PACKAGES[i];
      var (w1, r) := PublishOne(w, plan, name, existing[name], routes[name], token);
      PublishOneSafe(w, plan, name, existing[name], routes[name], token);
      PendingAfter(w, w1, plan, i, existing, routes);
      var first := LoopTurn(w, w1, plan, routes, i);
      if r.Ok? {
        var rest := PublishFromSafe(w1, plan, i + 1, existing, routes, token);
        requests := first + rest;
        var (w2, r2) := PublishFrom(w1, plan, i + 1, existing, routes, token);
        LoopTurns(w, w1, w2, plan, r2.Ok?, first, rest, routes, i);
      } else {
        requests := first;
      }
    }
  }

  /** What any run does to the registry, however it ends. */
  ghost predicate RunSafe(w: World, w': World, plan: Plan, r: Result<Receipt, Failure>, requests: seq<Request>,
                          routes: map<string, Route>) {
    && Grew(w, w', plan)
    && w'.log == w.log + requests && RequestsOk(plan, routes, requests, 0)
    && (RootComplete(w, plan) ==> RootComplete(w', plan))
    && (r.Ok? && r.value.Published? ==> r.value.routes == routes && Complete(w', plan))
    && (r == Ok(SignedOnly) ==> requests == [] && w'.published == w.published)
  }

  lemma ReadIsSafe(w: World, w': World, plan: Plan, r: Result<Receipt, Failure>, routes: map<string, Route>)
    requires OnlyRead(w, w') && !(r.Ok? && r.value.Published?)
    ensures RunSafe(w, w', plan, r, [], routes)
  {
    assert forall n, v :: w'.Lookup(n, v) == w.Lookup(n, v);
    assert w'.log == w.log + [];
    if RootComplete(w, plan) && w'.Lookup(ROOT_PACKAGE, plan.version).Some? {
      assert Complete(w, plan);
    }
  }

  lemma PendingAtStart(w: World, plan: Plan, existing: map<string, Option<Integrity>>, names: map<string, bool>,
                       routes: map<string, Route>, auth: Authority)
    requires forall name :: name in PACKAGES ==> name in plan.content && name in existing && name in names && name in routes
    requires forall name :: name in PACKAGES ==>
               existing[name] == w.Lookup(name, plan.version) && names[name] == (name in w.published)
               && Ok(routes[name]) == RouteOf(name, existing[name], names[name], auth)
    ensures Pending(w, plan, 0, existing, routes)
  {
    forall j | 0 <= j < |PACKAGES| ensures PACKAGES[j] in PACKAGES {}
  }

  /** The reads of the preflight do not weaken what publication guarantees. */
  lemma AfterReads(w: World, w1: World, w': World, plan: Plan)
    requires OnlyRead(w, w1) && Grew(w1, w', plan)
    requires w1.Lookup(ROOT_PACKAGE, plan.version).None? ==> RootComplete(w', plan)
    ensures Grew(w, w', plan) && (RootComplete(w, plan) ==> RootComplete(w', plan))
  {
    assert forall n, v :: w1.Lookup(n, v) == w.Lookup(n, v);
    if RootComplete(w, plan) && w.Lookup(ROOT_PACKAGE, plan.version).Some? {
      CompleteStays(w, w', plan);
    }
  }

  lemma PublishingSafe(w: World, plan: Plan, auth: Authority) returns (requests: seq<Request>, routes: map<string, Route>)
    requires forall name :: name in PACKAGES ==> name in plan.content
    ensures var (w', r) := Publishing(w, plan, auth); RunSafe(w, w', plan, r, requests, routes)
  {
    hide RequestsOk, Grew, RootComplete, Complete, Holds, Pending,
         ReadExisting, CompareExisting, ReadNames, Routes, PublishFrom;
    requests, routes := [], map[];
    var (w', r) := Publishing(w, plan, auth);
    ExistingIsTrue(w, plan.version, 0, map[]);
    ReadExistingKeys(w, plan.version, 0, map[]);
    var (w1, existing) := ReadExisting(w, plan.version, 0, map[]);
    if existing.Err? { ReadIsSafe(w, w', plan, r, routes); return; }
    ComparingOnlyReads(w1, plan, 0, existing.value);
    var (w2, compared) := CompareExisting(w1, plan, 0, existing.value);
    if compared.Err? { ReadIsSafe(w, w', plan, r, routes); return; }
    NamesAreTrue(w2, 0, map[]);
    var (w3, names) := ReadNames(w2, 0, map[]);
    if names.Err? { ReadIsSafe(w, w', plan, r, routes); return; }
    RoutesKeys(existing.value, names.value, auth, 0, map[]);
    var chosen := Routes(existing.value, names.value, auth, 0, map[]);
    var (w4, signed) := Local(w3, SigningFailed);
    if chosen.Err? || signed.Err? { ReadIsSafe(w, w', plan, r, routes); return; }
    routes := chosen.value;
    PendingAtStart(w4, plan, existing.value, names.value, routes, auth);
    requests := PublishFromSafe(w4, plan, 0, existing.value, routes, auth.token);
    AfterReads(w, w4, w', plan);
  }

  lemma SafeAfterRead(w: World, w1: World, w': World, plan: Plan, r: Result<Receipt, Failure>,
                      requests: seq<Request>, routes: map<string, Route>)
    requires OnlyRead(w, w1) && RunSafe(w1, w', plan, r, requests, routes)
    ensures RunSafe(w, w', plan, r, requests, routes)
  {
    hide RequestsOk;
    assert forall n, v :: w1.Lookup(n, v) == w.Lookup(n, v);
    if RootComplete(w, plan) && w1.Lookup(ROOT_PACKAGE, plan.version).Some? {
      assert Complete(w, plan);
      assert Complete(w1, plan);
    }
  }

  /** Every run, whatever the answers and wherever it is interrupted: no published version changes, only plan
      bytes are added, the root stays behind the platform packages, and every request is acceptable, on its
      chosen route and for a package not yet requested in the run. */
  lemma RunIsSafe(w: World, plan: Plan, auth: Authority) returns (requests: seq<Request>, routes: map<string, Route>)
    requires forall name :: name in PACKAGES ==> name in plan.content
    ensures var (w', r) := Run(w, plan, auth); RunSafe(w, w', plan, r, requests, routes)
  {
    hide RunSafe, Publishing;
    requests, routes := [], map[];
    var (w', r) := Run(w, plan, auth);
    var (w1, verified) := Local(w, LocalArtifacts);
    if auth.workflow && !(auth.token && !auth.bootstrap) && verified.Ok? && !auth.signOnly {
      requests, routes := PublishingSafe(w1, plan, auth);
      SafeAfterRead(w, w1, w', plan, r, requests, routes);
    } else {
      ReadIsSafe(w, w', plan, r, routes);
    }
  }

  // ---------------------------------------------------------------- histories of runs

  /** One run: its authority and the answers it meets before it ends or is interrupted. */
  datatype Session = Session(auth: Authority, replies: seq<Reply>)

  function History(w: World, plan: Plan, sessions: seq<Session>): World
    requires forall name :: name in PACKAGES ==> name in plan.content
    decreases |sessions|
  {
    if sessions == [] then w else
    History(Run(w.(replies := sessions[0].replies), plan, sessions[0].auth).0, plan, sessions[1..])
  }

  lemma SessionLog(w: World, w1: World, w': World, plan: Plan, requests: seq<Request>, routes: map<string, Route>)
    requires w1.log == w.log + requests && RequestsOk(plan, routes, requests, 0)
    requires |w1.log| <= |w'.log| && w'.log[..|w1.log|] == w1.log
    requires forall k :: |w1.log| <= k < |w'.log| ==> RequestOk(plan, w'.log[k])
    ensures |w.log| <= |w'.log| && w'.log[..|w.log|] == w.log
    ensures forall k :: |w.log| <= k < |w'.log| ==> RequestOk(plan, w'.log[k])
  {
    hide RequestOk;
    assert w'.log[..|w.log|] == w1.log[..|w.log|];
    forall k | |w.log| <= k < |w1.log| ensures RequestOk(plan, w'.log[k]) {
      assert w'.log[k] == w'.log[..|w1.log|][k] == requests[k - |w.log|];
    }
  }

  /** Over any sequence of runs of one plan: published versions never change, additions are plan bytes, and if
      the root's version was absent at the start it appears only together with all four platform packages;
      every request of the whole history was acceptable when it was made. */
  lemma {:induction false} HistoryIsSafe(w: World, plan: Plan, sessions: seq<Session>)
    requires forall name :: name in PACKAGES ==> name in plan.content
    ensures var w' := History(w, plan, sessions);
            && Grew(w, w', plan)
            && (RootComplete(w, plan) ==> RootComplete(w', plan))
            && |w.log| <= |w'.log| && w'.log[..|w.log|] == w.log
            && forall k :: |w.log| <= k < |w'.log| ==> RequestOk(plan, w'.log[k])
    decreases |sessions|
  {
    hide RequestOk, RootComplete, Run;
    if sessions != [] {
      var before := w.(replies := sessions[0].replies);
      ReadIsSafe(w, before, plan, Err(LookupFailed), map[]);
      var requests, routes := RunIsSafe(before, plan, sessions[0].auth);
      var w1 := Run(before, plan, sessions[0].auth).0;
      HistoryIsSafe(w1, plan, sessions[1..]);
      var w' := History(w1, plan, sessions[1..]);
      SessionLog(w, w1, w', plan, requests, routes);
      GrewTwice(w, w1, w', plan);
    }
  }

  // ---------------------------------------------------------------- a fault-free rerun completes

  /** At least `n` answers are left and none is a fault. */
  ghost predicate Plenty(w: World, n: nat) {
    |w.replies| >= n && forall k :: 0 <= k < |w.replies| ==> w.replies[k].Good?
  }

  lemma Answered(w: World, n: nat)
    requires Plenty(w, n + 1)
    ensures var (reply, w') := w.Ask(); reply.Good? && Plenty(w', n) && OnlyRead(w, w')
  {
  }

  /** What is published of the plan's version are the plan's bytes. */
  ghost predicate Consistent(w: World, plan: Plan) {
    forall name :: name in PACKAGES ==> w.Lookup(name, plan.version).None? || Holds(w, plan, name)
  }

  /** Every package still missing may be published by this run. */
  ghost predicate Authorized(w: World, plan: Plan, auth: Authority) {
    && auth.workflow && !auth.signOnly && (auth.token ==> auth.bootstrap)
    && forall name :: name in PACKAGES && w.Lookup(name, plan.version).None? ==>
         name in w.published || (name in PLATFORM_PACKAGES && auth.bootstrap && auth.token)
  }

  lemma {:induction false} ExistingAnswered(w: World, version: string, i: nat, existing: map<string, Option<Integrity>>, n: nat)
    requires i <= |PACKAGES| && Plenty(w, n + |PACKAGES| - i)
    ensures var (w', r) := ReadExisting(w, version, i, existing); r.Ok? && Plenty(w', n)
    decreases |PACKAGES| - i
  {
    if i < |PACKAGES| {
      Answered(w, n + |PACKAGES| - i - 1);
      var (w1, r) := ReadIntegrity(w, PACKAGES[i], version);
      ExistingAnswered(w1, version, i + 1, existing[PACKAGES[i] := r.value], n);
    }
  }

  lemma {:induction false} NamesAnswered(w: World, i: nat, names: map<string, bool>, n: nat)
    requires i <= |PACKAGES| && Plenty(w, n + |PACKAGES| - i)
    ensures var (w', r) := ReadNames(w, i, names); r.Ok? && Plenty(w', n)
    decreases |PACKAGES| - i
  {
    if i < |PACKAGES| {
      Answered(w, n + |PACKAGES| - i - 1);
      var (w1, r) := ReadExists(w, PACKAGES[i]);
      NamesAnswered(w1, i + 1, names[PACKAGES[i] := r.value], n);
    }
  }

  lemma {:induction false} ComparisonPasses(w: World, plan: Plan, i: nat, existing: map<string, Option<Integrity>>, n: nat)
    requires i <= |PACKAGES| && Plenty(w, n + |PACKAGES| - i)
    requires forall name :: name in PACKAGES ==>
               && name in plan.content && name in existing
               && (existing[name].None? || existing[name] == Some(Sha512(plan.content[name])))
    ensures var (w', r) := CompareExisting(w, plan, i, existing); r.Ok? && Plenty(w', n)
    decreases |PACKAGES| - i
  {
    if i < |PACKAGES| {
      Answered(w, n + |PACKAGES| - i - 1);
      var (w1, r) := ReadDisk(w, plan, PACKAGES[i]);
      ComparisonPasses(if existing[PACKAGES[i]].None? then w else w1, plan, i + 1, existing, n);
    }
  }

  lemma {:induction false} RoutesFound(existing: map<string, Option<Integrity>>, names: map<string, bool>, auth: Authority,
                                       i: nat, routes: map<string, Route>)
    requires i <= |PACKAGES|
    requires forall name :: name in PACKAGES ==> name in existing && name in names && RouteOf(name, existing[name], names[name], auth).Ok?
    ensures Routes(existing, names, auth, i, routes).Ok?
    decreases |PACKAGES| - i
  {
    if i < |PACKAGES| {
      var r := RouteOf(PACKAGES[i], existing[PACKAGES[i]], names[PACKAGES[i]], auth);
      RoutesFound(existing, names, auth, i + 1, routes[PACKAGES[i] := r.value]);
    }
  }

  /** The token route is only chosen for an absent platform name, and stays so until it is used. */
  ghost predicate TokenUsable(w: World, i: nat, routes: map<string, Route>, token: bool) {
    forall j :: i <= j < |PACKAGES| && PACKAGES[j] in routes && routes[PACKAGES[j]].BootstrapToken? ==>
      PACKAGES[j] in PLATFORM_PACKAGES && PACKAGES[j] !in w.published && token
  }

  lemma SendAnswered(w: World, name: string, version: string, content: string, route: Route, n: nat)
    requires Plenty(w, n + 1)
    ensures var (w', r) := Send(w, name, version, content, route);
            r.Ok? && Plenty(w', n) && w'.Lookup(name, version) == Some(Sha512(content))
  {
    Answered(w, n);
  }

  lemma PublishPackageAnswered(w: World, name: string, version: string, content: string, route: Route, token: bool, n: nat)
    requires Plenty(w, n + 2) && !route.AlreadyPublished?
    requires route.BootstrapToken? ==> name in PLATFORM_PACKAGES && name !in w.published && token
    ensures var (w', r) := PublishPackage(w, name, version, content, route, token);
            r.Ok? && Plenty(w', n) && w'.Lookup(name, version) == Some(Sha512(content))
  {
    hide Send;
    if route.BootstrapToken? {
      Answered(w, n + 1);
      var (w1, exists_) := ReadExists(w, name);
      SendAnswered(w1, name, version, content, route, n);
    } else {
      SendAnswered(w, name, version, content, route, n + 1);
    }
  }

  lemma PublishOneAnswered(w: World, plan: Plan, name: string, existing: Option<Integrity>, route: Route, token: bool, n: nat)
    requires Plenty(w, n + 4) && name in plan.content
    requires existing == w.Lookup(name, plan.version) && (existing.None? || existing == Some(Sha512(plan.content[name])))
    requires existing.None? ==> !route.AlreadyPublished?
    requires route.BootstrapToken? ==> name in PLATFORM_PACKAGES && name !in w.published && token
    ensures var (w', r) := PublishOne(w, plan, name, existing, route, token); r.Ok? && Plenty(w', n)
  {
    hide PublishPackage;
    Answered(w, n + 3);
    var (w1, disk) := ReadDisk(w, plan, name);
    assert w1.Lookup(name, plan.version) == existing;
    if existing.None? {
      PublishPackageAnswered(w1, name, plan.version, disk.value, route, token, n + 1);
      var (w2, sent) := PublishPackage(w1, name, plan.version, disk.value, route, token);
      Answered(w2, n);
    } else {
      Answered(w1, n + 2);
    }
  }

  lemma TokenAfter(w: World, w1: World, plan: Plan, i: nat, routes: map<string, Route>, token: bool)
    requires i < |PACKAGES| && PACKAGES[i] in routes && TokenUsable(w, i, routes, token)
    requires OneStep(w, w1, plan, PACKAGES[i], routes[PACKAGES[i]])
    ensures TokenUsable(w1, i + 1, routes, token)
  {
    hide RequestOk, Grew;
    PackagesDistinct();
  }

  lemma {:induction false} PublishFromAnswered(w: World, plan: Plan, i: nat, existing: map<string, Option<Integrity>>,
                                               routes: map<string, Route>, token: bool, n: nat)
    requires i <= |PACKAGES| && Plenty(w, n + 4 * (|PACKAGES| - i))
    requires Pending(w, plan, i, existing, routes) && TokenUsable(w, i, routes, token)
    requires forall j :: 0 <= j < i ==> Holds(w, plan, PACKAGES[j])
    requires forall name :: name in PACKAGES ==> existing[name].None? || existing[name] == Some(Sha512(plan.content[name]))
    ensures PublishFrom(w, plan, i, existing, routes, token).1.Ok?
    decreases |PACKAGES| - i
  {
    hide PublishOne, OneStep;
    if i < |PACKAGES| {
      var name := PACKAGES[i];
      PublishOneAnswered(w, plan, name, existing[name], routes[name], token, n + 4 * (|PACKAGES| - i - 1));
      PublishOneSafe(w, plan, name, existing[name], routes[name], token);
      var (w1, r) := PublishOne(w, plan, name, existing[name], routes[name], token);
      PendingAfter(w, w1, plan, i, existing, routes);
      TokenAfter(w, w1, plan, i, routes, token);
      PublishFromAnswered(w1, plan, i + 1, existing, routes, token, n);
    }
  }

  lemma PackageCount()
    ensures |PACKAGES| == 5
  {
  }

  lemma SameLookups(w: World, w0: World, w1: World, plan: Plan)
    requires OnlyRead(w, w0) && OnlyRead(w0, w1)
    ensures forall name, v :: w0.Lookup(name, v) == w1.Lookup(name, v) == w.Lookup(name, v)
  {
  }

  lemma AuthorizedRoutes(w: World, plan: Plan, auth: Authority, existing: map<string, Option<Integrity>>, names: map<string, bool>)
    requires Authorized(w, plan, auth)
    requires forall name :: name in PACKAGES ==>
               && name in existing && name in names
               && existing[name] == w.Lookup(name, plan.version) && names[name] == (name in w.published)
    ensures forall name :: name in PACKAGES ==> RouteOf(name, existing[name], names[name], auth).Ok?
  {
  }

  lemma TokenAtStart(w: World, existing: map<string, Option<Integrity>>, names: map<string, bool>,
                     routes: map<string, Route>, auth: Authority)
    requires forall name :: name in PACKAGES ==>
               && name in existing && name in names && name in routes
               && names[name] == (name in w.published)
               && Ok(routes[name]) == RouteOf(name, existing[name], names[name], auth)
    ensures TokenUsable(w, 0, routes, auth.token)
  {
    forall j | 0 <= j < |PACKAGES| ensures PACKAGES[j] in PACKAGES {}
  }

  lemma PublishingCompletes(w: World, plan: Plan, auth: Authority)
    requires forall name :: name in PACKAGES ==> name in plan.content
    requires Consistent(w, plan) && Authorized(w, plan, auth) && Plenty(w, 36)
    ensures var (w', r) := Publishing(w, plan, auth); r.Ok? && r.value.Published? && Complete(w', plan)
  {
    hide Complete, RequestsOk, Grew, RootComplete, Plenty, Pending, TokenUsable,
         ReadExisting, CompareExisting, ReadNames, Routes, PublishFrom, RouteOf;
    PackageCount();
    ExistingIsTrue(w, plan.version, 0, map[]);
    ExistingAnswered(w, plan.version, 0, map[], 31);
    var (w1, existing) := ReadExisting(w, plan.version, 0, map[]);
    ComparingOnlyReads(w1, plan, 0, existing.value);
    ComparisonPasses(w1, plan, 0, existing.value, 26);
    var (w2, compared) := CompareExisting(w1, plan, 0, existing.value);
    NamesAreTrue(w2, 0, map[]);
    NamesAnswered(w2, 0, map[], 21);
    var (w3, names) := ReadNames(w2, 0, map[]);
    AuthorizedRoutes(w, plan, auth, existing.value, names.value);
    RoutesFound(existing.value, names.value, auth, 0, map[]);
    RoutesKeys(existing.value, names.value, auth, 0, map[]);
    var routes := Routes(existing.value, names.value, auth, 0, map[]).value;
    Answered(w3, 20);
    var (w4, signed) := Local(w3, SigningFailed);
    SameLookups(w, w, w4, plan);
    PendingAtStart(w4, plan, existing.value, names.value, routes, auth);
    TokenAtStart(w4, existing.value, names.value, routes, auth);
    PublishFromAnswered(w4, plan, 0, existing.value, routes, auth.token, 0);
    var requests := PublishFromSafe(w4, plan, 0, existing.value, routes, auth.token);
  }

  lemma RunCompletes(w: World, plan: Plan, auth: Authority)
    requires forall name :: name in PACKAGES ==> name in plan.content
    requires Consistent(w, plan) && Authorized(w, plan, auth) && Plenty(w, 37)
    ensures var (w', r) := Run(w, plan, auth); r.Ok? && r.value.Published? && Complete(w', plan)
  {
    hide Publishing, Plenty;
    Answered(w, 36);
    var (w0, verified) := Local(w, LocalArtifacts);
    SameLookups(w, w0, w0, plan);
    PublishingCompletes(w0, plan, auth);
  }

  lemma StillAuthorized(w: World, w': World, plan: Plan, auth: Authority)
    requires Consistent(w, plan) && Authorized(w, plan, auth) && Grew(w, w', plan)
    ensures Consistent(w', plan) && Authorized(w', plan, auth)
  {
  }

  /** From wherever interrupted runs have left the registry, one authorised run without faults publishes
      whatever is missing and ends with all five packages in place. */
  lemma RerunCompletes(w: World, plan: Plan, sessions: seq<Session>, auth: Authority, replies: seq<Reply>)
    requires forall name :: name in PACKAGES ==> name in plan.content
    requires Consistent(w, plan) && Authorized(w, plan, auth)
    requires |replies| >= 37 && forall k :: 0 <= k < |replies| ==> replies[k].Good?
    ensures var (w', r) := Run(History(w, plan, sessions).(replies := replies), plan, auth);
            r.Ok? && r.value.Published? && Complete(w', plan)
  {
    hide RequestOk, RootComplete, Run, History;
    HistoryIsSafe(w, plan, sessions);
    var left := History(w, plan, sessions);
    StillAuthorized(w, left, plan, auth);
    var again := left.(replies := replies);
    SameLookups(left, again, again, plan);
    RunCompletes(again, plan, auth);
  }

  /** A run that returns found its routes, so each missing package was allowed one. */
  lemma PublishingNeeds(w: World, plan: Plan, auth: Authority)
    requires forall name :: name in PACKAGES ==> name in plan.content
    requires Publishing(w, plan, auth).1.Ok?
    ensures forall name :: name in PACKAGES && w.Lookup(name, plan.version).None? ==>
              name in w.published || (name in PLATFORM_PACKAGES && auth.bootstrap && auth.token)
  {
    hide ReadExisting, CompareExisting, ReadNames, Routes, PublishFrom;
    ExistingIsTrue(w, plan.version, 0, map[]);
    ReadExistingKeys(w, plan.version, 0, map[]);
    var (w1, existing) := ReadExisting(w, plan.version, 0, map[]);
    ComparingOnlyReads(w1, plan, 0, existing.value);
    var (w2, compared) := CompareExisting(w1, plan, 0, existing.value);
    NamesAreTrue(w2, 0, map[]);
    var (w3, names) := ReadNames(w2, 0, map[]);
    RoutesKeys(existing.value, names.value, auth, 0, map[]);
  }

  lemma CompleteWasConsistent(w: World, w': World, plan: Plan)
    requires Grew(w, w', plan) && Complete(w', plan)
    ensures Consistent(w, plan)
  {
  }

  lemma PublishedNeeds(w: World, plan: Plan, auth: Authority)
    requires forall name :: name in PACKAGES ==> name in plan.content
    requires Run(w, plan, auth).1.Ok? && Run(w, plan, auth).1.value.Published?
    ensures Consistent(w, plan) && Authorized(w, plan, auth)
  {
    hide Publishing, Complete, Grew, RequestsOk, RootComplete, Consistent;
    var requests, routes := RunIsSafe(w, plan, auth);
    var w' := Run(w, plan, auth).0;
    CompleteWasConsistent(w, w', plan);
    var w0 := Local(w, LocalArtifacts).0;
    PublishingNeeds(w0, plan, auth);
    SameLookups(w, w0, w0, plan);
  }

  /** From any registry a run that meets no fault publishes, and ends with all five packages in place, exactly when
      what is there of the version are the plan's bytes and every missing package is allowed a route. */
  lemma PublishesExactlyWhen(w: World, plan: Plan, auth: Authority)
    requires (forall name :: name in PACKAGES ==> name in plan.content) && Plenty(w, 37)
    ensures var (w', r) := Run(w, plan, auth);
            && (r.Ok? && r.value.Published? <==> Consistent(w, plan) && Authorized(w, plan, auth))
            && (r.Ok? && r.value.Published? ==> Complete(w', plan))
  {
    hide Run, Consistent, Authorized, Plenty, Complete;
    var r := Run(w, plan, auth).1;
    if Consistent(w, plan) && Authorized(w, plan, auth) { RunCompletes(w, plan, auth); }
    if r.Ok? && r.value.Published? { PublishedNeeds(w, plan, auth); }
  }

  // ---------------------------------------------------------------- nothing without the whole preflight

  /** How many of the first `n` packages have the plan's version published. */
  ghost function Present(w: World, plan: Plan, n: nat): nat
    requires n <= |PACKAGES|
  {
    if n == 0 then 0 else Present(w, plan, n - 1) + if w.Lookup(PACKAGES[n - 1], plan.version).Some? then 1 else 0
  }

  /** A read of the local package gave these bytes. */
  ghost predicate ReadBytes(plan: Plan, name: string, reply: Reply, content: string) {
    reply == Disk(content) || (reply.Good? && name in plan.content && content == plan.content[name])
  }

  /** From answer `from` on, `n` good ones. */
  ghost predicate GoodAt(replies: seq<Reply>, from: nat, n: nat) {
    from + n <= |replies| && forall k :: from <= k < from + n ==> replies[k].Good?
  }

  /** Every published package of the version had the bytes that were read for it, from answer `from` on. */
  ghost predicate ComparedAt(w: World, plan: Plan, replies: seq<Reply>, from: nat, i: nat)
    requires i <= |PACKAGES|
  {
    && from + Present(w, plan, |PACKAGES|) - Present(w, plan, i) <= |replies|
    && forall j :: i <= j < |PACKAGES| && w.Lookup(PACKAGES[j], plan.version).Some? ==>
         var k := from + Present(w, plan, j) - Present(w, plan, i);
         0 <= k < |replies|
         && exists content :: ReadBytes(plan, PACKAGES[j], replies[k], content)
                              && w.Lookup(PACKAGES[j], plan.version) == Some(Sha512(content))
  }

  lemma {:induction false} PresentGrows(w: World, plan: Plan, i: nat, j: nat)
    requires i <= j <= |PACKAGES|
    ensures Present(w, plan, i) <= Present(w, plan, j) <= Present(w, plan, i) + (j - i)
    decreases j
  {
    if i < j { PresentGrows(w, plan, i, j - 1); }
  }

  /** In the order of the source: the artifacts verified, every version looked up, the bytes of every published one
      compared, every name looked up, a route for every missing package, and the artifacts signed. */
  ghost predicate PreflightPassed(w: World, plan: Plan, auth: Authority) {
    && auth.workflow && !auth.signOnly && (auth.token ==> auth.bootstrap)
    && GoodAt(w.replies, 0, 6)
    && ComparedAt(w, plan, w.replies, 6, 0)
    && GoodAt(w.replies, 6 + Present(w, plan, 5), 6)
    && forall name :: name in PACKAGES && w.Lookup(name, plan.version).None? ==>
         name in w.published || (name in PLATFORM_PACKAGES && auth.bootstrap && auth.token)
  }

  lemma GoodLater(replies: seq<Reply>, n: nat)
    requires replies != [] && replies[0].Good? && GoodAt(replies[1..], 0, n)
    ensures GoodAt(replies, 0, n + 1) && replies[1..][n..] == replies[n + 1..]
  {
    forall k | 0 < k < n + 1 ensures replies[k].Good? {
      assert replies[1..][k - 1] == replies[k];
    }
  }

  lemma {:induction false} ExistingAsks(w: World, version: string, i: nat, existing: map<string, Option<Integrity>>)
    requires i <= |PACKAGES| && ReadExisting(w, version, i, existing).1.Ok?
    ensures GoodAt(w.replies, 0, |PACKAGES| - i)
    ensures ReadExisting(w, version, i, existing).0.replies == w.replies[|PACKAGES| - i..]
    decreases |PACKAGES| - i
  {
    if i < |PACKAGES| {
      var (w1, r) := ReadIntegrity(w, PACKAGES[i], version);
      ExistingAsks(w1, version, i + 1, existing[PACKAGES[i] := r.value]);
      GoodLater(w.replies, |PACKAGES| - i - 1);
    }
  }

  lemma {:induction false} NamesAsk(w: World, i: nat, names: map<string, bool>)
    requires i <= |PACKAGES| && ReadNames(w, i, names).1.Ok?
    ensures GoodAt(w.replies, 0, |PACKAGES| - i)
    ensures ReadNames(w, i, names).0.replies == w.replies[|PACKAGES| - i..]
    decreases |PACKAGES| - i
  {
    if i < |PACKAGES| {
      var (w1, r) := ReadExists(w, PACKAGES[i]);
      NamesAsk(w1, i + 1, names[PACKAGES[i] := r.value]);
      GoodLater(w.replies, |PACKAGES| - i - 1);
    }
  }

  lemma NothingToCompare(w: World, plan: Plan)
    ensures ComparedAt(w, plan, w.replies, 0, |PACKAGES|)
  {
  }

  lemma ComparedAbsent(w: World, plan: Plan, i: nat)
    requires i < |PACKAGES| && w.Lookup(PACKAGES[i], plan.version).None? && ComparedAt(w, plan, w.replies, 0, i + 1)
    ensures Present(w, plan, i + 1) == Present(w, plan, i) && ComparedAt(w, plan, w.replies, 0, i)
  {
    hide ReadBytes;
  }

  lemma BytesOfDisk(w: World, plan: Plan, name: string)
    requires name in plan.content && ReadDisk(w, plan, name).1.Ok?
    ensures w.replies != [] && ReadBytes(plan, name, w.replies[0], ReadDisk(w, plan, name).1.value)
    ensures ReadDisk(w, plan, name).0 == w.(replies := w.replies[1..])
  {
  }

  lemma {:induction false} SamePresent(w: World, w1: World, plan: Plan, n: nat)
    requires OnlyRead(w, w1) && n <= |PACKAGES|
    ensures forall j :: 0 <= j <= n ==> Present(w1, plan, j) == Present(w, plan, j)
    decreases n
  {
    if n > 0 { SamePresent(w, w1, plan, n - 1); }
  }

  lemma PresentNext(w: World, plan: Plan, i: nat)
    requires i < |PACKAGES| && w.Lookup(PACKAGES[i], plan.version).Some?
    ensures Present(w, plan, i + 1) == Present(w, plan, i) + 1
  {
  }

  lemma ComparedFirst(w: World, w1: World, plan: Plan, i: nat, content: string)
    requires i < |PACKAGES| && w1 == w.(replies := w1.replies) && w.replies != [] && w1.replies == w.replies[1..]
    requires w.Lookup(PACKAGES[i], plan.version) == Some(Sha512(content))
    requires ReadBytes(plan, PACKAGES[i], w.replies[0], content)
    requires ComparedAt(w1, plan, w1.replies, 0, i + 1)
    ensures ComparedAt(w, plan, w.replies, 0, i)
  {
    hide ReadBytes, Present;
    assert Present(w, plan, i + 1) == Present(w, plan, i) + 1 by { PresentNext(w, plan, i); }
    SamePresent(w, w1, plan, |PACKAGES|);
    forall j | i <= j < |PACKAGES| && w.Lookup(PACKAGES[j], plan.version).Some?
      ensures var k := Present(w, plan, j) - Present(w, plan, i);
              0 <= k < |w.replies|
              && exists bytes :: ReadBytes(plan, PACKAGES[j], w.replies[k], bytes)
                                 && w.Lookup(PACKAGES[j], plan.version) == Some(Sha512(bytes))
    {
      if j > i {
        assert w1.Lookup(PACKAGES[j], plan.version) == w.Lookup(PACKAGES[j], plan.version);
        var k := Present(w1, plan, j) - Present(w1, plan, i + 1);
        assert w1.replies[k] == w.replies[k + 1];
      }
    }
  }

  lemma {:induction false} ComparisonAsks(w: World, plan: Plan, i: nat, existing: map<string, Option<Integrity>>)
    requires i <= |PACKAGES|
    requires forall name :: name in PACKAGES ==> name in plan.content && name in existing
    requires forall name :: name in PACKAGES ==> existing[name] == w.Lookup(name, plan.version)
    requires CompareExisting(w, plan, i, existing).1.Ok?
    ensures var n := Present(w, plan, |PACKAGES|) - Present(w, plan, i);
            && 0 <= n <= |w.replies| && CompareExisting(w, plan, i, existing).0.replies == w.replies[n..]
    ensures ComparedAt(w, plan, w.replies, 0, i)
    decreases |PACKAGES| - i
  {
    hide ComparedAt, Present, ReadBytes;
    if i == |PACKAGES| {
      NothingToCompare(w, plan);
    } else if existing[PACKAGES[i]].None? {
      ComparisonAsks(w, plan, i + 1, existing);
      ComparedAbsent(w, plan, i);
    } else {
      var (w1, r) := ReadDisk(w, plan, PACKAGES[i]);
      SamePresent(w, w1, plan, |PACKAGES|);
      ComparisonAsks(w1, plan, i + 1, existing);
      PresentNext(w, plan, i);
      PresentGrows(w, plan, i + 1, |PACKAGES|);
      BytesOfDisk(w, plan, PACKAGES[i]);
      ComparedFirst(w, w1, plan, i, r.value);
      var n := Present(w, plan, |PACKAGES|) - Present(w, plan, i);
      assert w1.replies[n - 1..] == w.replies[n..];
    }
  }

  lemma NothingPresentYet(w: World, plan: Plan)
    ensures Present(w, plan, 0) == 0
  {
  }

  /** The answers of the steps, counted from the start. */
  lemma AnswersSpelled(w: World, w1: World, w2: World, w3: World, plan: Plan, n: nat)
    requires |PACKAGES| == 5 && OnlyRead(w, w1) && n == Present(w1, plan, 5)
    requires GoodAt(w.replies, 0, 5) && w1.replies == w.replies[5..]
    requires ComparedAt(w1, plan, w1.replies, 0, 0) && n <= |w1.replies| && w2.replies == w1.replies[n..]
    requires GoodAt(w2.replies, 0, 5) && w3.replies == w2.replies[5..]
    requires w3.replies != [] && w3.replies[0].Good?
    ensures ComparedAt(w, plan, w.replies, 5, 0) && GoodAt(w.replies, 5 + Present(w, plan, 5), 6)
  {
    hide ReadBytes, Present;
    SamePresent(w, w1, plan, 5);
    assert Present(w, plan, 0) == 0 && Present(w1, plan, 0) == 0 by { NothingPresentYet(w, plan); NothingPresentYet(w1, plan); }
    forall k | 5 + n <= k < 11 + n ensures k < |w.replies| && w.replies[k].Good? {
      if k < 10 + n {
        assert w2.replies[k - 5 - n] == w1.replies[k - 5] == w.replies[k];
      } else {
        assert w3.replies[0] == w2.replies[5] == w1.replies[5 + n] == w.replies[10 + n];
      }
    }
    forall j | 0 <= j < |PACKAGES| && w.Lookup(PACKAGES[j], plan.version).Some?
      ensures var k := 5 + Present(w, plan, j) - Present(w, plan, 0);
              0 <= k < |w.replies|
              && exists content :: ReadBytes(plan, PACKAGES[j], w.replies[k], content)
                                   && w.Lookup(PACKAGES[j], plan.version) == Some(Sha512(content))
    {
      assert w1.Lookup(PACKAGES[j], plan.version) == w.Lookup(PACKAGES[j], plan.version);
      var k := Present(w1, plan, j) - Present(w1, plan, 0);
      assert w1.replies[k] == w.replies[k + 5];
    }
  }

  /** The preflight as `Publishing` runs it, before which nothing is requested. */
  lemma RequestsNeedPreflight(w: World, plan: Plan, auth: Authority)
    requires forall name :: name in PACKAGES ==> name in plan.content
    requires Publishing(w, plan, auth).0.published != w.published || Publishing(w, plan, auth).0.log != w.log
    ensures GoodAt(w.replies, 0, 5) && ComparedAt(w, plan, w.replies, 5, 0)
    ensures GoodAt(w.replies, 5 + Present(w, plan, 5), 6)
    ensures forall name :: name in PACKAGES && w.Lookup(name, plan.version).None? ==>
              name in w.published || (name in PLATFORM_PACKAGES && auth.bootstrap && auth.token)
  {
    hide ReadExisting, CompareExisting, ReadNames, Routes, PublishFrom, Present, ComparedAt, GoodAt;
    PackageCount();
    ExistingIsTrue(w, plan.version, 0, map[]);
    ReadExistingKeys(w, plan.version, 0, map[]);
    var (w1, existing) := ReadExisting(w, plan.version, 0, map[]);
    assert existing.Ok?;
    ExistingAsks(w, plan.version, 0, map[]);
    ComparingOnlyReads(w1, plan, 0, existing.value);
    var (w2, compared) := CompareExisting(w1, plan, 0, existing.value);
    assert compared.Ok?;
    ComparisonAsks(w1, plan, 0, existing.value);
    NamesAreTrue(w2, 0, map[]);
    var (w3, names) := ReadNames(w2, 0, map[]);
    assert names.Ok?;
    NamesAsk(w2, 0, map[]);
    RoutesKeys(existing.value, names.value, auth, 0, map[]);
    var (w4, signed) := Local(w3, SigningFailed);
    assert signed.Ok?;
    NothingPresentYet(w1, plan);
    AnswersSpelled(w, w1, w2, w3, plan, Present(w1, plan, 5));
  }

  lemma PreflightFromStart(w: World, w0: World, plan: Plan)
    requires w0 == w.(replies := w0.replies) && w.replies != [] && w.replies[0].Good? && w0.replies == w.replies[1..]
    requires GoodAt(w0.replies, 0, 5) && ComparedAt(w0, plan, w0.replies, 5, 0) && GoodAt(w0.replies, 5 + Present(w0, plan, 5), 6)
    ensures GoodAt(w.replies, 0, 6) && ComparedAt(w, plan, w.replies, 6, 0) && GoodAt(w.replies, 6 + Present(w, plan, 5), 6)
  {
    hide ReadBytes, Present;
    PackageCount();
    SamePresent(w, w0, plan, 5);
    forall k | 0 <= k < |w0.replies| ensures w0.replies[k] == w.replies[k + 1] {}
    forall k | 0 <= k < 6 ensures w.replies[k].Good? {
      if k > 0 { assert w0.replies[k - 1] == w.replies[k]; }
    }
    var n := Present(w, plan, 5);
    forall k | 6 + n <= k < 12 + n ensures k < |w.replies| && w.replies[k].Good? {
      assert w0.replies[k - 1] == w.replies[k];
    }
    forall j | 0 <= j < |PACKAGES| && w.Lookup(PACKAGES[j], plan.version).Some?
      ensures var k := 6 + Present(w, plan, j) - Present(w, plan, 0);
              0 <= k < |w.replies|
              && exists content :: ReadBytes(plan, PACKAGES[j], w.replies[k], content)
                                   && w.Lookup(PACKAGES[j], plan.version) == Some(Sha512(content))
    {
      assert w0.Lookup(PACKAGES[j], plan.version) == w.Lookup(PACKAGES[j], plan.version);
      var k := 5 + Present(w0, plan, j) - Present(w0, plan, 0);
      assert w0.replies[k] == w.replies[k + 1];
    }
  }

  /** Whatever the answers: the registry is asked for nothing, and nothing changes there, unless every package has
      passed the whole preflight. */
  lemma NothingWithoutPreflight(w: World, plan: Plan, auth: Authority)
    requires forall name :: name in PACKAGES ==> name in plan.content
    requires Run(w, plan, auth).0.published != w.published || Run(w, plan, auth).0.log != w.log
    ensures PreflightPassed(w, plan, auth)
  {
    hide Publishing, ComparedAt, GoodAt, Present;
    var w0 := Local(w, LocalArtifacts).0;
    RequestsNeedPreflight(w0, plan, auth);
    PreflightFromStart(w, w0, plan);
    SameLookups(w, w0, w0, plan);
  }

  lemma PassedIsConsistent(w: World, plan: Plan, auth: Authority)
    requires PreflightPassed(w, plan, auth) && forall k :: 0 <= k < |w.replies| ==> !w.replies[k].Disk?
    ensures Consistent(w, plan)
  {
    hide Present;
    forall name | name in PACKAGES ensures w.Lookup(name, plan.version).None? || Holds(w, plan, name) {
      var j :| 0 <= j < |PACKAGES| && PACKAGES[j] == name;
    }
  }

  /** In particular: while the local packages are the plan's, a published version with other bytes stops a run before
      anything is sent. */
  lemma OtherBytesStopEverything(w: World, plan: Plan, auth: Authority)
    requires forall name :: name in PACKAGES ==> name in plan.content
    requires !Consistent(w, plan) && forall k :: 0 <= k < |w.replies| ==> !w.replies[k].Disk?
    ensures Run(w, plan, auth).0.published == w.published && Run(w, plan, auth).0.log == w.log
  {
    hide Run, Consistent;
    if Run(w, plan, auth).0.published != w.published || Run(w, plan, auth).0.log != w.log {
      NothingWithoutPreflight(w, plan, auth);
      PassedIsConsistent(w, plan, auth);
    }
  }

  /** Whatever was decided before: the token is never sent for a name that exists at that moment, nor for the root. */
  lemma TokenOnlyForAbsentNames(w: World, name: string, version: string, content: string, route: Route, token: bool)
    requires PublishPackage(w, name, version, content, route, token).0.log != w.log
    ensures route.Oidc? || (route.BootstrapToken? && token && name in PLATFORM_PACKAGES && name !in w.published)
  {
    hide Send;
  }

  /** The answers a package of the loop uses up: its bytes, its integrity, and its publication. */
  ghost function Cost(route: Route): nat {
    match route case AlreadyPublished => 2 case Oidc => 3 case BootstrapToken => 4
  }

  ghost function Costs(routes: map<string, Route>, i: nat): nat
    requires i <= |PACKAGES| && forall name :: name in PACKAGES ==> name in routes
    decreases |PACKAGES| - i
  {
    if i == |PACKAGES| then 0 else Cost(routes[PACKAGES[i]]) + Costs(routes, i + 1)
  }

  lemma PublishPackageAsks(w: World, name: string, version: string, content: string, route: Route, token: bool)
    requires PublishPackage(w, name, version, content, route, token).1.Ok?
    ensures |PublishPackage(w, name, version, content, route, token).0.replies| + Cost(route) == |w.replies| + 2
  {
  }

  lemma PublishOneAsks(w: World, plan: Plan, name: string, existing: Option<Integrity>, route: Route, token: bool)
    requires name in plan.content && (existing.Some? <==> route.AlreadyPublished?)
    requires PublishOne(w, plan, name, existing, route, token).1.Ok?
    ensures |PublishOne(w, plan, name, existing, route, token).0.replies| + Cost(route) == |w.replies|
  {
    hide PublishPackage;
    var (w1, disk) := ReadDisk(w, plan, name);
    if existing.None? {
      PublishPackageAsks(w1, name, plan.version, disk.value, route, token);
    }
  }

  lemma {:induction false} PublishFromAsks(w: World, plan: Plan, i: nat, existing: map<string, Option<Integrity>>,
                                           routes: map<string, Route>, token: bool)
    requires i <= |PACKAGES|
    requires forall name :: name in PACKAGES ==>
               && name in plan.content && name in existing && name in routes
               && (existing[name].Some? <==> routes[name].AlreadyPublished?)
    requires PublishFrom(w, plan, i, existing, routes, token).1.Ok?
    ensures |PublishFrom(w, plan, i, existing, routes, token).0.replies| + Costs(routes, i) == |w.replies|
    decreases |PACKAGES| - i
  {
    hide PublishOne, Cost;
    if i < |PACKAGES| {
      var name := PACKAGES[i];
      PublishOneAsks(w, plan, name, existing[name], routes[name], token);
      PublishFromAsks(PublishOne(w, plan, name, existing[name], routes[name], token).0, plan, i + 1, existing, routes, token);
    }
  }

  lemma GoodLength(replies: seq<Reply>, n: nat)
    requires GoodAt(replies, 0, n)
    ensures n <= |replies|
  {
  }

  /** A run that publishes made every request there is: the preflight, and for each package the check of its bytes,
      its publication unless it was there, and the check of what the registry holds. */
  lemma PublishingAsksEverything(w: World, plan: Plan, auth: Authority)
    requires forall name :: name in PACKAGES ==> name in plan.content
    requires Run(w, plan, auth).1.Ok? && Run(w, plan, auth).1.value.Published?
    ensures var (w', r) := Run(w, plan, auth);
            && (forall name :: name in PACKAGES ==> name in r.value.routes)
            && |w'.replies| + 12 + Present(w, plan, 5) + Costs(r.value.routes, 0) == |w.replies|
  {
    hide ReadExisting, CompareExisting, ReadNames, Routes, PublishFrom, Present, ComparedAt, GoodAt, Costs;
    PackageCount();
    var w0 := Local(w, LocalArtifacts).0;
    ExistingIsTrue(w0, plan.version, 0, map[]);
    ReadExistingKeys(w0, plan.version, 0, map[]);
    var (w1, existing) := ReadExisting(w0, plan.version, 0, map[]);
    ExistingAsks(w0, plan.version, 0, map[]);
    ComparingOnlyReads(w1, plan, 0, existing.value);
    var (w2, compared) := CompareExisting(w1, plan, 0, existing.value);
    ComparisonAsks(w1, plan, 0, existing.value);
    NamesAreTrue(w2, 0, map[]);
    var (w3, names) := ReadNames(w2, 0, map[]);
    NamesAsk(w2, 0, map[]);
    RoutesKeys(existing.value, names.value, auth, 0, map[]);
    var (w4, signed) := Local(w3, SigningFailed);
    PublishFromAsks(w4, plan, 0, existing.value, Routes(existing.value, names.value, auth, 0, map[]).value, auth.token);
    SamePresent(w, w1, plan, 5);
    NothingPresentYet(w1, plan);
    assert |w1.replies| + 5 == |w0.replies| && |w3.replies| + 5 == |w2.replies| by { GoodLength(w0.replies, 5); GoodLength(w2.replies, 5); }
  }

  // ---------------------------------------------------------------- the publishing program

  method PublicationRoutes(existing: map<string, Option<Integrity>>, names: map<string, bool>, auth: Authority)
    returns (r: Result<map<string, Route>, Failure>)
    requires forall name :: name in PACKAGES ==> name in existing && name in names
    ensures r == Routes(existing, names, auth, 0, map[])
  {
    var routes: map<string, Route> := map[];
    for i := 0 to |PACKAGES|
      invariant Routes(existing, names, auth, i, routes) == Routes(existing, names, auth, 0, map[])
    {
      var name := PACKAGES[i];
      if existing[name].Some? {
        routes := routes[name := AlreadyPublished];
      } else if names[name] {
        routes := routes[name := Oidc];
      } else {
        if name !in PLATFORM_PACKAGES || !(auth.bootstrap && auth.token) {
          return Err(NotAuthorized);
        }
        routes := routes[name := BootstrapToken];
      }
    }
    return Ok(routes);
  }

  /** The registry as the program meets it: every call may change it and use up one answer. */
  class Registry {
    var published: map<string, map<string, Integrity>>
    ghost var log: seq<Request>
    var replies: seq<Reply>

    constructor (published: map<string, map<string, Integrity>>, replies: seq<Reply>)
      ensures State() == World(published, [], replies)
    {
      this.published, this.log, this.replies := published, [], replies;
    }

    ghost function State(): World
      reads this
    {
      World(published, log, replies)
    }

    method Ask() returns (reply: Reply)
      modifies this
      ensures (reply, State()) == old(State()).Ask()
    {
      if replies == [] {
        return Fault(false);
      }
      reply := replies[0];
      replies := replies[1..];
    }

    method Integrity(name: string, version: string) returns (r: Result<Option<Integrity>, Failure>)
      modifies this
      ensures (State(), r) == ReadIntegrity(old(State()), name, version)
    {
      var reply := Ask();
      if !reply.Good? {
        return Err(LookupFailed);
      }
      if name in published && version in published[name] {
        return Ok(Some(published[name][version]));
      }
      return Ok(None);
    }

    method PackageExists(name: string) returns (r: Result<bool, Failure>)
      modifies this
      ensures (State(), r) == ReadExists(old(State()), name)
    {
      var reply := Ask();
      if !reply.Good? {
        return Err(LookupFailed);
      }
      return Ok(name in published);
    }

    method LocalContent(plan: Plan, name: string) returns (r: Result<string, Failure>)
      requires name in plan.content
      modifies this
      ensures (State(), r) == ReadDisk(old(State()), plan, name)
    {
      var reply := Ask();
      match reply
      case Good => r := Ok(plan.content[name]);
      case Disk(content) => r := Ok(content);
      case _ => r := Err(LocalArtifacts);
    }

    method LocalStep(failure: Failure) returns (r: Result<(), Failure>)
      modifies this
      ensures (State(), r) == Local(old(State()), failure)
    {
      var reply := Ask();
      return if reply.Good? then Ok(()) else Err(failure);
    }

    method Upload(name: string, version: string, content: string, route: Route) returns (r: Result<(), Failure>)
      modifies this
      ensures (State(), r) == Send(old(State()), name, version, content, route)
    {
      log := log + [Request(name, route, name in published, State().Lookup(name, version).Some?, content)];
      var reply := Ask();
      if reply.Good? || reply == Fault(true) {
        var versions := if name in published then published[name] else map[];
        published := published[name := versions[version := Sha512(content)]];
      }
      return if reply.Good? || reply.Hollow? then Ok(()) else Err(PublicationFailed);
    }

    method PublishOnePackage(name: string, version: string, content: string, route: Route, token: bool)
      returns (r: Result<(), Failure>)
      modifies this
      ensures (State(), r) == PublishPackage(old(State()), name, version, content, route, token)
    {
      if route.AlreadyPublished? {
        return Err(NotAuthorized);
      }
      if route.BootstrapToken? {
        if name !in PLATFORM_PACKAGES || !token {
          return Err(BootstrapRefused);
        }
        var present := PackageExists(name);
        if present.Err? {
          return Err(present.error);
        }
        if present.value {
          return Err(BootstrapRefused);
        }
      }
      r := Upload(name, version, content, route);
    }

    method Publish(plan: Plan, auth: Authority) returns (r: Result<Receipt, Failure>)
      requires forall name :: name in PACKAGES ==> name in plan.content
      modifies this
      ensures (State(), r) == Run(old(State()), plan, auth)
    {
      hide ReadExisting, CompareExisting, ReadNames, Routes, PublishFrom, PublishOne, RouteOf, Publishing;
      if !auth.workflow {
        return Err(WrongWorkflow);
      }
      if auth.signOnly && (auth.bootstrap || auth.token) {
        return Err(NotAuthorized);
      }
      if auth.token && !auth.bootstrap {
        return Err(NotAuthorized);
      }
      var verified := LocalStep(LocalArtifacts);
      if verified.Err? {
        return Err(verified.error);
      }
      if auth.signOnly {
        var signed := LocalStep(SigningFailed);
        return if signed.Ok? then Ok(SignedOnly) else Err(signed.error);
      }
      r := PublishMissing(plan, auth);
    }

    method Preflight(plan: Plan) returns (r: Result<map<string, Option<Integrity>>, Failure>)
      modifies this
      ensures (State(), r) == ReadExisting(old(State()), plan.version, 0, map[])
    {
      var existing: map<string, Option<Integrity>> := map[];
      for i := 0 to |PACKAGES|
        invariant ReadExisting(State(), plan.version, i, existing) == ReadExisting(old(State()), plan.version, 0, map[])
      {
        var integrity := Integrity(PACKAGES[i], plan.version);
        if integrity.Err? {
          return Err(integrity.error);
        }
        existing := existing[PACKAGES[i] := integrity.value];
      }
      return Ok(existing);
    }

    method Compare(plan: Plan, existing: map<string, Option<Integrity>>) returns (r: Result<(), Failure>)
      requires forall name :: name in PACKAGES ==> name in plan.content && name in existing
      modifies this
      ensures (State(), r) == CompareExisting(old(State()), plan, 0, existing)
    {
      for i := 0 to |PACKAGES|
        invariant CompareExisting(State(), plan, i, existing) == CompareExisting(old(State()), plan, 0, existing)
      {
        var name := PACKAGES[i];
        if existing[name].Some? {
          var content := LocalContent(plan, name);
          if content.Err? {
            return Err(content.error);
          }
          if existing[name].value != Sha512(content.value) {
            return Err(DifferentBytes);
          }
        }
      }
      return Ok(());
    }

    method ExistingNames() returns (r: Result<map<string, bool>, Failure>)
      modifies this
      ensures (State(), r) == ReadNames(old(State()), 0, map[])
    {
      var names: map<string, bool> := map[];
      for i := 0 to |PACKAGES|
        invariant ReadNames(State(), i, names) == ReadNames(old(State()), 0, map[])
      {
        var present := PackageExists(PACKAGES[i]);
        if present.Err? {
          return Err(present.error);
        }
        names := names[PACKAGES[i] := present.value];
      }
      return Ok(names);
    }

    method PublishMissing(plan: Plan, auth: Authority) returns (r: Result<Receipt, Failure>)
      requires forall name :: name in PACKAGES ==> name in plan.content
      modifies this
      ensures (State(), r) == Publishing(old(State()), plan, auth)
    {
      hide ReadExisting, CompareExisting, ReadNames, Routes, PublishFrom, PublishOne, RouteOf;
      ghost var w := State();
      var existing := Preflight(plan);
      if existing.Err? {
        return Err(existing.error);
      }
      ReadExistingKeys(w, plan.version, 0, map[]);
      var compared := Compare(plan, existing.value);
      if compared.Err? {
        return Err(compared.error);
      }
      ghost var w2 := State();
      var names := ExistingNames();
      if names.Err? {
        return Err(names.error);
      }
      ReadNamesKeys(w2, 0, map[]);
      var routes := PublicationRoutes(existing.value, names.value, auth);
      if routes.Err? {
        return Err(routes.error);
      }
      RoutesKeys(existing.value, names.value, auth, 0, map[]);
      var signed := LocalStep(SigningFailed);
      if signed.Err? {
        return Err(signed.error);
      }
      var done := PublishEach(plan, existing.value, routes.value, auth.token);
      return if done.Ok? then Ok(Published(routes.value)) else Err(done.error);
    }

    method PublishEach(plan: Plan, existing: map<string, Option<Integrity>>, routes: map<string, Route>, token: bool)
      returns (r: Result<(), Failure>)
      requires forall name :: name in PACKAGES ==> name in plan.content && name in existing && name in routes
      modifies this
      ensures (State(), r) == PublishFrom(old(State()), plan, 0, existing, routes, token)
    {
      hide PublishPackage;
      for i := 0 to |PACKAGES|
        invariant PublishFrom(State(), plan, i, existing, routes, token) == PublishFrom(old(State()), plan, 0, existing, routes, token)
      {
        var name := PACKAGES[i];
        ghost var before := State();
        assert PublishFrom(before, plan, i, existing, routes, token) ==
          var (w1, step) := PublishOne(before, plan, name, existing[name], routes[name], token);
          match step case Err(e) => (w1, Err(e)) case Ok(_) => PublishFrom(w1, plan, i + 1, existing, routes, token);
        var content := LocalContent(plan, name);
        if content.Err? {
          return Err(content.error);
        }
        if Sha256(content.value) != Sha256(plan.content[name]) {
          return Err(PackageChanged);
        }
        if existing[name].None? {
          var sent := PublishOnePackage(name, plan.version, content.value, routes[name], token);
          if sent.Err? {
            return Err(sent.error);
          }
        }
        var integrity := Integrity(name, plan.version);
        if integrity.Err? {
          return Err(integrity.error);
        }
        if integrity.value != Some(Sha512(content.value)) {
          return Err(IntegrityMismatch);
        }
      }
      return Ok(());
    }
  }
}
