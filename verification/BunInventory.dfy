/** The scope worklist of the Bun inventory (cli/ci/dependency_evidence.py). */
module BunInventory {
  import opened Wrappers
  import opened Reachability

  datatype Failure = Unresolved | Unreachable

  /** The lock file's packages with their dependency names. */
  type Dependencies = map<string, seq<string>>

  ghost function GraphOf(packages: Dependencies, direct: set<(string, string)>): Graph<string> {
    Graph(direct, map name | name in packages :: set d | d in packages[name])
  }

  /** Every name that can be reached is in the lock file, and every lock package can be reached. */
  ghost predicate Succeeds(packages: Dependencies, direct: set<(string, string)>) {
    && (forall name, s :: Reachable(GraphOf(packages, direct), (name, s)) ==> name in packages)
    && (forall name :: name in packages ==> exists s :: Reachable(GraphOf(packages, direct), (name, s)))
  }

  ghost predicate Recorded(packages: Dependencies, scopes: map<string, set<string>>, seen: set<(string, string)>) {
    && scopes.Keys == packages.Keys
    && (forall name, s :: name in scopes ==> (s in scopes[name] <==> (name, s) in seen))
    && (forall name, s :: (name, s) in seen ==> name in packages)
  }

  lemma RecordedGrows(packages: Dependencies, scopes: map<string, set<string>>, seen: set<(string, string)>,
                      name: string, scope: string)
    requires Recorded(packages, scopes, seen) && name in packages
    ensures Recorded(packages, scopes[name := scopes[name] + {scope}], seen + {(name, scope)})
  {
  }

  ghost function Names(packages: Dependencies, direct: set<(string, string)>): set<string> {
    packages.Keys + (set d | d in direct :: d.0) + set name, d | name in packages && d in packages[name] :: d
  }

  ghost function Universe(packages: Dependencies, direct: set<(string, string)>): set<(string, string)> {
    set name, d | name in Names(packages, direct) && d in direct :: (name, d.1)
  }

  /** The queue after the manifest's direct dependencies were scheduled. */
  method ScheduleDirect(direct: seq<(string, string)>, ghost packages: Dependencies)
    returns (scheduled: set<(string, string)>, queue: seq<(string, string)>)
    ensures var roots := set d | d in direct;
            InProgress(GraphOf(packages, roots), scheduled, {}, queue) && scheduled == roots
  {
    hide InProgress, Reachable;
    ghost var roots := set d | d in direct;
    ghost var g := GraphOf(packages, roots);
    queue, scheduled := [], {};
    Starting(g);
    for i := 0 to |direct|
      invariant InProgress(g, scheduled, {}, queue)
      invariant scheduled == set j | 0 <= j < i :: direct[j]
    {
      var state := direct[i];
      assert state in roots;
      RootReachable(g, state);
      if state !in scheduled {
        Scheduling(g, scheduled, {}, queue, state);
        scheduled := scheduled + {state};
        queue := queue + [state];
      }
    }
    assert scheduled == roots;
  }

  method ScheduleDependencies(dependencies: seq<string>, scope: string, scheduled0: set<(string, string)>,
                              queue0: seq<(string, string)>, ghost seen: set<(string, string)>,
                              ghost packages: Dependencies, ghost direct: set<(string, string)>, ghost name: string)
    returns (scheduled: set<(string, string)>, queue: seq<(string, string)>)
    requires name in packages && packages[name] == dependencies
    requires InProgress(GraphOf(packages, direct), scheduled0, seen, queue0)
    requires Reachable(GraphOf(packages, direct), (name, scope))
    ensures InProgress(GraphOf(packages, direct), scheduled, seen, queue)
    ensures scheduled == scheduled0 + set d | d in dependencies :: (d, scope)
  {
    hide InProgress, Reachable;
    ghost var g := GraphOf(packages, direct);
    queue, scheduled := queue0, scheduled0;
    for i := 0 to |dependencies|
      invariant InProgress(g, scheduled, seen, queue)
      invariant scheduled == scheduled0 + set j | 0 <= j < i :: (dependencies[j], scope)
    {
      var state := (dependencies[i], scope);
      EdgeReachable(g, name, scope, dependencies[i]);
      if state !in scheduled {
        Scheduling(g, scheduled, seen, queue, state);
        scheduled := scheduled + {state};
        queue := queue + [state];
      }
    }
    assert (set j | 0 <= j < |dependencies| :: (dependencies[j], scope)) == set d | d in dependencies :: (d, scope);
  }

  lemma GraphRoots(packages: Dependencies, direct: set<(string, string)>)
    ensures GraphOf(packages, direct).roots == direct
  {
  }

  lemma GraphSuccessors(packages: Dependencies, direct: set<(string, string)>, name: string)
    requires name in packages
    ensures var g := GraphOf(packages, direct);
            name in g.succ && g.succ[name] == set d | d in packages[name]
  {
  }

  lemma NothingRecorded(packages: Dependencies, scopes: map<string, set<string>>)
    requires scopes.Keys == packages.Keys && forall name :: name in scopes ==> scopes[name] == {}
    ensures Recorded(packages, scopes, {})
  {
  }

  lemma RootsInUniverse(packages: Dependencies, direct: set<(string, string)>)
    ensures direct <= Universe(packages, direct)
  {
    forall d | d in direct ensures d in Universe(packages, direct) {
      assert d.0 in Names(packages, direct) && d == (d.0, d.1);
    }
  }

  lemma DependenciesInUniverse(packages: Dependencies, direct: set<(string, string)>, scheduled: set<(string, string)>,
                               name: string, scope: string)
    requires scheduled <= Universe(packages, direct) && name in packages && (name, scope) in scheduled
    ensures forall d :: d in packages[name] ==> (d, scope) in Universe(packages, direct)
  {
    forall d | d in packages[name] ensures (d, scope) in Universe(packages, direct) {
      assert d in Names(packages, direct);
    }
  }

  /** The worklist: it stops at the first reachable name outside the lock file. */
  method PropagateScopes(packages: Dependencies, direct: seq<(string, string)>)
    returns (r: Result<map<string, set<string>>, Failure>)
    ensures r.Err? ==> exists name, s :: name !in packages && Reachable(GraphOf(packages, set d | d in direct), (name, s))
    ensures r.Ok? ==>
              exists seen :: Recorded(packages, r.value, seen) && Exactly(GraphOf(packages, set d | d in direct), seen)
  {
    hide InProgress, Reachable, Expanded, Recorded, GraphOf, Universe, Exactly;
    ghost var roots := set d | d in direct;
    ghost var g := GraphOf(packages, roots);
    var scopes: map<string, set<string>> := map name | name in packages :: {};
    var scheduled, queue := ScheduleDirect(direct, packages);
    GraphRoots(packages, roots);
    RootsInUniverse(packages, roots);
    var seen: set<(string, string)> := {};
    NothingVisited(g, scheduled);
    NothingRecorded(packages, scopes);
    while queue != []
      invariant InProgress(g, scheduled, seen, queue)
      invariant g.roots <= scheduled <= Universe(packages, roots)
      invariant Expanded(g, scheduled, seen)
      invariant Recorded(packages, scopes, seen) && scopes.Keys == packages.Keys
      decreases Universe(packages, roots) - seen
    {
      Taking(g, scheduled, seen, queue);
      var (name, scope) := queue[0];
      queue := queue[1..];
      if (name, scope) in seen {
        assert false;
        continue;
      }
      ghost var before := seen;
      seen := seen + {(name, scope)};
      if name !in packages {
        return Err(Unresolved);
      }
      RecordedGrows(packages, scopes, before, name, scope);
      scopes := scopes[name := scopes[name] + {scope}];
      var grown, waiting := ScheduleDependencies(packages[name], scope, scheduled, queue, seen, packages, roots, name);
      GraphSuccessors(packages, roots, name);
      Visited(g, scheduled, grown, before, name, scope);
      DependenciesInUniverse(packages, roots, scheduled, name, scope);
      scheduled, queue := grown, waiting;
    }
    Finished(g, scheduled, seen, queue);
    return Ok(scopes);
  }

  lemma RecordedReachable(packages: Dependencies, direct: set<(string, string)>, scopes: map<string, set<string>>,
                          seen: set<(string, string)>)
    requires Recorded(packages, scopes, seen) && Exactly(GraphOf(packages, direct), seen)
    ensures scopes.Keys == packages.Keys
    ensures forall name, s :: name in packages ==>
              (s in scopes[name] <==> Reachable(GraphOf(packages, direct), (name, s)))
    ensures forall name, s :: Reachable(GraphOf(packages, direct), (name, s)) ==> name in packages
  {
    hide Reachable, GraphOf;
  }

  /** The scopes of every package are exactly those it is reachable for; a reachable name outside the lock
      file or a package that nothing reaches refuses the inventory. */
  method PackageScopes(packages: Dependencies, direct: seq<(string, string)>)
    returns (r: Result<map<string, set<string>>, Failure>)
    ensures r.Ok? <==> Succeeds(packages, set d | d in direct)
    ensures r.Ok? ==>
              && r.value.Keys == packages.Keys
              && forall name, s :: name in packages ==>
                   (s in r.value[name] <==> Reachable(GraphOf(packages, set d | d in direct), (name, s)))
  {
    hide Reachable, Recorded, GraphOf;
    ghost var g := GraphOf(packages, set d | d in direct);
    var propagated := PropagateScopes(packages, direct);
    if propagated.Err? {
      return propagated;
    }
    var scopes := propagated.value;
    ghost var seen :| Recorded(packages, scopes, seen) && Exactly(g, seen);
    RecordedReachable(packages, (set d | d in direct), scopes, seen);
    var names := packages.Keys;
    while names != {}
      invariant names <= packages.Keys
      invariant forall name :: name in packages && name !in names ==> scopes[name] != {}
      decreases names
    {
      var name :| name in names;
      if scopes[name] == {} {
        assert !exists s :: Reachable(g, (name, s));
        return Err(Unreachable);
      }
      names := names - {name};
    }
    forall name | name in packages ensures exists s :: Reachable(g, (name, s)) {
      var s :| s in scopes[name];
      assert Reachable(g, (name, s));
    }
    return Ok(scopes);
  }
}
