/** Round-limited resolution of build paths (cli/ci/check_architecture.py). */
module ResolvedPaths {
  import opened Collections

  type Path = seq<string>

  /** `const name = resolve(root, 'a', 'b');` `literals` is absent when an argument after the root is no string
      literal. */
  datatype Assignment = Assignment(name: string, root: string, literals: seq<string>, plain: bool)

  const DIRNAME := "__dirname"
  const META_DIR := "import.meta.dir"

  /** The directory of the source, the file system's reading of one path segment, and the source allowlist. */
  datatype Setting = Setting(directory: Path, join: (Path, string) -> Path, allowed: Path -> bool)

  function Descend(e: Setting, from: Path, literals: seq<string>): Path
    decreases |literals|
  {
    if literals == [] then from else Descend(e, e.join(from, literals[0]), literals[1..])
  }

  /** The path an assignment starts from, once it is known. */
  predicate Ready(a: Assignment, values: map<string, Path>) {
    a.plain && (a.root == META_DIR || a.root in values)
  }

  function Target(e: Setting, a: Assignment, values: map<string, Path>): Path
    requires Ready(a, values)
  {
    Descend(e, if a.root == META_DIR then e.directory else values[a.root], a.literals)
  }

  /** `steps` leads from `from` through one join for each literal, in order. */
  ghost predicate StepsDown(e: Setting, from: Path, literals: seq<string>, steps: seq<Path>) {
    && |steps| == |literals| + 1 && steps[0] == from
    && forall k :: 0 <= k < |literals| ==> steps[k + 1] == e.join(steps[k], literals[k])
  }

  ghost predicate LeadsTo(e: Setting, from: Path, literals: seq<string>, path: Path) {
    exists steps :: StepsDown(e, from, literals, steps) && steps[|literals|] == path
  }

  /** Descending is taking those steps. */
  lemma {:induction false} DescendsByJoining(e: Setting, from: Path, literals: seq<string>, path: Path)
    ensures LeadsTo(e, from, literals, path) <==> path == Descend(e, from, literals)
    decreases |literals|
  {
    if literals == [] {
      assert StepsDown(e, from, literals, [from]);
    } else {
      var next := e.join(from, literals[0]);
      DescendsByJoining(e, next, literals[1..], path);
      if LeadsTo(e, from, literals, path) {
        var steps :| StepsDown(e, from, literals, steps) && steps[|literals|] == path;
        assert StepsDown(e, next, literals[1..], steps[1..]);
        assert steps[1..][|literals| - 1] == path;
      }
      if path == Descend(e, from, literals) {
        var later :| StepsDown(e, next, literals[1..], later) && later[|literals| - 1] == path;
        var steps := [from] + later;
        forall k | 0 <= k < |literals| ensures steps[k + 1] == e.join(steps[k], literals[k]) {
          if k > 0 { assert later[k] == e.join(later[k - 1], literals[1..][k - 1]); }
        }
        assert StepsDown(e, from, literals, steps);
      }
    }
  }

  // ---------------------------------------------------------------- derivations

  /** `chain` of assignments, each rooted at the name before it, gives `name` the value `path`. */
  ghost predicate Derives(e: Setting, assignments: seq<Assignment>, chain: seq<Assignment>, name: string, path: Path)
    decreases |chain|
  {
    if chain == [] then name == "__dirname" && path == e.directory else
    var last, before := chain[|chain| - 1], chain[..|chain| - 1];
    && last in assignments && last.plain && last.name == name && name != "__dirname"
    && if last.root == "import.meta.dir" then before == [] && LeadsTo(e, e.directory, last.literals, path)
       else exists from :: Derives(e, assignments, before, last.root, from) && LeadsTo(e, from, last.literals, path)
  }

  ghost predicate HasValue(e: Setting, assignments: seq<Assignment>, name: string, path: Path) {
    exists chain :: Derives(e, assignments, chain, name, path)
  }

  lemma DirectoryHasValue(e: Setting, assignments: seq<Assignment>)
    ensures HasValue(e, assignments, DIRNAME, e.directory)
  {
    assert Derives(e, assignments, [], DIRNAME, e.directory);
  }

  lemma TargetHasValue(e: Setting, assignments: seq<Assignment>, a: Assignment, values: map<string, Path>)
    requires a in assignments && a.name != DIRNAME && Ready(a, values)
    requires forall n :: n in values ==> HasValue(e, assignments, n, values[n])
    ensures HasValue(e, assignments, a.name, Target(e, a, values))
  {
    hide LeadsTo, Descend;
    if a.root == META_DIR {
      DescendsByJoining(e, e.directory, a.literals, Target(e, a, values));
      var chain := [a];
      assert chain[..0] == [];
      assert Derives(e, assignments, chain, a.name, Target(e, a, values));
    } else {
      DescendsByJoining(e, values[a.root], a.literals, Target(e, a, values));
      var before :| Derives(e, assignments, before, a.root, values[a.root]);
      var chain := before + [a];
      assert chain[..|chain| - 1] == before;
      assert Derives(e, assignments, chain, a.name, Target(e, a, values));
    }
  }

  ghost predicate DistinctNames(assignments: seq<Assignment>) {
    forall i, j :: 0 <= i < j < |assignments| ==> assignments[i].name != assignments[j].name
  }

  /** With distinct names a value is determined, whatever the textual order. */
  lemma {:induction false} ValueIsUnique(e: Setting, assignments: seq<Assignment>, chain: seq<Assignment>,
                                         other: seq<Assignment>, name: string, path: Path, path': Path)
    requires DistinctNames(assignments)
    requires Derives(e, assignments, chain, name, path) && Derives(e, assignments, other, name, path')
    ensures path == path'
    decreases |chain|
  {
    if chain != [] {
      var last, last' := chain[|chain| - 1], other[|other| - 1];
      assert last == last' by {
        var i :| 0 <= i < |assignments| && assignments[i] == last;
        var j :| 0 <= j < |assignments| && assignments[j] == last';
        assert i == j || i < j || j < i;
      }
      if last.root != META_DIR {
        var from :| Derives(e, assignments, chain[..|chain| - 1], last.root, from) && LeadsTo(e, from, last.literals, path);
        var from' :| Derives(e, assignments, other[..|other| - 1], last.root, from') && LeadsTo(e, from', last.literals, path');
        ValueIsUnique(e, assignments, chain[..|chain| - 1], other[..|other| - 1], last.root, from, from');
        DescendsByJoining(e, from, last.literals, path);
        DescendsByJoining(e, from', last.literals, path');
      } else {
        DescendsByJoining(e, e.directory, last.literals, path);
        DescendsByJoining(e, e.directory, last.literals, path');
      }
    }
  }

  /** Nothing that could be resolved is left. */
  ghost predicate Closed(assignments: seq<Assignment>, values: map<string, Path>) {
    forall a :: a in assignments && Ready(a, values) ==> a.name in values
  }

  lemma {:induction false} ClosedHoldsAll(e: Setting, assignments: seq<Assignment>, values: map<string, Path>,
                                          chain: seq<Assignment>, name: string, path: Path)
    requires DIRNAME in values && Closed(assignments, values) && Derives(e, assignments, chain, name, path)
    ensures name in values
    decreases |chain|
  {
    if chain != [] {
      var last := chain[|chain| - 1];
      if last.root != META_DIR {
        var from :| Derives(e, assignments, chain[..|chain| - 1], last.root, from) && LeadsTo(e, from, last.literals, path);
        ClosedHoldsAll(e, assignments, values, chain[..|chain| - 1], last.root, from);
      }
    }
  }

  // ---------------------------------------------------------------- the rounds

  ghost predicate Sound(e: Setting, assignments: seq<Assignment>, values: map<string, Path>) {
    && DIRNAME in values && values[DIRNAME] == e.directory
    && forall n :: n in values ==> HasValue(e, assignments, n, values[n])
  }

  /** The names that have been resolved, each reported exactly when its path is not allowed. */
  ghost predicate Reported(e: Setting, values: map<string, Path>, violations: seq<string>) {
    && (forall n :: n in violations <==> n in values && n != DIRNAME && !e.allowed(values[n]))
    && forall i, j :: 0 <= i < j < |violations| ==> violations[i] != violations[j]
  }

  lemma ReportedNext(e: Setting, values: map<string, Path>, violations: seq<string>, name: string, path: Path)
    requires Reported(e, values, violations) && name !in values && name != DIRNAME
    ensures Reported(e, values[name := path], if e.allowed(path) then violations else violations + [name])
  {
    if !e.allowed(path) {
      var longer := violations + [name];
      assert longer[|violations|] == name;
      assert name !in violations;
      forall n | n in longer ensures n in violations || n == name {}
      forall n | n in violations ensures n in longer {
        var i :| 0 <= i < |violations| && violations[i] == n;
        assert longer[i] == n;
      }
    }
  }

  /** The names a run can ever resolve. */
  ghost function Names(assignments: seq<Assignment>): set<string> {
    {DIRNAME} + set a | a in assignments :: a.name
  }

  lemma {:induction false} NamesBound(assignments: seq<Assignment>)
    ensures |Names(assignments)| <= |assignments| + 1
    decreases |assignments|
  {
    if assignments == [] {
      assert Names(assignments) == {DIRNAME};
    } else {
      var n := |assignments| - 1;
      NamesBound(assignments[..n]);
      assert assignments == assignments[..n] + [assignments[n]];
      assert Names(assignments) == Names(assignments[..n]) + {assignments[n].name};
    }
  }

  lemma NextValue(e: Setting, assignments: seq<Assignment>, values: map<string, Path>, a: Assignment)
    requires Sound(e, assignments, values) && a in assignments && a.name !in values && Ready(a, values)
    ensures Sound(e, assignments, values[a.name := Target(e, a, values)])
  {
    TargetHasValue(e, assignments, a, values);
  }

  lemma NotDirectory(e: Setting, assignments: seq<Assignment>, values: map<string, Path>, name: string)
    requires Sound(e, assignments, values) && name !in values
    ensures name != DIRNAME
  {
  }

  /** One round over the assignments. */
  method Round(e: Setting, assignments: seq<Assignment>, values0: map<string, Path>, violations0: seq<string>)
    returns (values: map<string, Path>, violations: seq<string>, changed: bool)
    requires Sound(e, assignments, values0) && values0.Keys <= Names(assignments) && Reported(e, values0, violations0)
    ensures Sound(e, assignments, values) && values0.Keys <= values.Keys <= Names(assignments)
    ensures Reported(e, values, violations)
    ensures changed ==> values0.Keys < values.Keys
    ensures !changed ==> values == values0 && Closed(assignments, values)
  {
    hide Sound, Reported;
    values, violations, changed := values0, violations0, false;
    for i := 0 to |assignments|
      invariant Sound(e, assignments, values) && values0.Keys <= values.Keys <= Names(assignments)
      invariant Reported(e, values, violations)
      invariant changed ==> values0.Keys < values.Keys
      invariant !changed ==> values == values0
      invariant !changed ==> forall j :: 0 <= j < i && Ready(assignments[j], values) ==> assignments[j].name in values
    {
      var a := assignments[i];
      if a.name in values || !Ready(a, values) {
        continue;
      }
      var target := Target(e, a, values);
      NextValue(e, assignments, values, a);
      NotDirectory(e, assignments, values, a.name);
      ReportedNext(e, values, violations, a.name, target);
      ghost var before := values.Keys;
      values := values[a.name := target];
      assert values.Keys == before + {a.name};
      changed := true;
      if !e.allowed(target) {
        violations := violations + [a.name];
      }
    }
  }

  lemma Grown(a: set<string>, b: set<string>)
    requires a < b
    ensures |a| < |b|
  {
    var x :| x in b && x !in a;
    SubsetSize(a, b - {x});
  }

  lemma Start(e: Setting, assignments: seq<Assignment>)
    ensures Sound(e, assignments, map[DIRNAME := e.directory]) && Reported(e, map[DIRNAME := e.directory], [])
    ensures |(map[DIRNAME := e.directory]).Keys| == 1
  {
    DirectoryHasValue(e, assignments);
    assert (map[DIRNAME := e.directory]).Keys == {DIRNAME};
  }

  /** The limit of one round more than there are assignments never cuts resolution short. */
  method CheckResolvedPaths(e: Setting, assignments: seq<Assignment>) returns (values: map<string, Path>, violations: seq<string>)
    ensures Sound(e, assignments, values) && Closed(assignments, values)
    ensures Reported(e, values, violations)
  {
    hide Sound, Reported, Closed;
    values, violations := map[DIRNAME := e.directory], [];
    Start(e, assignments);
    var changed := true;
    for round := 0 to |assignments| + 1
      invariant Sound(e, assignments, values) && values.Keys <= Names(assignments) && Reported(e, values, violations)
      invariant changed && |values.Keys| >= round + 1
    {
      ghost var before := values.Keys;
      values, violations, changed := Round(e, assignments, values, violations);
      if !changed {
        return;
      }
      Grown(before, values.Keys);
    }
    NamesBound(assignments);
    SubsetSize(values.Keys, Names(assignments));
    assert false;
  }

  /** Sound and closed values of distinct assignments are exactly the derivable ones. */
  lemma ValuesAreTheSolution(e: Setting, assignments: seq<Assignment>, values: map<string, Path>, name: string, path: Path)
    requires DistinctNames(assignments) && Sound(e, assignments, values) && Closed(assignments, values)
    ensures name in values && values[name] == path <==> HasValue(e, assignments, name, path)
  {
    if HasValue(e, assignments, name, path) {
      var chain :| Derives(e, assignments, chain, name, path);
      ClosedHoldsAll(e, assignments, values, chain, name, path);
      var other :| Derives(e, assignments, other, name, values[name]);
      ValueIsUnique(e, assignments, chain, other, name, path, values[name]);
    }
  }

  lemma {:induction false} DerivesInAnyOrder(e: Setting, assignments: seq<Assignment>, other: seq<Assignment>,
                                             chain: seq<Assignment>, name: string, path: Path)
    requires Derives(e, assignments, chain, name, path) && forall a :: a in assignments ==> a in other
    ensures Derives(e, other, chain, name, path)
    decreases |chain|
  {
    if chain != [] && chain[|chain| - 1].root != META_DIR {
      var last, before := chain[|chain| - 1], chain[..|chain| - 1];
      var from :| Derives(e, assignments, before, last.root, from) && LeadsTo(e, from, last.literals, path);
      DerivesInAnyOrder(e, assignments, other, before, last.root, from);
    }
  }

  /** Two runs over rearranged assignments with distinct names end with the same values. */
  lemma OrderDoesNotMatter(e: Setting, assignments: seq<Assignment>, other: seq<Assignment>,
                           values: map<string, Path>, values': map<string, Path>)
    requires DistinctNames(assignments) && DistinctNames(other) && forall a :: a in assignments <==> a in other
    requires Sound(e, assignments, values) && Closed(assignments, values)
    requires Sound(e, other, values') && Closed(other, values')
    ensures values == values'
  {
    forall name | name in values ensures name in values' && values'[name] == values[name] {
      var chain :| Derives(e, assignments, chain, name, values[name]);
      DerivesInAnyOrder(e, assignments, other, chain, name, values[name]);
      ValuesAreTheSolution(e, other, values', name, values[name]);
    }
    forall name | name in values' ensures name in values {
      var chain :| Derives(e, other, chain, name, values'[name]);
      DerivesInAnyOrder(e, other, assignments, chain, name, values'[name]);
      ValuesAreTheSolution(e, assignments, values, name, values'[name]);
    }
  }
}
