/** Propagation of argument taint and of read aliases (cli/ci/check_architecture.py). */
module FlowClosure {

  /** One assignment found in the code: the name it binds, whether its expression mentions a seed directly, and
      the identifiers it mentions. */
  datatype Assignment = Assignment(name: string, seeded: bool, mentions: set<string>)

  /** Taint enters at `a` from the names in `from`. */
  predicate Enters(a: Assignment, from: set<string>) {
    a.seeded || exists item :: item in a.mentions && item in from
  }

  // ---------------------------------------------------------------- flow chains

  ghost predicate Starts(seeds: set<string>, assignments: seq<Assignment>, name: string) {
    name in seeds || exists a :: a in assignments && a.name == name && a.seeded
  }

  /** `next` is assigned from an expression that mentions `name`. */
  ghost predicate Follows(assignments: seq<Assignment>, name: string, next: string) {
    exists a :: a in assignments && a.name == next && name in a.mentions
  }

  /** `chain` leads from a seed to its last name, each name mentioned where the next one is assigned. */
  ghost predicate FlowChain(seeds: set<string>, assignments: seq<Assignment>, chain: seq<string>) {
    && chain != []
    && Starts(seeds, assignments, chain[0])
    && forall i {:trigger chain[i]} :: 0 < i < |chain| ==> Follows(assignments, chain[i - 1], chain[i])
  }

  ghost predicate Flows(seeds: set<string>, assignments: seq<Assignment>, name: string) {
    exists chain :: FlowChain(seeds, assignments, chain) && chain[|chain| - 1] == name
  }

  ghost predicate Closed(assignments: seq<Assignment>, names: set<string>) {
    forall a :: a in assignments && Enters(a, names) ==> a.name in names
  }

  lemma SeedFlows(seeds: set<string>, assignments: seq<Assignment>, name: string)
    requires name in seeds
    ensures Flows(seeds, assignments, name)
  {
    assert FlowChain(seeds, assignments, [name]);
  }

  lemma FlowContinues(seeds: set<string>, assignments: seq<Assignment>, a: Assignment, item: string)
    requires a in assignments && item in a.mentions && Flows(seeds, assignments, item)
    ensures Flows(seeds, assignments, a.name)
  {
    var chain :| FlowChain(seeds, assignments, chain) && chain[|chain| - 1] == item;
    var longer := chain + [a.name];
    forall i {:trigger longer[i]} | 0 < i < |longer|
      ensures Follows(assignments, longer[i - 1], longer[i])
    {
      if i < |chain| {
        assert longer[i] == chain[i] && longer[i - 1] == chain[i - 1];
      }
    }
    assert FlowChain(seeds, assignments, longer);
  }

  /** What an assignment lets in from names that are reached is reached. */
  lemma EntryFlows(seeds: set<string>, assignments: seq<Assignment>, from: set<string>, a: Assignment)
    requires a in assignments && Enters(a, from) && forall n :: n in from ==> Flows(seeds, assignments, n)
    ensures Flows(seeds, assignments, a.name)
  {
    if a.seeded {
      assert FlowChain(seeds, assignments, [a.name]);
    } else {
      var item :| item in a.mentions && item in from;
      FlowContinues(seeds, assignments, a, item);
    }
  }

  lemma {:induction false} ChainStaysInside(seeds: set<string>, assignments: seq<Assignment>, names: set<string>, chain: seq<string>)
    requires seeds <= names && Closed(assignments, names) && FlowChain(seeds, assignments, chain)
    ensures chain[|chain| - 1] in names
    decreases |chain|
  {
    if |chain| == 1 {
      if chain[0] !in seeds {
        var a :| a in assignments && a.name == chain[0] && a.seeded;
        assert Enters(a, names);
      }
    } else {
      var (before, last) := (chain[..|chain| - 1], |chain| - 1);
      forall i {:trigger before[i]} | 0 < i < |before|
        ensures Follows(assignments, before[i - 1], before[i])
      {
        assert before[i] == chain[i] && before[i - 1] == chain[i - 1];
      }
      assert FlowChain(seeds, assignments, before);
      ChainStaysInside(seeds, assignments, names, before);
      assert Follows(assignments, chain[last - 1], chain[last]);
      var a :| a in assignments && a.name == chain[last] && chain[last - 1] in a.mentions;
      assert Enters(a, names);
    }
  }

  /** The reached names are the least set that holds the seeds and is closed under the assignments. */
  lemma FlowIsLeast(seeds: set<string>, assignments: seq<Assignment>, names: set<string>, name: string)
    requires seeds <= names && Closed(assignments, names) && Flows(seeds, assignments, name)
    ensures name in names
  {
    var chain :| FlowChain(seeds, assignments, chain) && chain[|chain| - 1] == name;
    ChainStaysInside(seeds, assignments, names, chain);
  }

  /** More seeds or more assignments reach no less. */
  lemma FlowIsMonotone(seeds: set<string>, seeds': set<string>, assignments: seq<Assignment>, assignments': seq<Assignment>, name: string)
    requires seeds <= seeds' && (forall a :: a in assignments ==> a in assignments')
    requires Flows(seeds, assignments, name)
    ensures Flows(seeds', assignments', name)
  {
    var chain :| FlowChain(seeds, assignments, chain) && chain[|chain| - 1] == name;
    forall i {:trigger chain[i]} | 0 < i < |chain|
      ensures Follows(assignments', chain[i - 1], chain[i])
    {
      assert Follows(assignments, chain[i - 1], chain[i]);
    }
    assert FlowChain(seeds', assignments', chain);
  }

  // ---------------------------------------------------------------- the loops

  ghost predicate Reached(seeds: set<string>, assignments: seq<Assignment>, names: set<string>) {
    seeds <= names && forall n :: n in names ==> Flows(seeds, assignments, n)
  }

  ghost function Universe(seeds: set<string>, assignments: seq<Assignment>): set<string> {
    seeds + set a | a in assignments :: a.name
  }

  lemma SeedsReached(seeds: set<string>, assignments: seq<Assignment>)
    ensures Reached(seeds, assignments, seeds)
  {
    forall n | n in seeds ensures Flows(seeds, assignments, n) { SeedFlows(seeds, assignments, n); }
  }

  lemma OneMoreReached(seeds: set<string>, assignments: seq<Assignment>, names: set<string>, a: Assignment)
    requires Reached(seeds, assignments, names) && a in assignments && Enters(a, names)
    ensures Reached(seeds, assignments, names + {a.name})
  {
    EntryFlows(seeds, assignments, names, a);
  }

  /** A set that holds the seeds, only reached names and nothing open is exactly the reached names. */
  lemma ClosedIsAll(seeds: set<string>, assignments: seq<Assignment>, names: set<string>, name: string)
    requires Reached(seeds, assignments, names) && Closed(assignments, names)
    ensures name in names <==> Flows(seeds, assignments, name)
  {
    if Flows(seeds, assignments, name) {
      FlowIsLeast(seeds, assignments, names, name);
    }
  }

  method TaintedNames(seeds: set<string>, assignments: seq<Assignment>) returns (tainted: set<string>)
    ensures forall name :: name in tainted <==> Flows(seeds, assignments, name)
  {
    hide Reached;
    tainted := seeds;
    SeedsReached(seeds, assignments);
    var changed := true;
    while changed
      invariant Reached(seeds, assignments, tainted) && tainted <= Universe(seeds, assignments)
      invariant !changed ==> Closed(assignments, tainted)
      decreases Universe(seeds, assignments) - tainted, changed
    {
      changed := false;
      ghost var before := tainted;
      for i := 0 to |assignments|
        invariant Reached(seeds, assignments, tainted) && before <= tainted <= Universe(seeds, assignments)
        invariant changed <==> tainted != before
        invariant !changed ==> forall j :: 0 <= j < i && Enters(assignments[j], tainted) ==> assignments[j].name in tainted
      {
        var a := assignments[i];
        if a.name !in tainted && Enters(a, tainted) {
          OneMoreReached(seeds, assignments, tainted, a);
          tainted := tainted + {a.name};
          changed := true;
        }
      }
    }
    forall name ensures name in tainted <==> Flows(seeds, assignments, name) {
      ClosedIsAll(seeds, assignments, tainted, name);
    }
  }

  /** `const alias = original;` */
  datatype Copy = Copy(alias: string, original: string)

  function AsAssignments(copies: seq<Copy>): (r: seq<Assignment>)
    ensures |r| == |copies| && forall i :: 0 <= i < |r| ==> r[i] == Assignment(copies[i].alias, false, {copies[i].original})
  {
    seq(|copies|, i requires 0 <= i < |copies| => Assignment(copies[i].alias, false, {copies[i].original}))
  }

  /** In Rust only the imported aliases count; in TypeScript they are followed through plain copies. */
  method ReadAliases(imported: set<string>, copies: seq<Copy>, rust: bool) returns (aliases: set<string>)
    ensures rust ==> aliases == imported
    ensures !rust ==> forall name :: name in aliases <==> Flows(imported, AsAssignments(copies), name)
  {
    hide Reached;
    aliases := imported;
    if rust {
      return;
    }
    ghost var assignments := AsAssignments(copies);
    SeedsReached(imported, assignments);
    var changed := true;
    while changed
      invariant Reached(imported, assignments, aliases) && aliases <= Universe(imported, assignments)
      invariant !changed ==> Closed(assignments, aliases)
      decreases Universe(imported, assignments) - aliases, changed
    {
      changed := false;
      ghost var before := aliases;
      for i := 0 to |copies|
        invariant Reached(imported, assignments, aliases) && before <= aliases <= Universe(imported, assignments)
        invariant changed <==> aliases != before
        invariant !changed ==> forall j :: 0 <= j < i && copies[j].original in aliases ==> copies[j].alias in aliases
      {
        var (alias, original) := (copies[i].alias, copies[i].original);
        if original in aliases && alias !in aliases {
          assert assignments[i] in assignments && original in assignments[i].mentions;
          OneMoreReached(imported, assignments, aliases, assignments[i]);
          aliases := aliases + {alias};
          changed := true;
        }
      }
      assert !changed ==> Closed(assignments, aliases);
    }
    forall name ensures name in aliases <==> Flows(imported, assignments, name) {
      ClosedIsAll(imported, assignments, aliases, name);
    }
  }

  /** Neither the order nor repetitions of the assignments matter. */
  lemma OrderDoesNotMatter(seeds: set<string>, assignments: seq<Assignment>, other: seq<Assignment>, name: string)
    requires forall a :: a in assignments <==> a in other
    ensures Flows(seeds, assignments, name) <==> Flows(seeds, other, name)
  {
    if Flows(seeds, assignments, name) { FlowIsMonotone(seeds, seeds, assignments, other, name); }
    if Flows(seeds, other, name) { FlowIsMonotone(seeds, seeds, other, assignments, name); }
  }
}
