/** What the dependency worklists compute: scoped reachability in a finite graph. */
module Reachability {

  /** `roots` are the directly requested nodes, each for one scope. */
  datatype Graph<!N(==)> = Graph(roots: set<(N, string)>, succ: map<N, set<N>>)

  /** `path` leads along edges from a direct dependency of scope `s` to `n`. */
  ghost predicate Leads<N(!new)>(g: Graph<N>, path: seq<N>, n: N, s: string) {
    && path != [] && (path[0], s) in g.roots && path[|path| - 1] == n
    && forall i {:trigger path[i]} :: 0 <= i < |path| - 1 ==> path[i] in g.succ && path[i + 1] in g.succ[path[i]]
  }

  ghost predicate Reachable<N(!new)>(g: Graph<N>, state: (N, string)) {
    exists path :: Leads(g, path, state.0, state.1)
  }

  /** `states` are exactly the reachable ones. */
  ghost predicate Exactly<N(!new)>(g: Graph<N>, states: set<(N, string)>) {
    forall state :: state in states <==> Reachable(g, state)
  }

  lemma RootReachable<N(!new)>(g: Graph<N>, state: (N, string))
    requires state in g.roots
    ensures Reachable(g, state)
  {
    assert Leads(g, [state.0], state.0, state.1);
  }

  lemma EdgeReachable<N(!new)>(g: Graph<N>, n: N, s: string, m: N)
    requires Reachable(g, (n, s)) && n in g.succ && m in g.succ[n]
    ensures Reachable(g, (m, s))
  {
    var path :| Leads(g, path, n, s);
    var longer := path + [m];
    forall i | 0 <= i < |longer| - 1 ensures longer[i] in g.succ && longer[i + 1] in g.succ[longer[i]] {
      if i < |path| - 1 {
        assert path[i] in g.succ && path[i + 1] in g.succ[path[i]];
      }
    }
    assert Leads(g, longer, m, s);
  }

  ghost predicate ClosedUnder<N(!new)>(g: Graph<N>, states: set<(N, string)>) {
    forall n, s, m :: (n, s) in states && n in g.succ && m in g.succ[n] ==> (m, s) in states
  }

  lemma {:induction false} PathStaysInside<N(!new)>(g: Graph<N>, states: set<(N, string)>, path: seq<N>, n: N, s: string)
    requires g.roots <= states && ClosedUnder(g, states) && Leads(g, path, n, s)
    ensures (n, s) in states
    decreases |path|
  {
    if |path| > 1 {
      var before := path[..|path| - 1];
      var last := before[|before| - 1];
      forall i | 0 <= i < |before| - 1 ensures before[i] in g.succ && before[i + 1] in g.succ[before[i]] {
        assert path[i] in g.succ && path[i + 1] in g.succ[path[i]];
      }
      PathStaysInside(g, states, before, last, s);
      assert path[|before| - 1] == last;
      assert n in g.succ[last];
    }
  }

  /** The worklist between two turns: `scheduled` is what was visited plus what still waits,
      nothing waits twice or was already visited, and everything scheduled is reachable. */
  ghost predicate InProgress<N(!new)>(g: Graph<N>, scheduled: set<(N, string)>, seen: set<(N, string)>,
                                      queue: seq<(N, string)>) {
    && scheduled == seen + (set q | q in queue)
    && (forall i, j :: 0 <= i < j < |queue| ==> queue[i] != queue[j])
    && (forall q :: q in queue ==> q !in seen)
    && (forall state :: state in scheduled ==> Reachable(g, state))
  }

  ghost predicate Expanded<N(!new)>(g: Graph<N>, scheduled: set<(N, string)>, seen: set<(N, string)>) {
    forall n, s, m :: (n, s) in seen && n in g.succ && m in g.succ[n] ==> (m, s) in scheduled
  }

  lemma Scheduling<N(!new)>(g: Graph<N>, scheduled: set<(N, string)>, seen: set<(N, string)>,
                            queue: seq<(N, string)>, state: (N, string))
    requires InProgress(g, scheduled, seen, queue) && Reachable(g, state) && state !in scheduled
    ensures InProgress(g, scheduled + {state}, seen, queue + [state])
  {
  }

  /** Taking the oldest state off the queue: it was not visited before. */
  lemma Taking<N(!new)>(g: Graph<N>, scheduled: set<(N, string)>, seen: set<(N, string)>,
                        queue: seq<(N, string)>)
    requires InProgress(g, scheduled, seen, queue) && queue != []
    ensures queue[0] !in seen && queue[0] in scheduled && Reachable(g, queue[0])
    ensures InProgress(g, scheduled, seen + {queue[0]}, queue[1..])
  {
    assert queue[0] in queue;
    forall q | q in queue[1..] ensures q !in seen + {queue[0]} {
      var i :| 0 <= i < |queue[1..]| && queue[1..][i] == q;
      assert queue[i + 1] == q;
    }
    forall q | q in queue ensures q == queue[0] || q in queue[1..] {
      var i :| 0 <= i < |queue| && queue[i] == q;
      assert i > 0 ==> queue[1..][i - 1] == q;
    }
  }

  /** When nothing waits, exactly the reachable states were visited. */
  lemma Finished<N(!new)>(g: Graph<N>, scheduled: set<(N, string)>, seen: set<(N, string)>,
                          queue: seq<(N, string)>)
    requires InProgress(g, scheduled, seen, queue) && queue == []
    requires g.roots <= scheduled && Expanded(g, scheduled, seen)
    ensures Exactly(g, seen)
  {
    assert scheduled == seen;
    forall state | Reachable(g, state) ensures state in seen {
      var path :| Leads(g, path, state.0, state.1);
      PathStaysInside(g, seen, path, state.0, state.1);
    }
  }

  lemma Starting<N(!new)>(g: Graph<N>)
    ensures InProgress(g, {}, {}, [])
  {
  }

  /** Visiting a state whose successors were all scheduled. */
  lemma Visited<N(!new)>(g: Graph<N>, before: set<(N, string)>, scheduled: set<(N, string)>,
                         seen: set<(N, string)>, n: N, s: string)
    requires Expanded(g, before, seen) && before <= scheduled
    requires n in g.succ ==> forall m :: m in g.succ[n] ==> (m, s) in scheduled
    ensures Expanded(g, scheduled, seen + {(n, s)})
  {
  }

  lemma NothingVisited<N(!new)>(g: Graph<N>, scheduled: set<(N, string)>)
    ensures Expanded(g, scheduled, {})
  {
  }
}
