/** The serialized checkpoint store (experiments/weave/store.py): processes that lock, read, save and unlock,
    with a crash or a power loss possible between any two system calls. */
module CheckpointStore {
  import opened Wrappers
  import opened Text

  type Checkpoint = string
  type Path = string
  type Pid = nat

  /** What an open file would show, and whether it was flushed to the disk. */
  datatype Content = Torn | Whole(checkpoint: Checkpoint)

  datatype File = File(content: Content, synced: bool)

  /** A rename onto a checkpoint path: the file, and the checkpoint the writer last knew (none: absent). */
  datatype Commit = Commit(base: Option<Checkpoint>, file: File)

  /** Where a process stands. `base` is what it last read or saved. */
  datatype Phase =
    | Idle
    | Locked
    | Working(base: Option<Checkpoint>, saved: bool)
    | Writing(base: Option<Checkpoint>, target: Checkpoint)
    | Written(base: Option<Checkpoint>, target: Checkpoint)
    | Flushed(base: Option<Checkpoint>, target: Checkpoint)
    | Replaced(target: Checkpoint)

  /** Processes that share one lock file and one temporary file because their checkpoint paths share a stem.
      `commits` are the renames of each path since the start, `durable` how many of them a directory sync has
      made permanent. */
  datatype State = State(hosts: map<Pid, Path>, phases: map<Pid, Phase>, lock: Option<Pid>, tmp: Option<File>,
                         commits: map<Path, seq<Commit>>, durable: map<Path, nat>, tornRead: bool) {
    function PhaseOf(p: Pid): Phase { if p in phases then phases[p] else Idle }

    function Commits(path: Path): seq<Commit> { if path in commits then commits[path] else [] }

    function Durable(path: Path): nat { if path in durable then durable[path] else 0 }

    /** The file at a checkpoint path, as a reader sees it. */
    function FileAt(path: Path): Option<File> {
      var cs := Commits(path);
      if cs == [] then None else Some(cs[|cs| - 1].file)
    }
  }

  /** One system call of a process, or a failure. */
  datatype Action =
    | TryLock(p: Pid)
    | Read(p: Pid)
    | OpenTemporary(p: Pid, target: Checkpoint)
    | FinishWriting(p: Pid)
    | FlushTemporary(p: Pid)
    | Rename(p: Pid)
    | SyncDirectory(p: Pid)
    | Unlock(p: Pid)
    | Crash(p: Pid)
    | PowerLoss(kept: map<Path, nat>)

  /** What the disk gives back of a file that may not have been flushed. */
  function Survivor(f: File): File {
    if f.synced then f else File(Torn, true)
  }

  function Surviving(cs: seq<Commit>, kept: nat): seq<Commit>
    requires kept <= |cs|
  {
    seq(kept, i requires 0 <= i < kept => cs[i].(file := Survivor(cs[i].file)))
  }

  /** A power loss forgets renames that no directory sync covered, each path on its own. */
  predicate MayKeep(s: State, kept: map<Path, nat>) {
    kept.Keys == s.commits.Keys && forall path :: path in kept ==> s.Durable(path) <= kept[path] <= |s.commits[path]|
  }

  function Enter(s: State, p: Pid, phase: Phase): State {
    s.(phases := s.phases[p := phase])
  }

  /** The effect of one action; an action that is not possible changes nothing. */
  function Step(s: State, a: Action): State {
    match a
    case TryLock(p) =>
      if s.PhaseOf(p).Idle? && s.lock.None? && p in s.hosts then Enter(s, p, Locked).(lock := Some(p)) else s
    case Read(p) =>
      if !s.PhaseOf(p).Locked? || p !in s.hosts then s else
      (match s.FileAt(s.hosts[p])
       case None => Enter(s, p, Working(None, false))
       case Some(File(Whole(c), _)) => Enter(s, p, Working(Some(c), false))
       case Some(File(Torn, _)) => s.(tornRead := true))
    case OpenTemporary(p, target) =>
      if !s.PhaseOf(p).Working? then s else
      Enter(s, p, Writing(s.PhaseOf(p).base, target)).(tmp := Some(File(Torn, false)))
    case FinishWriting(p) =>
      if !s.PhaseOf(p).Writing? then s else
      Enter(s, p, Written(s.PhaseOf(p).base, s.PhaseOf(p).target)).(tmp := Some(File(Whole(s.PhaseOf(p).target), false)))
    case FlushTemporary(p) =>
      if !s.PhaseOf(p).Written? || s.tmp.None? then s else
      Enter(s, p, Flushed(s.PhaseOf(p).base, s.PhaseOf(p).target)).(tmp := Some(s.tmp.value.(synced := true)))
    case Rename(p) =>
      if !s.PhaseOf(p).Flushed? || s.tmp.None? || p !in s.hosts then s else
      var path := s.hosts[p];
      Enter(s, p, Replaced(s.PhaseOf(p).target))
        .(tmp := None, commits := s.commits[path := s.Commits(path) + [Commit(s.PhaseOf(p).base, s.tmp.value)]])
    case SyncDirectory(p) =>
      if !s.PhaseOf(p).Replaced? then s else
      Enter(s, p, Working(Some(s.PhaseOf(p).target), true)).(durable := map path | path in s.commits :: |s.commits[path]|)
    case Unlock(p) =>
      if s.PhaseOf(p).Locked? || s.PhaseOf(p).Working? then Enter(s, p, Idle).(lock := None) else s
    case Crash(p) =>
      Enter(s, p, Idle).(lock := if s.lock == Some(p) then None else s.lock)
    case PowerLoss(kept) =>
      if !MayKeep(s, kept) then s else
      s.(phases := map[], lock := None, tmp := None,
         commits := map path | path in s.commits :: Surviving(s.commits[path], kept[path]),
         durable := kept)
  }

  function Run(s: State, actions: seq<Action>): State
    decreases |actions|
  {
    if actions == [] then s else Run(Step(s, actions[0]), actions[1..])
  }

  // ---------------------------------------------------------------- the invariant

  function BaseBefore(cs: seq<Commit>, k: nat): Option<Checkpoint>
    requires k <= |cs|
  {
    if k == 0 then None
    else match cs[k - 1].file.content case Whole(c) => Some(c) case Torn => None
  }

  /** Every renamed file is complete and on the disk, and was derived from the one before it. */
  ghost predicate Chained(cs: seq<Commit>) {
    forall k :: 0 <= k < |cs| ==> cs[k].file.content.Whole? && cs[k].file.synced && cs[k].base == BaseBefore(cs, k)
  }

  predicate InSection(phase: Phase) {
    !phase.Idle?
  }

  /** What the holder of the lock knows: `base` is the current checkpoint, the temporary file is its own, and a
      save that returned is permanent. */
  ghost predicate HolderOk(s: State, p: Pid) {
    p in s.hosts
    && var path := s.hosts[p];
    var cs := s.Commits(path);
    match s.PhaseOf(p)
    case Idle => false
    case Locked => true
    case Working(base, saved) => base == BaseBefore(cs, |cs|) && (saved ==> s.Durable(path) == |cs|)
    case Writing(base, target) => base == BaseBefore(cs, |cs|)
    case Written(base, target) => base == BaseBefore(cs, |cs|) && s.tmp == Some(File(Whole(target), false))
    case Flushed(base, target) => base == BaseBefore(cs, |cs|) && s.tmp == Some(File(Whole(target), true))
    case Replaced(target) => cs != [] && cs[|cs| - 1].file.content == Whole(target)
  }

  /** The commits of every path are chained and the durable ones are among them. */
  ghost predicate PathsOk(s: State) {
    forall path :: Chained(s.Commits(path)) && s.Durable(path) <= |s.Commits(path)|
  }

  ghost predicate Inv(s: State) {
    && (forall p: Pid :: InSection(s.PhaseOf(p)) ==> s.lock == Some(p))
    && (s.lock.Some? ==> HolderOk(s, s.lock.value))
    && PathsOk(s)
    && s.durable.Keys <= s.commits.Keys
    && !s.tornRead
  }

  /** No process in a section, no leftover knowledge, an existing checkpoint complete and on the disk. */
  ghost predicate Initial(s: State) {
    && s.phases == map[] && s.lock.None? && !s.tornRead && s.durable.Keys <= s.commits.Keys
    && PathsOk(s)
  }

  lemma SamePaths(s: State, s': State)
    requires PathsOk(s) && s'.commits == s.commits && s'.durable == s.durable
    ensures PathsOk(s')
    ensures forall path :: s'.Commits(path) == s.Commits(path) && s'.Durable(path) == s.Durable(path)
  {
    forall path ensures s'.Commits(path) == s.Commits(path) && s'.Durable(path) == s.Durable(path) {}
  }

  lemma ChainGrows(cs: seq<Commit>, file: File)
    requires Chained(cs) && file.content.Whole? && file.synced
    ensures Chained(cs + [Commit(BaseBefore(cs, |cs|), file)])
  {
    var longer := cs + [Commit(BaseBefore(cs, |cs|), file)];
    forall k | 0 <= k < |longer|
      ensures longer[k].file.content.Whole? && longer[k].file.synced && longer[k].base == BaseBefore(longer, k)
    {
      assert k > 0 ==> longer[k - 1] == cs[k - 1];
    }
  }

  lemma RenameKeeps(s: State, p: Pid)
    requires Inv(s)
    ensures Inv(Step(s, Rename(p)))
  {
    hide Chained;
    if s.PhaseOf(p).Flushed? && s.tmp.Some? && p in s.hosts {
      var path := s.hosts[p];
      var cs := s.Commits(path);
      var s' := Step(s, Rename(p));
      ChainGrows(cs, s.tmp.value);
      forall other ensures Chained(s'.Commits(other)) && s'.Durable(other) <= |s'.Commits(other)| {
        assert other != path ==> s'.Commits(other) == s.Commits(other);
      }
    }
  }

  lemma SyncKeeps(s: State, p: Pid)
    requires Inv(s)
    ensures Inv(Step(s, SyncDirectory(p)))
  {
    hide Chained;
    var s' := Step(s, SyncDirectory(p));
    forall path ensures Chained(s'.Commits(path)) && s'.Durable(path) <= |s'.Commits(path)| {
      assert s'.Commits(path) == s.Commits(path);
    }
  }

  lemma SurvivingChained(cs: seq<Commit>, kept: nat)
    requires Chained(cs) && kept <= |cs|
    ensures Chained(Surviving(cs, kept)) && Surviving(cs, kept) == cs[..kept]
  {
    assert Surviving(cs, kept) == cs[..kept];
  }

  lemma NothingChained()
    ensures Chained([])
  {
  }

  lemma PowerLossKeeps(s: State, kept: map<Path, nat>)
    requires Inv(s)
    ensures Inv(Step(s, PowerLoss(kept)))
  {
    hide Chained, Surviving;
    if MayKeep(s, kept) {
      var s' := Step(s, PowerLoss(kept));
      forall path ensures Chained(s'.Commits(path)) && s'.Durable(path) <= |s'.Commits(path)| {
        if path in s.commits {
          SurvivingChained(s.Commits(path), kept[path]);
        } else {
          NothingChained();
        }
      }
    }
  }

  lemma LockingKeeps(s: State, a: Action)
    requires Inv(s) && (a.TryLock? || a.Unlock? || a.Crash?)
    ensures Inv(Step(s, a))
  {
    hide Chained, PathsOk;
    SamePaths(s, Step(s, a));
  }

  lemma ReadingKeeps(s: State, p: Pid)
    requires Inv(s)
    ensures Inv(Step(s, Read(p)))
  {
    SamePaths(s, Step(s, Read(p)));
    if s.PhaseOf(p).Locked? && p in s.hosts {
      var cs := s.Commits(s.hosts[p]);
      assert Chained(cs);
      hide Chained, PathsOk;
    }
  }

  lemma WritingKeeps(s: State, a: Action)
    requires Inv(s) && (a.OpenTemporary? || a.FinishWriting? || a.FlushTemporary?)
    ensures Inv(Step(s, a))
  {
    hide Chained, PathsOk;
    SamePaths(s, Step(s, a));
  }

  lemma StepKeeps(s: State, a: Action)
    requires Inv(s)
    ensures Inv(Step(s, a))
  {
    hide Inv, Step;
    match a
    case Rename(p) => RenameKeeps(s, p);
    case SyncDirectory(p) => SyncKeeps(s, p);
    case PowerLoss(kept) => PowerLossKeeps(s, kept);
    case Read(p) => ReadingKeeps(s, p);
    case OpenTemporary(_, _) => WritingKeeps(s, a);
    case FinishWriting(_) => WritingKeeps(s, a);
    case FlushTemporary(_) => WritingKeeps(s, a);
    case _ => LockingKeeps(s, a);
  }

  lemma {:induction false} RunKeeps(s: State, actions: seq<Action>)
    requires Inv(s)
    ensures Inv(Run(s, actions))
    decreases |actions|
  {
    hide Step, Inv;
    if actions != [] {
      StepKeeps(s, actions[0]);
      RunKeeps(Step(s, actions[0]), actions[1..]);
    }
  }

  // ---------------------------------------------------------------- what holds at every moment

  /** Whatever the processes do and wherever they or the machine stop: the checkpoint file is absent or one
      complete checkpoint that a save renamed into place, and no reader ever meets a half-written one. */
  lemma CheckpointIsAlwaysWhole(s: State, actions: seq<Action>, path: Path)
    requires Initial(s)
    ensures var now := Run(s, actions);
            && !now.tornRead
            && match now.FileAt(path) case None => true case Some(f) => f.content.Whole? && f.synced
  {
    RunKeeps(s, actions);
    hide Run;
  }

  /** At most one process is ever inside a locked section. */
  lemma SectionsExclude(s: State, actions: seq<Action>, p: Pid, q: Pid)
    requires Initial(s)
    requires InSection(Run(s, actions).PhaseOf(p)) && InSection(Run(s, actions).PhaseOf(q))
    ensures p == q && Run(s, actions).lock == Some(p)
  {
    RunKeeps(s, actions);
    hide Run;
  }

  /** From its read to its unlock a process knows the current checkpoint of its path: nobody else commits, not
      even to another checkpoint that shares the temporary file. */
  lemma SectionSeesTheCurrent(s: State, actions: seq<Action>, p: Pid)
    requires Initial(s) && Run(s, actions).PhaseOf(p).Working?
    ensures var now := Run(s, actions);
            p in now.hosts
            && match now.FileAt(now.hosts[p])
               case None => now.PhaseOf(p).base.None?
               case Some(f) => now.PhaseOf(p).base.Some? && f.content == Whole(now.PhaseOf(p).base.value)
  {
    RunKeeps(s, actions);
    hide Run;
  }

  /** No update is lost: every checkpoint ever renamed into place was derived from the one it replaced. */
  lemma NoUpdateIsLost(s: State, actions: seq<Action>, path: Path, k: nat)
    requires Initial(s) && k < |Run(s, actions).Commits(path)|
    ensures var cs := Run(s, actions).Commits(path);
            if k == 0 then cs[k].base.None?
            else cs[k].base.Some? && cs[k - 1].file.content == Whole(cs[k].base.value)
  {
    RunKeeps(s, actions);
    hide Run;
    var cs := Run(s, actions).Commits(path);
    assert Chained(cs);
    if k > 0 { assert cs[k - 1].file.content.Whole?; }
  }

  /** A save that returned survives a power loss at any later moment of its section, with every commit before. */
  lemma SavedSurvivesPowerLoss(s: State, actions: seq<Action>, p: Pid, kept: map<Path, nat>)
    requires Initial(s) && Run(s, actions).PhaseOf(p).Working? && Run(s, actions).PhaseOf(p).saved
    requires MayKeep(Run(s, actions), kept)
    ensures var now := Run(s, actions);
            p in now.hosts && Step(now, PowerLoss(kept)).Commits(now.hosts[p]) == now.Commits(now.hosts[p])
  {
    RunKeeps(s, actions);
    hide Run;
    var now := Run(s, actions);
    var cs := now.Commits(now.hosts[p]);
    assert Chained(cs);
    if now.hosts[p] in now.commits {
      assert Surviving(cs, |cs|) == cs;
    }
  }

  /** The first `n` commits of a path are the same in both states. */
  ghost predicate SharesFirst(s: State, s': State, path: Path, n: nat) {
    n <= |s.Commits(path)| && n <= |s'.Commits(path)| && s'.Commits(path)[..n] == s.Commits(path)[..n]
  }

  lemma PowerLossShares(s: State, kept: map<Path, nat>, path: Path)
    requires Inv(s)
    ensures var s' := Step(s, PowerLoss(kept));
            s.Durable(path) <= s'.Durable(path) && SharesFirst(s, s', path, s.Durable(path))
  {
    hide Chained, Surviving;
    assert Chained(s.Commits(path)) && s.Durable(path) <= |s.Commits(path)|;
    if MayKeep(s, kept) && path in s.commits {
      SurvivingChained(s.Commits(path), kept[path]);
    }
  }

  lemma StepShares(s: State, a: Action, path: Path)
    requires Inv(s)
    ensures s.Durable(path) <= Step(s, a).Durable(path) && SharesFirst(s, Step(s, a), path, s.Durable(path))
  {
    if a.PowerLoss? {
      PowerLossShares(s, a.kept, path);
    } else {
      hide Chained, Surviving;
      assert s.Durable(path) <= |s.Commits(path)|;
    }
  }

  lemma SharesBoth(a: State, b: State, c: State, path: Path, m: nat, n: nat)
    requires m <= n && SharesFirst(a, b, path, m) && SharesFirst(b, c, path, n)
    ensures SharesFirst(a, c, path, m)
  {
    assert b.Commits(path)[..m] == b.Commits(path)[..n][..m];
    assert c.Commits(path)[..m] == c.Commits(path)[..n][..m];
  }

  lemma InvBounds(s: State, path: Path)
    requires Inv(s)
    ensures s.Durable(path) <= |s.Commits(path)|
  {
  }

  lemma {:induction false} RunShares(s: State, more: seq<Action>, path: Path)
    requires Inv(s)
    ensures s.Durable(path) <= Run(s, more).Durable(path) && SharesFirst(s, Run(s, more), path, s.Durable(path))
    decreases |more|
  {
    hide Step, Inv;
    if more == [] {
      assert s.Durable(path) <= |s.Commits(path)| by { InvBounds(s, path); }
    } else {
      var next := Step(s, more[0]);
      StepKeeps(s, more[0]);
      StepShares(s, more[0], path);
      RunShares(next, more[1..], path);
      SharesBoth(s, next, Run(next, more[1..]), path, s.Durable(path), next.Durable(path));
    }
  }

  /** What a directory sync has covered stays, in order, whatever happens afterwards: sections of any process,
      crashes and any number of power losses. */
  lemma DurableForGood(s: State, actions: seq<Action>, more: seq<Action>, path: Path)
    requires Initial(s)
    ensures var now, later := Run(s, actions), Run(Run(s, actions), more);
            now.Durable(path) <= later.Durable(path) && SharesFirst(now, later, path, now.Durable(path))
  {
    hide Run;
    RunKeeps(s, actions);
    RunShares(Run(s, actions), more, path);
  }

  lemma SavedIsDurable(s: State, p: Pid)
    requires Inv(s) && s.PhaseOf(p).Working? && s.PhaseOf(p).saved
    ensures p in s.hosts && s.Durable(s.hosts[p]) == |s.Commits(s.hosts[p])|
  {
  }

  /** From the return of a save on, its checkpoint and all commits before it stay for good. */
  lemma SavedForGood(s: State, actions: seq<Action>, more: seq<Action>, p: Pid)
    requires Initial(s) && Run(s, actions).PhaseOf(p).Working? && Run(s, actions).PhaseOf(p).saved
    ensures var now, later := Run(s, actions), Run(Run(s, actions), more);
            p in now.hosts && now.Commits(now.hosts[p]) <= later.Commits(now.hosts[p])
  {
    hide Run;
    RunKeeps(s, actions);
    var now := Run(s, actions);
    var path := now.hosts[p];
    hide Inv;
    assert now.Durable(path) == |now.Commits(path)| by { SavedIsDurable(now, p); }
    RunShares(now, more, path);
    assert now.Commits(path)[..now.Durable(path)] == now.Commits(path);
  }

  // ---------------------------------------------------------------- whole sections

  function SaveActions(p: Pid, target: Checkpoint): seq<Action> {
    [OpenTemporary(p, target), FinishWriting(p), FlushTemporary(p), Rename(p), SyncDirectory(p)]
  }

  function SavesOf(p: Pid, targets: seq<Checkpoint>): seq<Action> {
    if targets == [] then [] else SaveActions(p, targets[0]) + SavesOf(p, targets[1..])
  }

  /** `step` with the saves that `reconcile` makes; `settle` is the case of one save. */
  function SectionActions(p: Pid, targets: seq<Checkpoint>): seq<Action> {
    [TryLock(p), Read(p)] + SavesOf(p, targets) + [Unlock(p)]
  }

  lemma {:induction false} RunConcat(s: State, a: seq<Action>, b: seq<Action>)
    ensures Run(s, a + b) == Run(Run(s, a), b)
    decreases |a|
  {
    hide Step;
    if a == [] {
      assert a + b == b;
    } else {
      assert (a + b)[1..] == a[1..] + b;
      RunConcat(Step(s, a[0]), a[1..], b);
    }
  }

  lemma RunOne(s: State, a: Action)
    ensures Run(s, [a]) == Step(s, a)
  {
    hide Step;
    assert [a][1..] == [];
  }

  /** The commits that saving these checkpoints one after the other appends. */
  function CommitsOf(base: Option<Checkpoint>, targets: seq<Checkpoint>): seq<Commit>
    decreases |targets|
  {
    if targets == [] then [] else
    [Commit(base, File(Whole(targets[0]), true))] + CommitsOf(Some(targets[0]), targets[1..])
  }

  function LastOf(base: Option<Checkpoint>, targets: seq<Checkpoint>): Option<Checkpoint> {
    if targets == [] then base else Some(targets[|targets| - 1])
  }

  lemma SaveWrites(s: State, p: Pid, target: Checkpoint)
    requires s.PhaseOf(p).Working?
    ensures var now := Step(Step(Step(s, OpenTemporary(p, target)), FinishWriting(p)), FlushTemporary(p));
            && now.PhaseOf(p) == Flushed(s.PhaseOf(p).base, target) && now.tmp == Some(File(Whole(target), true))
            && now.hosts == s.hosts && now.lock == s.lock && now.commits == s.commits
  {
  }

  lemma SaveCommits(s: State, p: Pid)
    requires p in s.hosts && s.PhaseOf(p).Flushed? && s.tmp.Some?
    ensures var now, path := Step(Step(s, Rename(p)), SyncDirectory(p)), s.hosts[p];
            && now.PhaseOf(p) == Working(Some(s.PhaseOf(p).target), true) && now.hosts == s.hosts && now.lock == s.lock
            && now.Commits(path) == s.Commits(path) + [Commit(s.PhaseOf(p).base, s.tmp.value)]
            && now.Durable(path) == |now.Commits(path)|
  {
  }

  lemma SaveUnrolls(s: State, p: Pid, target: Checkpoint)
    ensures Run(s, SaveActions(p, target)) ==
            Step(Step(Step(Step(Step(s, OpenTemporary(p, target)), FinishWriting(p)), FlushTemporary(p)), Rename(p)), SyncDirectory(p))
  {
    hide Step;
    var calls := SaveActions(p, target);
    var s1 := Step(s, calls[0]);
    var s2 := Step(s1, calls[1]);
    var s3 := Step(s2, calls[2]);
    var s4 := Step(s3, calls[3]);
    assert calls[1..] == [calls[1], calls[2], calls[3], calls[4]];
    assert [calls[1], calls[2], calls[3], calls[4]][1..] == [calls[2], calls[3], calls[4]];
    assert [calls[2], calls[3], calls[4]][1..] == [calls[3], calls[4]];
    assert [calls[3], calls[4]][1..] == [calls[4]];
    assert Run(s, calls) == Run(s1, calls[1..]);
    assert Run(s1, [calls[1], calls[2], calls[3], calls[4]]) == Run(s2, [calls[2], calls[3], calls[4]]);
    assert Run(s2, [calls[2], calls[3], calls[4]]) == Run(s3, [calls[3], calls[4]]);
    assert Run(s3, [calls[3], calls[4]]) == Run(s4, [calls[4]]);
    RunOne(s4, calls[4]);
  }

  lemma SaveRuns(s: State, p: Pid, target: Checkpoint)
    requires p in s.hosts && s.PhaseOf(p).Working?
    ensures var now, path := Run(s, SaveActions(p, target)), s.hosts[p];
            && now.PhaseOf(p) == Working(Some(target), true) && now.hosts == s.hosts && now.lock == s.lock
            && now.Commits(path) == s.Commits(path) + [Commit(s.PhaseOf(p).base, File(Whole(target), true))]
            && now.Durable(path) == |now.Commits(path)|
  {
    hide Run, Step;
    SaveUnrolls(s, p, target);
    SaveWrites(s, p, target);
    SaveCommits(Step(Step(Step(s, OpenTemporary(p, target)), FinishWriting(p)), FlushTemporary(p)), p);
  }

  lemma {:induction false} SavesRun(s: State, p: Pid, targets: seq<Checkpoint>)
    requires p in s.hosts && s.PhaseOf(p).Working?
    ensures var now, path := Run(s, SavesOf(p, targets)), s.hosts[p];
            && now.PhaseOf(p).Working? && now.PhaseOf(p).base == LastOf(s.PhaseOf(p).base, targets)
            && now.hosts == s.hosts && now.lock == s.lock
            && now.Commits(path) == s.Commits(path) + CommitsOf(s.PhaseOf(p).base, targets)
            && (targets != [] ==> now.Durable(path) == |now.Commits(path)|)
    decreases |targets|
  {
    hide Step;
    var path := s.hosts[p];
    if targets == [] {
      assert s.Commits(path) + [] == s.Commits(path);
    } else {
      SaveRuns(s, p, targets[0]);
      var mid := Run(s, SaveActions(p, targets[0]));
      RunConcat(s, SaveActions(p, targets[0]), SavesOf(p, targets[1..]));
      SavesRun(mid, p, targets[1..]);
      Associative(s.Commits(path), [Commit(s.PhaseOf(p).base, File(Whole(targets[0]), true))],
                  CommitsOf(Some(targets[0]), targets[1..]));
    }
  }

  lemma UnlockFrees(s: State, p: Pid)
    requires s.PhaseOf(p).Working?
    ensures var now := Step(s, Unlock(p));
            && now.lock.None? && now.PhaseOf(p).Idle? && now.hosts == s.hosts
            && (forall path :: now.Commits(path) == s.Commits(path) && now.Durable(path) == s.Durable(path))
  {
  }

  lemma SectionLocks(s: State, p: Pid)
    requires s.PhaseOf(p).Idle? && s.lock.None? && p in s.hosts
    ensures var now := Step(s, TryLock(p));
            now.hosts == s.hosts && now.commits == s.commits && now.PhaseOf(p) == Locked
  {
  }

  lemma SectionReads(s: State, p: Pid)
    requires s.PhaseOf(p).Locked? && p in s.hosts && Chained(s.Commits(s.hosts[p]))
    ensures var now, cs := Step(s, Read(p)), s.Commits(s.hosts[p]);
            now.hosts == s.hosts && now.commits == s.commits && now.PhaseOf(p) == Working(BaseBefore(cs, |cs|), false)
  {
    var cs := s.Commits(s.hosts[p]);
    assert cs != [] ==> cs[|cs| - 1].file.content.Whole?;
    hide Chained;
  }

  lemma SectionEnters(s: State, p: Pid)
    requires Inv(s) && s.lock.None? && p in s.hosts
    ensures var now, cs := Step(Step(s, TryLock(p)), Read(p)), s.Commits(s.hosts[p]);
            && now.hosts == s.hosts && now.Commits(s.hosts[p]) == cs
            && now.PhaseOf(p) == Working(BaseBefore(cs, |cs|), false)
  {
    hide Step, Chained, HolderOk;
    assert s.PhaseOf(p).Idle? by { assert !InSection(s.PhaseOf(p)); }
    SectionLocks(s, p);
    assert Step(s, TryLock(p)).Commits(s.hosts[p]) == s.Commits(s.hosts[p]);
    assert Chained(s.Commits(s.hosts[p]));
    SectionReads(Step(s, TryLock(p)), p);
  }

  lemma SectionUnrolls(s: State, p: Pid, targets: seq<Checkpoint>)
    ensures Run(s, SectionActions(p, targets)) ==
            Step(Run(Step(Step(s, TryLock(p)), Read(p)), SavesOf(p, targets)), Unlock(p))
  {
    hide Step;
    RunConcat(s, [TryLock(p), Read(p)] + SavesOf(p, targets), [Unlock(p)]);
    RunConcat(s, [TryLock(p), Read(p)], SavesOf(p, targets));
    RunConcat(s, [TryLock(p)], [Read(p)]);
    assert [TryLock(p)] + [Read(p)] == [TryLock(p), Read(p)];
    RunOne(s, TryLock(p));
    RunOne(Step(s, TryLock(p)), Read(p));
    RunOne(Run(Step(Step(s, TryLock(p)), Read(p)), SavesOf(p, targets)), Unlock(p));
  }

  /** An uninterrupted section starts from the last committed checkpoint, appends its saves to it one derived
      from the other, makes them permanent and frees the lock. */
  lemma SectionRuns(s: State, p: Pid, targets: seq<Checkpoint>)
    requires Inv(s) && s.lock.None? && p in s.hosts
    ensures var now, path := Run(s, SectionActions(p, targets)), s.hosts[p];
            && now.lock.None? && now.PhaseOf(p).Idle?
            && now.Commits(path) == s.Commits(path) + CommitsOf(BaseBefore(s.Commits(path), |s.Commits(path)|), targets)
            && (targets != [] ==> now.Durable(path) == |now.Commits(path)|)
  {
    hide Run, Step, Chained;
    SectionEnters(s, p);
    var s2 := Step(Step(s, TryLock(p)), Read(p));
    SavesRun(s2, p, targets);
    SectionUnrolls(s, p, targets);
    UnlockFrees(Run(s2, SavesOf(p, targets)), p);
  }

  // ---------------------------------------------------------------- the host

  lemma CrashFreesTheLock(s: State, p: Pid)
    requires Inv(s) && s.lock == Some(p)
    ensures var s' := Step(s, Crash(p));
            Inv(s') && s'.lock.None? && s'.commits == s.commits && s'.hosts == s.hosts && s'.PhaseOf(p).Idle?
  {
    StepKeeps(s, Crash(p));
    hide Inv;
  }

  /** After the holder of the lock crashed, any process can run a whole section, from the last commit on. */
  lemma SectionRunsAfterCrash(s: State, crashed: Pid, p: Pid, targets: seq<Checkpoint>)
    requires Inv(s) && s.lock == Some(crashed) && p in s.hosts
    ensures var now, path := Run(Step(s, Crash(crashed)), SectionActions(p, targets)), s.hosts[p];
            && now.lock.None?
            && now.Commits(path) == s.Commits(path) + CommitsOf(BaseBefore(s.Commits(path), |s.Commits(path)|), targets)
  {
    hide Inv, Run, SectionActions, Step;
    CrashFreesTheLock(s, crashed);
    SectionRuns(Step(s, Crash(crashed)), p, targets);
  }

  datatype HostFailure = LockHeld

  /** One process over the shared file system. */
  class FileHost {
    const pid: Pid
    var disk: State

    constructor (pid: Pid, disk: State)
      ensures this.pid == pid && this.disk == disk
    {
      this.pid, this.disk := pid, disk;
    }

    method Call(action: Action)
      modifies this
      ensures disk == Step(old(disk), action)
    {
      disk := Step(disk, action);
    }

    method Save(checkpoint: Checkpoint)
      modifies this
      ensures disk == Run(old(disk), SaveActions(pid, checkpoint))
    {
      hide Step, Run;
      SaveUnrolls(disk, pid, checkpoint);
      Call(OpenTemporary(pid, checkpoint));
      Call(FinishWriting(pid));
      Call(FlushTemporary(pid));
      Call(Rename(pid));
      Call(SyncDirectory(pid));
    }

    /** `step` and `settle`: read under the lock, then save any number of times. */
    method Section(checkpoints: seq<Checkpoint>) returns (r: Result<Option<Checkpoint>, HostFailure>)
      requires Inv(disk) && pid in disk.hosts && disk.PhaseOf(pid).Idle?
      modifies this
      ensures r.Err? <==> old(disk).lock.Some?
      ensures r.Err? ==> disk == old(disk)
      ensures r.Ok? ==>
                && disk == Run(old(disk), SectionActions(pid, checkpoints))
                && var cs := old(disk).Commits(old(disk).hosts[pid]);
                   r.value == BaseBefore(cs, |cs|)
    {
      ghost var start := disk;
      Call(TryLock(pid));
      if disk.lock != Some(pid) || !disk.PhaseOf(pid).Locked? {
        return Err(LockHeld);
      }
      Call(Read(pid));
      assert Chained(start.Commits(start.hosts[pid]));
      var base := disk.PhaseOf(pid).base;
      ghost var entered := disk;
      SectionUnrolls(start, pid, checkpoints);
      SaveEach(checkpoints);
      Call(Unlock(pid));
      return Ok(base);
    }

    method SaveEach(checkpoints: seq<Checkpoint>)
      modifies this
      ensures disk == Run(old(disk), SavesOf(pid, checkpoints))
    {
      hide Step;
      for i := 0 to |checkpoints|
        invariant Run(disk, SavesOf(pid, checkpoints[i..])) == Run(old(disk), SavesOf(pid, checkpoints))
      {
        assert checkpoints[i..][1..] == checkpoints[i + 1..];
        RunConcat(disk, SaveActions(pid, checkpoints[i]), SavesOf(pid, checkpoints[i + 1..]));
        Save(checkpoints[i]);
      }
    }
  }
}
