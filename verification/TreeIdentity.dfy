/** The identity of an installed tree (cli/ci/package_lifecycle.py). */
module TreeIdentity {
  import opened Wrappers
  import opened Collections
  import opened Ordering
  import opened Text

  /** The names from the root down; the root itself is the empty path. */
  type Path = seq<string>

  /** `inside`: the link resolves to something under the root. */
  datatype Member =
    | Directory(mode: nat)
    | Regular(mode: nat, content: seq<bv8>)
    | Symlink(target: string, inside: bool)
    | Special

  type Tree = map<Path, Member>

  const MAX_TREE_ENTRIES := 8192
  const MAX_TREE_FILE_BYTES := 256 * 1024 * 1024

  /** SHA-256, taken as injective. */
  datatype Digest = Sha256(preimage: seq<bv8>)

  datatype Record =
    | DirectoryRecord(relative: string, mode: nat)
    | RegularRecord(relative: string, mode: nat, size: nat, digest: Digest)
    | SymlinkRecord(relative: string, target: string)

  datatype Mutated =
    | TooManyMembers
    | Oversized(relative: string)
    | EscapingLink(relative: string)
    | UnsupportedType(relative: string)

  // ---------------------------------------------------------------- trees

  function Parent(p: Path): Path
    requires p != []
  {
    p[..|p| - 1]
  }

  predicate IsDirectory(tree: Tree, d: Path) {
    d == [] || (d in tree && tree[d].Directory?)
  }

  predicate IsName(name: string) {
    name != "" && '/' !in name
  }

  ghost predicate WellFormed(tree: Tree) {
    forall p :: p in tree ==> p != [] && IsDirectory(tree, Parent(p)) && forall i :: 0 <= i < |p| ==> IsName(p[i])
  }

  ghost predicate IsChild(tree: Tree, d: Path, p: Path) {
    p in tree && p != [] && Parent(p) == d
  }

  /** What scanning `d` may give: its children, each once, in any order. */
  ghost predicate Lists(tree: Tree, d: Path, entries: seq<Path>) {
    Distinct(entries) && forall p :: p in entries <==> IsChild(tree, d, p)
  }

  function Posix(p: Path): string {
    if p == [] then "" else if |p| == 1 then p[0] else p[0] + "/" + Posix(p[1..])
  }

  function SortKey(p: Path): seq<string> {
    [Posix(p)]
  }

  lemma NamePrefix(a: string, b: string, s: string, t: string)
    requires '/' !in a && '/' !in b
    requires a + s == b + t && (s == "" || s[0] == '/') && (t == "" || t[0] == '/')
    ensures a == b && s == t
  {
    var whole := a + s;
    assert s != "" ==> whole[|a|] == s[0];
    assert t != "" ==> whole[|b|] == t[0];
    if |a| < |b| || |b| < |a| {
      assert false;
    }
    assert whole[..|a|] == a && whole[..|b|] == b && whole[|a|..] == s && whole[|b|..] == t;
  }

  /** Relative paths spell members apart. */
  lemma {:induction false} PosixIsInjective(p: Path, q: Path)
    requires p != [] && q != [] && Posix(p) == Posix(q)
    requires (forall i :: 0 <= i < |p| ==> IsName(p[i])) && (forall i :: 0 <= i < |q| ==> IsName(q[i]))
    ensures p == q
    decreases |p|
  {
    var s, t := (if |p| == 1 then "" else "/" + Posix(p[1..])), (if |q| == 1 then "" else "/" + Posix(q[1..]));
    assert Posix(p) == p[0] + s && Posix(q) == q[0] + t;
    NamePrefix(p[0], q[0], s, t);
    if |p| > 1 {
      assert s[1..] == Posix(p[1..]) && t[1..] == Posix(q[1..]);
      PosixIsInjective(p[1..], q[1..]);
      assert p == [p[0]] + p[1..] && q == [q[0]] + q[1..];
    }
  }

  // ---------------------------------------------------------------- the identity

  predicate Acceptable(m: Member) {
    match m
    case Directory(_) => true
    case Regular(_, content) => |content| <= MAX_TREE_FILE_BYTES
    case Symlink(_, inside) => inside
    case Special => false
  }

  function RecordOf(relative: string, m: Member): Result<Record, Mutated> {
    match m
    case Directory(mode) => Ok(DirectoryRecord(relative, mode % 512))
    case Regular(mode, content) =>
      if |content| > MAX_TREE_FILE_BYTES then Err(Oversized(relative))
      else Ok(RegularRecord(relative, mode % 512, |content|, Sha256(content)))
    case Symlink(target, inside) => if inside then Ok(SymlinkRecord(relative, target)) else Err(EscapingLink(relative))
    case Special => Err(UnsupportedType(relative))
  }

  /** The records of `paths` in order, or the first refusal. */
  function Recorded(tree: Tree, paths: seq<Path>): Result<seq<Record>, Mutated>
    requires forall p :: p in paths ==> p in tree
    decreases |paths|
  {
    if paths == [] then Ok([])
    else
      var last := |paths| - 1;
      assert paths[last] in paths;
      var before := Recorded(tree, paths[..last]);
      if before.Err? then before
      else
        var record := RecordOf(Posix(paths[last]), tree[paths[last]]);
        if record.Err? then Err(record.error) else Ok(before.value + [record.value])
  }

  ghost function SomeOrder(s: set<Path>): (r: seq<Path>)
    ensures Distinct(r) && |r| == |s| && forall p :: p in r <==> p in s
  {
    if s == {} then [] else
      var p :| p in s;
      [p] + SomeOrder(s - {p})
  }

  ghost function InOrder(tree: Tree): (r: seq<Path>)
    ensures forall p :: p in r <==> p in tree
  {
    var some := SomeOrder(tree.Keys);
    var r := Sorted(some, SortKey);
    assert forall p :: p in r <==> p in multiset(r);
    assert forall p :: p in some <==> p in multiset(some);
    r
  }

  /** What the tree is identified by; no enumeration order enters into it. */
  ghost function Identity(tree: Tree): Result<seq<Record>, Mutated> {
    if |tree| > MAX_TREE_ENTRIES then Err(TooManyMembers) else Recorded(tree, InOrder(tree))
  }

  lemma KeysApart(tree: Tree, paths: seq<Path>)
    requires WellFormed(tree) && Distinct(paths) && forall p :: p in paths ==> p in tree
    ensures DistinctKeys(paths, SortKey)
  {
    forall i, j | 0 <= i < j < |paths| ensures SortKey(paths[i]) != SortKey(paths[j]) {
      assert paths[i] in paths && paths[j] in paths;
      if Posix(paths[i]) == Posix(paths[j]) {
        PosixIsInjective(paths[i], paths[j]);
      }
    }
  }

  /** However the members were collected, sorting them gives the one order. */
  lemma SortedIsInOrder(tree: Tree, paths: seq<Path>)
    requires WellFormed(tree) && Distinct(paths) && forall p :: p in paths <==> p in tree
    ensures Sorted(paths, SortKey) == InOrder(tree)
  {
    var some := SomeOrder(tree.Keys);
    KeysApart(tree, paths);
    KeysApart(tree, some);
    SortedAscending(paths, SortKey);
    SortedAscending(some, SortKey);
    var a, b := Sorted(paths, SortKey), Sorted(some, SortKey);
    forall p ensures p in a <==> p in b {
      assert p in a <==> p in multiset(a) <==> p in multiset(paths) <==> p in paths;
      assert p in b <==> p in multiset(b) <==> p in multiset(some) <==> p in some;
    }
    AscendingUnique(a, b, SortKey);
  }

  // ---------------------------------------------------------------- the walk

  /** `paths` are the members whose directory has been read; what is read is the root or collected, and a collected
      directory is read or waits once. */
  ghost predicate Walking(tree: Tree, paths: seq<Path>, waiting: set<Path>, done: set<Path>) {
    && Distinct(paths) && (forall p :: p in paths <==> p in tree && p != [] && Parent(p) in done)
    && (forall d :: d in waiting ==> IsDirectory(tree, d) && d !in done)
    && (forall d :: d in waiting + done ==> d == [] || d in paths)
    && (forall d :: IsDirectory(tree, d) && (d == [] || d in paths) ==> d in waiting + done)
  }

  /** The same while `directory` is being read up to `entries[..i]`. */
  ghost predicate Reading(tree: Tree, paths: seq<Path>, waiting: set<Path>, done: set<Path>, directory: Path,
                          entries: seq<Path>, i: nat)
    requires i <= |entries|
  {
    && Distinct(paths) && (forall p :: p in paths <==> p in tree && p != [] && (Parent(p) in done || p in entries[..i]))
    && IsDirectory(tree, directory) && directory !in done && directory !in waiting
    && (directory == [] || directory in paths)
    && (forall d :: d in waiting ==> IsDirectory(tree, d) && d !in done)
    && (forall d :: d in waiting + done ==> d == [] || d in paths)
    && (forall d :: IsDirectory(tree, d) && (d == [] || d in paths) ==> d in waiting + done + {directory})
  }

  lemma StartWalking(tree: Tree)
    requires WellFormed(tree)
    ensures Walking(tree, [], {[]}, {})
  {
  }

  lemma StartReading(tree: Tree, paths: seq<Path>, waiting: set<Path>, done: set<Path>, d: Path, entries: seq<Path>)
    requires WellFormed(tree) && Walking(tree, paths, waiting, done) && d in waiting
    ensures Reading(tree, paths, waiting - {d}, done, d, entries, 0)
  {
    assert entries[..0] == [];
  }

  lemma FinishReading(tree: Tree, paths: seq<Path>, waiting: set<Path>, done: set<Path>, d: Path, entries: seq<Path>)
    requires WellFormed(tree) && Lists(tree, d, entries)
    requires Reading(tree, paths, waiting, done, d, entries, |entries|)
    ensures Walking(tree, paths, waiting, done + {d})
  {
    assert entries[..|entries|] == entries;
    forall p ensures p in paths <==> p in tree && p != [] && Parent(p) in done + {d} {
      assert p in entries <==> IsChild(tree, d, p);
    }
  }

  lemma FreshEntry(tree: Tree, paths: seq<Path>, waiting: set<Path>, done: set<Path>, d: Path, entries: seq<Path>, i: nat)
    requires WellFormed(tree) && Lists(tree, d, entries) && i < |entries|
    requires Reading(tree, paths, waiting, done, d, entries, i)
    ensures entries[i] in tree && entries[i] !in paths
  {
    var p := entries[i];
    assert p in entries && IsChild(tree, d, p);
    assert p !in entries[..i];
  }

  lemma ReadOne(tree: Tree, paths: seq<Path>, waiting: set<Path>, done: set<Path>, d: Path, entries: seq<Path>, i: nat)
    requires WellFormed(tree) && Lists(tree, d, entries) && i < |entries|
    requires Reading(tree, paths, waiting, done, d, entries, i)
    ensures var p := entries[i];
            Reading(tree, paths + [p], if IsDirectory(tree, p) then waiting + {p} else waiting, done, d, entries, i + 1)
  {
    FreshEntry(tree, paths, waiting, done, d, entries, i);
    var p := entries[i];
    assert entries[..i + 1] == entries[..i] + [p];
    assert IsChild(tree, d, p);
  }

  /** The room for one more member is gone: there are too many. */
  lemma NoRoom(tree: Tree, paths: seq<Path>, p: Path)
    requires Distinct(paths) && (forall q :: q in paths ==> q in tree) && p in tree && p !in paths
    ensures |tree| > |paths|
  {
    DistinctSize(paths);
    var s := set q | q in paths;
    SubsetSize(s + {p}, tree.Keys);
  }

  lemma {:induction false} AllCollected(tree: Tree, paths: seq<Path>, done: set<Path>, p: Path)
    requires WellFormed(tree) && Walking(tree, paths, {}, done) && p in tree
    ensures p in paths
    decreases |p|
  {
    if Parent(p) != [] {
      AllCollected(tree, paths, done, Parent(p));
    }
    assert IsDirectory(tree, Parent(p));
  }

  /** Nothing waits any more: every member has been collected once. */
  lemma WalkIsComplete(tree: Tree, paths: seq<Path>, done: set<Path>)
    requires WellFormed(tree) && Walking(tree, paths, {}, done)
    ensures (forall p :: p in paths <==> p in tree) && |paths| == |tree|
  {
    forall p | p in tree ensures p in paths {
      AllCollected(tree, paths, done, p);
    }
    DistinctSize(paths);
    assert (set p | p in paths) == tree.Keys;
  }

  lemma WalkingIsDistinct(tree: Tree, paths: seq<Path>, waiting: set<Path>, done: set<Path>)
    requires Walking(tree, paths, waiting, done)
    ensures Distinct(paths)
  {
  }

  ghost function Directories(tree: Tree): set<Path> {
    {[]} + set d | d in tree && tree[d].Directory?
  }

  ghost predicate Stacked(pending: seq<Path>, waiting: set<Path>) {
    Distinct(pending) && forall d :: d in pending <==> d in waiting
  }

  lemma StartStack()
    ensures Stacked([[]], {[]})
  {
  }

  lemma PopStack(pending: seq<Path>, waiting: set<Path>)
    requires Stacked(pending, waiting) && pending != []
    ensures var d := pending[|pending| - 1];
            d in waiting && Stacked(pending[..|pending| - 1], waiting - {d})
  {
    var d, rest := pending[|pending| - 1], pending[..|pending| - 1];
    assert pending == rest + [d];
    forall e ensures e in rest <==> e in waiting - {d} {
      assert e in pending <==> e in waiting;
    }
  }

  lemma PushStack(rest: seq<Path>, d: Path, waiting: set<Path>)
    requires Stacked(rest, waiting) && d !in waiting
    ensures Stacked(rest + [d], waiting + {d})
  {
    assert d !in rest;
  }

  lemma EmptyStack(pending: seq<Path>, waiting: set<Path>)
    requires Stacked(pending, waiting) && pending == []
    ensures waiting == {}
  {
    forall d ensures d !in waiting { assert d !in pending; }
  }

  lemma WaitingIsDirectory(tree: Tree, paths: seq<Path>, waiting: set<Path>, done: set<Path>, d: Path)
    requires Walking(tree, paths, waiting, done) && d in waiting
    ensures IsDirectory(tree, d) && d in Directories(tree) && d !in done
  {
  }

  lemma ReadingIsDistinct(tree: Tree, paths: seq<Path>, waiting: set<Path>, done: set<Path>, d: Path,
                          entries: seq<Path>, i: nat)
    requires i <= |entries| && Reading(tree, paths, waiting, done, d, entries, i)
    ensures Distinct(paths) && forall p :: p in paths ==> p in tree
  {
  }

  lemma NotWaiting(tree: Tree, paths: seq<Path>, waiting: set<Path>, done: set<Path>, d: Path,
                   entries: seq<Path>, i: nat)
    requires WellFormed(tree) && Lists(tree, d, entries) && i < |entries|
    requires Reading(tree, paths, waiting, done, d, entries, i)
    ensures entries[i] !in waiting && entries[i] != []
  {
    FreshEntry(tree, paths, waiting, done, d, entries, i);
  }

  /** Every descendant once; `scan` is one enumeration of each directory. */
  method Walk(tree: Tree, scan: Path -> seq<Path>) returns (r: Result<seq<Path>, Mutated>)
    requires WellFormed(tree) && forall d :: IsDirectory(tree, d) ==> Lists(tree, d, scan(d))
    ensures r.Err? <==> |tree| > MAX_TREE_ENTRIES
    ensures r.Err? ==> r.error == TooManyMembers
    ensures r.Ok? ==> Distinct(r.value) && forall p :: p in r.value <==> p in tree
  {
    hide Walking, Reading, WellFormed, Lists, Distinct;
    var paths: seq<Path> := [];
    var pending: seq<Path> := [[]];
    ghost var done: set<Path> := {};
    StartWalking(tree);
    StartStack();
    ghost var waiting: set<Path> := {[]};
    while pending != []
      invariant Walking(tree, paths, waiting, done)
      invariant Stacked(pending, waiting) && |paths| <= MAX_TREE_ENTRIES
      decreases Directories(tree) - done
    {
      PopStack(pending, waiting);
      var directory := pending[|pending| - 1];
      pending := pending[..|pending| - 1];
      var entries := scan(directory);
      WaitingIsDirectory(tree, paths, waiting, done, directory);
      StartReading(tree, paths, waiting, done, directory, entries);
      waiting := waiting - {directory};
      for i := 0 to |entries|
        invariant Reading(tree, paths, waiting, done, directory, entries, i)
        invariant Stacked(pending, waiting) && |paths| <= MAX_TREE_ENTRIES
      {
        var path := entries[i];
        FreshEntry(tree, paths, waiting, done, directory, entries, i);
        ReadOne(tree, paths, waiting, done, directory, entries, i);
        ReadingIsDistinct(tree, paths, waiting, done, directory, entries, i);
        if |paths| >= MAX_TREE_ENTRIES {
          NoRoom(tree, paths, path);
          return Err(TooManyMembers);
        }
        NotWaiting(tree, paths, waiting, done, directory, entries, i);
        paths := paths + [path];
        if tree[path].Directory? {
          PushStack(pending, path, waiting);
          pending := pending + [path];
          waiting := waiting + {path};
        }
      }
      FinishReading(tree, paths, waiting, done, directory, entries);
      done := done + {directory};
    }
    EmptyStack(pending, waiting);
    WalkIsComplete(tree, paths, done);
    WalkingIsDistinct(tree, paths, waiting, done);
    return Ok(paths);
  }

  lemma NothingRecorded(tree: Tree)
    ensures Recorded(tree, []) == Ok([])
  {
  }

  lemma RecordedNext(tree: Tree, paths: seq<Path>, i: nat)
    requires (forall p :: p in paths ==> p in tree) && i < |paths| && Recorded(tree, paths[..i]).Ok?
    ensures var record := RecordOf(Posix(paths[i]), tree[paths[i]]);
            Recorded(tree, paths[..i + 1]) ==
            if record.Err? then Err(record.error) else Ok(Recorded(tree, paths[..i]).value + [record.value])
  {
    assert paths[..i + 1][..i] == paths[..i];
  }

  lemma {:induction false} RefusedForGood(tree: Tree, paths: seq<Path>, n: nat)
    requires (forall p :: p in paths ==> p in tree) && n <= |paths| && Recorded(tree, paths[..n]).Err?
    ensures Recorded(tree, paths) == Recorded(tree, paths[..n])
    decreases |paths| - n
  {
    if n < |paths| {
      assert paths[..n + 1][..n] == paths[..n];
      RefusedForGood(tree, paths, n + 1);
    } else {
      assert paths[..n] == paths;
    }
  }

  /** The identity of the tree, whatever the enumeration order. */
  method IdentityOf(tree: Tree, scan: Path -> seq<Path>) returns (r: Result<seq<Record>, Mutated>)
    requires WellFormed(tree) && forall d :: IsDirectory(tree, d) ==> Lists(tree, d, scan(d))
    ensures r == Identity(tree)
  {
    hide WellFormed, Lists, Sorted, Recorded, InOrder;
    var walked := Walk(tree, scan);
    if walked.Err? {
      return Err(walked.error);
    }
    SortedIsInOrder(tree, walked.value);
    var paths := Sorted(walked.value, SortKey);
    var records: seq<Record> := [];
    assert paths[..0] == [] && Recorded(tree, []) == Ok([]) by {
      NothingRecorded(tree);
    }
    for i := 0 to |paths|
      invariant forall p :: p in paths ==> p in tree
      invariant Recorded(tree, paths[..i]) == Ok(records)
    {
      RecordedNext(tree, paths, i);
      var record := RecordOf(Posix(paths[i]), tree[paths[i]]);
      if record.Err? {
        RefusedForGood(tree, paths, i + 1);
        return Err(record.error);
      }
      records := records + [record.value];
    }
    assert paths[..|paths|] == paths;
    return Ok(records);
  }

  // ---------------------------------------------------------------- what the identity tells

  /** What a record shows of a member. */
  predicate SameShown(a: Member, b: Member) {
    match a
    case Directory(mode) => b.Directory? && mode % 512 == b.mode % 512
    case Regular(mode, content) => b.Regular? && mode % 512 == b.mode % 512 && content == b.content
    case Symlink(target, _) => b.Symlink? && target == b.target
    case Special => b.Special?
  }

  ghost predicate Exactly(tree: Tree, paths: seq<Path>, records: seq<Record>) {
    && |records| == |paths|
    && forall i :: 0 <= i < |paths| ==> paths[i] in tree && RecordOf(Posix(paths[i]), tree[paths[i]]) == Ok(records[i])
  }

  lemma {:induction false} RecordedExactly(tree: Tree, paths: seq<Path>)
    requires forall p :: p in paths ==> p in tree
    ensures Recorded(tree, paths).Ok? <==> forall p :: p in paths ==> Acceptable(tree[p])
    ensures Recorded(tree, paths).Ok? ==> Exactly(tree, paths, Recorded(tree, paths).value)
    decreases |paths|
  {
    if paths != [] {
      var last := |paths| - 1;
      RecordedExactly(tree, paths[..last]);
      assert paths == paths[..last] + [paths[last]];
    }
  }

  lemma {:induction false} NeverTooMany(tree: Tree, paths: seq<Path>)
    requires forall p :: p in paths ==> p in tree
    ensures Recorded(tree, paths) != Err(TooManyMembers)
    decreases |paths|
  {
    if paths != [] {
      NeverTooMany(tree, paths[..|paths| - 1]);
    }
  }

  /** A tree has an identity exactly when it is small enough and every member is acceptable: no regular file is
      oversized, no link escapes and no member has another type. */
  lemma RefusesExactly(tree: Tree)
    ensures Identity(tree).Ok? <==> |tree| <= MAX_TREE_ENTRIES && forall p :: p in tree ==> Acceptable(tree[p])
    ensures Identity(tree) == Err(TooManyMembers) <==> |tree| > MAX_TREE_ENTRIES
  {
    RecordedExactly(tree, InOrder(tree));
    NeverTooMany(tree, InOrder(tree));
  }

  lemma {:induction false} FirstRefused(tree: Tree, paths: seq<Path>) returns (i: nat)
    requires (forall p :: p in paths ==> p in tree) && Recorded(tree, paths).Err?
    ensures i < |paths| && paths[i] in tree && !Acceptable(tree[paths[i]])
    ensures forall j :: 0 <= j < i ==> paths[j] in tree && Acceptable(tree[paths[j]])
    ensures Recorded(tree, paths) == Err(RecordOf(Posix(paths[i]), tree[paths[i]]).error)
    decreases |paths|
  {
    var last := |paths| - 1;
    var before := paths[..last];
    if Recorded(tree, before).Err? {
      i := FirstRefused(tree, before);
      assert before[i] == paths[i];
    } else {
      i := last;
      RecordedExactly(tree, before);
      forall j | 0 <= j < i ensures Acceptable(tree[paths[j]]) {
        assert before[j] in before;
      }
    }
  }

  /** Otherwise the first unacceptable member in the order of relative paths is what the refusal names. */
  lemma RefusesTheFirst(tree: Tree) returns (i: nat)
    requires |tree| <= MAX_TREE_ENTRIES && Identity(tree).Err?
    ensures i < |InOrder(tree)| && InOrder(tree)[i] in tree
    ensures !Acceptable(tree[InOrder(tree)[i]])
    ensures forall j :: 0 <= j < i ==> InOrder(tree)[j] in tree && Acceptable(tree[InOrder(tree)[j]])
    ensures Identity(tree) == Err(RecordOf(Posix(InOrder(tree)[i]), tree[InOrder(tree)[i]]).error)
  {
    hide InOrder;
    i := FirstRefused(tree, InOrder(tree));
  }

  /** Where members are shown by one record, they are one member. */
  lemma SameRecordSameMember(p: Path, q: Path, a: Member, b: Member, record: Record)
    requires p != [] && q != []
    requires (forall i :: 0 <= i < |p| ==> IsName(p[i])) && (forall i :: 0 <= i < |q| ==> IsName(q[i]))
    requires RecordOf(Posix(p), a) == Ok(record) && RecordOf(Posix(q), b) == Ok(record)
    ensures p == q && SameShown(a, b)
  {
    hide Posix, IsName;
    PosixIsInjective(p, q);
  }

  lemma EqualMembers(tree: Tree, other: Tree, paths: seq<Path>, paths': seq<Path>, records: seq<Record>, p: Path)
    requires WellFormed(tree) && WellFormed(other) && p in paths
    requires Exactly(tree, paths, records) && Exactly(other, paths', records)
    ensures p in tree && p in other && SameShown(tree[p], other[p])
  {
    hide RecordOf, Posix, IsName, SameShown;
    var i :| 0 <= i < |paths| && paths[i] == p;
    SameRecordSameMember(p, paths'[i], tree[p], other[paths'[i]], records[i]);
  }

  lemma SameTreeSameOrder(tree: Tree, other: Tree)
    requires tree.Keys == other.Keys
    ensures InOrder(tree) == InOrder(other)
  {
  }

  lemma SameRecords(tree: Tree, other: Tree, paths: seq<Path>)
    requires forall p :: p in paths ==> p in tree && p in other && SameShown(tree[p], other[p])
    requires Recorded(tree, paths).Ok? && Recorded(other, paths).Ok?
    ensures Recorded(tree, paths) == Recorded(other, paths)
  {
    RecordedExactly(tree, paths);
    RecordedExactly(other, paths);
    var a, b := Recorded(tree, paths).value, Recorded(other, paths).value;
    forall i | 0 <= i < |paths| ensures a[i] == b[i] {
      assert paths[i] in paths;
    }
    assert a == b;
  }

  /** Two trees have the same identity exactly when they have the same members, shown alike. */
  lemma IdentityDiscriminates(tree: Tree, other: Tree)
    requires WellFormed(tree) && WellFormed(other) && Identity(tree).Ok? && Identity(other).Ok?
    ensures Identity(tree) == Identity(other) <==>
            (tree.Keys == other.Keys && forall p :: p in tree ==> SameShown(tree[p], other[p]))
  {
    hide SameShown, InOrder, WellFormed, Recorded, Exactly;
    RecordedExactly(tree, InOrder(tree));
    RecordedExactly(other, InOrder(other));
    if Identity(tree) == Identity(other) {
      forall p | p in tree ensures p in other && SameShown(tree[p], other[p]) {
        EqualMembers(tree, other, InOrder(tree), InOrder(other), Identity(tree).value, p);
      }
      forall p | p in other ensures p in tree {
        EqualMembers(other, tree, InOrder(other), InOrder(tree), Identity(tree).value, p);
      }
    }
    if tree.Keys == other.Keys && forall p :: p in tree ==> SameShown(tree[p], other[p]) {
      SameTreeSameOrder(tree, other);
      SameRecords(tree, other, InOrder(tree));
    }
  }

  // ---------------------------------------------------------------- the records, spelled out

  /** A path is spelled by its names with slashes between them. */
  lemma {:induction false} PosixJoins(p: Path, name: string)
    requires p != []
    ensures Posix([name]) == name && Posix(p + [name]) == Posix(p) + "/" + name
    decreases |p|
  {
    var longer := p + [name];
    if |p| == 1 {
      assert longer[1..] == [name] && p == [p[0]];
    } else {
      assert longer[1..] == p[1..] + [name];
      PosixJoins(p[1..], name);
      Associative(p[0] + "/", Posix(p[1..]), "/" + name);
      Associative(Posix(p[1..]), "/", name);
      Associative(p[0] + "/" + Posix(p[1..]), "/", name);
    }
  }

  /** The relative path of a record. */
  ghost function RelativeOf(r: Record): string {
    match r
    case DirectoryRecord(relative, _) => relative
    case RegularRecord(relative, _, _, _) => relative
    case SymlinkRecord(relative, _) => relative
  }

  /** What is recorded of a member: its path, kind, permission bits, and size and digest or link target. */
  ghost predicate Records(r: Record, p: Path, m: Member) {
    match m
    case Directory(mode) => r == DirectoryRecord(Posix(p), mode % 512)
    case Regular(mode, content) => r == RegularRecord(Posix(p), mode % 512, |content|, Sha256(content))
    case Symlink(target, _) => r == SymlinkRecord(Posix(p), target)
    case Special => false
  }

  lemma OneString(a: string, b: string)
    ensures TupleLess([a], [b]) <==> StringLess(a, b)
  {
    assert [a][1..] == [] && [b][1..] == [];
  }

  lemma OneRecord(p: Path, m: Member, r: Record)
    requires RecordOf(Posix(p), m) == Ok(r)
    ensures Records(r, p, m) && RelativeOf(r) == Posix(p)
  {
    hide Posix;
  }

  lemma KeyIsOneString(p: Path)
    ensures SortKey(p) == [Posix(p)]
  {
    hide Posix;
  }

  lemma OrderAscends(tree: Tree)
    requires WellFormed(tree)
    ensures Ascending(InOrder(tree), SortKey)
  {
    KeysApart(tree, SomeOrder(tree.Keys));
    SortedAscending(SomeOrder(tree.Keys), SortKey);
  }

  /** The identity is one record for each member, in strictly ascending order of relative paths. */
  lemma IdentityIsSortedRecords(tree: Tree, records: seq<Record>)
    requires WellFormed(tree) && Identity(tree) == Ok(records)
    ensures |records| == |InOrder(tree)|
    ensures forall i :: 0 <= i < |records| ==>
              InOrder(tree)[i] in tree && Records(records[i], InOrder(tree)[i], tree[InOrder(tree)[i]])
    ensures forall i, j :: 0 <= i < j < |records| ==> StringLess(RelativeOf(records[i]), RelativeOf(records[j]))
  {
    hide WellFormed, StringLess, TupleLess, Posix, InOrder, Recorded, RecordOf, Records, RelativeOf, SortKey;
    var paths := InOrder(tree);
    RecordedExactly(tree, paths);
    OrderAscends(tree);
    forall i | 0 <= i < |records| ensures paths[i] in tree && Records(records[i], paths[i], tree[paths[i]]) && RelativeOf(records[i]) == Posix(paths[i]) {
      OneRecord(paths[i], tree[paths[i]], records[i]);
    }
    forall i, j | 0 <= i < j < |records| ensures StringLess(RelativeOf(records[i]), RelativeOf(records[j])) {
      OneString(Posix(paths[i]), Posix(paths[j]));
      assert TupleLess(SortKey(paths[i]), SortKey(paths[j]));
      KeyIsOneString(paths[i]);
      KeyIsOneString(paths[j]);
    }
  }
}
