/** Python's orders on strings and on tuples of strings, and sorting by a key. */
module Ordering {

  predicate StringLess(a: string, b: string) {
    b != "" && (a == "" || a[0] < b[0] || (a[0] == b[0] && StringLess(a[1..], b[1..])))
  }

  lemma {:induction false} StringTrichotomy(a: string, b: string)
    ensures a == b || StringLess(a, b) || StringLess(b, a)
    ensures !(StringLess(a, b) && StringLess(b, a)) && !StringLess(a, a)
    decreases |a|
  {
    if a != "" {
      StringTrichotomy(a[1..], a[1..]);
      if b != "" && a[0] == b[0] {
        StringTrichotomy(a[1..], b[1..]);
        assert a[1..] == b[1..] ==> a == b;
      }
    }
  }

  lemma {:induction false} StringTransitive(a: string, b: string, c: string)
    requires StringLess(a, b) && StringLess(b, c)
    ensures StringLess(a, c)
  {
    if a != "" && a[0] == b[0] == c[0] {
      StringTransitive(a[1..], b[1..], c[1..]);
    }
  }

  /** Tuples compare by their first differing field. */
  predicate TupleLess(a: seq<string>, b: seq<string>) {
    b != [] && (a == [] || StringLess(a[0], b[0]) || (a[0] == b[0] && TupleLess(a[1..], b[1..])))
  }

  lemma {:induction false} TupleTrichotomy(a: seq<string>, b: seq<string>)
    ensures a == b || TupleLess(a, b) || TupleLess(b, a)
    ensures !(TupleLess(a, b) && TupleLess(b, a)) && !TupleLess(a, a)
    decreases |a|
  {
    if a != [] {
      TupleTrichotomy(a[1..], a[1..]);
      StringTrichotomy(a[0], a[0]);
      if b != [] {
        StringTrichotomy(a[0], b[0]);
        TupleTrichotomy(a[1..], b[1..]);
        assert a[0] == b[0] && a[1..] == b[1..] ==> a == b;
      }
    }
  }

  lemma {:induction false} TupleTransitive(a: seq<string>, b: seq<string>, c: seq<string>)
    requires TupleLess(a, b) && TupleLess(b, c)
    ensures TupleLess(a, c)
  {
    if a != [] {
      StringTrichotomy(a[0], a[0]);
      if a[0] == b[0] == c[0] {
        TupleTransitive(a[1..], b[1..], c[1..]);
      } else if a[0] != b[0] && b[0] != c[0] {
        StringTransitive(a[0], b[0], c[0]);
      }
    }
  }

  /** Every element comes strictly before every later one. */
  ghost predicate Ascending<T>(xs: seq<T>, key: T -> seq<string>) {
    forall i, j :: 0 <= i < j < |xs| ==> TupleLess(key(xs[i]), key(xs[j]))
  }

  ghost predicate NonDescending<T>(xs: seq<T>, key: T -> seq<string>) {
    forall i, j :: 0 <= i < j < |xs| ==> !TupleLess(key(xs[j]), key(xs[i]))
  }

  lemma FirstInOrder<T>(x: T, xs: seq<T>, key: T -> seq<string>)
    requires NonDescending(xs, key) && (xs == [] || TupleLess(key(x), key(xs[0])))
    ensures NonDescending([x] + xs, key)
  {
    forall j | 0 <= j < |xs| ensures !TupleLess(key(xs[j]), key(x)) {
      if TupleLess(key(xs[j]), key(x)) {
        TupleTrichotomy(key(x), key(xs[0]));
        TupleTransitive(key(xs[j]), key(x), key(xs[0]));
      }
    }
  }

  lemma AfterFirst<T>(x: T, xs: seq<T>, rest: seq<T>, key: T -> seq<string>)
    requires xs != [] && NonDescending(xs, key) && !TupleLess(key(x), key(xs[0]))
    requires multiset(rest) == multiset(xs[1..]) + multiset{x} && NonDescending(rest, key)
    ensures NonDescending([xs[0]] + rest, key)
    ensures multiset([xs[0]] + rest) == multiset(xs) + multiset{x}
  {
    assert xs == [xs[0]] + xs[1..];
    forall j | 0 <= j < |rest| ensures !TupleLess(key(rest[j]), key(xs[0])) {
      assert rest[j] in multiset(rest);
      if rest[j] in xs[1..] {
        var k :| 0 <= k < |xs[1..]| && xs[1..][k] == rest[j];
        assert xs[k + 1] == rest[j];
      }
    }
  }

  function Insert<T>(x: T, xs: seq<T>, key: T -> seq<string>): (r: seq<T>)
    requires NonDescending(xs, key)
    ensures multiset(r) == multiset(xs) + multiset{x}
    ensures NonDescending(r, key)
    ensures r != [] && (r[0] == x || (xs != [] && r[0] == xs[0]))
  {
    if xs == [] || TupleLess(key(x), key(xs[0])) then
      FirstInOrder(x, xs, key);
      [x] + xs
    else
      assert NonDescending(xs[1..], key);
      var rest := Insert(x, xs[1..], key);
      AfterFirst(x, xs, rest, key);
      [xs[0]] + rest
  }

  /** `xs.sort(key=...)`. */
  function Sorted<T>(xs: seq<T>, key: T -> seq<string>): (r: seq<T>)
    ensures multiset(r) == multiset(xs) && NonDescending(r, key)
  {
    if xs == [] then [] else
    assert xs == [xs[0]] + xs[1..];
    Insert(xs[0], Sorted(xs[1..], key), key)
  }

  ghost predicate DistinctKeys<T>(xs: seq<T>, key: T -> seq<string>) {
    forall i, j :: 0 <= i < j < |xs| ==> key(xs[i]) != key(xs[j])
  }

  lemma OccursTwice<T>(s: seq<T>, i: nat, j: nat)
    requires i < j < |s| && s[i] == s[j]
    ensures multiset(s)[s[i]] >= 2
  {
    var a, b := s[..j], s[j..];
    assert s == a + b;
    assert multiset(s) == multiset(a) + multiset(b);
    assert a[i] in multiset(a) && b[0] in multiset(b);
  }

  lemma TwoPositions<T>(s: seq<T>, x: T)
    requires multiset(s)[x] >= 2
    ensures exists i, j :: 0 <= i < j < |s| && s[i] == x && s[j] == x
  {
    var i :| 0 <= i < |s| && s[i] == x;
    var rest := s[..i] + s[i + 1..];
    assert s == s[..i] + [s[i]] + s[i + 1..];
    assert multiset(s) == multiset(rest) + multiset{x};
    assert x in multiset(rest);
    var k :| 0 <= k < |rest| && rest[k] == x;
    if k < i { assert s[k] == x; } else { assert s[k + 1] == x; }
  }

  /** Distinct keys are distinct in any arrangement. */
  lemma DistinctAnyOrder<T(!new)>(xs: seq<T>, ys: seq<T>, key: T -> seq<string>)
    requires DistinctKeys(xs, key) && multiset(xs) == multiset(ys)
    ensures DistinctKeys(ys, key)
  {
    forall i, j | 0 <= i < j < |ys| ensures key(ys[i]) != key(ys[j]) {
      assert ys[i] in multiset(xs) && ys[j] in multiset(xs);
      if ys[i] == ys[j] {
        OccursTwice(ys, i, j);
        var a := ys[i];
        assert multiset(xs)[a] >= 2;
        TwoPositions(xs, a);
      } else {
        var a :| 0 <= a < |xs| && xs[a] == ys[i];
        var b :| 0 <= b < |xs| && xs[b] == ys[j];
        assert a < b || b < a;
      }
    }
  }

  /** Sorting by distinct keys arranges strictly. */
  lemma SortedAscending<T(!new)>(xs: seq<T>, key: T -> seq<string>)
    requires DistinctKeys(xs, key)
    ensures Ascending(Sorted(xs, key), key)
  {
    var r := Sorted(xs, key);
    DistinctAnyOrder(xs, r, key);
    forall i, j | 0 <= i < j < |r| ensures TupleLess(key(r[i]), key(r[j])) {
      TupleTrichotomy(key(r[i]), key(r[j]));
    }
  }

  lemma FirstIsMember<T>(xs: seq<T>)
    ensures xs == [] || xs[0] in xs
  {
  }

  lemma FirstAgrees<T(!new)>(xs: seq<T>, ys: seq<T>, key: T -> seq<string>)
    requires Ascending(xs, key) && Ascending(ys, key) && xs != [] && ys != []
    requires forall x :: x in xs <==> x in ys
    ensures xs[0] == ys[0]
  {
    assert xs[0] in ys && ys[0] in xs;
    var a :| 0 <= a < |ys| && ys[a] == xs[0];
    var b :| 0 <= b < |xs| && xs[b] == ys[0];
    if a > 0 && b > 0 {
      TupleTrichotomy(key(xs[0]), key(ys[0]));
    }
  }

  lemma LaterInBoth<T(!new)>(xs: seq<T>, ys: seq<T>, key: T -> seq<string>, x: T)
    requires Ascending(xs, key) && xs != [] && ys != [] && xs[0] == ys[0]
    requires (forall y :: y in xs <==> y in ys) && x in xs[1..]
    ensures x in ys[1..]
  {
    var i :| 0 <= i < |xs[1..]| && xs[1..][i] == x;
    assert xs[i + 1] == x;
    TupleTrichotomy(key(x), key(x));
    assert x != xs[0];
    assert x in ys;
    var j :| 0 <= j < |ys| && ys[j] == x;
    assert ys[1..][j - 1] == x;
  }

  /** A strictly ascending arrangement is determined by the set of its elements. */
  lemma {:induction false} AscendingUnique<T(!new)>(xs: seq<T>, ys: seq<T>, key: T -> seq<string>)
    requires Ascending(xs, key) && Ascending(ys, key)
    requires forall x :: x in xs <==> x in ys
    ensures xs == ys
    decreases |xs|
  {
    if xs == [] {
      FirstIsMember(ys);
    } else {
      assert xs[0] in ys;
      FirstAgrees(xs, ys, key);
      forall x | x in xs[1..] ensures x in ys[1..] { LaterInBoth(xs, ys, key, x); }
      forall x | x in ys[1..] ensures x in xs[1..] { LaterInBoth(ys, xs, key, x); }
      AscendingUnique(xs[1..], ys[1..], key);
      assert xs == [xs[0]] + xs[1..] && ys == [ys[0]] + ys[1..];
    }
  }

  /** The strings agree up to `n`, and there `a` ends or has the smaller character. */
  ghost predicate StringsPart(a: string, b: string, n: nat) {
    && n <= |a| && n < |b| && a[..n] == b[..n]
    && (n == |a| || a[n] < b[n])
  }

  lemma StringsPartLater(a: string, b: string, n: nat)
    requires a != "" && b != "" && a[0] == b[0]
    ensures StringsPart(a, b, n + 1) <==> StringsPart(a[1..], b[1..], n)
    ensures !StringsPart(a, b, 0)
  {
    if n < |a| && n + 1 < |b| {
      assert a[..n + 1] == [a[0]] + a[1..][..n] && b[..n + 1] == [b[0]] + b[1..][..n];
    }
  }

  lemma SameStart<T>(a: seq<T>, b: seq<T>, n: nat)
    requires 0 < n <= |a| && n <= |b| && a[..n] == b[..n]
    ensures a[0] == b[0]
  {
    assert a[0] == a[..n][0] && b[0] == b[..n][0];
  }

  lemma StringsPartFirst(a: string, b: string, n: nat)
    requires a == "" || b == "" || a[0] != b[0]
    ensures StringsPart(a, b, n) <==> n == 0 && b != "" && (a == "" || a[0] < b[0])
  {
    if StringsPart(a, b, n) && n > 0 {
      SameStart(a, b, n);
    }
  }

  /** The order of strings is by the first difference. */
  lemma {:induction false} StringOrder(a: string, b: string)
    ensures StringLess(a, b) <==> exists n: nat :: StringsPart(a, b, n)
    decreases |a|
  {
    hide StringsPart;
    if a != "" && b != "" && a[0] == b[0] {
      StringOrder(a[1..], b[1..]);
      if n: nat :| StringsPart(a[1..], b[1..], n) {
        StringsPartLater(a, b, n);
      }
      if n: nat :| StringsPart(a, b, n) {
        StringsPartLater(a, b, if n == 0 then 0 else n - 1);
      }
    } else {
      StringsPartFirst(a, b, 0);
      if n: nat :| StringsPart(a, b, n) { StringsPartFirst(a, b, n); }
    }
  }

  /** The tuples agree up to `n`, and there `a` ends or has the smaller string. */
  ghost predicate TuplesPart(a: seq<string>, b: seq<string>, n: nat) {
    && n <= |a| && n < |b| && a[..n] == b[..n]
    && (n == |a| || StringLess(a[n], b[n]))
  }

  lemma TuplesPartLater(a: seq<string>, b: seq<string>, n: nat)
    requires a != [] && b != [] && a[0] == b[0]
    ensures TuplesPart(a, b, n + 1) <==> TuplesPart(a[1..], b[1..], n)
    ensures !TuplesPart(a, b, 0)
  {
    hide StringLess;
    StringTrichotomy(a[0], b[0]);
    if n < |a| && n + 1 < |b| {
      assert a[..n + 1] == [a[0]] + a[1..][..n] && b[..n + 1] == [b[0]] + b[1..][..n];
    }
  }

  lemma TuplesPartFirst(a: seq<string>, b: seq<string>, n: nat)
    requires a == [] || b == [] || a[0] != b[0]
    ensures TuplesPart(a, b, n) <==> n == 0 && b != [] && (a == [] || StringLess(a[0], b[0]))
  {
    hide StringLess;
    if TuplesPart(a, b, n) && n > 0 {
      SameStart(a, b, n);
    }
  }

  /** The order of tuples is by the first item that differs. */
  lemma {:induction false} TupleOrder(a: seq<string>, b: seq<string>)
    ensures TupleLess(a, b) <==> exists n: nat :: TuplesPart(a, b, n)
    decreases |a|
  {
    hide TuplesPart, StringLess;
    if a != [] && b != [] && a[0] == b[0] {
      StringTrichotomy(a[0], b[0]);
      TupleOrder(a[1..], b[1..]);
      if n: nat :| TuplesPart(a[1..], b[1..], n) {
        TuplesPartLater(a, b, n);
      }
      if n: nat :| TuplesPart(a, b, n) {
        TuplesPartLater(a, b, if n == 0 then 0 else n - 1);
      }
    } else {
      TuplesPartFirst(a, b, 0);
      if n: nat :| TuplesPart(a, b, n) { TuplesPartFirst(a, b, n); }
    }
  }
}
