/**
 Paths in directed graphs: what can be reached in one or more steps, and when that makes
 a graph cyclic.
 */
module Digraph {

  ghost predicate Path<T>(e: set<(T, T)>, p: seq<T>) {
    |p| > 0 && forall k: nat :: k < |p| - 1 ==> (p[k], p[k + 1]) in e
  }

  /** b follows a after one or more edges. */
  ghost predicate Reach<T(!new)>(e: set<(T, T)>, a: T, b: T) {
    exists p: seq<T> :: Path(e, p) && |p| >= 2 && p[0] == a && p[|p| - 1] == b
  }

  ghost predicate Acyclic<T(!new)>(e: set<(T, T)>) {
    forall a {:trigger Reach(e, a, a)} :: !Reach(e, a, a)
  }

  lemma EdgeReaches<T(!new)>(e: set<(T, T)>, a: T, b: T)
    requires (a, b) in e
    ensures Reach(e, a, b)
  {
    assert Path(e, [a, b]);
  }

  lemma HeadAndTail<T>(s: seq<T>)
    requires s != []
    ensures s == [s[0]] + s[1..]
  {}

  lemma TakeNext<T>(s: seq<T>, i: nat)
    requires i < |s|
    ensures s[..i + 1] == s[..i] + [s[i]]
  {}

  lemma TailWith<T>(s: seq<T>, k: nat, x: T)
    requires k <= |s|
    ensures (s + [x])[k..] == s[k..] + [x]
  {}

  lemma SubPath<T>(e: set<(T, T)>, p: seq<T>, i: nat, j: nat)
    requires Path(e, p) && i < j <= |p|
    ensures Path(e, p[i..j])
  {
    forall k: nat | k < j - i - 1 ensures (p[i..j][k], p[i..j][k + 1]) in e {
      assert (p[i + k], p[i + k + 1]) in e;
    }
  }

  lemma PathReaches<T(!new)>(e: set<(T, T)>, p: seq<T>, i: nat, j: nat)
    requires Path(e, p) && i < j < |p|
    ensures Reach(e, p[i], p[j])
  {
    SubPath(e, p, i, j + 1);
    var q := p[i..j + 1];
    assert q[0] == p[i] && q[|q| - 1] == p[j];
  }

  lemma Join<T>(e: set<(T, T)>, p: seq<T>, q: seq<T>)
    requires Path(e, p) && Path(e, q) && p[|p| - 1] == q[0]
    ensures Path(e, p + q[1..]) && (p + q[1..])[0] == p[0] && (p + q[1..])[|p + q[1..]| - 1] == q[|q| - 1]
  {
    var r := p + q[1..];
    forall k: nat | k < |r| - 1 ensures (r[k], r[k + 1]) in e {
      if k < |p| - 1 { assert (p[k], p[k + 1]) in e; }
      else { assert (q[k - |p| + 1], q[k - |p| + 1 + 1]) in e; }
    }
  }

  lemma Extend<T>(e: set<(T, T)>, p: seq<T>, v: T)
    requires Path(e, p) && (p[|p| - 1], v) in e
    ensures Path(e, p + [v])
  {
    assert Path(e, [p[|p| - 1], v]);
    Join(e, p, [p[|p| - 1], v]);
    assert p + [p[|p| - 1], v][1..] == p + [v];
  }

  lemma ReachTransitive<T(!new)>(e: set<(T, T)>, a: T, b: T, c: T)
    requires Reach(e, a, b) && Reach(e, b, c)
    ensures Reach(e, a, c)
  {
    var p: seq<T> :| Path(e, p) && |p| >= 2 && p[0] == a && p[|p| - 1] == b;
    var q: seq<T> :| Path(e, q) && |q| >= 2 && q[0] == b && q[|q| - 1] == c;
    Join(e, p, q);
  }

  /** The first and the last step of a way from a to b. */
  lemma FirstStep<T(!new)>(e: set<(T, T)>, a: T, b: T) returns (u: T)
    requires Reach(e, a, b)
    ensures (a, u) in e && (u == b || Reach(e, u, b))
  {
    var p: seq<T> :| Path(e, p) && |p| >= 2 && p[0] == a && p[|p| - 1] == b;
    u := p[1];
    assert (p[0], p[0 + 1]) in e;
    if |p| > 2 { PathReaches(e, p, 1, |p| - 1); }
  }

  lemma LastStep<T(!new)>(e: set<(T, T)>, a: T, b: T) returns (u: T)
    requires Reach(e, a, b)
    ensures (u, b) in e && (u == a || Reach(e, a, u))
  {
    var p: seq<T> :| Path(e, p) && |p| >= 2 && p[0] == a && p[|p| - 1] == b;
    u := p[|p| - 2];
    assert (p[|p| - 2], p[|p| - 2 + 1]) in e;
    if |p| > 2 { PathReaches(e, p, 0, |p| - 2); }
  }

  /** A table closed under edges holds everything reachable. */
  lemma {:induction false} ClosedHoldsPath<T>(e: set<(T, T)>, table: map<T, set<T>>, p: seq<T>)
    requires forall a, s :: (a, s) in e ==> a in table && s in table && s in table[a] && table[s] <= table[a]
    requires Path(e, p) && |p| >= 2
    ensures p[0] in table && p[|p| - 1] in table[p[0]]
    decreases |p|
  {
    assert (p[0], p[0 + 1]) in e;
    if |p| > 2 {
      SubPath(e, p, 1, |p|);
      ClosedHoldsPath(e, table, p[1..]);
    }
  }

  lemma ClosedHoldsReach<T(!new)>(e: set<(T, T)>, table: map<T, set<T>>, a: T, b: T)
    requires forall x, y :: (x, y) in e ==> x in table && y in table && y in table[x] && table[y] <= table[x]
    requires Reach(e, a, b)
    ensures a in table && b in table[a]
  {
    var p: seq<T> :| Path(e, p) && |p| >= 2 && p[0] == a && p[|p| - 1] == b;
    ClosedHoldsPath(e, table, p);
  }


  /** A set that holds a and what its members lead to holds everything that follows a. */
  lemma ClosedHolds<T(!new)>(e: set<(T, T)>, s: set<T>, a: T, b: T)
    requires a in s && Reach(e, a, b) && forall x, y :: x in s && (x, y) in e ==> y in s
    ensures b in s
  {
    var p: seq<T> :| Path(e, p) && |p| >= 2 && p[0] == a && p[|p| - 1] == b;
    ClosedHoldsAlong(e, s, p, |p| - 1);
  }

  lemma {:induction false} ClosedHoldsAlong<T(!new)>(e: set<(T, T)>, s: set<T>, p: seq<T>, k: nat)
    requires Path(e, p) && k < |p| && p[0] in s && forall x, y :: x in s && (x, y) in e ==> y in s
    ensures p[k] in s
  {
    if k > 0 {
      ClosedHoldsAlong(e, s, p, k - 1);
      assert (p[k - 1], p[k - 1 + 1]) in e;
    }
  }

  // ---------------------------------------------------------------- cycles

  ghost predicate Repeats<T>(p: seq<T>) {
    exists i, j :: 0 <= i < j < |p| && p[i] == p[j]
  }

  lemma {:induction false} Pigeonhole<T>(p: seq<T>, s: set<T>)
    requires |p| > |s| && forall k: nat :: k < |p| ==> p[k] in s
    ensures Repeats(p)
    decreases |p|
  {
    var n := |p| - 1;
    if k: nat :| k < n && p[k] == p[n] {
    } else {
      var q := p[..n];
      Pigeonhole(q, s - {p[n]});
      var i, j :| 0 <= i < j < |q| && q[i] == q[j];
      assert p[i] == p[j];
    }
  }

  ghost predicate Follows<T(!new)>(e: set<(T, T)>, s: set<T>, v: T) {
    exists u :: u in s && (u, v) in e
  }

  /** A set in which everything follows something holds paths of any length. */
  lemma {:induction false} PathWithin<T(!new)>(e: set<(T, T)>, s: set<T>, v: T, n: nat) returns (p: seq<T>)
    requires v in s && forall x :: x in s ==> Follows(e, s, x)
    ensures Path(e, p) && |p| == n + 1 && p[n] == v && forall k: nat :: k < |p| ==> p[k] in s
    decreases n
  {
    if n == 0 {
      p := [v];
    } else {
      assert Follows(e, s, v);
      var u :| u in s && (u, v) in e;
      var q := PathWithin(e, s, u, n - 1);
      Extend(e, q, v);
      p := q + [v];
    }
  }

  /** An acyclic graph has a first element in every set. */
  lemma SomethingIsFirst<T(!new)>(e: set<(T, T)>, s: set<T>)
    requires Acyclic(e) && s != {}
    ensures exists x :: x in s && !Follows(e, s, x)
  {
    if forall x :: x in s ==> Follows(e, s, x) {
      var v :| v in s;
      var p := PathWithin(e, s, v, |s|);
      Pigeonhole(p, s);
      var i, j :| 0 <= i < j < |p| && p[i] == p[j];
      PathReaches(e, p, i, j);
    }
  }
}
