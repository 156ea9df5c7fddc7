/**
 Call graphs as the inliner sees them: what is reachable, and which functions lie on or
 below a chain of recursive calls.
 */
module InlinerGraph {
  import opened Digraph

  type Calls = map<nat, seq<nat>>

  ghost function Edges(c: Calls): (e: set<(nat, nat)>)
    ensures forall u, v :: (u, v) in e <==> u in c && v in c[u]
  {
    set u, v | u in c && v in c[u] :: (u, v)
  }

  ghost predicate Reachable(c: Calls, main: nat, f: nat) {
    exists p: seq<nat> :: Path(Edges(c), p) && p[0] == main && p[|p| - 1] == f
  }

  /** Every called function has a body. */
  ghost predicate Closed(c: Calls) {
    forall u, v :: (u, v) in Edges(c) ==> v in c
  }

  lemma Prepend(c: Calls, u: nat, p: seq<nat>)
    requires Path(Edges(c), p) && (u, p[0]) in Edges(c)
    ensures Path(Edges(c), [u] + p)
  {
    var q := [u] + p;
    forall k: nat | k < |q| - 1 ensures (q[k], q[k + 1]) in Edges(c) {
      if k > 0 { assert (p[k - 1], p[k - 1 + 1]) in Edges(c); }
    }
  }

  lemma ReachStep(c: Calls, main: nat, u: nat, v: nat)
    requires Reachable(c, main, u) && (u, v) in Edges(c)
    ensures Reachable(c, main, v)
  {
    var p :| Path(Edges(c), p) && p[0] == main && p[|p| - 1] == u;
    Extend(Edges(c), p, v);
    assert (p + [v])[0] == main;
  }

  // ---------------------------------------------------------------- recursion

  /** f is on a chain of recursive calls that avoids x, or is called from one without passing x. */
  ghost predicate BelowCycle(c: Calls, x: set<nat>, f: nat) {
    exists p: seq<nat> :: ChainTo(c, x, p, f)
  }

  ghost predicate ChainTo(c: Calls, x: set<nat>, p: seq<nat>, f: nat) {
    Path(Edges(c), p) && Repeats(p) && p[|p| - 1] == f && forall k: nat :: k < |p| ==> p[k] !in x
  }

  lemma FewerCycles(c: Calls, x: set<nat>, y: set<nat>, f: nat)
    requires x <= y && BelowCycle(c, y, f)
    ensures BelowCycle(c, x, f)
  {
    var p: seq<nat> :| ChainTo(c, y, p, f);
    assert ChainTo(c, x, p, f);
  }

  /** Whatever is below a cycle is called by something below a cycle. */
  lemma BelowHasParentBelow(c: Calls, x: set<nat>, f: nat) returns (u: nat)
    requires BelowCycle(c, x, f)
    ensures (u, f) in Edges(c) && BelowCycle(c, x, u)
  {
    var p: seq<nat> :| ChainTo(c, x, p, f);
    var i, j :| 0 <= i < j < |p| && p[i] == p[j];
    var n := |p| - 1;
    u := p[n - 1];
    assert (p[n - 1], p[n - 1 + 1]) in Edges(c);
    SubPath(Edges(c), p, i, n);
    var q := p[i..n];
    if j < n {
      assert q[0] == q[j - i] && q[|q| - 1] == u;
      assert Repeats(q);
      assert forall k: nat :: k < |q| ==> q[k] == p[i + k];
      assert ChainTo(c, x, q, u);
    } else {
      Prepend(c, u, q);
      var r := [u] + q;
      assert r[0] == r[|r| - 1];
      assert Repeats(r);
      assert forall k: nat :: k < |q| ==> q[k] == p[i + k];
      assert forall k: nat :: k < |r| ==> r[k] == u || r[k] == q[k - 1];
      assert ChainTo(c, x, r, u);
    }
  }

  /** If everything in a set is called from inside it, its members are below a cycle inside it. */
  lemma NobodyFirstMeansCycle(c: Calls, x: set<nat>, s: set<nat>, f: nat)
    requires f in s && s !! x && forall v :: v in s ==> Follows(Edges(c), s, v)
    ensures BelowCycle(c, x, f)
  {
    var p := PathWithin(Edges(c), s, f, |s|);
    Pigeonhole(p, s);
    assert ChainTo(c, x, p, f);
  }

  // ---------------------------------------------------------------- entrances of recursive chains

  /** What is below a cycle that avoids x and is called by something that is not. */
  ghost function Border(c: Calls, x: set<nat>): (b: set<nat>)
    ensures b !! x
  {
    set f | f in c && f !in x && BelowCycle(c, x, f) && exists u :: (u, f) in Edges(c) && !BelowCycle(c, x, u)
  }

  /** The border of all cycles avoiding x, then of the cycles that also avoid that border, and so on. */
  ghost function Rounds(c: Calls, x: set<nat>): (r: set<nat>)
    decreases c.Keys - x
  {
    var b := Border(c, x);
    if b == {} then {} else
    var f :| f in b;
    assert f in c.Keys - x;
    b + Rounds(c, x + b)
  }
}
