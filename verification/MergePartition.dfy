/**
 Partitions of the SCCs of a loop into pipeline stages.  Merging two dependent sets
 together with everything on the paths between them keeps the stages free of cycles.
 */
module MergePartition {
  import opened Digraph

  type SCCSet = set<nat>
  type Partition = set<SCCSet>

  /** Set b depends on set a. */
  predicate Depends(deps: set<(nat, nat)>, a: SCCSet, b: SCCSet) {
    a != b && exists x, y :: x in a && y in b && (x, y) in deps
  }

  function Quotient(deps: set<(nat, nat)>, p: Partition): (e: set<(SCCSet, SCCSet)>)
    ensures forall a, b {:trigger (a, b) in e} {:trigger Depends(deps, a, b)} ::
              (a, b) in e <==> a in p && b in p && Depends(deps, a, b)
  {
    set a, b | a in p && b in p && Depends(deps, a, b) :: (a, b)
  }

  ghost predicate IsPartition(p: Partition) {
    {} !in p && forall a, b {:trigger Apart(a, b)} :: a in p && b in p && a != b ==> Apart(a, b)
  }

  ghost predicate Apart(a: SCCSet, b: SCCSet) {
    a !! b
  }

  /** A partition whose sets can be arranged as stages of a pipeline. */
  ghost predicate Stages(deps: set<(nat, nat)>, p: Partition) {
    IsPartition(p) && Acyclic(Quotient(deps, p))
  }

  function Union(m: Partition): (u: SCCSet)
    ensures forall x :: x in u <==> exists a :: a in m && x in a
  {
    set a, x | a in m && x in a :: x
  }

  /** All sets that have to be merged if a and b are: those on the paths from a to b. */
  ghost predicate Between(deps: set<(nat, nat)>, p: Partition, a: SCCSet, b: SCCSet, m: Partition) {
    forall x :: x in m <==> x in p && AtOrAfter(deps, p, a, x) && AtOrAfter(deps, p, x, b)
  }

  ghost predicate AtOrAfter(deps: set<(nat, nat)>, p: Partition, a: SCCSet, x: SCCSet) {
    a == x || Reach(Quotient(deps, p), a, x)
  }

  lemma AtOrAfterTransitive(deps: set<(nat, nat)>, p: Partition, a: SCCSet, b: SCCSet, c: SCCSet)
    requires AtOrAfter(deps, p, a, b) && AtOrAfter(deps, p, b, c)
    ensures AtOrAfter(deps, p, a, c)
  {
    if a != b && b != c { ReachTransitive(Quotient(deps, p), a, b, c); }
  }

  function Merged(p: Partition, m: Partition): Partition {
    p - m + {Union(m)}
  }

  lemma MergedIsPartition(p: Partition, m: Partition)
    requires IsPartition(p) && m <= p && m != {}
    ensures IsPartition(Merged(p, m)) && Union(m) !in p - m && Union(Merged(p, m)) == Union(p)
    ensures |m| >= 2 ==> |Merged(p, m)| < |p|
  {
    var u := Union(m);
    var a :| a in m;
    assert a != {};
    var x :| x in a;
    assert x in u;
    forall b | b in p - m ensures Apart(b, u) && Apart(u, b) && b != u {
      forall y | y in b ensures y !in u {
        if y in u {
          var c :| c in m && y in c;
          var apart := Apart(b, c);
        }
      }
      assert b != {};
    }
    assert u !in p - m;
    forall y ensures y in Union(Merged(p, m)) <==> y in Union(p) {
      if y in Union(p) {
        var b :| b in p && y in b;
        if b in m { assert y in u; } else { assert b in Merged(p, m); }
      }
    }
    assert |p - m| == |p| - |m|;
  }

  ghost predicate Together(p: Partition, x: nat, y: nat) {
    exists a :: a in p && x in a && y in a
  }

  /** After a merge two SCCs are in one stage exactly if they were, or if both were in merged stages. */
  lemma MergedTogetherIff(p: Partition, m: Partition, x: nat, y: nat)
    requires m <= p
    ensures Together(Merged(p, m), x, y) <==> Together(p, x, y) || (x in Union(m) && y in Union(m))
  {
    if Together(Merged(p, m), x, y) {
      var a :| a in Merged(p, m) && x in a && y in a;
      if a in p - m { assert a in p; }
    }
    if Together(p, x, y) {
      var a :| a in p && x in a && y in a;
      if a in m { assert Union(m) in Merged(p, m); } else { assert a in Merged(p, m); }
    }
    if x in Union(m) && y in Union(m) { assert Union(m) in Merged(p, m); }
  }

  /** Dependences that do not involve the merged set are as before, those that do came from one of its parts. */
  lemma MergedEdges(deps: set<(nat, nat)>, p: Partition, m: Partition, a: SCCSet, b: SCCSet)
    requires IsPartition(p) && m <= p && m != {} && (a, b) in Quotient(deps, Merged(p, m))
    ensures a != Union(m) && b != Union(m) ==> (a, b) in Quotient(deps, p)
    ensures a == Union(m) ==> b in p - m && exists c :: c in m && (c, b) in Quotient(deps, p)
    ensures b == Union(m) ==> a in p - m && exists c :: c in m && (a, c) in Quotient(deps, p)
  {
    var x, y :| x in a && y in b && (x, y) in deps;
    if a == Union(m) {
      var c :| c in m && x in c;
      assert (c, b) in Quotient(deps, p);
    }
    if b == Union(m) {
      var c :| c in m && y in c;
      assert (a, c) in Quotient(deps, p);
    }
  }

  /** A path of the merged partition that avoids the merged set is one of the old partition. */
  lemma OldPath(deps: set<(nat, nat)>, p: Partition, m: Partition, q: seq<SCCSet>)
    requires IsPartition(p) && m <= p && m != {} && Path(Quotient(deps, Merged(p, m)), q)
    requires forall k: nat :: k < |q| ==> q[k] != Union(m)
    ensures Path(Quotient(deps, p), q)
  {
    forall k: nat | k < |q| - 1 ensures (q[k], q[k + 1]) in Quotient(deps, p) {
      MergedEdges(deps, p, m, q[k], q[k + 1]);
    }
  }

  /** What lies on a way between two members lies between the two ends. */
  lemma BetweenIsConvex(
    deps: set<(nat, nat)>, p: Partition, a: SCCSet, b: SCCSet, m: Partition,
    c: SCCSet, x: SCCSet, y: SCCSet, d: SCCSet)
    requires Between(deps, p, a, b, m) && c in m && d in m && x in p
    requires (c, x) in Quotient(deps, p) && AtOrAfter(deps, p, x, y) && (y, d) in Quotient(deps, p)
    ensures x in m
  {
    EdgeReaches(Quotient(deps, p), c, x);
    EdgeReaches(Quotient(deps, p), y, d);
    AtOrAfterTransitive(deps, p, a, c, x);
    AtOrAfterTransitive(deps, p, x, y, d);
    AtOrAfterTransitive(deps, p, x, d, b);
  }

  /** A path of the merged partition after its first set, if it does not return to the merged one. */
  lemma RestIsOld(deps: set<(nat, nat)>, p: Partition, m: Partition, q: seq<SCCSet>)
    requires IsPartition(p) && m <= p && m != {} && Path(Quotient(deps, Merged(p, m)), q) && |q| >= 2
    requires forall k: nat :: 0 < k < |q| ==> q[k] != Union(m)
    ensures AtOrAfter(deps, p, q[1], q[|q| - 1])
  {
    SubPath(Quotient(deps, Merged(p, m)), q, 1, |q|);
    var r := q[1..];
    assert forall k: nat :: k < |r| ==> r[k] == q[k + 1];
    OldPath(deps, p, m, r);
    if |r| > 1 { PathReaches(Quotient(deps, p), r, 0, |r| - 1); }
  }

  /** A way out of the merged set does not lead back: it would lie between the two ends. */
  lemma NoWayBack(deps: set<(nat, nat)>, p: Partition, a: SCCSet, b: SCCSet, m: Partition, q: seq<SCCSet>)
    requires Stages(deps, p) && m != {} && Between(deps, p, a, b, m)
    requires Path(Quotient(deps, Merged(p, m)), q) && |q| >= 2 && q[0] == Union(m)
    requires forall k: nat :: 0 < k < |q| ==> q[k] != Union(m)
    ensures (q[|q| - 1], Union(m)) !in Quotient(deps, Merged(p, m))
  {
    var x, y := q[1], q[|q| - 1];
    RestIsOld(deps, p, m, q);
    assert (q[0], q[0 + 1]) in Quotient(deps, Merged(p, m));
    MergedEdges(deps, p, m, q[0], x);
    if (y, Union(m)) in Quotient(deps, Merged(p, m)) {
      MergedEdges(deps, p, m, y, Union(m));
      var c :| c in m && (c, x) in Quotient(deps, p);
      var d :| d in m && (y, d) in Quotient(deps, p);
      BetweenIsConvex(deps, p, a, b, m, c, x, y, d);
    }
  }

  lemma {:induction false} NextMerged(u: SCCSet, q: seq<SCCSet>, i: nat) returns (j: nat)
    requires i < |q| && q[|q| - 1] == u
    ensures i <= j < |q| && q[j] == u && forall k: nat :: i <= k < j ==> q[k] != u
    decreases |q| - i
  {
    if q[i] == u { j := i; } else { j := NextMerged(u, q, i + 1); }
  }

  /** Merging two dependent sets with everything between them keeps the stages acyclic. */
  lemma MergeKeepsStages(deps: set<(nat, nat)>, p: Partition, a: SCCSet, b: SCCSet, m: Partition)
    requires Stages(deps, p) && m != {} && Between(deps, p, a, b, m)
    ensures Stages(deps, Merged(p, m))
  {
    MergedIsPartition(p, m);
    var now := Quotient(deps, Merged(p, m));
    forall x ensures !Reach(now, x, x) {
      if Reach(now, x, x) {
        var q: seq<SCCSet> :| Path(now, q) && |q| >= 2 && q[0] == x && q[|q| - 1] == x;
        NoClosedPath(deps, p, a, b, m, q);
      }
    }
  }

  lemma NoClosedPath(deps: set<(nat, nat)>, p: Partition, a: SCCSet, b: SCCSet, m: Partition, q: seq<SCCSet>)
    requires Stages(deps, p) && m != {} && Between(deps, p, a, b, m)
    requires Path(Quotient(deps, Merged(p, m)), q) && |q| >= 2
    ensures q[0] != q[|q| - 1]
  {
    var u, now, n := Union(m), Quotient(deps, Merged(p, m)), |q| - 1;
    if i: nat :| i < |q| && q[i] == u {
      if q[0] == q[n] {
        // turn the cycle so that it starts at the merged set
        SubPath(now, q, i, n + 1);
        SubPath(now, q, 0, i + 1);
        Join(now, q[i..], q[..i + 1]);
        var r := q[i..] + q[..i + 1][1..];
        assert r[0] == u && r[|r| - 1] == u && |r| == |q|;
        assert (r[0], r[0 + 1]) in now;
        var j := NextMerged(u, r, 1);
        assert (r[j - 1], r[j - 1 + 1]) in now;
        SubPath(now, r, 0, j);
        NoWayBack(deps, p, a, b, m, r[..j]);
      }
    } else {
      OldPath(deps, p, m, q);
      PathReaches(Quotient(deps, p), q, 0, n);
    }
  }
}
