/**
 The DSWP partitioning heuristic: as long as there are more sets than cores, merge the
 two dependent sets whose merge is cheapest, together with everything between them.
 */
module MinMaxMerge {
  import opened Arith
  import opened Digraph
  import opened MergePartition
  import opened HeuristicLatency

  const MaxU64: nat := Two64 - 1

  /** The sets that merging a and b would have to take in, as the partition graph reports them. */
  type Cycles = (Partition, SCCSet, SCCSet) -> Partition

  ghost predicate CyclesOk(deps: set<(nat, nat)>, cycle: Cycles) {
    forall p, a, b {:trigger Between(deps, p, a, b, cycle(p, a, b))} :: Between(deps, p, a, b, cycle(p, a, b))
  }

  /** Cheaper, or equally expensive and not larger. */
  predicate NoWorse(cost: nat, count: nat, otherCost: nat, otherCount: nat) {
    cost < otherCost || (cost == otherCost && count <= otherCount)
  }

  /** Every set of p lies within a set of q. */
  ghost predicate Coarser(p: Partition, q: Partition) {
    forall a :: a in p ==> Within(a, q)
  }

  ghost predicate Within(a: SCCSet, q: Partition) {
    exists b :: b in q && a <= b
  }

  ghost function CountOf(counts: nat -> nat, m: Partition): nat {
    Sum(counts, Union(m)) % Two64
  }

  class MinMaxSizePartitionAnalysis {
    const deps: set<(nat, nat)>
    const cycle: Cycles
    const counts: nat -> nat        // instructions of an SCC
    const numCores: int
    const il: InvocationLatency
    var sets: Partition
    var minSetsToMerge: Partition
    var costOfMergedSet: nat
    var numInstructionsInSetsBeingMerged: nat

    ghost predicate Valid()
      reads this, il
    {
      il.Valid() && CyclesOk(deps, cycle) && Stages(deps, sets)
    }

    /** m is what merging the ends of dependence e takes, with its cost and its number of instructions. */
    ghost predicate IsKey(sets: Partition, e: (SCCSet, SCCSet), m: Partition, cost: nat, count: nat) {
      m == cycle(sets, e.0, e.1) && cost == il.StageLatency(Union(m)) && count == CountOf(counts, m)
    }

    ghost predicate NoWorseThan(sets: Partition, cost: nat, count: nat, e: (SCCSet, SCCSet)) {
      var m := cycle(sets, e.0, e.1);
      NoWorse(cost, count, il.StageLatency(Union(m)), CountOf(counts, m))
    }

    /** m is the merge of one of the given dependences, and no other is cheaper, or as cheap and smaller. */
    ghost predicate IsLeast(sets: Partition, checked: set<(SCCSet, SCCSet)>, m: Partition, cost: nat, count: nat) {
      && (exists e :: e in checked && IsKey(sets, e, m, cost, count))
      && forall e {:trigger NoWorseThan(sets, cost, count, e)} :: e in checked ==> NoWorseThan(sets, cost, count, e)
    }

    /** The candidate after looking at some of the dependences. */
    ghost predicate IsBest(sets: Partition, checked: set<(SCCSet, SCCSet)>, m: Partition, cost: nat, count: nat) {
      if checked == {} || |sets| <= numCores then m == {} && cost == MaxU64 && count == MaxU64
      else IsLeast(sets, checked, m, cost, count)
    }

    ghost predicate BestOf(checked: set<(SCCSet, SCCSet)>)
      reads this
    {
      IsBest(sets, checked, minSetsToMerge, costOfMergedSet, numInstructionsInSetsBeingMerged)
    }

    /** The two comparisons of the heuristic keep the best candidate. */
    lemma NextBest(sets: Partition, checked: set<(SCCSet, SCCSet)>, e: (SCCSet, SCCSet),
                   m: Partition, cost: nat, count: nat, m': Partition, cost': nat, count': nat)
      requires IsBest(sets, checked, m, cost, count) && |sets| > numCores && IsKey(sets, e, m', cost', count')
      requires cost' <= MaxU64 && count' <= MaxU64
      ensures if NoWorse(cost', count', cost, count) then IsBest(sets, checked + {e}, m', cost', count')
              else IsBest(sets, checked + {e}, m, cost, count)
    {
      var now := checked + {e};
      assert e in now;
      if NoWorse(cost', count', cost, count) {
        forall f | f in now ensures NoWorseThan(sets, cost', count', f) {
          if f != e { assert NoWorseThan(sets, cost, count, f); }
        }
      } else {
        var f :| f in checked && IsKey(sets, f, m, cost, count);
        assert f in now;
      }
    }

    constructor (
      deps: set<(nat, nat)>, cycle: Cycles, counts: nat -> nat, numCores: int, il: InvocationLatency, sets: Partition)
      requires il.Valid() && CyclesOk(deps, cycle) && Stages(deps, sets)
      ensures Valid() && this.sets == sets && this.numCores == numCores && this.il == il
      ensures this.deps == deps && this.cycle == cycle && this.counts == counts && BestOf({})
    {
      this.deps, this.cycle, this.counts, this.numCores, this.il, this.sets := deps, cycle, counts, numCores, il, sets;
      minSetsToMerge, costOfMergedSet, numInstructionsInSetsBeingMerged := {}, MaxU64, MaxU64;
    }

    method ResetCandidateSubsetInfo()
      requires Valid()
      modifies this`minSetsToMerge, this`costOfMergedSet, this`numInstructionsInSetsBeingMerged
      ensures Valid() && BestOf({})
    {
      minSetsToMerge := {};
      costOfMergedSet := MaxU64;
      numInstructionsInSetsBeingMerged := MaxU64;
    }

    /** The instructions of all SCCs of the merged set. */
    method CountInstructions(all: SCCSet) returns (count: nat)
      ensures count == Sum(counts, all) % Two64 && count <= MaxU64
    {
      count := 0;
      var todo := all;
      ghost var done: set<nat> := {};
      while todo != {}
        invariant todo <= all && done == all - todo && count == Sum(counts, done) % Two64
      {
        var scc :| scc in todo;
        AddMod(Sum(counts, done), counts(scc), Two64);
        SumWithout(counts, done + {scc}, scc);
        assert done + {scc} - {scc} == done;
        count := (count + counts(scc)) % Two64;
        todo := todo - {scc};
        done := done + {scc};
      }
      assert done == all;
    }

    method CheckIfShouldMerge(sA: SCCSet, sB: SCCSet, ghost checked: set<(SCCSet, SCCSet)>)
      requires il.Valid() && BestOf(checked)
      modifies this`minSetsToMerge, this`costOfMergedSet, this`numInstructionsInSetsBeingMerged, il
      ensures il.Valid() && BestOf(checked + {(sA, sB)})
    {
      if |sets| <= numCores {
        return;
      }
      var setsInMerge := cycle(sets, sA, sB);
      var instCountOfMerge := CountInstructions(Union(setsInMerge));
      var costOnceMerged := StageCost(Union(setsInMerge));
      Consider(setsInMerge, costOnceMerged, instCountOfMerge, checked, (sA, sB));
    }

    /** Take the merge as the new candidate unless it is worse than the one there is. */
    method Consider(
      setsInMerge: Partition, cost: nat, count: nat, ghost checked: set<(SCCSet, SCCSet)>, ghost e: (SCCSet, SCCSet))
      requires BestOf(checked) && |sets| > numCores && IsKey(sets, e, setsInMerge, cost, count)
      requires cost <= MaxU64 && count <= MaxU64
      modifies this`minSetsToMerge, this`costOfMergedSet, this`numInstructionsInSetsBeingMerged
      ensures BestOf(checked + {e})
    {
      NextBest(sets, checked, e, minSetsToMerge, costOfMergedSet, numInstructionsInSetsBeingMerged, setsInMerge, cost,
          count);
      if cost > costOfMergedSet {
        return;
      }
      if cost == costOfMergedSet && count > numInstructionsInSetsBeingMerged {
        return;
      }
      minSetsToMerge := setsInMerge;
      costOfMergedSet := cost;
      numInstructionsInSetsBeingMerged := count;
    }

    /** The cost of running all SCCs of a set on one core. */
    method StageCost(all: SCCSet) returns (cost: nat)
      requires il.Valid()
      modifies il
      ensures il.Valid() && cost == il.StageLatency(all) && cost <= MaxU64
    {
      cost := il.LatencyPerInvocation({all});
      il.LatencyOfOne(all, cost);
    }

    /** What has been found is traversed or waiting, and the dependences of what is traversed were looked at. */
    ghost predicate Progress(e: set<(SCCSet, SCCSet)>, checked: set<(SCCSet, SCCSet)>,
                             done: Partition, queue: seq<SCCSet>, found: Partition)
      reads this`sets
    {
      && done <= found <= sets && checked <= e
      && (forall a :: a in found ==> a in done || a in queue)
      && (forall a :: a in queue ==> a in found)
      && (forall a {:trigger Follows(e, sets, a)} :: a in sets && !Follows(e, sets, a) ==> a in found)
      && (forall a, b {:trigger (a, b) in e} :: a in done && (a, b) in e ==> b in found && (a, b) in checked)
    }

    /** Look at all dependences, breadth-first from the sets that depend on nothing. */
    method TraverseAllPartitionSubsets()
      requires Valid() && BestOf({})
      modifies this`minSetsToMerge, this`costOfMergedSet, this`numInstructionsInSetsBeingMerged, il
      ensures Valid() && BestOf(Quotient(deps, sets))
    {
      ghost var e := Quotient(deps, sets);
      var subToCheck, alreadyChecked := Roots(e);
      ghost var done: Partition := {};
      ghost var checked: set<(SCCSet, SCCSet)> := {};
      while subToCheck != []
        invariant il.Valid() && BestOf(checked) && Progress(e, checked, done, subToCheck, alreadyChecked)
        decreases sets - alreadyChecked, |subToCheck|
      {
        ghost var before, known, waiting := checked, alreadyChecked, subToCheck;
        var sub := subToCheck[0];
        var children;
        subToCheck, alreadyChecked, children, checked := CheckChildren(sub, subToCheck[1..], alreadyChecked, checked);
        SubTraversed(e, before, done, waiting, known, children, checked, subToCheck, alreadyChecked);
        done := done + {sub};
      }
      AllChecked(e, done, checked, alreadyChecked);
    }

    method Roots(ghost e: set<(SCCSet, SCCSet)>) returns (queue: seq<SCCSet>, found: Partition)
      requires e == Quotient(deps, sets)
      ensures Progress(e, {}, {}, queue, found)
      ensures forall a {:trigger Follows(e, sets, a)} :: a in found <==> a in sets && !Follows(e, sets, a)
    {
      queue, found := [], {};
      var todo := sets;
      ghost var done: Partition := {};
      while todo != {}
        invariant todo <= sets && done == sets - todo && found <= done
        invariant forall a {:trigger Follows(e, sets, a)} :: a in done && !Follows(e, sets, a) ==> a in found
        invariant forall a {:trigger a in found} :: a in found ==> !Follows(e, sets, a)
        invariant forall a :: a in queue <==> a in found
      {
        var a :| a in todo;
        OneLess(sets, todo, a);
        todo := todo - {a};
        done := done + {a};
        RootIff(e, a);
        if !exists b :: b in sets && Depends(deps, b, a) {
          queue, found := queue + [a], found + {a};
        }
      }
      assert done == sets;
    }

    lemma RootIff(e: set<(SCCSet, SCCSet)>, a: SCCSet)
      requires e == Quotient(deps, sets) && a in sets
      ensures Follows(e, sets, a) <==> exists b :: b in sets && Depends(deps, b, a)
    {
      if b :| b in sets && Depends(deps, b, a) { assert (b, a) in e; }
    }

    /** Check all dependences on sub and queue the sets that were not found before. */
    method CheckChildren(sub: SCCSet, queue: seq<SCCSet>, known: Partition, ghost before: set<(SCCSet, SCCSet)>)
      returns (subToCheck: seq<SCCSet>, alreadyChecked: Partition, children: Partition,
          ghost checked: set<(SCCSet, SCCSet)>)
      requires il.Valid() && BestOf(before)
      modifies this`minSetsToMerge, this`costOfMergedSet, this`numInstructionsInSetsBeingMerged, il
      ensures il.Valid() && BestOf(checked)
      ensures forall b :: b in children <==> b in sets && Depends(deps, sub, b)
      ensures alreadyChecked == known + children && checked == before + From(sub, children)
      ensures forall a :: a in subToCheck <==> a in queue || a in children - known
      ensures children <= known ==> subToCheck == queue
    {
      subToCheck, alreadyChecked, checked := queue, known, before;
      children := set b | b in sets && Depends(deps, sub, b);
      var todo := children;
      ghost var seen: Partition := {};
      while todo != {}
        invariant todo <= children && seen == children - todo
        invariant il.Valid() && BestOf(checked)
        invariant Looked(sub, queue, known, before, seen, subToCheck, alreadyChecked, checked)
      {
        var child :| child in todo;
        LookedNext(sub, queue, known, before, seen, subToCheck, alreadyChecked, checked, child);
        CheckIfShouldMerge(sub, child, checked);
        checked := checked + {(sub, child)};
        if child !in alreadyChecked {
          subToCheck := subToCheck + [child];
          alreadyChecked := alreadyChecked + {child};
        }
        OneLess(children, todo, child);
        todo := todo - {child};
        seen := seen + {child};
      }
      assert seen == children;
    }

    lemma SubTraversed(e: set<(SCCSet, SCCSet)>, before: set<(SCCSet, SCCSet)>, done: Partition, waiting: seq<SCCSet>,
                       known: Partition, children: Partition, checked: set<(SCCSet, SCCSet)>,
                       queue: seq<SCCSet>, found: Partition)
      requires e == Quotient(deps, sets) && waiting != [] && Progress(e, before, done, waiting, known)
      requires forall b :: b in children <==> b in sets && Depends(deps, waiting[0], b)
      requires found == known + children && checked == before + From(waiting[0], children)
      requires forall a :: a in queue <==> a in waiting[1..] || a in children - known
      ensures Progress(e, checked, done + {waiting[0]}, queue, found)
    {
      var sub := waiting[0];
      assert forall a :: a in waiting ==> a == sub || a in waiting[1..];
      forall a, b | a in done + {sub} && (a, b) in e ensures b in found && (a, b) in checked {
        if a == sub { assert b in children; }
      }
    }

    /** In an acyclic partition the traversal from the roots comes to every set, so to every dependence. */
    lemma AllChecked(e: set<(SCCSet, SCCSet)>, done: Partition, checked: set<(SCCSet, SCCSet)>, found: Partition)
      requires e == Quotient(deps, sets) && Acyclic(e) && Progress(e, checked, done, [], found)
      ensures checked == e
    {
      var left := sets - done;
      forall x | x in left ensures Follows(e, left, x) {
        assert x !in found;
        assert Follows(e, sets, x);
        var u :| u in sets && (u, x) in e;
        assert u in left;
      }
      if left != {} { SomethingIsFirst(e, left); }
      forall a, b | (a, b) in e ensures (a, b) in checked {
        assert a in left || a in done;
      }
    }

    /** Merge the candidate, if there is one. */
    method MergeCandidateSubsets() returns (modified: bool)
      requires Valid() && BestOf(Quotient(deps, sets))
      modifies this`sets, il
      ensures Valid() && Union(sets) == old(Union(sets)) && Coarser(old(sets), sets)
      ensures modified <==> old(|sets| > numCores && Quotient(deps, sets) != {})
      ensures !modified ==> sets == old(sets)
      ensures modified ==> |sets| < old(|sets|) && sets == Merged(old(sets), old(minSetsToMerge))
                           && old(IsLeast(sets, Quotient(deps, sets), minSetsToMerge, costOfMergedSet,
                               numInstructionsInSetsBeingMerged))
    {
      ghost var a, b := CandidateEnds();
      if |minSetsToMerge| == 0 {
        modified := false;
        SameIsCoarser(sets);
        return;
      }
      modified := true;
      MergeKeepsStages(deps, sets, a, b, minSetsToMerge);
      MergedIsPartition(sets, minSetsToMerge);
      MergedIsCoarser(sets, minSetsToMerge);
      sets := Merged(sets, minSetsToMerge);
      var costIfAllSetsRunOnSeparateCores := il.LatencyPerInvocation(sets);
    }

    /** The candidate is the cheapest merge of two dependent sets, and the smallest of the equally cheap ones. */
    lemma CandidateIsCheapest(sets: Partition, m: Partition, cost: nat, count: nat, a: SCCSet, b: SCCSet)
      requires IsLeast(sets, Quotient(deps, sets), m, cost, count)
      requires a in sets && b in sets && Depends(deps, a, b)
      ensures cost == il.StageLatency(Union(m)) && count == Sum(counts, Union(m)) % Two64
      ensures var other := Union(cycle(sets, a, b));
              || il.StageLatency(Union(m)) < il.StageLatency(other)
              || (il.StageLatency(Union(m)) == il.StageLatency(other)
                  && Sum(counts, Union(m)) % Two64 <= Sum(counts, other) % Two64)
    {
      assert (a, b) in Quotient(deps, sets);
      assert NoWorseThan(sets, cost, count, (a, b));
    }

    /** One round: the least candidate is merged because there are more sets than cores and a dependence. */
    ghost predicate IsRound(before: Partition, after: Partition) {
      && |before| > numCores && Quotient(deps, before) != {}
      && exists m, cost: nat, count: nat ::
           IsLeast(before, Quotient(deps, before), m, cost, count) && after == Merged(before, m)
    }

    /** The rounds from one partition to another. */
    ghost predicate AreRounds(rounds: seq<Partition>, first: Partition, last: Partition) {
      && rounds != [] && rounds[0] == first && rounds[|rounds| - 1] == last
      && forall k: nat {:trigger IsRound(rounds[k], rounds[k + 1])} ::
           k < |rounds| - 1 ==> IsRound(rounds[k], rounds[k + 1])
    }

    lemma OneMoreRound(rounds: seq<Partition>, first: Partition, before: Partition, after: Partition)
      requires AreRounds(rounds, first, before) && IsRound(before, after)
      ensures AreRounds(rounds + [after], first, after)
    {
      var now := rounds + [after];
      forall k: nat | k < |now| - 1 ensures IsRound(now[k], now[k + 1]) {
        if k < |rounds| - 1 { assert IsRound(rounds[k], rounds[k + 1]); }
      }
    }

    /** There is a candidate exactly if something has to be merged; it has at least two sets. */
    lemma CandidateEnds() returns (a: SCCSet, b: SCCSet)
      requires CyclesOk(deps, cycle) && BestOf(Quotient(deps, sets))
      ensures minSetsToMerge == {} <==> |sets| <= numCores || Quotient(deps, sets) == {}
      ensures minSetsToMerge != {} ==>
                Between(deps, sets, a, b, minSetsToMerge) && minSetsToMerge <= sets && |minSetsToMerge| >= 2
    {
      a, b := {}, {};
      if Quotient(deps, sets) != {} && |sets| > numCores {
        var e :| e in Quotient(deps, sets)
                 && IsKey(sets, e, minSetsToMerge, costOfMergedSet, numInstructionsInSetsBeingMerged);
        a, b := e.0, e.1;
        EndsAreBetween(deps, sets, a, b, cycle(sets, a, b));
      }
    }

    /** One round of the heuristic. */
    method Round() returns (modified: bool)
      requires Valid()
      modifies this`sets, this`minSetsToMerge, this`costOfMergedSet, this`numInstructionsInSetsBeingMerged, il
      ensures Valid() && Union(sets) == old(Union(sets)) && Coarser(old(sets), sets)
      ensures modified <==> old(|sets| > numCores && Quotient(deps, sets) != {})
      ensures if modified then |sets| < old(|sets|) && IsRound(old(sets), sets) else sets == old(sets)
    {
      ResetCandidateSubsetInfo();
      TraverseAllPartitionSubsets();
      modified := MergeCandidateSubsets();
    }

    /** The rounds of the heuristic, until nothing can be merged. */
    method MinMaxMergePartition()
      requires Valid()
      modifies this`sets, this`minSetsToMerge, this`costOfMergedSet, this`numInstructionsInSetsBeingMerged, il
      ensures Valid() && Union(sets) == old(Union(sets)) && Coarser(old(sets), sets)
      ensures |sets| <= numCores || Quotient(deps, sets) == {}
      ensures old(|sets| <= numCores || Quotient(deps, sets) == {}) ==> sets == old(sets)
      ensures exists rounds :: AreRounds(rounds, old(sets), sets)
    {
      SameIsCoarser(sets);
      ghost var rounds := [sets];
      var modified := true;
      while modified
        invariant Valid() && Union(sets) == old(Union(sets)) && Coarser(old(sets), sets)
        invariant !modified ==> |sets| <= numCores || Quotient(deps, sets) == {}
        invariant old(|sets| <= numCores || Quotient(deps, sets) == {}) ==> sets == old(sets)
        invariant AreRounds(rounds, old(sets), sets)
        decreases modified, |sets|
      {
        ghost var before := sets;
        modified := Round();
        CoarserTransitive(old(sets), before, sets);
        if modified {
          OneMoreRound(rounds, old(sets), before, sets);
          rounds := rounds + [sets];
        }
      }
    }
  }

  lemma EndsAreBetween(deps: set<(nat, nat)>, p: Partition, a: SCCSet, b: SCCSet, m: Partition)
    requires (a, b) in Quotient(deps, p) && Between(deps, p, a, b, m)
    ensures m <= p && |m| >= 2
  {
    EdgeReaches(Quotient(deps, p), a, b);
    assert a in m && b in m;
    Size2(a, b, m);
  }

  lemma OneLess(all: Partition, todo: Partition, a: SCCSet)
    requires a in todo && todo <= all
    ensures all - (todo - {a}) == all - todo + {a}
  {}

  lemma Size2(a: SCCSet, b: SCCSet, m: Partition)
    requires a in m && b in m && a != b
    ensures |m| >= 2
  {
    var rest := m - {a};
    assert b in rest;
    assert |m| == |rest| + 1;
  }

  lemma CoarserTransitive(p: Partition, q: Partition, r: Partition)
    requires Coarser(p, q) && Coarser(q, r)
    ensures Coarser(p, r)
  {
    forall a | a in p ensures Within(a, r) {
      var b :| b in q && a <= b;
      assert Within(b, r);
      var c :| c in r && b <= c;
      assert a <= c;
    }
  }

  ghost function From(a: SCCSet, bs: Partition): (e: set<(SCCSet, SCCSet)>)
    ensures forall b :: (a, b) in e <==> b in bs
    ensures forall x :: x in e ==> x.0 == a
  {
    set b | b in bs :: (a, b)
  }

  /** The state of the search after looking at some of the sets that depend on sub. */
  ghost predicate Looked(
    sub: SCCSet, queue: seq<SCCSet>, known: Partition, before: set<(SCCSet, SCCSet)>, seen: Partition,
    subToCheck: seq<SCCSet>, alreadyChecked: Partition, checked: set<(SCCSet, SCCSet)>)
  {
    && alreadyChecked == known + seen && checked == before + From(sub, seen)
    && (forall a :: a in subToCheck <==> a in queue || a in seen - known)
    && (seen <= known ==> subToCheck == queue)
  }

  lemma LookedNext(sub: SCCSet, queue: seq<SCCSet>, known: Partition, before: set<(SCCSet, SCCSet)>, seen: Partition,
                   subToCheck: seq<SCCSet>, alreadyChecked: Partition, checked: set<(SCCSet, SCCSet)>, child: SCCSet)
    requires Looked(sub, queue, known, before, seen, subToCheck, alreadyChecked, checked)
    ensures if child in alreadyChecked
            then Looked(sub, queue, known, before, seen + {child}, subToCheck, alreadyChecked, checked + {(sub, child)})
            else Looked(sub, queue, known, before, seen + {child}, subToCheck + [child], alreadyChecked + {child},
                        checked + {(sub, child)})
  {
    assert From(sub, seen + {child}) == From(sub, seen) + {(sub, child)};
    if child in alreadyChecked {
      assert alreadyChecked == known + (seen + {child});
    }
  }

  lemma SameIsCoarser(p: Partition)
    ensures Coarser(p, p)
  {}

  lemma MergedIsCoarser(p: Partition, m: Partition)
    requires m <= p
    ensures Coarser(p, Merged(p, m))
  {
    forall a | a in p ensures Within(a, Merged(p, m)) {
      var b := if a in m then Union(m) else a;
      assert b in Merged(p, m) && a <= b;
    }
  }
}
