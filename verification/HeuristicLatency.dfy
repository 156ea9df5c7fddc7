/**
 The estimated cost of one invocation of a pipeline: the most expensive stage plus the
 queues between the stages.  The estimate remembers what it computed for each SCC.
 */
module HeuristicLatency {
  import opened Arith
  import opened MergePartition

  const Two64: nat := 0x1_0000_0000_0000_0000
  const QueueLatency: nat := 100

  ghost function Sum(f: nat -> nat, s: set<nat>): nat {
    if s == {} then 0
    else
      var x :| x in s;
      f(x) + Sum(f, s - {x})
  }

  lemma {:induction false} SumWithout(f: nat -> nat, s: set<nat>, x: nat)
    requires x in s
    ensures Sum(f, s) == f(x) + Sum(f, s - {x})
    decreases s
  {
    var y :| y in s && Sum(f, s) == f(y) + Sum(f, s - {y});
    if y != x {
      SumWithout(f, s - {y}, x);
      assert s - {y} - {x} == s - {x} - {y};
      SumWithout(f, s - {x}, y);
    }
  }

  class InvocationLatency {
    const total: nat -> nat                // instructions executed by an SCC, from the profile
    const parentsOf: nat -> set<nat>       // its clonable ancestors, through clonable SCCs
    const externalsOf: nat -> set<nat>     // the values it takes from other SCCs, not counting clonable ones
    var sccToCost: map<nat, nat>
    var incomingExternals: map<nat, set<nat>>
    var clonableParents: map<nat, set<nat>>

    /** What is remembered is what would be computed. */
    ghost predicate Valid()
      reads this
    {
      && (forall s :: s in sccToCost ==> sccToCost[s] == total(s))
      && (forall s :: s in incomingExternals ==> incomingExternals[s] == externalsOf(s))
      && (forall s :: s in clonableParents ==> clonableParents[s] == parentsOf(s))
    }

    /** The SCCs that run on the core of a stage. */
    ghost function Closure(set': SCCSet): (c: SCCSet)
      ensures set' <= c && forall x :: x in c <==> x in set' || exists s :: s in set' && x in parentsOf(s)
    {
      set' + set s, x | s in set' && x in parentsOf(s) :: x
    }

    ghost function Internal(set': SCCSet): nat {
      Sum(total, Closure(set')) % Two64
    }

    ghost function Externals(sets: Partition): (v: set<nat>)
      ensures forall x :: x in v <==> exists a, s :: a in sets && s in Closure(a) && x in externalsOf(s)
    {
      set a, s, x | a in sets && s in Closure(a) && x in externalsOf(s) :: x
    }

    ghost predicate IsMaxInternal(sets: Partition, m: nat) {
      && (forall a :: a in sets ==> Internal(a) <= m)
      && (if sets == {} then m == 0 else exists a :: a in sets && Internal(a) == m)
    }

    /** A stage cost plus the cost of the queues. */
    ghost function WithQueues(m: nat, sets: Partition): nat {
      (m + QueueLatency * |Externals(sets)|) % Two64
    }

    ghost predicate IsLatency(sets: Partition, cost: nat) {
      exists m: nat :: IsMaxInternal(sets, m) && cost == WithQueues(m, sets)
    }

    /** The latency of a single stage. */
    ghost function StageLatency(a: SCCSet): nat {
      WithQueues(Internal(a), {a})
    }

    constructor (total: nat -> nat, parentsOf: nat -> set<nat>, externalsOf: nat -> set<nat>)
      ensures Valid() && this.total == total && this.parentsOf == parentsOf && this.externalsOf == externalsOf
    {
      this.total, this.parentsOf, this.externalsOf := total, parentsOf, externalsOf;
      sccToCost, incomingExternals, clonableParents := map[], map[], map[];
    }

    method LatencyOfSCC(scc: nat) returns (cost: nat)
      requires Valid()
      modifies this
      ensures Valid() && cost == total(scc) && sccToCost == old(sccToCost)[scc := cost]
    {
      if scc in sccToCost {
        return sccToCost[scc];
      }
      cost := total(scc);
      sccToCost := sccToCost[scc := cost];
    }

    method MemoizeExternals(scc: nat) returns (externals: set<nat>)
      requires Valid()
      modifies this
      ensures Valid() && externals == externalsOf(scc)
      ensures incomingExternals == old(incomingExternals)[scc := externals]
    {
      if scc in incomingExternals {
        return incomingExternals[scc];
      }
      externals := externalsOf(scc);
      incomingExternals := incomingExternals[scc := externals];
    }

    method MemoizeParents(scc: nat) returns (parents: set<nat>)
      requires Valid()
      modifies this
      ensures Valid() && parents == parentsOf(scc) && clonableParents == old(clonableParents)[scc := parents]
    {
      if scc in clonableParents {
        return clonableParents[scc];
      }
      parents := parentsOf(scc);
      clonableParents := clonableParents[scc := parents];
    }

    method CloseOverParents(sccs: SCCSet) returns (subsetSCCs: SCCSet)
      requires Valid()
      modifies this
      ensures Valid() && subsetSCCs == Closure(sccs)
    {
      subsetSCCs := sccs;
      var todo := sccs;
      while todo != {}
        invariant todo <= sccs && Valid()
        invariant subsetSCCs == sccs + set s, x | s in sccs - todo && x in parentsOf(s) :: x
      {
        var scc :| scc in todo;
        var parents := MemoizeParents(scc);
        assert sccs - (todo - {scc}) == sccs - todo + {scc};
        subsetSCCs := subsetSCCs + parents;
        todo := todo - {scc};
      }
    }

    method CostOfClosure(subsetSCCs: SCCSet, known: set<nat>) returns (internalCost: nat, queueValues: set<nat>)
      requires Valid()
      modifies this
      ensures Valid() && internalCost == Sum(total, subsetSCCs) % Two64
      ensures forall x :: x in queueValues <==> x in known || exists s :: s in subsetSCCs && x in externalsOf(s)
    {
      internalCost, queueValues := 0, known;
      var todo := subsetSCCs;
      ghost var done: set<nat> := {};
      while todo != {}
        invariant done == subsetSCCs - todo && todo <= subsetSCCs && Valid()
        invariant internalCost == Sum(total, done) % Two64
        invariant forall x :: x in queueValues <==> x in known || exists s :: s in done && x in externalsOf(s)
      {
        var scc :| scc in todo;
        var externals := MemoizeExternals(scc);
        ghost var before := queueValues;
        queueValues := queueValues + externals;
        var cost := LatencyOfSCC(scc);
        internalCost := (internalCost + cost) % Two64;
        todo := todo - {scc};
        AddMod(Sum(total, done), cost, Two64);
        SumWithout(total, done + {scc}, scc);
        assert done + {scc} - {scc} == done;
        forall x ensures x in queueValues <==> x in known || exists s :: s in done + {scc} && x in externalsOf(s) {
          assert x in queueValues <==> x in before || x in externalsOf(scc);
        }
        done := done + {scc};
      }
      assert done == subsetSCCs;
    }

    /** The cost of the stages and the values that cross between them. */
    method CostOfStages(sets: Partition) returns (maxInternalCost: nat, queueValues: set<nat>)
      requires Valid()
      modifies this
      ensures Valid() && IsMaxInternal(sets, maxInternalCost) && queueValues == Externals(sets)
    {
      maxInternalCost, queueValues := 0, {};
      var todo := sets;
      ghost var done: Partition := {};
      while todo != {}
        invariant done == sets - todo && todo <= sets && Valid()
        invariant IsMaxInternal(done, maxInternalCost)
        invariant queueValues == Externals(done)
      {
        var set' :| set' in todo;
        var subsetSCCs := CloseOverParents(set');
        ghost var before := queueValues;
        var internalCost;
        internalCost, queueValues := CostOfClosure(subsetSCCs, queueValues);
        MoreExternals(done, set', before, queueValues);
        MoreInternal(done, set', maxInternalCost);
        if internalCost > maxInternalCost {
          maxInternalCost := internalCost;
        }
        todo := todo - {set'};
        done := done + {set'};
      }
      assert done == sets;
    }

    /** The latency of running every set on a core of its own, whatever was remembered before. */
    method LatencyPerInvocation(sets: Partition) returns (cost: nat)
      requires Valid()
      modifies this
      ensures Valid() && IsLatency(sets, cost)
      ensures exists m: nat :: IsMaxInternal(sets, m) && cost == (m + 100 * |Externals(sets)|) % Two64
    {
      var maxInternalCost, queueValues := CostOfStages(sets);
      MaxFits(sets, maxInternalCost);
      cost := AddQueues(maxInternalCost, queueValues);
    }

    lemma MaxFits(sets: Partition, m: nat)
      requires IsMaxInternal(sets, m)
      ensures m < Two64
    {}

    method AddQueues(maxInternalCost: nat, queueValues: set<nat>) returns (cost: nat)
      requires maxInternalCost < Two64
      ensures cost == (maxInternalCost + QueueLatency * |queueValues|) % Two64
    {
      cost := maxInternalCost;
      ghost var n := 0;
      var left := queueValues;
      while left != {}
        invariant left <= queueValues && n == |queueValues| - |left|
        invariant cost == (maxInternalCost + QueueLatency * n) % Two64
      {
        var v :| v in left;
        AddMod(maxInternalCost + QueueLatency * n, QueueLatency, Two64);
        cost := (cost + QueueLatency) % Two64;
        left := left - {v};
        n := n + 1;
      }
    }

    lemma MoreExternals(done: Partition, a: SCCSet, before: set<nat>, now: set<nat>)
      requires before == Externals(done)
      requires forall x :: x in now <==> x in before || exists s :: s in Closure(a) && x in externalsOf(s)
      ensures now == Externals(done + {a})
    {
      forall x ensures x in now <==> x in Externals(done + {a}) {
        if x in Externals(done + {a}) {
          var b, s :| b in done + {a} && s in Closure(b) && x in externalsOf(s);
          if b != a { assert b in done; }
        }
        if x in before {
          var b, s :| b in done && s in Closure(b) && x in externalsOf(s);
          assert b in done + {a};
        } else if x in now {
          assert a in done + {a};
        }
      }
    }

    lemma MoreInternal(done: Partition, a: SCCSet, m: nat)
      requires IsMaxInternal(done, m)
      ensures IsMaxInternal(done + {a}, if Internal(a) > m then Internal(a) else m)
    {
      assert a in done + {a};
      if Internal(a) <= m && done != {} {
        var b :| b in done && Internal(b) == m;
        assert b in done + {a};
      }
    }

    /** For one set the estimate is a function of the set. */
    lemma LatencyOfOne(a: SCCSet, cost: nat)
      requires IsLatency({a}, cost)
      ensures cost == StageLatency(a)
    {
      var m: nat :| IsMaxInternal({a}, m) && cost == WithQueues(m, {a});
      assert a in {a};
    }
  }

  /** The estimate is determined by the sets: two computations give the same number. */
  lemma LatencyIsUnique(il: InvocationLatency, sets: Partition, x: nat, y: nat)
    requires il.IsLatency(sets, x) && il.IsLatency(sets, y)
    ensures x == y
  {
    var m: nat :| il.IsMaxInternal(sets, m) && x == il.WithQueues(m, sets);
    var n: nat :| il.IsMaxInternal(sets, n) && y == il.WithQueues(n, sets);
    MaxIsUnique(il, sets, m, n);
  }

  lemma OneMoreQueueCost(m: nat, e: nat, f: nat, x: nat, y: nat)
    requires f == e + 1 && x == (m + 100 * e) % Two64 && y == (m + 100 * f) % Two64
    ensures y == (x + 100) % Two64
  {
    AddMod(m + 100 * e, 100, Two64);
  }

  /** One more value that crosses between stages costs one more queue. */
  lemma OneMoreQueue(il: InvocationLatency, fewer: Partition, more: Partition, m: nat, x: nat, y: nat)
    requires il.IsMaxInternal(fewer, m) && il.IsMaxInternal(more, m) && il.IsLatency(fewer, x) && il.IsLatency(more, y)
    requires |il.Externals(more)| == |il.Externals(fewer)| + 1
    ensures y == (x + 100) % Two64
  {
    var e := |il.Externals(fewer)|;
    LatencyIs(il, fewer, m, x, e);
    var f := |il.Externals(more)|;
    LatencyIs(il, more, m, y, f);
    OneMoreQueueCost(m, e, f, x, y);
  }

  /** A stage costs what all SCCs on its core cost together, those cloned there included. */
  lemma StageCostCountsClones(il: InvocationLatency, a: SCCSet, onCore: SCCSet)
    requires forall x :: x in onCore <==> x in a || exists s :: s in a && x in il.parentsOf(s)
    ensures il.Internal(a) == Sum(il.total, onCore) % Two64
    ensures il.StageLatency(a) == (Sum(il.total, onCore) % Two64 + 100 * |il.Externals({a})|) % Two64
  {
    assert onCore == il.Closure(a);
  }

  /** The most expensive stage plus 100 for every value that crosses. */
  lemma LatencyIs(il: InvocationLatency, sets: Partition, m: nat, cost: nat, e: nat)
    requires il.IsMaxInternal(sets, m) && il.IsLatency(sets, cost) && e == |il.Externals(sets)|
    ensures cost == (m + 100 * e) % Two64
  {
    var n: nat :| il.IsMaxInternal(sets, n) && cost == il.WithQueues(n, sets);
    MaxIsUnique(il, sets, m, n);
  }

  lemma MaxIsUnique(il: InvocationLatency, sets: Partition, m: nat, n: nat)
    requires il.IsMaxInternal(sets, m) && il.IsMaxInternal(sets, n)
    ensures m == n
  {
    if sets != {} {
      var a :| a in sets && il.Internal(a) == m;
      var b :| b in sets && il.Internal(b) == n;
    }
  }
}
