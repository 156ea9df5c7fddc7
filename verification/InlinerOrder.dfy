/**
 The inliner's depth order: every reachable function gets one index, callers before the
 functions they call, and where recursion makes that impossible the functions at which
 the order gives up are recorded as entrances of recursive chains.
 */
module InlinerOrder {
  import opened Digraph
  import opened InlinerGraph

  /** The first occurrence of every element, in order. */
  function Firsts(s: seq<nat>): (r: seq<nat>)
    ensures forall x :: x in r <==> x in s
  {
    if s == [] then []
    else
      var k := |s| - 1;
      if s[k] in s[..k] then Firsts(s[..k]) else Firsts(s[..k]) + [s[k]]
  }

  ghost predicate NoDuplicates(s: seq<nat>) {
    forall i, j :: 0 <= i < j < |s| ==> s[i] != s[j]
  }

  /** r has no repetition and keeps the order in which its elements first occur in s. */
  ghost predicate FirstOrder(s: seq<nat>, r: seq<nat>) {
    && NoDuplicates(r) && (forall x :: x in r ==> x in s)
    && forall i, j :: 0 <= i < j < |r| ==> OccursFirst(s, r[i], r[j])
  }

  /** x occurs in s, and y not before. */
  ghost predicate OccursFirst(s: seq<nat>, x: nat, y: nat) {
    exists a :: 0 <= a < |s| && s[a] == x && y !in s[..a + 1]
  }

  lemma OccursFirstStays(s: seq<nat>, z: nat, x: nat, y: nat)
    requires OccursFirst(s, x, y)
    ensures OccursFirst(s + [z], x, y)
  {
    var a :| 0 <= a < |s| && s[a] == x && y !in s[..a + 1];
    assert (s + [z])[a] == x && (s + [z])[..a + 1] == s[..a + 1];
  }

  lemma NewOccursLast(s: seq<nat>, x: nat, y: nat)
    requires x in s && y !in s
    ensures OccursFirst(s + [y], x, y)
  {
    var a :| 0 <= a < |s| && s[a] == x;
    assert (s + [y])[a] == x && (s + [y])[..a + 1] == s[..a + 1];
    assert forall z :: z in s[..a + 1] ==> z in s;
  }

  /** The next element of s is added if it is new. */
  lemma FirstOrderStep(s: seq<nat>, z: nat, r: seq<nat>)
    requires FirstOrder(s, r)
    ensures FirstOrder(s + [z], r)
    ensures z !in s ==> FirstOrder(s + [z], r + [z])
  {
    forall i, j | 0 <= i < j < |r| ensures OccursFirst(s + [z], r[i], r[j]) { OccursFirstStays(s, z, r[i], r[j]); }
    if z !in s {
      var q := r + [z];
      forall i, j | 0 <= i < j < |q| ensures OccursFirst(s + [z], q[i], q[j]) {
        if j == |r| { NewOccursLast(s, r[i], z); } else { OccursFirstStays(s, z, r[i], r[j]); }
      }
    }
  }

  /** `Firsts` keeps every element once, in the order of first occurrences. */
  lemma {:induction false} FirstsInOrder(s: seq<nat>)
    ensures FirstOrder(s, Firsts(s)) && forall x :: x in s ==> x in Firsts(s)
    decreases |s|
  {
    if s != [] {
      var k := |s| - 1;
      FirstsInOrder(s[..k]);
      assert s == s[..k] + [s[k]];
      FirstOrderStep(s[..k], s[k], Firsts(s[..k]));
    }
  }

  function NotYet(deferred: seq<nat>, ordered: set<nat>): (r: set<nat>)
    ensures forall f :: f in r <==> f in deferred && f !in ordered
  {
    set f | f in deferred && f !in ordered
  }

  /** The entrances found so far and those of the rounds to come are the entrances of the graph. */
  ghost predicate RoundsLeft(c: Calls, main: nat, found: set<nat>) {
    found + Rounds(c, {main} + found) == Rounds(c, {main})
  }

  lemma NextRound(c: Calls, main: nat, found: set<nat>)
    requires RoundsLeft(c, main, found)
    ensures RoundsLeft(c, main, found + Border(c, {main} + found))
  {
    var b := Border(c, {main} + found);
    assert {main} + found + b == {main} + (found + b);
    if b == {} { assert found + b == found; }
  }

  ghost predicate Match(c: Calls, parents: map<nat, set<nat>>) {
    forall u, v {:trigger (u, v) in Edges(c)} :: (u, v) in Edges(c) <==> v in parents && u in parents[v]
  }

  lemma NoChildren(c: Calls, parents: map<nat, set<nat>>, u: nat)
    requires Match(c, parents) && u !in c
    ensures Match(c[u := []], parents)
  {
    forall a, b ensures (a, b) in Edges(c[u := []]) <==> b in parents && a in parents[b] {
      assert (a, b) in Edges(c) <==> b in parents && a in parents[b];
    }
  }

  lemma OneMoreChild(c: Calls, parents: map<nat, set<nat>>, u: nat, v: nat, ps: set<nat>)
    requires Match(c, parents) && u in c && ps == (if v in parents then parents[v] else {}) + {u}
    ensures Match(c[u := c[u] + [v]], parents[v := ps])
  {
    var d, now := c[u := c[u] + [v]], parents[v := ps];
    forall a, b ensures (a, b) in Edges(d) <==> b in now && a in now[b] {
      assert (a, b) in Edges(c) <==> b in parents && a in parents[b];
    }
  }

  // ---------------------------------------------------------------- breadth first

  /** A visit (u, i) is of the function called by u at its i-th call. */
  ghost predicate IsVisit(c: Calls, orders: map<nat, nat>, v: (nat, nat), f: nat) {
    && v.0 in orders && f in orders && orders[v.0] < orders[f]
    && v.0 in c && v.1 < |c[v.0]| && c[v.0][v.1] == f
  }

  /** Visits follow the indices of the callers, and their calls. */
  ghost predicate VisitBefore(orders: map<nat, nat>, v: (nat, nat), w: (nat, nat)) {
    v.0 in orders && w.0 in orders && (orders[v.0] < orders[w.0] || (v.0 == w.0 && v.1 < w.1))
  }

  /**
   What is no entrance got its index at a call by a function with a lower one, and the
   indices follow the order of these calls.
   */
  ghost predicate BreadthFirst(
    c: Calls, main: nat, orders: map<nat, nat>, entrances: set<nat>, visits: map<nat, (nat, nat)>)
  {
    && visits.Keys == orders.Keys - {main} - entrances
    && (forall f :: f in visits ==> IsVisit(c, orders, visits[f], f))
    && forall f, g {:trigger VisitBefore(orders, visits[f], visits[g])} ::
         f in visits && g in visits && orders[f] < orders[g] ==> VisitBefore(orders, visits[f], visits[g])
  }

  /** All visits were of the first n functions, or of the first i calls of the next one. */
  ghost predicate VisitsUpTo(orders: map<nat, nat>, visits: map<nat, (nat, nat)>, n: nat, i: nat) {
    forall f {:trigger visits[f]} {:trigger f in visits} :: f in visits ==>
      visits[f].0 in orders && (orders[visits[f].0] < n || (orders[visits[f].0] == n && visits[f].1 < i))
  }

  /** F gets the next index, at call i of func. */
  lemma VisitAdded(
    c: Calls, main: nat, orders: map<nat, nat>, entrances: set<nat>, visits: map<nat, (nat, nat)>,
    F: nat, func: nat, i: nat, next: nat)
    requires BreadthFirst(c, main, orders, entrances, visits) && func in orders
    requires VisitsUpTo(orders, visits, orders[func], i) && forall f :: f in orders ==> orders[f] < next
    requires F !in orders && F != main && F !in entrances && entrances <= orders.Keys
    requires forall f, g :: f in orders && g in orders && orders[f] == orders[g] ==> f == g
    requires func in c && i < |c[func]| && c[func][i] == F
    ensures BreadthFirst(c, main, orders[F := next], entrances, visits[F := (func, i)])
    ensures VisitsUpTo(orders[F := next], visits[F := (func, i)], orders[func], i + 1)
  {
    var now, vs := orders[F := next], visits[F := (func, i)];
    forall f | f in vs ensures IsVisit(c, now, vs[f], f) {
      if f != F { assert IsVisit(c, orders, visits[f], f); }
    }
    forall f, g | f in vs && g in vs && now[f] < now[g] ensures VisitBefore(now, vs[f], vs[g]) {
      if g != F { assert VisitBefore(orders, visits[f], visits[g]); }
    }
  }

  /** Entrances get further indices; nothing is visited. */
  lemma EntrancesAdded(
    c: Calls, main: nat, orders: map<nat, nat>, entrances: set<nat>, visits: map<nat, (nat, nat)>,
    orders': map<nat, nat>, entrances': set<nat>, n: nat, i: nat)
    requires BreadthFirst(c, main, orders, entrances, visits) && VisitsUpTo(orders, visits, n, i)
    requires forall f :: f in orders ==> f in orders' && orders'[f] == orders[f]
    requires entrances <= entrances' && orders'.Keys - orders.Keys == entrances' - entrances
    ensures BreadthFirst(c, main, orders', entrances', visits) && VisitsUpTo(orders', visits, n, i)
  {
    forall f ensures f in orders'.Keys - {main} - entrances' <==> f in visits {
      assert f in orders'.Keys - orders.Keys <==> f in entrances' - entrances;
    }
    forall f | f in visits ensures IsVisit(c, orders', visits[f], f) { assert IsVisit(c, orders, visits[f], f); }
    forall f, g | f in visits && g in visits && orders'[f] < orders'[g]
      ensures VisitBefore(orders', visits[f], visits[g])
    {
      assert VisitBefore(orders, visits[f], visits[g]);
    }
  }

  lemma {:induction false} SizeOfDistinct(s: seq<nat>, all: set<nat>)
    requires NoDuplicates(s) && forall x :: x in all <==> x in s
    ensures |all| == |s|
    decreases |s|
  {
    if s != [] {
      var x, rest := s[|s| - 1], s[..|s| - 1];
      assert s == rest + [x];
      SizeOfDistinct(rest, all - {x});
    }
  }

  class Inliner {
    const called: Calls
    var parentFns: map<nat, set<nat>>
    var childrenFns: Calls
    var fnOrders: map<nat, nat>
    var depthOrderedFns: seq<nat>
    var recursiveChainEntranceFns: set<nat>
    ghost var visitOf: map<nat, (nat, nat)>    // at which call of which function each function was ordered

    // -------------------------------------------------------------- the function graph

    ghost predicate ParentsMatch()
      reads this`childrenFns, this`parentFns
    {
      Match(childrenFns, parentFns)
    }

    /** The functions that main can reach, each with the functions it calls and those that call it. */
    ghost predicate GraphOk(main: nat)
      reads this`childrenFns, this`parentFns
    {
      && main in childrenFns && Closed(childrenFns) && ParentsMatch()
      && forall f {:trigger Reachable(childrenFns, main, f)} :: f in childrenFns ==> Reachable(childrenFns, main, f)
    }

    method CollectChildren(parentF: nat)
      requires parentF in called && parentF !in childrenFns && ParentsMatch()
      modifies this`childrenFns, this`parentFns
      ensures childrenFns == old(childrenFns)[parentF := Firsts(called[parentF])] && ParentsMatch()
    {
      NoChildren(childrenFns, parentFns, parentF);
      childrenFns := childrenFns[parentF := []];
      var i := 0;
      while i < |called[parentF]|
        invariant 0 <= i <= |called[parentF]|
        invariant childrenFns == old(childrenFns)[parentF := Firsts(called[parentF][..i])] && ParentsMatch()
      {
        var childF := called[parentF][i];
        assert called[parentF][..i + 1][..i] == called[parentF][..i];
        if childF !in called[parentF][..i] {
          var parents := (if childF in parentFns then parentFns[childF] else {}) + {parentF};
          OneMoreChild(childrenFns, parentFns, parentF, childF, parents);
          childrenFns := childrenFns[parentF := childrenFns[parentF] + [childF]];
          parentFns := parentFns[childF := parents];
        }
        i := i + 1;
      }
      assert called[parentF][..i] == called[parentF];
    }

    /** Breadth-first traversal of the call graph from main. */
    method CollectFnGraph(main: nat)
      requires main in called && Closed(called) && parentFns == map[] && childrenFns == map[]
      modifies this`childrenFns, this`parentFns
      ensures GraphOk(main)
      ensures forall f :: f in childrenFns <==> Reachable(called, main, f)
      ensures forall f :: f in childrenFns ==> f in called && childrenFns[f] == Firsts(called[f])
      ensures forall f :: f in childrenFns ==> FirstOrder(called[f], childrenFns[f])
    {
      var funcToTraverse := [main];
      var reached := {main};
      assert Path(Edges(called), [main]);
      while funcToTraverse != []
        invariant reached <= called.Keys && childrenFns.Keys <= reached && main in reached
        invariant forall f :: f in reached ==> f in childrenFns || f in funcToTraverse
        invariant forall f :: f in funcToTraverse ==> f in reached && f !in childrenFns
        invariant NoDuplicates(funcToTraverse) && ParentsMatch()
        invariant forall f :: f in reached ==> Reachable(called, main, f)
        invariant forall u, v :: u in childrenFns && (u, v) in Edges(called) ==> v in reached
        invariant forall f :: f in childrenFns ==> childrenFns[f] == Firsts(called[f])
        decreases called.Keys - childrenFns.Keys
      {
        var parentF := funcToTraverse[0];
        ghost var waiting := funcToTraverse;
        funcToTraverse := funcToTraverse[1..];
        assert forall f :: f in waiting ==> f == parentF || f in funcToTraverse;
        CollectChildren(parentF);
        funcToTraverse, reached := Enqueue(main, parentF, funcToTraverse, reached);
      }
      forall p | Path(Edges(called), p) && p[0] == main ensures p[|p| - 1] in childrenFns {
        ClosedHoldsAlong(Edges(called), childrenFns.Keys, p, |p| - 1);
      }
      SameReachable(main);
      forall f | f in childrenFns ensures FirstOrder(called[f], childrenFns[f]) { FirstsInOrder(called[f]); }
    }

    /** Enqueue the children that were not reached before. */
    method Enqueue(main: nat, parentF: nat, queue: seq<nat>, known: set<nat>)
      returns (funcToTraverse: seq<nat>, reached: set<nat>)
      requires parentF in childrenFns && parentF in called && childrenFns[parentF] == Firsts(called[parentF])
      requires Closed(called) && known <= called.Keys && childrenFns.Keys <= known && NoDuplicates(queue)
      requires forall f :: f in known ==> f in childrenFns || f in queue
      requires forall f :: f in queue ==> f in known && f !in childrenFns
      requires forall f :: f in known ==> Reachable(called, main, f)
      ensures known <= reached <= called.Keys && NoDuplicates(funcToTraverse)
      ensures forall f :: f in reached ==> f in childrenFns || f in funcToTraverse
      ensures forall f :: f in funcToTraverse ==> f in reached && f !in childrenFns
      ensures forall f :: f in reached ==> Reachable(called, main, f)
      ensures forall v :: v in called[parentF] ==> v in reached
    {
      funcToTraverse, reached := queue, known;
      var i := 0;
      while i < |childrenFns[parentF]|
        invariant 0 <= i <= |childrenFns[parentF]|
        invariant known <= reached <= called.Keys && NoDuplicates(funcToTraverse)
        invariant forall f :: f in reached ==> f in childrenFns || f in funcToTraverse
        invariant forall f :: f in funcToTraverse ==> f in reached && f !in childrenFns
        invariant forall f :: f in reached ==> Reachable(called, main, f)
        invariant forall k: nat :: k < i ==> childrenFns[parentF][k] in reached
      {
        var childF := childrenFns[parentF][i];
        assert childF in called[parentF];
        if childF !in reached {
          assert (parentF, childF) in Edges(called);
          ReachStep(called, main, parentF, childF);
          reached := reached + {childF};
          funcToTraverse := funcToTraverse + [childF];
        }
        i := i + 1;
      }
    }

    /** What is reachable in the program is reachable in the collected graph. */
    lemma SameReachable(main: nat)
      requires main in childrenFns
      requires forall f :: f in childrenFns ==> f in called && childrenFns[f] == Firsts(called[f])
      requires forall u, v :: u in childrenFns && (u, v) in Edges(called) ==> v in childrenFns
      ensures Closed(childrenFns)
      ensures forall f :: Reachable(called, main, f) ==> Reachable(childrenFns, main, f)
    {
      forall f | Reachable(called, main, f) ensures Reachable(childrenFns, main, f) {
        var p :| Path(Edges(called), p) && p[0] == main && p[|p| - 1] == f;
        forall k: nat | k < |p| - 1 ensures (p[k], p[k + 1]) in Edges(childrenFns) {
          ClosedHoldsAlong(Edges(called), childrenFns.Keys, p, k);
          assert (p[k], p[k + 1]) in Edges(called);
        }
      }
    }

    // -------------------------------------------------------------- the depth order

    /** Indices and functions are mutual inverses. */
    ghost predicate Indexed()
      reads this`fnOrders, this`depthOrderedFns
    {
      && (forall i: nat :: i < |depthOrderedFns| ==>
          depthOrderedFns[i] in fnOrders && fnOrders[depthOrderedFns[i]] == i)
      && (forall f :: f in fnOrders ==> fnOrders[f] < |depthOrderedFns| && depthOrderedFns[fnOrders[f]] == f)
    }

    /** Whoever is not an entrance comes after everybody who calls it. */
    ghost predicate CallersFirst(main: nat)
      reads this`childrenFns, this`fnOrders, this`recursiveChainEntranceFns
    {
      forall u, f :: (u, f) in Edges(childrenFns) && f in fnOrders && f != main && f !in recursiveChainEntranceFns ==>
        u in fnOrders && fnOrders[u] < fnOrders[f]
    }

    /** Nothing ordered is below a cycle that avoids main and the entrances found so far. */
    ghost predicate NoneBelow(main: nat)
      reads this`childrenFns, this`fnOrders, this`recursiveChainEntranceFns
    {
      var x := {main} + recursiveChainEntranceFns;
      forall f {:trigger BelowCycle(childrenFns, x, f)} :: f in fnOrders ==> !BelowCycle(childrenFns, x, f)
    }

    ghost predicate OrderOk(main: nat)
      reads this`childrenFns, this`parentFns, this`fnOrders, this`depthOrderedFns, this`recursiveChainEntranceFns
    {
      && GraphOk(main) && Indexed() && CallersFirst(main) && NoneBelow(main)
      && main in fnOrders && fnOrders[main] == 0 && fnOrders.Keys <= childrenFns.Keys
      && recursiveChainEntranceFns <= fnOrders.Keys - {main}
    }

    /** Indices were given breadth first, at calls of the first n functions and the first i calls of the next one. */
    ghost predicate Traced(main: nat, n: nat, i: nat)
      reads this`childrenFns, this`fnOrders, this`recursiveChainEntranceFns, this`visitOf
    {
      && BreadthFirst(childrenFns, main, fnOrders, recursiveChainEntranceFns, visitOf)
      && VisitsUpTo(fnOrders, visitOf, n, i)
    }

    ghost predicate HasIndex(f: nat, n: nat)
      reads this`fnOrders
    {
      f in fnOrders && fnOrders[f] == n
    }

    /** What was traced so far is also traced later on. */
    lemma TracedOn(main: nat, n: nat, i: nat)
      requires Traced(main, n, i)
      ensures Traced(main, n, i + 1) && Traced(main, n + 1, 0)
    {}

    /** The functions in the queue are those from index n on. */
    ghost predicate InTurn(n: nat, queue: seq<nat>)
      reads this`depthOrderedFns
    {
      n <= |depthOrderedFns| && queue == depthOrderedFns[n..]
    }

    /** f is called by something that was traversed. */
    ghost predicate Met(done: set<nat>, f: nat)
      reads this`childrenFns
    {
      exists u :: u in done && (u, f) in Edges(childrenFns)
    }

    /** Some caller of f was not traversed. */
    ghost predicate Blocked(done: set<nat>, f: nat)
      reads this`childrenFns
    {
      exists u :: u !in done && (u, f) in Edges(childrenFns)
    }

    /** The queue holds the ordered functions that were not traversed. */
    ghost predicate QueueOk(done: set<nat>, queue: seq<nat>)
      reads this`fnOrders
    {
      && done <= fnOrders.Keys && NoDuplicates(queue)
      && (forall f :: f in fnOrders ==> f in done || f in queue)
      && (forall f :: f in queue ==> f in fnOrders && f !in done)
    }

    /** What was met and could not be ordered is deferred, and nothing else is. */
    ghost predicate DeferredOk(ordered: set<nat>, done: set<nat>, deferred: seq<nat>)
      reads this`childrenFns
    {
      && (forall f :: Met(done, f) && f !in ordered ==> f in deferred && Blocked(done, f))
      && (forall f :: f in deferred && f !in ordered ==> Met(done, f))
    }

    method AllParentsOrdered(F: nat, reached: set<nat>) returns (all: bool)
      requires ParentsMatch() && F in parentFns
      ensures all <==> forall u :: (u, F) in Edges(childrenFns) ==> u in reached
    {
      all := true;
      var parents := parentFns[F];
      while parents != {}
        invariant parents <= parentFns[F]
        invariant forall u :: u in parentFns[F] && u !in parents ==> u in reached
      {
        var parent :| parent in parents;
        if parent !in reached {
          all := false;
          assert (parent, F) in Edges(childrenFns);
          return;
        }
        parents := parents - {parent};
      }
    }

    /** The next free index goes to F. */
    method Assign(main: nat, F: nat, entrance: bool)
      requires OrderOk(main) && F in childrenFns && F !in fnOrders
      requires !entrance ==> forall u :: (u, F) in Edges(childrenFns) ==> u in fnOrders
      modifies this`fnOrders, this`depthOrderedFns, this`recursiveChainEntranceFns
      ensures OrderOk(main)
      ensures fnOrders == old(fnOrders)[F := |old(depthOrderedFns)|]
      ensures depthOrderedFns == old(depthOrderedFns) + [F]
      ensures recursiveChainEntranceFns == old(recursiveChainEntranceFns) + if entrance then {F} else {}
    {
      ghost var x := {main} + recursiveChainEntranceFns;
      if !entrance && BelowCycle(childrenFns, x, F) {
        var u := BelowHasParentBelow(childrenFns, x, F);
      }
      if entrance {
        recursiveChainEntranceFns := recursiveChainEntranceFns + {F};
      }
      fnOrders := fnOrders[F := |depthOrderedFns|];
      depthOrderedFns := depthOrderedFns + [F];
      forall f | f in fnOrders ensures !BelowCycle(childrenFns, {main} + recursiveChainEntranceFns, f) {
        if BelowCycle(childrenFns, {main} + recursiveChainEntranceFns, f) {
          FewerCycles(childrenFns, x, {main} + recursiveChainEntranceFns, f);
        }
      }
    }

    /** The next free index goes to F, at call i of func. */
    method AssignChild(main: nat, F: nat, ghost func: nat, ghost n: nat, ghost i: nat)
      requires OrderOk(main) && F in childrenFns && F !in fnOrders
      requires forall u :: (u, F) in Edges(childrenFns) ==> u in fnOrders
      requires HasIndex(func, n) && i < |childrenFns[func]| && childrenFns[func][i] == F
      requires Traced(main, n, i)
      modifies this`fnOrders, this`depthOrderedFns, this`recursiveChainEntranceFns, this`visitOf
      ensures OrderOk(main) && recursiveChainEntranceFns == old(recursiveChainEntranceFns)
      ensures fnOrders == old(fnOrders)[F := |old(depthOrderedFns)|] && depthOrderedFns == old(depthOrderedFns) + [F]
      ensures HasIndex(func, n) && Traced(main, n, i + 1)
    {
      NextIsTraced(main, F, func, i);
      Assign(main, F, false);
      visitOf := visitOf[F := (func, i)];
    }

    lemma NextIsTraced(main: nat, F: nat, func: nat, i: nat)
      requires OrderOk(main) && F !in fnOrders && func in fnOrders && Traced(main, fnOrders[func], i)
      requires func in childrenFns && i < |childrenFns[func]| && childrenFns[func][i] == F
      ensures var next := |depthOrderedFns|;
              && BreadthFirst(childrenFns, main, fnOrders[F := next], recursiveChainEntranceFns,
                              visitOf[F := (func, i)])
              && VisitsUpTo(fnOrders[F := next], visitOf[F := (func, i)], fnOrders[func], i + 1)
    {
      forall f, g | f in fnOrders && g in fnOrders && fnOrders[f] == fnOrders[g] ensures f == g {
        assert depthOrderedFns[fnOrders[f]] == f;
      }
      VisitAdded(childrenFns, main, fnOrders, recursiveChainEntranceFns, visitOf, F, func, i, |depthOrderedFns|);
    }

    /** Order F, called by a traversed function, if all its callers are ordered; defer it otherwise. */
    method VisitChild(
      main: nat, F: nat, queue: seq<nat>, left: seq<nat>,
      ghost now: set<nat>, ghost func: nat, ghost n: nat, ghost i: nat)
      returns (funcToTraverse: seq<nat>, deferred: seq<nat>)
      requires OrderOk(main) && F in childrenFns && F in parentFns && QueueOk(now, queue) && Met(now, F)
      requires HasIndex(func, n) && i < |childrenFns[func]| && childrenFns[func][i] == F
      requires Traced(main, n, i) && InTurn(n + 1, queue)
      modifies this`fnOrders, this`depthOrderedFns, this`recursiveChainEntranceFns, this`visitOf
      ensures HasIndex(func, n) && Traced(main, n, i + 1) && InTurn(n + 1, funcToTraverse)
      ensures OrderOk(main) && QueueOk(now, funcToTraverse)
      ensures old(fnOrders.Keys) <= fnOrders.Keys && recursiveChainEntranceFns == old(recursiveChainEntranceFns)
      ensures F in fnOrders || (F in deferred && Blocked(now, F))
      ensures deferred == left || (deferred == left + [F] && F !in fnOrders)
    {
      funcToTraverse, deferred := queue, left;
      TracedOn(main, n, i);
      if F !in fnOrders {
        var allParentsOrdered := AllParentsOrdered(F, fnOrders.Keys);
        if allParentsOrdered {
          TailWith(depthOrderedFns, n + 1, F);
          AssignChild(main, F, func, n, i);
          LastInQueue(now, funcToTraverse, F);
          funcToTraverse := funcToTraverse + [F];
        } else {
          deferred := deferred + [F];
        }
      }
    }

    lemma LastInQueue(done: set<nat>, queue: seq<nat>, F: nat)
      requires F in fnOrders && F !in done && F !in queue && done <= fnOrders.Keys && NoDuplicates(queue)
      requires forall f :: f in fnOrders && f != F ==> f in done || f in queue
      requires forall f :: f in queue ==> f in fnOrders && f !in done
      ensures QueueOk(done, queue + [F])
    {}

    /** The first n children of func are ordered, or deferred for a reason. */
    ghost predicate Handled(ordered: set<nat>, func: nat, n: nat, now: set<nat>, deferred: seq<nat>)
      requires func in childrenFns && n <= |childrenFns[func]|
      reads this`childrenFns
    {
      forall k: nat :: k < n && childrenFns[func][k] !in ordered ==>
        childrenFns[func][k] in deferred && Blocked(now, childrenFns[func][k])
    }

    lemma NextHandled(
      was: set<nat>, ordered: set<nat>, func: nat, n: nat, now: set<nat>, old': seq<nat>, deferred: seq<nat>)
      requires func in childrenFns && n < |childrenFns[func]| && Handled(was, func, n, now, old')
      requires was <= ordered && forall f :: f in old' ==> f in deferred
      requires var f := childrenFns[func][n]; f in ordered || (f in deferred && Blocked(now, f))
      ensures Handled(ordered, func, n + 1, now, deferred)
    {}

    /** Order the children of func all of whose callers are ordered, and defer the others. */
    method TraverseChildren(main: nat, func: nat, queue: seq<nat>, left: seq<nat>, ghost done: set<nat>, ghost n: nat)
      returns (funcToTraverse: seq<nat>, deferred: seq<nat>)
      requires OrderOk(main) && func in fnOrders && func !in done && func !in queue
      requires QueueOk(done + {func}, queue) && DeferredOk(fnOrders.Keys, done, left)
      requires HasIndex(func, n) && Traced(main, n, 0) && InTurn(n + 1, queue)
      modifies this`fnOrders, this`depthOrderedFns, this`recursiveChainEntranceFns, this`visitOf
      ensures Traced(main, n + 1, 0) && InTurn(n + 1, funcToTraverse)
      ensures OrderOk(main) && QueueOk(done + {func}, funcToTraverse)
              && DeferredOk(fnOrders.Keys, done + {func}, deferred)
      ensures old(fnOrders.Keys) <= fnOrders.Keys
      ensures recursiveChainEntranceFns == old(recursiveChainEntranceFns)
    {
      funcToTraverse, deferred := queue, left;
      ghost var now, known := done + {func}, fnOrders.Keys;
      var i := 0;
      while i < |childrenFns[func]|
        invariant 0 <= i <= |childrenFns[func]| && OrderOk(main) && QueueOk(now, funcToTraverse)
        invariant known <= fnOrders.Keys && recursiveChainEntranceFns == old(recursiveChainEntranceFns)
        invariant Handled(fnOrders.Keys, func, i, now, deferred)
        invariant forall f :: f in left ==> f in deferred
        invariant forall f :: f in deferred ==> f in left || f in childrenFns[func]
        invariant HasIndex(func, n) && Traced(main, n, i) && InTurn(n + 1, funcToTraverse)
      {
        var F := childrenFns[func][i];
        ChildIsMet(main, func, F, now);
        ghost var was, old' := fnOrders.Keys, deferred;
        funcToTraverse, deferred := VisitChild(main, F, funcToTraverse, deferred, now, func, n, i);
        NextHandled(was, fnOrders.Keys, func, i, now, old', deferred);
        i := i + 1;
      }
      TracedOn(main, n, i);
      ChildrenTraversed(known, func, done, left, deferred);
    }

    lemma ChildIsMet(main: nat, func: nat, F: nat, now: set<nat>)
      requires GraphOk(main) && func in childrenFns && F in childrenFns[func] && func in now
      ensures F in childrenFns && F in parentFns && Met(now, F)
    {
      assert (func, F) in Edges(childrenFns);
    }

    lemma ChildrenTraversed(known: set<nat>, func: nat, done: set<nat>, left: seq<nat>, deferred: seq<nat>)
      requires func in childrenFns && DeferredOk(known, done, left) && known <= fnOrders.Keys
      requires Handled(fnOrders.Keys, func, |childrenFns[func]|, done + {func}, deferred)
      requires forall f :: f in left ==> f in deferred
      requires forall f :: f in deferred ==> f in left || f in childrenFns[func]
      ensures DeferredOk(fnOrders.Keys, done + {func}, deferred)
    {
      var now := done + {func};
      forall f | Met(now, f) && f !in fnOrders ensures f in deferred && Blocked(now, f) {
        if (func, f) in Edges(childrenFns) {
          var k: nat :| k < |childrenFns[func]| && childrenFns[func][k] == f;
        } else {
          assert Met(done, f);
          var u :| u !in done && (u, f) in Edges(childrenFns);
          assert u !in now;
        }
      }
      forall f | f in deferred && f !in fnOrders ensures Met(now, f) {
        if f in left {
          var u :| u in done && (u, f) in Edges(childrenFns);
          assert u in now;
        } else {
          assert (func, f) in Edges(childrenFns);
        }
      }
    }

    /** Traverse until no more function can be ordered. */
    method TraverseQueue(main: nat, queue: seq<nat>, left: seq<nat>, ghost before: set<nat>, ghost n: nat)
      returns (deferred: seq<nat>)
      requires OrderOk(main) && QueueOk(before, queue) && DeferredOk(fnOrders.Keys, before, left)
      requires Traced(main, n, 0) && InTurn(n, queue)
      modifies this`fnOrders, this`depthOrderedFns, this`recursiveChainEntranceFns, this`visitOf
      ensures OrderOk(main) && DeferredOk(fnOrders.Keys, fnOrders.Keys, deferred)
      ensures Traced(main, |depthOrderedFns|, 0)
      ensures old(fnOrders.Keys) <= fnOrders.Keys
      ensures recursiveChainEntranceFns == old(recursiveChainEntranceFns)
    {
      var funcToTraverse := queue;
      deferred := left;
      ghost var done, k := before, n;
      while funcToTraverse != []
        invariant Traced(main, k, 0) && InTurn(k, funcToTraverse)
        invariant OrderOk(main) && QueueOk(done, funcToTraverse) && DeferredOk(fnOrders.Keys, done, deferred)
        invariant old(fnOrders.Keys) <= fnOrders.Keys
        invariant recursiveChainEntranceFns == old(recursiveChainEntranceFns)
        decreases childrenFns.Keys - done
      {
        var func := funcToTraverse[0];
        PopQueue(done, funcToTraverse);
        NextInTurn(k, funcToTraverse);
        funcToTraverse, deferred := TraverseChildren(main, func, funcToTraverse[1..], deferred, done, k);
        done := done + {func};
        k := k + 1;
      }
      assert done == fnOrders.Keys;
    }

    lemma NextInTurn(n: nat, queue: seq<nat>)
      requires Indexed() && InTurn(n, queue) && queue != []
      ensures queue[0] in fnOrders && fnOrders[queue[0]] == n && InTurn(n + 1, queue[1..])
    {}

    lemma PopQueue(done: set<nat>, queue: seq<nat>)
      requires QueueOk(done, queue) && queue != []
      ensures queue[0] in fnOrders && queue[0] !in done && queue[0] !in queue[1..]
      ensures QueueOk(done + {queue[0]}, queue[1..])
    {
      assert forall f :: f in queue ==> f == queue[0] || f in queue[1..];
    }

    /** Order the deferred functions that are still not ordered, and record them as entrances. */
    method MarkEntrances(main: nat, deferred: seq<nat>) returns (remaining: seq<nat>)
      requires OrderOk(main) && forall f :: f in deferred ==> f in childrenFns
      modifies this`fnOrders, this`depthOrderedFns, this`recursiveChainEntranceFns
      ensures OrderOk(main) && QueueOk(old(fnOrders.Keys), remaining)
      ensures fnOrders.Keys == old(fnOrders.Keys) + NotYet(deferred, {})
      ensures recursiveChainEntranceFns == old(recursiveChainEntranceFns) + NotYet(deferred, old(fnOrders.Keys))
      // they get the next indices, in the order in which they were deferred first
      ensures FirstOrder(deferred, remaining) && depthOrderedFns == old(depthOrderedFns) + remaining
    {
      remaining := [];
      var i := 0;
      while i < |deferred|
        invariant 0 <= i <= |deferred| && OrderOk(main)
        invariant Marked(
                    deferred[..i], old(fnOrders.Keys), old(depthOrderedFns), old(recursiveChainEntranceFns), remaining)
      {
        TakeNext(deferred, i);
        remaining := MarkEntrance(main, deferred[i], remaining, deferred[..i],
          old(fnOrders.Keys), old(depthOrderedFns), old(recursiveChainEntranceFns));
        i := i + 1;
      }
      assert deferred[..i] == deferred;
    }

    /** Give `left` the next index, as an entrance, if it has none. */
    method MarkEntrance(
      main: nat, left: nat, remaining: seq<nat>, ghost prefix: seq<nat>, ghost before: set<nat>,
      ghost order: seq<nat>, ghost entrances: set<nat>)
      returns (remaining': seq<nat>)
      requires OrderOk(main) && Marked(prefix, before, order, entrances, remaining) && left in childrenFns
      modifies this`fnOrders, this`depthOrderedFns, this`recursiveChainEntranceFns
      ensures OrderOk(main) && Marked(prefix + [left], before, order, entrances, remaining')
      ensures remaining' == if left in old(fnOrders) then remaining else remaining + [left]
    {
      remaining' := remaining;
      MarkedNext(prefix, before, remaining, left);
      if left !in fnOrders {
        remaining' := remaining + [left];
        Assign(main, left, true);
      }
    }

    /** The deferred functions of the prefix that had no index have one, in order. */
    ghost predicate Marked(
      prefix: seq<nat>, before: set<nat>, order: seq<nat>, entrances: set<nat>, remaining: seq<nat>)
      reads this`fnOrders, this`depthOrderedFns, this`recursiveChainEntranceFns
    {
      && QueueOk(before, remaining) && FirstOrder(prefix, remaining)
      && fnOrders.Keys == before + NotYet(prefix, {})
      && depthOrderedFns == order + remaining && recursiveChainEntranceFns == entrances + NotYet(prefix, before)
    }

    lemma MarkedNext(prefix: seq<nat>, before: set<nat>, remaining: seq<nat>, left: nat)
      requires FirstOrder(prefix, remaining)
      ensures FirstOrder(prefix + [left], remaining)
      ensures left !in prefix ==> FirstOrder(prefix + [left], remaining + [left])
      ensures NotYet(prefix + [left], before) == NotYet(prefix, before) + if left in before then {} else {left}
      ensures NotYet(prefix + [left], {}) == NotYet(prefix, {}) + {left}
    {
      FirstOrderStep(prefix, left, remaining);
    }

    /** When nothing more can be ordered, everything left is below a cycle. */
    lemma LeftIsBelowCycle(main: nat, deferred: seq<nat>, f: nat)
      requires GraphOk(main) && main in fnOrders && DeferredOk(fnOrders.Keys, fnOrders.Keys, deferred)
      requires recursiveChainEntranceFns <= fnOrders.Keys && f in childrenFns && f !in fnOrders
      ensures BelowCycle(childrenFns, {main} + recursiveChainEntranceFns, f)
    {
      var u := childrenFns.Keys - fnOrders.Keys;
      forall v | v in u ensures Follows(Edges(childrenFns), u, v) { HasWaitingCaller(main, deferred, v); }
      NobodyFirstMeansCycle(childrenFns, {main} + recursiveChainEntranceFns, u, f);
    }

    /** Then the deferred functions are the border of the remaining recursion. */
    lemma DeferredIsBorder(main: nat, deferred: seq<nat>)
      requires OrderOk(main) && DeferredOk(fnOrders.Keys, fnOrders.Keys, deferred)
      ensures Border(childrenFns, {main} + recursiveChainEntranceFns) == NotYet(deferred, fnOrders.Keys)
    {
      var c, x := childrenFns, {main} + recursiveChainEntranceFns;
      forall f | f in Border(c, x) ensures f in deferred && f !in fnOrders {
        var p :| (p, f) in Edges(c) && !BelowCycle(c, x, p);
        if p !in fnOrders { LeftIsBelowCycle(main, deferred, p); }
        assert Met(fnOrders.Keys, f);
      }
      forall f | f in deferred && f !in fnOrders ensures f in Border(c, x) {
        var p :| p in fnOrders.Keys && (p, f) in Edges(c);
        assert f in c;
        LeftIsBelowCycle(main, deferred, f);
        assert !BelowCycle(c, x, p);
      }
    }

    lemma HasWaitingCaller(main: nat, deferred: seq<nat>, f: nat)
      requires GraphOk(main) && main in fnOrders && DeferredOk(fnOrders.Keys, fnOrders.Keys, deferred)
      requires f in childrenFns && f !in fnOrders
      ensures Follows(Edges(childrenFns), childrenFns.Keys - fnOrders.Keys, f)
    {
      assert Reachable(childrenFns, main, f);
      var p :| Path(Edges(childrenFns), p) && p[0] == main && p[|p| - 1] == f;
      var u := p[|p| - 2];
      assert (p[|p| - 2], p[|p| - 2 + 1]) in Edges(childrenFns);
      if u in fnOrders {
        assert Met(fnOrders.Keys, f);
        var w :| w !in fnOrders.Keys && (w, f) in Edges(childrenFns);
        assert w in childrenFns.Keys - fnOrders.Keys;
      } else {
        assert u in childrenFns.Keys - fnOrders.Keys;
      }
    }

    lemma DeferredAreFunctions(main: nat, deferred: seq<nat>)
      requires OrderOk(main) && DeferredOk(fnOrders.Keys, fnOrders.Keys, deferred)
      ensures forall f :: f in deferred ==> f in childrenFns
    {
      forall f | f in deferred ensures f in childrenFns {
        if f !in fnOrders {
          var u :| u in fnOrders.Keys && (u, f) in Edges(childrenFns);
        }
      }
    }

    /** Once all deferred functions are ordered, only they are still to be traversed. */
    lemma StillDeferred(done: set<nat>, deferred: seq<nat>, remaining: seq<nat>)
      requires DeferredOk(done, done, deferred) && QueueOk(done, remaining)
      requires forall f :: f in deferred ==> f in fnOrders
      ensures DeferredOk(fnOrders.Keys, done, remaining)
    {}

    /** If nothing is left to traverse, everything reachable is ordered. */
    lemma EverythingOrdered(main: nat, deferred: seq<nat>)
      requires OrderOk(main) && DeferredOk(fnOrders.Keys, fnOrders.Keys, deferred)
      requires forall f :: f in deferred ==> f in fnOrders
      ensures fnOrders.Keys == childrenFns.Keys
    {
      forall u, v | u in fnOrders.Keys && (u, v) in Edges(childrenFns) ensures v in fnOrders.Keys {
        if v !in fnOrders { assert Met(fnOrders.Keys, v); }
      }
      forall f | f in childrenFns ensures f in fnOrders {
        assert Reachable(childrenFns, main, f);
        var p :| Path(Edges(childrenFns), p) && p[0] == main && p[|p| - 1] == f;
        ClosedHoldsAlong(Edges(childrenFns), fnOrders.Keys, p, |p| - 1);
      }
    }

    /** Order what can be ordered, then the functions at which recursion stopped the order. */
    method OneRound(main: nat, queue: seq<nat>, left: seq<nat>, ghost before: set<nat>, ghost n: nat)
      returns (remaining: seq<nat>, ghost done: set<nat>)
      requires OrderOk(main) && QueueOk(before, queue) && DeferredOk(fnOrders.Keys, before, left) && queue != []
      requires RoundsLeft(childrenFns, main, recursiveChainEntranceFns)
      requires Traced(main, n, 0) && InTurn(n, queue)
      modifies this`fnOrders, this`depthOrderedFns, this`recursiveChainEntranceFns, this`visitOf
      ensures Traced(main, |done|, 0) && InTurn(|done|, remaining)
      ensures OrderOk(main) && QueueOk(done, remaining) && DeferredOk(fnOrders.Keys, done, remaining)
      ensures RoundsLeft(childrenFns, main, recursiveChainEntranceFns)
      ensures remaining == [] ==> fnOrders.Keys == childrenFns.Keys
      ensures old(fnOrders.Keys) <= done && done <= childrenFns.Keys
    {
      var deferred := TraverseQueue(main, queue, left, before, n);
      done := fnOrders.Keys;
      AsManyIndices();
      DeferredIsBorder(main, deferred);
      NextRound(childrenFns, main, recursiveChainEntranceFns);
      DeferredAreFunctions(main, deferred);
      remaining := MarkRound(main, deferred);
      StillDeferred(done, deferred, remaining);
      if remaining == [] {
        assert fnOrders.Keys == done;
        EverythingOrdered(main, deferred);
      }
    }

    lemma AsManyIndices()
      requires Indexed()
      ensures |fnOrders.Keys| == |depthOrderedFns|
    {
      forall i, j | 0 <= i < j < |depthOrderedFns| ensures depthOrderedFns[i] != depthOrderedFns[j] {
        assert fnOrders[depthOrderedFns[i]] == i;
      }
      SizeOfDistinct(depthOrderedFns, fnOrders.Keys);
    }

    /** Entrances get their indices behind all functions that have been traversed. */
    method MarkRound(main: nat, deferred: seq<nat>) returns (remaining: seq<nat>)
      requires OrderOk(main) && forall f :: f in deferred ==> f in childrenFns
      requires Traced(main, |depthOrderedFns|, 0)
      modifies this`fnOrders, this`depthOrderedFns, this`recursiveChainEntranceFns
      ensures OrderOk(main) && QueueOk(old(fnOrders.Keys), remaining)
      ensures fnOrders.Keys == old(fnOrders.Keys) + NotYet(deferred, {})
      ensures recursiveChainEntranceFns == old(recursiveChainEntranceFns) + NotYet(deferred, old(fnOrders.Keys))
      ensures Traced(main, old(|depthOrderedFns|), 0) && InTurn(old(|depthOrderedFns|), remaining)
    {
      remaining := MarkEntrances(main, deferred);
      forall f | f in old(fnOrders) ensures fnOrders[f] == old(fnOrders)[f] {
        assert depthOrderedFns[old(fnOrders)[f]] == f;
      }
      EntrancesAdded(childrenFns, main, old(fnOrders), old(recursiveChainEntranceFns), visitOf,
                     fnOrders, recursiveChainEntranceFns, old(|depthOrderedFns|), 0);
    }

    lemma StartsWithMain(main: nat)
      requires GraphOk(main) && recursiveChainEntranceFns == {} && visitOf == map[]
      requires fnOrders == map[main := 0] && depthOrderedFns == [main]
      ensures OrderOk(main) && QueueOk({}, [main]) && DeferredOk(fnOrders.Keys, {}, [])
      ensures Traced(main, 0, 0) && InTurn(0, [main])
      ensures RoundsLeft(childrenFns, main, recursiveChainEntranceFns)
    {
      assert {main} + {} == {main};
    }

    /**
     The depth order of the reachable functions.  The entrances are a function of the graph
     alone, however its children are ordered.
     */
    method CollectInDepthOrderFns(main: nat)
      requires GraphOk(main)
      modifies this`fnOrders, this`depthOrderedFns, this`recursiveChainEntranceFns, this`visitOf
      ensures fnOrders.Keys == childrenFns.Keys && Indexed() && fnOrders[main] == 0
      ensures BreadthFirst(childrenFns, main, fnOrders, recursiveChainEntranceFns, visitOf)
      ensures CallersFirst(main)
      ensures recursiveChainEntranceFns == Rounds(childrenFns, {main})
    {
      recursiveChainEntranceFns := {};
      fnOrders := map[main := 0];
      depthOrderedFns := [main];
      var funcToTraverse := [main];
      var deferred: seq<nat> := [];
      ghost var done: set<nat> := {};
      visitOf := map[];
      StartsWithMain(main);
      while funcToTraverse != []
        invariant OrderOk(main) && QueueOk(done, funcToTraverse) && DeferredOk(fnOrders.Keys, done, deferred)
        invariant funcToTraverse == [] ==> fnOrders.Keys == childrenFns.Keys
        invariant Traced(main, |done|, 0) && InTurn(|done|, funcToTraverse)
        invariant RoundsLeft(childrenFns, main, recursiveChainEntranceFns)
        decreases childrenFns.Keys - done
      {
        assert funcToTraverse[0] in fnOrders && funcToTraverse[0] !in done;
        var remaining;
        remaining, done := OneRound(main, funcToTraverse, deferred, done, |done|);
        funcToTraverse, deferred := remaining, remaining;
      }
      assert Border(childrenFns, {main} + recursiveChainEntranceFns) == {};
    }
  }
}
