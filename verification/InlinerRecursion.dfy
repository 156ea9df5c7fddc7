/**
 What the depth order's entrances say about recursion: there are none exactly when no
 chain of recursive calls avoids main, every recursive chain gives one, and a function
 that is merely called from a recursive chain can be one too.
 */
module InlinerRecursion {
  import opened Digraph
  import opened InlinerGraph
  import opened InlinerOrder

  ghost predicate AllReachable(c: Calls, main: nat) {
    main in c && Closed(c) && forall f {:trigger Reachable(c, main, f)} :: f in c ==> Reachable(c, main, f)
  }

  /** Every entrance is on a recursive chain that avoids main, or below one. */
  lemma {:induction false} EntrancesAreBelowCycles(c: Calls, x: set<nat>, f: nat)
    requires f in Rounds(c, x)
    ensures f in c && f !in x && BelowCycle(c, x, f)
    decreases c.Keys - x
  {
    var b := Border(c, x);
    if f !in b {
      var g :| g in b;
      assert g in c.Keys - x;
      EntrancesAreBelowCycles(c, x + b, f);
      FewerCycles(c, x, x + b, f);
    }
  }

  /** Going from main to something below a cycle, some call enters what is below cycles. */
  lemma {:induction false} CrossesBorder(c: Calls, x: set<nat>, p: seq<nat>)
    requires Path(Edges(c), p) && Closed(c) && !BelowCycle(c, x, p[0]) && BelowCycle(c, x, p[|p| - 1])
    ensures Border(c, x) != {}
    decreases |p|
  {
    var n := |p| - 1;
    assert (p[n - 1], p[n - 1 + 1]) in Edges(c);
    if BelowCycle(c, x, p[n - 1]) {
      SubPath(Edges(c), p, 0, n);
      CrossesBorder(c, x, p[..n]);
    } else {
      var q: seq<nat> :| ChainTo(c, x, q, p[n]);
      assert p[n] in Border(c, x);
    }
  }

  /** No entrance is recorded exactly when no function is recursive without going through main. */
  lemma NoEntrancesIffNoCycles(c: Calls, main: nat)
    requires AllReachable(c, main)
    ensures Rounds(c, {main}) == {} <==> forall f :: f in c ==> !BelowCycle(c, {main}, f)
  {
    if f :| f in c && BelowCycle(c, {main}, f) {
      assert Reachable(c, main, f);
      var p :| Path(Edges(c), p) && p[0] == main && p[|p| - 1] == f;
      CrossesBorder(c, {main}, p);
    } else {
      if g :| g in Rounds(c, {main}) { EntrancesAreBelowCycles(c, {main}, g); }
    }
  }

  /** Every caller comes before everything it calls. */
  ghost predicate Topological(c: Calls, orders: map<nat, nat>) {
    forall u, v :: (u, v) in Edges(c) ==> u in orders && v in orders && orders[u] < orders[v]
  }

  lemma {:induction false} OrdersRise(c: Calls, orders: map<nat, nat>, p: seq<nat>, i: nat, j: nat)
    requires Topological(c, orders) && Path(Edges(c), p) && i < j < |p|
    ensures p[i] in orders && p[j] in orders && orders[p[i]] < orders[p[j]]
    decreases j
  {
    assert (p[j - 1], p[j - 1 + 1]) in Edges(c);
    if i < j - 1 { OrdersRise(c, orders, p, i, j - 1); }
  }

  /** Without recursion nothing calls main. */
  lemma NobodyCallsMain(c: Calls, main: nat, u: nat)
    requires AllReachable(c, main) && (u, main) in Edges(c)
    ensures !Acyclic(Edges(c))
  {
    assert Reachable(c, main, u);
    var p :| Path(Edges(c), p) && p[0] == main && p[|p| - 1] == u;
    Extend(Edges(c), p, main);
    var q := p + [main];
    PathReaches(Edges(c), q, 0, |q| - 1);
  }

  /** The collected order is topological exactly when the reachable program has no recursion at all. */
  lemma TopologicalIffAcyclic(c: Calls, main: nat, orders: map<nat, nat>, entrances: set<nat>)
    requires AllReachable(c, main) && orders.Keys == c.Keys && entrances == Rounds(c, {main})
    requires forall u, f :: (u, f) in Edges(c) && f in orders && f != main && f !in entrances ==>
               u in orders && orders[u] < orders[f]
    ensures Topological(c, orders) <==> Acyclic(Edges(c))
  {
    if Topological(c, orders) {
      forall f ensures !Reach(Edges(c), f, f) {
        if Reach(Edges(c), f, f) {
          var p: seq<nat> :| Path(Edges(c), p) && |p| >= 2 && p[0] == f && p[|p| - 1] == f;
          OrdersRise(c, orders, p, 0, |p| - 1);
        }
      }
    }
    if Acyclic(Edges(c)) {
      forall f ensures !BelowCycle(c, {main}, f) { NothingBelow(c, {main}, f); }
      NoEntrancesIffNoCycles(c, main);
      forall u, v | (u, v) in Edges(c) ensures u in orders && v in orders && orders[u] < orders[v] {
        if v == main { NobodyCallsMain(c, main, u); }
      }
    }
  }

  lemma NothingBelow(c: Calls, x: set<nat>, f: nat)
    requires Acyclic(Edges(c))
    ensures !BelowCycle(c, x, f)
  {
    if BelowCycle(c, x, f) {
      var p: seq<nat> :| ChainTo(c, x, p, f);
      var i, j :| 0 <= i < j < |p| && p[i] == p[j];
      PathReaches(Edges(c), p, i, j);
    }
  }

  /** Every recursive chain that avoids main goes through an entrance. */
  lemma CyclesHaveEntrances(c: Calls, main: nat, orders: map<nat, nat>, entrances: set<nat>, p: seq<nat>)
    requires orders.Keys == c.Keys && Closed(c)
    requires forall u, f :: (u, f) in Edges(c) && f in orders && f != main && f !in entrances ==>
               u in orders && orders[u] < orders[f]
    requires Path(Edges(c), p) && |p| > 1 && p[0] == p[|p| - 1] && forall k: nat :: k < |p| ==> p[k] != main
    ensures exists k: nat :: k < |p| && p[k] in entrances
  {
    if forall k: nat :: k < |p| ==> p[k] !in entrances {
      RisesWithoutEntrances(c, main, orders, entrances, p, |p| - 1);
    }
  }

  lemma {:induction false} RisesWithoutEntrances(
    c: Calls, main: nat, orders: map<nat, nat>, entrances: set<nat>, p: seq<nat>, j: nat)
    requires orders.Keys == c.Keys && Closed(c) && Path(Edges(c), p) && 0 < j < |p|
    requires forall u, f :: (u, f) in Edges(c) && f in orders && f != main && f !in entrances ==>
               u in orders && orders[u] < orders[f]
    requires forall k: nat :: k < |p| ==> p[k] != main && p[k] !in entrances
    ensures p[0] in orders && p[j] in orders && orders[p[0]] < orders[p[j]]
    decreases j
  {
    assert (p[j - 1], p[j - 1 + 1]) in Edges(c);
    if j > 1 { RisesWithoutEntrances(c, main, orders, entrances, p, j - 1); }
  }

  // ---------------------------------------------------------------- entrances that are not recursive

  /** main calls 1 and 2; 1 and 3 call each other; 3 calls 2. */
  function CalledFromRecursion(): Calls {
    map[0 := [1, 2], 1 := [3], 2 := [], 3 := [1, 2]]
  }

  /**
   The source takes every function left over to be part of a recursive chain.  Function 2
   is left over here, is recorded as an entrance and precedes its caller 3, but calls nothing.
   */
  lemma EntranceWithoutRecursion()
    ensures 2 in Rounds(CalledFromRecursion(), {0}) && !Reach(Edges(CalledFromRecursion()), 2, 2)
  {
    var c := CalledFromRecursion();
    var p := [1, 3, 1, 3, 2];
    assert p[0] == p[2];
    assert (1, 3) in Edges(c) && (3, 1) in Edges(c) && (3, 2) in Edges(c);
    assert Path(Edges(c), p) && Repeats(p) && p[|p| - 1] == 2;
    assert ChainTo(c, {0}, p, 2);
    assert BelowCycle(c, {0}, 2);
    assert (0, 2) in Edges(c) && !BelowCycle(c, {0}, 0);
    assert 2 in Border(c, {0});
    if Reach(Edges(c), 2, 2) { var u := FirstStep(Edges(c), 2, 2); }
  }

  /** What main's chains must avoid after k rounds: main and the entrances recorded so far. */
  ghost function After(c: Calls, x: set<nat>, k: nat): (y: set<nat>)
    ensures x <= y
  {
    if k == 0 then x else After(c, x, k - 1) + Border(c, After(c, x, k - 1))
  }

  /** Some callers of f are on or below a chain that avoids x, and some are not. */
  ghost predicate Mixed(c: Calls, x: set<nat>, f: nat) {
    && (exists u :: (u, f) in Edges(c) && BelowCycle(c, x, u))
    && (exists u :: (u, f) in Edges(c) && !BelowCycle(c, x, u))
  }

  /** In round k, f is called both from what is below the remaining chains and from elsewhere. */
  ghost predicate MixedInRound(c: Calls, main: nat, f: nat, k: nat) {
    Mixed(c, After(c, {main}, k), f)
  }

  lemma {:induction false} FirstRoundFirst(c: Calls, x: set<nat>, y: set<nat>, k: nat)
    requires k > 0 && y == x + Border(c, x)
    ensures After(c, x, k) == After(c, y, k - 1)
  {
    if k > 1 { FirstRoundFirst(c, x, y, k - 1); }
  }

  lemma RoundsUnfold(c: Calls, x: set<nat>, y: set<nat>)
    requires y == x + Border(c, x)
    ensures Border(c, x) == {} ==> Rounds(c, x) == {}
    ensures Border(c, x) != {} ==> Rounds(c, x) == Border(c, x) + Rounds(c, y) && c.Keys - y < c.Keys - x
  {
    if f :| f in Border(c, x) { assert f in c.Keys - x; }
  }

  /** Every entrance is in the border of some round. */
  lemma {:induction false} EntranceHasRound(c: Calls, x: set<nat>, f: nat) returns (k: nat)
    requires f in Rounds(c, x)
    ensures f in Border(c, After(c, x, k))
    decreases c.Keys - x
  {
    var y := x + Border(c, x);
    RoundsUnfold(c, x, y);
    k := 0;
    if f !in Border(c, x) {
      var j := EntranceHasRound(c, y, f);
      k := j + 1;
      FirstRoundFirst(c, x, y, k);
    }
  }

  /** Every round's border consists of entrances. */
  lemma {:induction false} BordersAreEntrances(c: Calls, x: set<nat>, k: nat)
    ensures Border(c, After(c, x, k)) <= Rounds(c, x)
    decreases k
  {
    var y := x + Border(c, x);
    RoundsUnfold(c, x, y);
    if Border(c, x) == {} {
      NoRoundsLeft(c, x, k);
    } else if k > 0 {
      BordersAreEntrances(c, y, k - 1);
      FirstRoundFirst(c, x, y, k);
    }
  }

  lemma {:induction false} NoRoundsLeft(c: Calls, x: set<nat>, k: nat)
    requires Border(c, x) == {}
    ensures After(c, x, k) == x
  {
    if k > 0 { NoRoundsLeft(c, x, k - 1); }
  }

  lemma {:induction false} AfterAreEntrances(c: Calls, x: set<nat>, k: nat)
    ensures After(c, x, k) <= x + Rounds(c, x)
  {
    if k > 0 {
      AfterAreEntrances(c, x, k - 1);
      BordersAreEntrances(c, x, k - 1);
    }
  }

  /** A function with callers of both kinds is an entrance, in this round or an earlier one. */
  lemma MixedIsEntrance(c: Calls, main: nat, f: nat, k: nat)
    requires f in c && f != main && MixedInRound(c, main, f, k)
    ensures f in Rounds(c, {main})
  {
    var x := After(c, {main}, k);
    AfterAreEntrances(c, {main}, k);
    if f !in x {
      var u :| (u, f) in Edges(c) && BelowCycle(c, x, u);
      CalledFromBelow(c, x, u, f);
      BordersAreEntrances(c, {main}, k);
      assert f in Border(c, x);
    }
  }

  lemma CalledFromBelow(c: Calls, x: set<nat>, u: nat, f: nat)
    requires BelowCycle(c, x, u) && (u, f) in Edges(c) && f !in x
    ensures BelowCycle(c, x, f)
  {
    var p: seq<nat> :| ChainTo(c, x, p, u);
    Extend(Edges(c), p, f);
    var i, j :| 0 <= i < j < |p| && p[i] == p[j];
    var q := p + [f];
    assert q[i] == q[j];
    assert Repeats(q);
    assert ChainTo(c, x, q, f);
  }

  /** An entrance has callers of both kinds in its round. */
  lemma EntranceIsMixed(c: Calls, main: nat, f: nat) returns (k: nat)
    requires f in Rounds(c, {main})
    ensures f in c && f != main && MixedInRound(c, main, f, k)
  {
    k := EntranceHasRound(c, {main}, f);
    var u := BelowHasParentBelow(c, After(c, {main}, k), f);
  }

  /**
   When the source's belief holds: exactly if in no round a function that is not recursive
   is called both from what is below the remaining chains and from elsewhere.
   */
  lemma EntrancesAreRecursiveIff(c: Calls, main: nat)
    ensures (forall e :: e in Rounds(c, {main}) ==> Reach(Edges(c), e, e))
            <==> forall f, k: nat {:trigger MixedInRound(c, main, f, k)} ::
                   f in c && f != main && !Reach(Edges(c), f, f) ==> !MixedInRound(c, main, f, k)
  {
    if forall e :: e in Rounds(c, {main}) ==> Reach(Edges(c), e, e) {
      forall f, k: nat | f in c && f != main && !Reach(Edges(c), f, f) ensures !MixedInRound(c, main, f, k) {
        if MixedInRound(c, main, f, k) { MixedIsEntrance(c, main, f, k); }
      }
    }
    if e :| e in Rounds(c, {main}) && !Reach(Edges(c), e, e) {
      var k := EntranceIsMixed(c, main, e);
    }
  }

  /** The belief holds if every function that is not recursive has one caller. */
  lemma OneCallerIsEnough(c: Calls, main: nat)
    requires forall f, u, v {:trigger (u, f) in Edges(c), (v, f) in Edges(c)} ::
               f != main && !Reach(Edges(c), f, f) && (u, f) in Edges(c) && (v, f) in Edges(c) ==> u == v
    ensures forall e :: e in Rounds(c, {main}) ==> Reach(Edges(c), e, e)
  {
    EntrancesAreRecursiveIff(c, main);
  }
}
