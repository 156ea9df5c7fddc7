/**
 How often an iteration passes an exit.  The last phase of the frontier computation walks
 the blocks that have nothing to do with the segment in an order that is not fixed, and
 only looks whether an exit found before can reach the block.
 */
module HelixExitsOnce {
  import opened Digraph
  import opened HelixCfg
  import opened HelixRegions

  /** The segment is signalled at most once on every way through an iteration. */
  ghost predicate AtMostOneExit(g: Cfg, exits: set<nat>) {
    forall p: seq<nat>, i, j :: Path(Edges(g), p) && 0 <= i < j < |p| ==> !(p[i] in exits && p[j] in exits)
  }

  lemma ApartIsAtMostOnce(g: Cfg, exits: set<nat>)
    ensures Apart(g, exits) <==> AtMostOneExit(g, exits)
  {
    if Apart(g, exits) {
      forall p: seq<nat>, i, j | Path(Edges(g), p) && 0 <= i < j < |p| ensures !(p[i] in exits && p[j] in exits) {
        PathReaches(Edges(g), p, i, j);
      }
    }
    if !Apart(g, exits) {
      var a, b :| a in exits && b in exits && Reach(Edges(g), a, b);
      var p: seq<nat> :| Path(Edges(g), p) && |p| >= 2 && p[0] == a && p[|p| - 1] == b;
      assert 0 < |p| - 1 && p[0] in exits && p[|p| - 1] in exits;
    }
  }

  /** The places that the exits found so far do not cut off. */
  ghost function Open(g: Cfg, exits: set<nat>, blocks: set<nat>): (r: set<nat>)
    requires Valid(g) && blocks <= g.nodes
    ensures forall a :: a in r <==>
              (exists v :: v in blocks && a == Anchor(g, v)) && forall e :: e in exits && e != a ==>
                  !Reach(Edges(g), e, a)
  {
    set v | v in blocks && (forall e :: e in exits && e != Anchor(g, v) ==> !Reach(Edges(g), e, Anchor(g, v)))
      :: Anchor(g, v)
  }

  lemma {:induction false} CutsGrow(g: Cfg, exits: set<nat>, order: seq<nat>, k: nat)
    requires Valid(g) && k <= |order| && forall v :: v in order ==> v in g.nodes
    ensures CutAll(g, exits, order[..k]) <= CutAll(g, exits, order)
    decreases |order|
  {
    if k < |order| {
      var n := |order| - 1;
      CutsGrow(g, exits, order[..n], k);
      assert order[..n][..k] == order[..k];
    } else {
      assert order[..k] == order;
    }
  }

  /** Only open places become exits. */
  lemma {:induction false} CutsAreOpen(g: Cfg, exits: set<nat>, blocks: set<nat>, order: seq<nat>)
    requires Valid(g) && blocks <= g.nodes && forall v :: v in order ==> v in blocks
    ensures exits <= CutAll(g, exits, order) <= exits + Open(g, exits, blocks)
    decreases |order|
  {
    if order != [] {
      var n := |order| - 1;
      CutsAreOpen(g, exits, blocks, order[..n]);
      assert order[n] in blocks;
    }
  }

  ghost predicate ApartForEveryOrder(g: Cfg, exits: set<nat>, blocks: set<nat>)
    requires Valid(g) && blocks <= g.nodes
  {
    forall order :: Lists(order, blocks) ==> Apart(g, CutAll(g, exits, order))
  }

  /** No open place reaches an exit or an open place, itself included. */
  ghost predicate OpenAreApart(g: Cfg, exits: set<nat>, blocks: set<nat>)
    requires Valid(g) && blocks <= g.nodes
  {
    && Apart(g, exits)
    && forall a, b {:trigger Reach(Edges(g), a, b)} ::
         a in Open(g, exits, blocks) && b in exits + Open(g, exits, blocks) ==> !Reach(Edges(g), a, b)
  }

  /** The first block looked at becomes an exit if its place is open. */
  lemma FirstIsCut(g: Cfg, exits: set<nat>, order: seq<nat>)
    requires Valid(g) && order != [] && forall v :: v in order ==> v in g.nodes
    requires forall e :: e in exits && e != Anchor(g, order[0]) ==> !Reach(Edges(g), e, Anchor(g, order[0]))
    ensures exits + {Anchor(g, order[0])} <= CutAll(g, exits, order)
    ensures |order| >= 2 && (forall e :: e in exits + {Anchor(g, order[0])} && e != Anchor(g, order[1]) ==>
                               !Reach(Edges(g), e, Anchor(g, order[1]))) ==>
              Anchor(g, order[1]) in CutAll(g, exits, order)
  {
    CutsGrow(g, exits, order, 1);
    assert order[..1] == [order[0]] && [order[0]][..0] == [];
    assert CutAll(g, exits, [order[0]]) == CutOne(g, CutAll(g, exits, []), order[0]);
    if |order| >= 2 {
      CutsGrow(g, exits, order, 2);
      assert order[..2][..1] == order[..1];
      assert CutAll(g, exits, order[..2]) == CutOne(g, CutAll(g, exits, order[..1]), order[1]);
    }
  }

  /** If an open place reaches another one or itself, some order makes both exits. */
  lemma OpenPairIsCut(g: Cfg, exits: set<nat>, blocks: set<nat>, a: nat, b: nat)
    requires Valid(g) && blocks <= g.nodes && ApartForEveryOrder(g, exits, blocks)
    requires a in Open(g, exits, blocks) && b in Open(g, exits, blocks)
    ensures !Reach(Edges(g), a, b)
  {
    var va :| va in blocks && a == Anchor(g, va);
    var vb :| vb in blocks && b == Anchor(g, vb);
    var order := StartWith(blocks, vb, va);
    FirstIsCut(g, exits, order);
    var all := CutAll(g, exits, order);
    assert Apart(g, all) && b in all && !Reach(Edges(g), b, b);
    if a != b {
      if Reach(Edges(g), b, a) {
        if Reach(Edges(g), a, b) { ReachTransitive(Edges(g), b, a, b); }
      } else {
        assert a in all;
      }
    }
  }

  lemma OpenAndExitAreApart(g: Cfg, exits: set<nat>, blocks: set<nat>, a: nat, e: nat)
    requires Valid(g) && blocks <= g.nodes && ApartForEveryOrder(g, exits, blocks)
    requires a in Open(g, exits, blocks) && e in exits
    ensures !Reach(Edges(g), a, e)
  {
    var va :| va in blocks && a == Anchor(g, va);
    var order := StartWith(blocks, va, va);
    FirstIsCut(g, exits, order);
    assert Apart(g, CutAll(g, exits, order));
  }

  /** Every order is apart exactly when neither exits nor open places can execute after an open place. */
  lemma OpenAreApartIff(g: Cfg, exits: set<nat>, blocks: set<nat>)
    requires Valid(g) && blocks <= g.nodes
    ensures ApartForEveryOrder(g, exits, blocks) <==> OpenAreApart(g, exits, blocks)
  {
    if OpenAreApart(g, exits, blocks) {
      forall order | Lists(order, blocks) ensures Apart(g, CutAll(g, exits, order)) {
        CutsAreOpen(g, exits, blocks, order);
        OpenUnionIsApart(g, exits, blocks, CutAll(g, exits, order));
      }
    }
    if ApartForEveryOrder(g, exits, blocks) {
      var order := Enumerate(blocks);
      CutsAreOpen(g, exits, blocks, order);
      assert Apart(g, CutAll(g, exits, order));
      forall a, b | a in Open(g, exits, blocks) && b in exits + Open(g, exits, blocks) ensures !Reach(Edges(g), a, b) {
        if b in exits { OpenAndExitAreApart(g, exits, blocks, a, b); } else { OpenPairIsCut(g, exits, blocks, a, b); }
      }
    }
  }

  lemma OpenUnionIsApart(g: Cfg, exits: set<nat>, blocks: set<nat>, all: set<nat>)
    requires Valid(g) && blocks <= g.nodes && OpenAreApart(g, exits, blocks) && all <= exits + Open(g, exits, blocks)
    ensures Apart(g, all)
  {
    forall a, b | a in all && b in all ensures !Reach(Edges(g), a, b) {
      if a !in Open(g, exits, blocks) && b !in exits && a != b {
        assert b in Open(g, exits, blocks) && a in exits;
      }
    }
  }

  // ---------------------------------------------------------------- the condition on the segment itself

  /** The exits that the search ends with are apart. */
  lemma SearchExitsAreApart(g: Cfg, ss: set<nat>, found: set<nat>)
    requires Valid(g) && NoCriticalEdges(g) && ss !! g.phis && SearchResult(g, ss, found)
    ensures Apart(g, found)
  {
    forall a, b | a in found && b in found ensures !Reach(Edges(g), a, b) {
      if Reach(Edges(g), a, b) {
        var v :| v in g.nodes && b == Anchor(g, v) && EndsRegion(g, ss, v);
        if v !in ss {
          var w: nat :| Within(g, ss, w) && (w, v) in Edges(g);
          LeavingBranch(g, ss, found, w, v);
          if v in g.phis { ReachesAnchor(g, a, v); }
        }
      }
    }
  }

  /**
   An exit of the search ends the segment: no instruction of the segment follows, and one comes
   right before or is it.
   */
  ghost predicate EndsSegment(g: Cfg, ss: set<nat>, v: nat) {
    && (forall s :: s in ss ==> !Reach(Edges(g), v, s))
    && (v in ss || exists w: nat :: Within(g, ss, w) && (w, v) in Edges(g))
  }

  ghost function EndPlaces(g: Cfg, ss: set<nat>): (r: set<nat>)
    requires Valid(g)
    ensures forall e :: e in r <==> exists v :: v in g.nodes && EndsSegment(g, ss, v) && e == Anchor(g, v)
  {
    set v | v in g.nodes && EndsSegment(g, ss, v) :: Anchor(g, v)
  }

  /** Without critical edges the search ends with exactly the places where the segment ends. */
  lemma SearchIsExact(g: Cfg, ss: set<nat>, found: set<nat>)
    requires Valid(g) && NoCriticalEdges(g) && ss <= g.nodes - g.phis && SearchResult(g, ss, found)
    ensures found == EndPlaces(g, ss)
  {
    forall e | e in found ensures e in EndPlaces(g, ss) { var v := FoundIsEnd(g, ss, found, e); }
    forall e | e in EndPlaces(g, ss) ensures e in found {
      var v :| v in g.nodes && EndsSegment(g, ss, v) && e == Anchor(g, v);
      EndIsFound(g, ss, found, v);
    }
  }

  lemma FoundIsEnd(g: Cfg, ss: set<nat>, found: set<nat>, e: nat) returns (v: nat)
    requires Valid(g) && NoCriticalEdges(g) && ss <= g.nodes - g.phis && SearchResult(g, ss, found) && e in found
    ensures v in g.nodes && EndsSegment(g, ss, v) && e == Anchor(g, v)
  {
    v :| v in g.nodes && e == Anchor(g, v) && EndsRegion(g, ss, v);
    assert v in ss ==> v == e;
  }

  lemma EndIsFound(g: Cfg, ss: set<nat>, found: set<nat>, v: nat)
    requires Valid(g) && NoCriticalEdges(g) && ss <= g.nodes - g.phis && SearchResult(g, ss, found)
    requires v in g.nodes && EndsSegment(g, ss, v)
    ensures Anchor(g, v) in found
  {
    var visited :| Searched(g, ss, found, visited);
    if v in ss {
      NoExitBefore(g, ss, found, v);
      assert v in g.inner <==> Reach(Edges(g), v, v);
      assert ExitSettled(g, ss, found, v, visited, []);
    } else {
      var w: nat :| Within(g, ss, w) && (w, v) in Edges(g);
      WithinIsVisited(g, ss, found, visited, w);
      GoesOn(g, ss, found, visited, w, v);
      LeavingBranch(g, ss, found, w, v);
      assert ExitSettled(g, ss, found, v, visited, []);
    }
  }

  /** The search goes on past everything that can still reach the segment. */
  lemma GoesOn(g: Cfg, ss: set<nat>, found: set<nat>, visited: set<nat>, w: nat, u: nat)
    requires Valid(g) && ss <= g.nodes && Searched(g, ss, found, visited)
    requires w in visited && ReachesSegment(g, ss, w) && (w, u) in Edges(g)
    ensures u in visited
  {
    assert ExitSettled(g, ss, found, w, visited, []);
    assert w in g.inner <==> Reach(Edges(g), w, w);
  }

  lemma WithinIsVisited(g: Cfg, ss: set<nat>, found: set<nat>, visited: set<nat>, w: nat)
    requires Valid(g) && ss <= g.nodes && Searched(g, ss, found, visited) && Within(g, ss, w)
    ensures w in visited
  {
    if w !in ss {
      var s :| s in ss && Reach(Edges(g), s, w);
      var p: seq<nat> :| Path(Edges(g), p) && |p| >= 2 && p[0] == s && p[|p| - 1] == w;
      WayIsVisited(g, ss, found, visited, p, |p| - 1);
    }
  }

  lemma {:induction false} WayIsVisited(g: Cfg, ss: set<nat>, found: set<nat>, visited: set<nat>, p: seq<nat>, k: nat)
    requires Valid(g) && ss <= g.nodes && Searched(g, ss, found, visited)
    requires Path(Edges(g), p) && k < |p| && p[0] in visited && ReachesSegment(g, ss, p[|p| - 1])
    ensures p[k] in visited
  {
    if k > 0 {
      WayIsVisited(g, ss, found, visited, p, k - 1);
      var r :| r in ss && Reach(Edges(g), p[|p| - 1], r);
      PathReaches(Edges(g), p, k - 1, |p| - 1);
      ReachTransitive(Edges(g), p[k - 1], p[|p| - 1], r);
      assert (p[k - 1], p[k - 1 + 1]) in Edges(g);
      GoesOn(g, ss, found, visited, p[k - 1], p[k]);
    }
  }

  lemma SearchExitIsFromSegment(g: Cfg, ss: set<nat>, e: nat)
    requires Valid(g) && ss !! g.phis && SearchExit(g, ss, e)
    ensures FromSegment(g, ss, e)
  {
    var v :| v in g.nodes && e == Anchor(g, v) && EndsRegion(g, ss, v);
    ComesFromSegment(g, ss, v);
    AnchorReached(g, v);
    if v != e {
      var s :| s in ss && Reach(Edges(g), s, v);
      ReachTransitive(Edges(g), s, v, e);
    }
  }

  lemma UntouchedAnchor(g: Cfg, ss: set<nat>, v: nat)
    requires Valid(g) && ss !! g.phis && v in Untouched(g, ss)
    ensures Anchor(g, v) !in ss
    ensures forall s :: s in ss ==> !Reach(Edges(g), s, Anchor(g, v)) && !Reach(Edges(g), Anchor(g, v), s)
  {
    AnchorReached(g, v);
    AnchorIsFirst(g, ss, v);
    forall s | s in ss ensures !Reach(Edges(g), Anchor(g, v), s) {
      if Anchor(g, v) != v && Reach(Edges(g), Anchor(g, v), s) { ReachTransitive(Edges(g), v, Anchor(g, v), s); }
    }
  }

  /** No exit of the search can execute before an untouched block. */
  lemma NotBeforeUntouched(g: Cfg, ss: set<nat>, e: nat, v: nat)
    requires Valid(g) && ss !! g.phis && SearchExit(g, ss, e) && v in Untouched(g, ss)
    ensures !Reach(Edges(g), e, Anchor(g, v))
  {
    UntouchedAnchor(g, ss, v);
    SearchExitIsFromSegment(g, ss, e);
    if Reach(Edges(g), e, Anchor(g, v)) && e !in ss {
      var s :| s in ss && Reach(Edges(g), s, e);
      ReachTransitive(Edges(g), s, e, Anchor(g, v));
    }
  }

  /** No exit of the search can execute after an untouched block. */
  lemma NotAfterUntouched(g: Cfg, ss: set<nat>, e: nat, v: nat)
    requires Valid(g) && NoCriticalEdges(g) && ss !! g.phis && SearchExit(g, ss, e) && v in Untouched(g, ss)
    ensures !Reach(Edges(g), Anchor(g, v), e)
  {
    UntouchedAnchor(g, ss, v);
    var a := Anchor(g, v);
    var u :| u in g.nodes && e == Anchor(g, u) && EndsRegion(g, ss, u);
    if Reach(Edges(g), a, e) && u !in ss {
      if u in g.phis { ReachesAnchor(g, a, u); }
      var w: nat :| Within(g, ss, w) && (w, u) in Edges(g);
      LeavingBranch(g, ss, {}, w, u);
      ThroughOnlyPredecessor(g, a, w, u);
      var s :| s in ss && Reach(Edges(g), w, s);
      if a != w { ReachTransitive(Edges(g), a, w, s); }
    }
  }

  /** The search leaves the place of every untouched block open. */
  lemma UntouchedIsOpen(g: Cfg, ss: set<nat>, found: set<nat>)
    requires Valid(g) && NoCriticalEdges(g) && ss !! g.phis && SearchResult(g, ss, found)
    ensures forall a ::
              a in Open(g, found, Untouched(g, ss)) <==> exists v :: v in Untouched(g, ss) && a == Anchor(g, v)
    ensures forall a, e :: a in Open(g, found, Untouched(g, ss)) && e in found ==> !Reach(Edges(g), a, e)
  {
    forall e, v | e in found && v in Untouched(g, ss)
      ensures !Reach(Edges(g), e, Anchor(g, v)) && !Reach(Edges(g), Anchor(g, v), e)
    {
      NotBeforeUntouched(g, ss, e, v);
      NotAfterUntouched(g, ss, e, v);
    }
  }

  /**
   Whatever the order in which the untouched blocks are walked, no iteration passes two
   exits, exactly when no untouched block can execute after another one or again.
   */
  lemma EveryOrderIsApartIff(g: Cfg, ss: set<nat>, found: set<nat>)
    requires Valid(g) && NoCriticalEdges(g) && ss !! g.phis && SearchResult(g, ss, found)
    ensures ApartForEveryOrder(g, found, Untouched(g, ss)) <==> UntouchedApart(g, ss)
  {
    SearchExitsAreApart(g, ss, found);
    UntouchedIsOpen(g, ss, found);
    OpenAreApartIff(g, found, Untouched(g, ss));
    if UntouchedApart(g, ss) {
      assert OpenAreApart(g, found, Untouched(g, ss));
    }
    if OpenAreApart(g, found, Untouched(g, ss)) {
      forall u, v | u in Untouched(g, ss) && v in Untouched(g, ss)
        ensures !Reach(Edges(g), Anchor(g, u), Anchor(g, v))
      {
        assert Anchor(g, u) in Open(g, found, Untouched(g, ss)) && Anchor(g, v) in Open(g, found, Untouched(g, ss));
      }
    }
  }

  /** What the frontier computation can end with: the search's exits, one walk over the other blocks, the returns. */
  ghost predicate IsOutcome(
    g: Cfg, ss: set<nat>, found: set<nat>, order: seq<nat>, exits: set<nat>, returns': set<nat>)
    requires Valid(g)
  {
    SearchResult(g, ss, found) && Lists(order, Untouched(g, ss)) && exits == CutAll(g, found, order) + returns'
  }

  // ---------------------------------------------------------------- an order that signals repeatedly

  /**
   The header 0 branches to the segment's instruction 1 and to 2, which leads into a
   sub-loop (3 and 6) and out of it (4); 5 branches back to the header.
   */
  function SubLoopBeside(): Cfg {
    Cfg({0, 1, 2, 3, 4, 5, 6},
        map[0 := {1, 2}, 1 := {5}, 2 := {3}, 3 := {4, 6}, 4 := {5}, 5 := {}, 6 := {3}],
        0, {5}, {0, 3}, {0, 3, 5}, {3, 6}, {}, map[],
        map[0 := 0, 1 := 0, 2 := 0, 3 := 0, 4 := 0, 5 := 0, 6 := 0],
        {0, 1, 2, 3, 4, 5, 6},
        WhatDominates())
  }

  function WhatDominates(): map<nat, set<nat>> {
    map[0 := {}, 1 := {0}, 2 := {0}, 3 := {0, 2}, 4 := {0, 2, 3}, 5 := {0}, 6 := {0, 2, 3}]
  }

  function WhatFollows(): map<nat, set<nat>> {
    map[0 := {1, 2, 3, 4, 5, 6}, 1 := {5}, 2 := {3, 4, 5, 6}, 3 := {3, 4, 5, 6}, 4 := {5}, 5 := {}, 6 := {3, 4, 5, 6}]
  }

  lemma ExampleReach(a: nat, b: nat)
    ensures Reach(Edges(SubLoopBeside()), a, b) <==> a in WhatFollows() && b in WhatFollows()[a]
  {
    var e := Edges(SubLoopBeside());
    if Reach(e, a, b) { ClosedHoldsReach(e, WhatFollows(), a, b); }
    if a in WhatFollows() && b in WhatFollows()[a] { ExampleWays(a, b); }
  }

  lemma ExampleWays(a: nat, b: nat)
    requires a in WhatFollows() && b in WhatFollows()[a]
    ensures Reach(Edges(SubLoopBeside()), a, b)
  {
    var e := Edges(SubLoopBeside());
    EdgeReaches(e, 0, 1); EdgeReaches(e, 0, 2); EdgeReaches(e, 1, 5); EdgeReaches(e, 2, 3);
    EdgeReaches(e, 3, 4); EdgeReaches(e, 3, 6); EdgeReaches(e, 4, 5); EdgeReaches(e, 6, 3);
    ReachTransitive(e, 3, 6, 3);
    ReachTransitive(e, 3, 4, 5);
    forall x | x in {3, 4, 5, 6} ensures Reach(e, 3, x) && Reach(e, 6, x) && Reach(e, 2, x) && Reach(e, 0, x) {
      ReachTransitive(e, 6, 3, x);
      ReachTransitive(e, 2, 3, x);
      ReachTransitive(e, 0, 2, x);
    }
  }

  /** The example by its parts. */
  ghost predicate LooksLikeExample(g: Cfg) {
    && g.nodes == {0, 1, 2, 3, 4, 5, 6} && g.header == 0 && g.back == {5} && g.phis == {}
    && Edges(g) == {(0, 1), (0, 2), (1, 5), (2, 3), (3, 4), (3, 6), (4, 5), (6, 3)}
    && g.branching == {0, 3} && g.joins == {0, 3, 5} && g.inner == {3, 6} && g.blockFirst == g.nodes
    && g.succ.Keys == g.nodes && g.phiRank.Keys == g.nodes && g.doms.Keys == g.nodes && g.doms == WhatDominates()
  }

  lemma ExampleParts()
    ensures LooksLikeExample(SubLoopBeside()) && PhisOk(SubLoopBeside())
  {}

  lemma ExampleDoms(g: Cfg)
    requires LooksLikeExample(g)
    ensures DomsOk(g)
  {
    forall v, e | v in g.nodes ensures e in g.doms[v] <==> Dominates(g, e, v) {
      if e in g.doms[v] { ExampleDominator(g, v, e); } else { ExampleWayAround(g, v, e); }
    }
  }

  lemma ExampleDominator(g: Cfg, v: nat, e: nat)
    requires LooksLikeExample(g) && v in g.nodes && e in g.doms[v]
    ensures Dominates(g, e, v)
  {
    forall a, b | (a, b) in Edges(g)
      ensures a in WhatDominates() && b in WhatDominates() && WhatDominates()[b] <= WhatDominates()[a] + {a}
    {}
    forall p | FromHeader(g, p) && p[|p| - 1] == v ensures e in p {
      TableDominates(g, WhatDominates(), p, |p| - 1);
    }
  }

  /** A way from the header to v that avoids e. */
  lemma ExampleWayAround(g: Cfg, v: nat, e: nat)
    requires LooksLikeExample(g) && v in g.nodes && e !in g.doms[v]
    ensures !Dominates(g, e, v)
  {
    var ways := if e == 1 then [[0], [0, 1], [0, 2], [0, 2, 3], [0, 2, 3, 4], [0, 2, 3, 4, 5], [0, 2, 3, 6]]
                else [[0], [0, 1], [0, 2], [0, 2, 3], [0, 2, 3, 4], [0, 1, 5], [0, 2, 3, 6]];
    var p: seq<nat> := ways[v];
    if e != v {
      assert Path(Edges(g), p) && p[0] == 0 && p[|p| - 1] == v;
      assert FromHeader(g, p);
      assert e !in p;
    }
  }

  lemma ExampleLoops(g: Cfg)
    requires LooksLikeExample(g) && g == SubLoopBeside()
    ensures LoopsOk(g)
  {
    forall n: nat | n in g.nodes && n != g.header ensures Reach(Edges(g), g.header, n) { ExampleReach(0, n); }
    forall n: nat | n in g.nodes ensures n in g.inner <==> Reach(Edges(g), n, n) { ExampleReach(n, n); }
  }

  lemma ExampleBranches(g: Cfg)
    requires LooksLikeExample(g)
    ensures Shaped(g) && BranchesOk(g) && NoCriticalEdges(g)
  {
    forall a: nat, b: nat | (a, b) in Edges(g)
      ensures b in g.nodes && b != 0 && a != 5
      ensures a in {0, 3} || b == if a == 2 || a == 6 then 3 else 5
      ensures b in {3, 5} || a == if b == 1 || b == 2 then 0 else 3
      ensures a in {0, 3} ==> b !in {3, 5}
    {
      EdgeOfExample(g, a, b);
    }
  }

  lemma EdgeOfExample(g: Cfg, a: nat, b: nat)
    requires LooksLikeExample(g) && (a, b) in Edges(g)
    ensures b in g.nodes && b != 0 && a != 5
    ensures a in {0, 3} || b == if a == 2 || a == 6 then 3 else 5
    ensures b in {3, 5} || a == if b == 1 || b == 2 then 0 else 3
    ensures a in {0, 3} ==> b !in {3, 5}
  {}

  lemma ExampleIsValid(g: Cfg)
    requires g == SubLoopBeside()
    ensures Valid(g) && NoCriticalEdges(g) && LooksLikeExample(g)
  {
    ExampleParts();
    ExampleDoms(g);
    ExampleLoops(g);
    ExampleBranches(g);
  }

  lemma ExampleUntouched(g: Cfg)
    requires LooksLikeExample(g) && g == SubLoopBeside()
    ensures Untouched(g, {1}) == {2, 3, 4, 6}
  {
    forall v: nat ensures v in Untouched(g, {1}) <==> v in {2, 3, 4, 6} { ExampleBlock(g, v); }
  }

  lemma ExampleBlock(g: Cfg, v: nat)
    requires LooksLikeExample(g) && g == SubLoopBeside()
    ensures v in Untouched(g, {1}) <==> v in {2, 3, 4, 6}
  {
    ExampleReach(1, v);
    ExampleReach(v, 1);
    UntouchedByOne(g, 1, v);
  }

  lemma UntouchedByOne(g: Cfg, s: nat, v: nat)
    ensures v in Untouched(g, {s})
            <==> v in g.nodes && v in g.blockFirst && v != s && !Reach(Edges(g), s, v) && !Reach(Edges(g), v, s)
  {}

  lemma ExampleOrder()
    ensures Lists([6, 2, 3, 4], {2, 3, 4, 6})
  {}

  lemma ExampleCuts(g: Cfg)
    requires Valid(g) && LooksLikeExample(g)
    requires !Reach(Edges(g), 1, 6) && !Reach(Edges(g), 1, 2) && !Reach(Edges(g), 6, 2)
    ensures CutAll(g, {1}, [6, 2, 3, 4]) >= {2, 6}
  {
    assert Anchor(g, 6) == 6 && Anchor(g, 2) == 2;
    FirstIsCut(g, {1}, [6, 2, 3, 4]);
  }

  /** Nothing comes between the instruction 1 and itself, and it does not follow itself. */
  ghost predicate OneIsAlone(g: Cfg) {
    !Reach(Edges(g), 1, 1) && forall w: nat :: Reach(Edges(g), w, 1) ==> !Reach(Edges(g), 1, w)
  }

  lemma ExampleIsAlone(g: Cfg)
    requires g == SubLoopBeside()
    ensures OneIsAlone(g)
  {
    ExampleReach(1, 1);
    forall w: nat | Reach(Edges(g), w, 1) ensures !Reach(Edges(g), 1, w) {
      ExampleReach(w, 1);
      ExampleReach(1, w);
    }
  }

  /** The search from segment {1} ends with the exit 1. */
  lemma ExampleSearch(g: Cfg, found: set<nat>)
    requires Valid(g) && NoCriticalEdges(g) && LooksLikeExample(g) && OneIsAlone(g)
    ensures SearchResult(g, {1}, found) <==> found == {1}
  {
    assert AfterAll(g, {1}, 1) && Anchor(g, 1) == 1;
    if SearchResult(g, {1}, found) {
      ExampleFinds(g, found);
      forall e | e in found ensures e == 1 { ExampleFindsOnly(g, e); }
    }
    if found == {1} {
      assert EndsRegion(g, {1}, 1);
      assert SearchExit(g, {1}, 1);
      assert ExitSettled(g, {1}, {1}, 1, {1}, []);
      assert Searched(g, {1}, {1}, {1});
    }
  }

  lemma ExampleFinds(g: Cfg, found: set<nat>)
    requires Valid(g) && LooksLikeExample(g) && SearchResult(g, {1}, found) && AfterAll(g, {1}, 1)
    ensures 1 in found
  {
    var visited :| Searched(g, {1}, found, visited);
    assert ExitSettled(g, {1}, found, 1, visited, []);
    assert Anchor(g, 1) == 1;
  }

  lemma ExampleFindsOnly(g: Cfg, e: nat)
    requires Valid(g) && LooksLikeExample(g) && OneIsAlone(g) && SearchExit(g, {1}, e)
    ensures e == 1
  {
    var v :| v in g.nodes && e == Anchor(g, v) && EndsRegion(g, {1}, v);
  }

  lemma ExampleNotApart(g: Cfg)
    requires Valid(g) && g.phis == {} && Untouched(g, {1}) == {2, 3, 4, 6} && Reach(Edges(g), 6, 6)
    ensures !UntouchedApart(g, {1})
  {
    assert Anchor(g, 6) == 6;
  }

  /**
   Segment {1}: the search ends with the exit 1, whose iterations do not meet the sub-loop;
   one order of the walk then puts a signal before the sub-loop and another one inside it.
   */
  lemma SignalInSubLoop(g: Cfg)
    requires g == SubLoopBeside()
    ensures Valid(g) && NoCriticalEdges(g) && (forall found :: SearchResult(g, {1}, found) <==> found == {1})
    ensures IsOutcome(g, {1}, {1}, [6, 2, 3, 4], CutAll(g, {1}, [6, 2, 3, 4]), {})
    ensures CutAll(g, {1}, [6, 2, 3, 4]) >= {2, 6} && Reach(Edges(g), 2, 6) && Reach(Edges(g), 6, 6)
    ensures !UntouchedApart(g, {1})
  {
    ExampleIsValid(g);
    ExampleIsAlone(g);
    ExampleUntouched(g);
    ExampleReach(2, 6);
    ExampleReach(6, 6);
    ExampleReach(1, 6);
    ExampleReach(1, 2);
    ExampleReach(6, 2);
    ExampleOutcome(g);
  }

  lemma ExampleOutcome(g: Cfg)
    requires Valid(g) && NoCriticalEdges(g) && LooksLikeExample(g) && OneIsAlone(g)
    requires Untouched(g, {1}) == {2, 3, 4, 6} && Reach(Edges(g), 6, 6)
    requires !Reach(Edges(g), 1, 6) && !Reach(Edges(g), 1, 2) && !Reach(Edges(g), 6, 2)
    ensures forall found :: SearchResult(g, {1}, found) <==> found == {1}
    ensures IsOutcome(g, {1}, {1}, [6, 2, 3, 4], CutAll(g, {1}, [6, 2, 3, 4]), {})
    ensures CutAll(g, {1}, [6, 2, 3, 4]) >= {2, 6} && !UntouchedApart(g, {1})
  {
    forall found ensures SearchResult(g, {1}, found) <==> found == {1} { ExampleSearch(g, found); }
    ExampleOrder();
    OutcomeWithoutReturns(g, {1}, {1}, [6, 2, 3, 4]);
    ExampleCuts(g);
    ExampleNotApart(g);
  }

  lemma OutcomeWithoutReturns(g: Cfg, ss: set<nat>, found: set<nat>, order: seq<nat>)
    requires Valid(g) && SearchResult(g, ss, found) && Lists(order, Untouched(g, ss))
    ensures IsOutcome(g, ss, found, order, CutAll(g, found, order), {})
  {}
}
