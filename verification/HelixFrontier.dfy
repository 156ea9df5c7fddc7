/**
 The entry and exit frontier of a sequential segment: where HELIX puts the waits and the
 signals of the segment.  Every path to an instruction of the segment passes an entry, no
 instruction of the segment executes after an exit, and, if the loop has no critical
 edges, every complete iteration passes an exit.
 */
module HelixFrontier {
  import opened Digraph
  import opened HelixCfg
  import opened HelixRegions
  import opened HelixEntries
  import opened HelixExitsOnce

  class SequentialSegment {
    const g: Cfg
    const ss: set<nat>
    const out: map<nat, set<nat>>
    const before: map<nat, set<nat>>
    var entries: set<nat>
    var exits: set<nat>

    ghost predicate Ready()
    {
      Valid(g) && ss <= g.nodes - g.phis && IsReachability(g, out) && IsBeforeMap(g, before)
    }

    /** No instruction of the segment can execute before n in its iteration. */
    predicate IsBeforeEntryFrontier(n: nat)
      requires n in before
    {
      forall b :: b in before[n] ==> b == n || b !in ss
    }

    predicate IsAfterExitFrontier(n: nat)
      requires n in out
    {
      forall a :: a in out[n] ==> a == n || a !in ss
    }

    predicate IsDominatedByOtherEntry(n: nat)
      requires n in g.doms
      reads this`entries
    {
      exists e :: e in entries && e in g.doms[n]
    }

    predicate IsReachableFromOtherExit(n: nat)
      requires n in before
      reads this`exits
    {
      exists e :: e in exits && e in before[n]
    }

    /** v has become an entry or was passed over, and then its predecessors were or will be looked at. */
    ghost predicate EntrySettled(v: nat, visited: set<nat>, queue: seq<nat>)
      requires Ready() && v in g.nodes
      reads this`entries
    {
      || Anchor(g, v) in entries
      || (v != g.header && forall u :: (u, v) in Edges(g) ==> u in visited || u in queue)
    }

    /** All instructions of the segment, in some order. */
    method InitialQueue() returns (queue: seq<nat>)
      ensures forall n :: n in queue <==> n in ss
    {
      queue := [];
      var todo := ss;
      while todo != {}
        invariant todo <= ss && forall n :: n in queue <==> n in ss - todo
      {
        var n :| n in todo;
        todo := todo - {n};
        queue := queue + [n];
      }
    }

    /** No test of the search fails at v. */
    lemma TestsAre(v: nat)
      requires Ready() && v in g.nodes
      ensures v !in g.inner && IsBeforeEntryFrontier(v) <==> Candidate(g, ss, v)
      ensures IsDominatedByOtherEntry(v) <==> Dominated(g, entries, v)
    {}

    /** Make v an entry, or say where to go on. */
    method EntryOrPredecessors(v: nat) returns (more: seq<nat>)
      requires Ready() && v in g.nodes && EntriesAreFirst(g, ss, entries)
      requires EntriesProper(g, ss, entries) && Met(g, ss, entries, v)
      modifies this`entries
      ensures EntriesAreFirst(g, ss, entries) && EntriesProper(g, ss, entries)
      ensures old(entries) <= entries <= old(entries) + (g.nodes - g.phis)
      ensures Anchor(g, v) in entries || (v != g.header && forall u :: (u, v) in Edges(g) ==> u in more)
      ensures forall u :: u in more ==> u in g.nodes && Met(g, ss, entries, u)
      ensures entries == if v in Front(g, ss) then EnterOne(g, old(entries), v) else old(entries)
      ensures !Candidate(g, ss, v) ==> forall u :: (u, v) in Edges(g) ==> u in more
    {
      more := [];
      TestsAre(v);
      if v !in g.inner && IsBeforeEntryFrontier(v) && !IsDominatedByOtherEntry(v) {
        AnchorIsFirst(g, ss, v);
        Accepted(g, ss, entries, v);
        entries := entries + {Anchor(g, v)};
      } else {
        HeaderIsEntry(v);
        PassedOver(g, ss, entries, v);
        more := Predecessors(v);
        forall u | u in more ensures Met(g, ss, entries, u) { MetBefore(g, ss, entries, u, v); }
      }
    }

    /** What the backward search knows: `walk` are the instructions of the front it has visited. */
    ghost predicate Walking(visited: set<nat>, queue: seq<nat>, walk: seq<nat>)
      requires Ready()
      reads this`entries
    {
      && visited <= g.nodes && (forall n :: n in queue ==> n in g.nodes && Met(g, ss, entries, n))
      && EntriesProper(g, ss, entries)
      && Lists(walk, visited * Front(g, ss)) && entries == EnterAll(g, {}, walk)
      && forall u, v {:trigger (u, v) in Edges(g)} ::
           v in visited && !Candidate(g, ss, v) && (u, v) in Edges(g) ==> u in visited || u in queue
    }

    lemma WalkOn(visited: set<nat>, walk: seq<nat>, v: nat) returns (walk': seq<nat>)
      requires Ready() && v in g.nodes - visited && Lists(walk, visited * Front(g, ss))
      ensures Lists(walk', (visited + {v}) * Front(g, ss))
      ensures EnterAll(g, {}, walk')
              == if v in Front(g, ss) then EnterOne(g, EnterAll(g, {}, walk), v) else EnterAll(g, {}, walk)
    {
      var front := Front(g, ss);
      if v in front {
        walk' := walk + [v];
        OneMoreEntered(g, {}, walk, v);
        OneMoreListed(walk, visited * front, v, (visited + {v}) * front);
      } else {
        walk' := walk;
        assert (visited + {v}) * front == visited * front;
      }
    }

    lemma StillMet(before: set<nat>, after: set<nat>, queue: seq<nat>)
      requires before <= after && forall n :: n in queue ==> Met(g, ss, before, n)
      ensures forall n :: n in queue ==> Met(g, ss, after, n)
    {}

    lemma EntriesCoverSegment(visited: set<nat>)
      requires Ready() && ss <= visited <= g.nodes && forall v :: v in visited ==> EntrySettled(v, visited, [])
      ensures EntriesCover(g, ss, entries)
    {
      forall p | FromHeader(g, p) && p[|p| - 1] in ss ensures exists k: nat :: k < |p| && p[k] in entries {
        var k := EntryOnPath(p, |p| - 1, visited);
      }
    }

    ghost predicate AllSettled(visited: set<nat>, queue: seq<nat>)
      requires Ready() && visited <= g.nodes
      reads this`entries
    {
      && (forall n :: n in ss ==> n in visited || n in queue)
      && forall v :: v in visited ==> EntrySettled(v, visited, queue)
    }

    lemma StartsWalking(queue: seq<nat>)
      requires Ready() && entries == {} && forall n :: n in queue <==> n in ss
      ensures Walking({}, queue, []) && AllSettled({}, queue)
    {
      forall n | n in queue ensures Met(g, ss, entries, n) { SegmentIsNear(g, ss, n); }
    }

    /** What has been visited need not be looked at again. */
    lemma Again(visited: set<nat>, v: nat, queue: seq<nat>, walk: seq<nat>)
      requires Ready() && v in visited && Walking(visited, [v] + queue, walk) && AllSettled(visited, [v] + queue)
      ensures Walking(visited, queue, walk) && AllSettled(visited, queue)
    {
      assert forall n :: n in [v] + queue <==> n == v || n in queue;
    }

    /** One step of the search: v has not been visited before. */
    method VisitEntry(v: nat, ghost visited: set<nat>, ghost queue: seq<nat>, ghost walk: seq<nat>)
      returns (more: seq<nat>, ghost walk': seq<nat>)
      requires Ready() && v in g.nodes - visited && Met(g, ss, entries, v) && EntriesAreFirst(g, ss, entries)
      requires Walking(visited, [v] + queue, walk) && AllSettled(visited, [v] + queue)
      modifies this`entries
      ensures EntriesAreFirst(g, ss, entries)
      ensures old(entries) <= entries <= old(entries) + (g.nodes - g.phis)
      ensures Walking(visited + {v}, queue + more, walk') && AllSettled(visited + {v}, queue + more)
    {
      ghost var known := entries;
      assert forall n :: n in queue ==> n in [v] + queue;
      walk' := WalkOn(visited, walk, v);
      more := EntryOrPredecessors(v);
      StillMet(known, entries, queue);
      forall x, y | y in visited + {v} && !Candidate(g, ss, y) && (x, y) in Edges(g)
        ensures x in visited + {v} || x in queue + more
      {
        if y != v { assert x in visited || x in [v] + queue; }
      }
    }

    lemma WalkEnds(visited: set<nat>, walk: seq<nat>)
      requires Ready() && ss <= visited && Walking(visited, [], walk)
      ensures Lists(walk, Front(g, ss)) && entries == EnterAll(g, {}, walk)
    {
      forall v | v in Front(g, ss) ensures v in visited {
        var p: seq<nat> :| LeadsBack(g, ss, p) && p[0] == v;
        NearIsVisited(g, ss, visited, p);
      }
      assert visited * Front(g, ss) == Front(g, ss);
    }

    /** Search backwards from the segment for instructions no other instruction of it can precede. */
    method FindEntries()
      requires Ready() && entries == {}
      modifies this`entries
      ensures EntriesAreFirst(g, ss, entries) && entries <= g.nodes - g.phis
      ensures EntriesCover(g, ss, entries)
      ensures exists near :: Lists(near, Front(g, ss)) && entries == EnterAll(g, {}, near)
    {
      var queue := InitialQueue();
      var visited: set<nat> := {};
      ghost var walk: seq<nat> := [];
      StartsWalking(queue);
      while queue != []
        invariant entries <= g.nodes - g.phis && EntriesAreFirst(g, ss, entries)
        invariant Walking(visited, queue, walk) && AllSettled(visited, queue)
        decreases g.nodes - visited, |queue|
      {
        var v := queue[0];
        HeadAndTail(queue);
        queue := queue[1..];
        if v in visited {
          Again(visited, v, queue, walk);
          continue;
        }
        var more;
        more, walk := VisitEntry(v, visited, queue, walk);
        visited := visited + {v};
        queue := queue + more;
      }
      EntriesCoverSegment(visited);
      WalkEnds(visited, walk);
    }

    /** The header passes all three tests. */
    lemma HeaderIsEntry(v: nat)
      requires Ready() && v in g.nodes
      ensures v == g.header ==> v !in g.inner && IsBeforeEntryFrontier(v) && !IsDominatedByOtherEntry(v)
    {
      if v == g.header {
        forall b ensures !Reach(Edges(g), b, g.header) {
          if Reach(Edges(g), b, g.header) { var u := LastStep(Edges(g), b, g.header); }
        }
        forall e ensures e !in g.doms[v] { NothingDominatesHeader(g, e); }
      }
    }

    method Predecessors(v: nat) returns (more: seq<nat>)
      requires Ready() && v in g.nodes
      ensures forall u :: u in more <==> (u, v) in Edges(g)
    {
      more := [];
      var todo := g.nodes;
      while todo != {}
        invariant todo <= g.nodes
        invariant forall u :: u in more <==> u in g.nodes - todo && (u, v) in Edges(g)
      {
        var u :| u in todo;
        todo := todo - {u};
        if v in g.succ[u] {
          more := more + [u];
        }
      }
    }

    lemma {:induction false} EntryOnPath(p: seq<nat>, m: nat, visited: set<nat>) returns (k: nat)
      requires Ready() && FromHeader(g, p) && m < |p| && p[|p| - 1] in ss && visited <= g.nodes && p[m] in visited
      requires forall v :: v in visited ==> EntrySettled(v, visited, [])
      ensures k < |p| && p[k] in entries
      decreases m
    {
      if Anchor(g, p[m]) in entries {
        k := AnchorOnPath(g, p, m);
      } else {
        assert EntrySettled(p[m], visited, []);
        assert (p[m - 1], p[m - 1 + 1]) in Edges(g);
        k := EntryOnPath(p, m - 1, visited);
      }
    }

    /** What an accepted exit is: outside sub-loops, with nothing of the segment after it. */
    lemma AcceptedIsSafe(v: nat)
      requires Ready() && v in g.nodes && v !in g.inner && AfterAll(g, ss, v)
      ensures forall s :: s in ss ==> !Reach(Edges(g), Anchor(g, v), s)
    {
      AnchorReached(g, v);
      forall s | s in ss ensures !Reach(Edges(g), Anchor(g, v), s) {
        if Reach(Edges(g), Anchor(g, v), s) {
          if Anchor(g, v) != v { ReachTransitive(Edges(g), v, Anchor(g, v), s); }
        }
      }
    }

    /** In a loop without critical edges the search only meets, and only accepts, what it should. */
    ghost predicate Regular(queue: seq<nat>)
      requires Valid(g)
      reads this`exits
    {
      NoCriticalEdges(g) ==>
        (forall v :: v in queue ==> Comes(g, ss, v)) && (forall e :: e in exits ==> SearchExit(g, ss, e))
    }

    /** Make v an exit, or say where to go on. */
    method ExitOrSuccessors(v: nat) returns (more: seq<nat>)
      requires Ready() && v in g.nodes && ExitsAreSafe(g, ss, exits) && exits <= g.nodes - g.phis
      requires Regular([v])
      modifies this`exits
      ensures Regular(more)
      ensures ExitsAreSafe(g, ss, exits) && old(exits) <= exits <= g.nodes - g.phis
      ensures (v !in g.inner && AfterAll(g, ss, v) && Anchor(g, v) in exits)
              || (Rejected(g, ss, exits, v) && forall u :: (v, u) in Edges(g) ==> u in more)
      ensures forall u :: u in more ==> u in g.nodes
    {
      more := [];
      if v !in g.inner && IsAfterExitFrontier(v) && !IsReachableFromOtherExit(v) {
        AcceptedIsSafe(v);
        if NoCriticalEdges(g) { AcceptedIsRegular(v); }
        exits := exits + {Anchor(g, v)};
      } else {
        more := Successors(v);
        if NoCriticalEdges(g) { RejectedIsRegular(v, more); }
      }
    }

    lemma AcceptedIsRegular(v: nat)
      requires Ready() && v in g.nodes && NoCriticalEdges(g) && Regular([v]) && AfterAll(g, ss, v)
      ensures SearchExit(g, ss, Anchor(g, v))
    {
      assert v in [v];
      assert EndsRegion(g, ss, v);
    }

    lemma RejectedIsRegular(v: nat, more: seq<nat>)
      requires Ready() && v in g.nodes && NoCriticalEdges(g) && Regular([v]) && ExitsAreSafe(g, ss, exits)
      requires Rejected(g, ss, exits, v)
      requires forall u :: u in more ==> (v, u) in Edges(g) || (v in g.back && u == g.header)
      ensures Regular(more)
    {
      assert v in [v];
      RejectedReaches(g, ss, exits, v);
      WithinIsNotLast(g, ss, v);
    }

    /** Search forwards from the segment for instructions no other instruction of it can follow. */
    method FindExits()
      requires Ready() && ExitsAreSafe(g, ss, exits) && exits <= g.nodes - g.phis && Regular([])
      modifies this`exits
      ensures old(exits) <= exits && SearchResult(g, ss, exits)
    {
      var queue := InitialQueue();
      var visited: set<nat> := {};
      while queue != []
        invariant visited <= g.nodes && forall n :: n in queue ==> n in g.nodes
        invariant forall n :: n in ss ==> n in visited || n in queue
        invariant ExitsAreSafe(g, ss, exits) && old(exits) <= exits <= g.nodes - g.phis
        invariant Regular(queue)
        invariant forall v :: v in visited ==> ExitSettled(g, ss, exits, v, visited, queue)
        decreases g.nodes - visited, |queue|
      {
        var v := queue[0];
        assert v in queue;
        ghost var waiting := queue;
        queue := queue[1..];
        assert forall n :: n in waiting ==> n == v || n in queue;
        if v in visited {
          continue;
        }
        visited := visited + {v};
        var more := ExitOrSuccessors(v);
        queue := queue + more;
      }
      assert Searched(g, ss, exits, visited);
    }

    /** The instructions after v, those of the next iteration included. */
    method Successors(v: nat) returns (more: seq<nat>)
      requires Ready() && v in g.nodes
      ensures forall u :: u in more <==> (v, u) in Edges(g) || (v in g.back && u == g.header)
    {
      more := if v in g.back then [g.header] else [];
      var todo := g.succ[v];
      while todo != {}
        invariant todo <= g.succ[v]
        invariant forall u :: u in more <==> u in g.succ[v] - todo || (v in g.back && u == g.header)
      {
        var u :| u in todo;
        todo := todo - {u};
        more := more + [u];
      }
    }

    /** v is the first instruction of a block that the segment neither reaches nor is reached from. */
    ghost predicate Unreachable(v: nat)
      requires Ready()
    {
      v in g.nodes && v in g.blockFirst && v !in ss && IsBeforeEntryFrontier(v) && IsAfterExitFrontier(v)
    }

    /** v is an exit, or another exit can execute before it. */
    ghost predicate Cut(exits: set<nat>, v: nat)
      requires Ready() && v in g.nodes
    {
      Anchor(g, v) in exits || exists e :: e in exits && e != Anchor(g, v) && Reach(Edges(g), e, Anchor(g, v))
    }

    lemma UnreachableIsUntouched(v: nat)
      requires Ready()
      ensures Unreachable(v) <==> v in Untouched(g, ss)
    {}

    /** Blocks the segment cannot reach and that cannot reach it get an exit unless another exit comes before. */
    method ExtendFrontier()
      requires Ready() && ExitsAreSafe(g, ss, exits) && exits <= g.nodes - g.phis && EntriesCover(g, ss, entries)
      requires entries <= g.nodes - g.phis && EntriesAreFirst(g, ss, entries)
      modifies this`entries, this`exits
      ensures EntriesAreFirst(g, ss, entries)
      ensures forall v :: v in Untouched(g, ss) ==> Covered(g, entries, Anchor(g, v))
      ensures forall e :: e in exits ==> e in old(exits) || exists v :: v in Untouched(g, ss) && e == Anchor(g, v)
      ensures ExitsAreSafe(g, ss, exits) && old(exits) <= exits <= g.nodes - g.phis
      ensures EntriesCover(g, ss, entries) && old(entries) <= entries <= g.nodes - g.phis
      ensures forall v :: Unreachable(v) ==> Cut(exits, v)
      ensures exists order :: Lists(order, Untouched(g, ss)) && exits == CutAll(g, old(exits), order)
                              && entries == EnterAll(g, old(entries), order)
    {
      ghost var order: seq<nat>, u: set<nat>, first: set<nat> := [], Untouched(g, ss), exits;
      forall v { UnreachableIsUntouched(v); }
      var todo := UntouchedBlocks();
      while todo != {}
        invariant todo <= u && Lists(order, u - todo)
        invariant ExitsAreSafe(g, ss, exits) && first <= exits <= g.nodes - g.phis
        invariant EntriesCover(g, ss, entries) && old(entries) <= entries <= g.nodes - g.phis
                  && EntriesAreFirst(g, ss, entries)
        invariant forall v :: v in u - todo ==> Covered(g, entries, Anchor(g, v))
        invariant forall e :: e in exits ==> e in first || exists v :: v in u && e == Anchor(g, v)
        invariant forall v :: v in u - todo ==> Cut(exits, v)
        invariant exits == CutAll(g, first, order) && entries == EnterAll(g, old(entries), order)
      {
        var v :| v in todo;
        ghost var now, known := exits, entries;
        CutAt(v);
        MoreCuts(now, exits, u - todo);
        MoreCovered(g, known, entries);
        OneMoreCut(g, first, order, u, todo, v);
        OneMoreEntered(g, old(entries), order, v);
        todo := todo - {v};
        order := order + [v];
      }
      assert u - todo == u;
    }

    lemma MoreCuts(now: set<nat>, exits: set<nat>, u: set<nat>)
      requires Ready() && now <= exits && u <= g.nodes && forall v :: v in u ==> Cut(now, v)
      ensures forall v :: v in u ==> Cut(exits, v)
    {
      forall v | v in u ensures Cut(exits, v) { assert Cut(now, v); }
    }

    method UntouchedBlocks() returns (blocks: set<nat>)
      requires Ready()
      ensures blocks == Untouched(g, ss)
    {
      blocks := set v | v in g.nodes && v in g.blockFirst && v !in ss
                        && IsBeforeEntryFrontier(v) && IsAfterExitFrontier(v);
      forall v ensures v in blocks <==> v in Untouched(g, ss) { UnreachableIsUntouched(v); }
    }

    method CutAt(v: nat)
      requires Ready() && ExitsAreSafe(g, ss, exits) && exits <= g.nodes - g.phis && EntriesCover(g, ss, entries)
      requires entries <= g.nodes - g.phis && v in Untouched(g, ss) && EntriesAreFirst(g, ss, entries)
      modifies this`entries, this`exits
      ensures EntriesAreFirst(g, ss, entries) && Covered(g, entries, Anchor(g, v))
      ensures ExitsAreSafe(g, ss, exits) && old(exits) <= exits <= g.nodes - g.phis
      ensures EntriesCover(g, ss, entries) && old(entries) <= entries <= g.nodes - g.phis
      ensures exits == CutOne(g, old(exits), v) && Cut(exits, v)
      ensures entries == EnterOne(g, old(entries), v)
    {
      var a := Anchor(g, v);
      ghost var known := entries;
      AnchorIsFirst(g, ss, v);
      TestsAre(a);
      if !IsDominatedByOtherEntry(a) {
        entries := entries + {a};
        ItselfCovered(g, entries, a);
      } else {
        DominatedIsCovered(a);
      }
      MoreEntriesCover(g, ss, known, entries);
      UnreachableIsUntouched(v);
      if !IsReachableFromOtherExit(a) {
        UnreachableIsSafe(v);
        exits := exits + {a};
      }
    }

    lemma DominatedIsCovered(a: nat)
      requires Ready() && a in g.nodes && IsDominatedByOtherEntry(a)
      ensures Covered(g, entries, a)
    {
      var e :| e in entries && e in g.doms[a];
      assert Dominates(g, e, a);
      forall p | FromHeader(g, p) && p[|p| - 1] == a ensures exists k: nat :: k < |p| && p[k] in entries {
        var k :| 0 <= k < |p| && p[k] == e;
      }
    }

    lemma UnreachableIsSafe(v: nat)
      requires Ready() && Unreachable(v)
      ensures forall s :: s in ss ==> !Reach(Edges(g), v, s) && !Reach(Edges(g), Anchor(g, v), s)
    {
      AnchorReached(g, v);
      forall s | s in ss ensures !Reach(Edges(g), v, s) && !Reach(Edges(g), Anchor(g, v), s) {
        if Anchor(g, v) != v && Reach(Edges(g), Anchor(g, v), s) { ReachTransitive(Edges(g), v, Anchor(g, v), s); }
      }
    }

    /** The search goes on past every instruction that can still reach the segment. */
    lemma {:induction false} SearchGoesOn(exits: set<nat>, visited: set<nat>, q: seq<nat>, s: nat)
      requires Ready() && Searched(g, ss, exits, visited) && Path(Edges(g), q) && q[0] in visited && s in ss
      requires forall k: nat :: k < |q| - 1 ==> Reach(Edges(g), q[k], s)
      ensures q[|q| - 1] in visited
      decreases |q|
    {
      if |q| > 1 {
        assert Reach(Edges(g), q[0], s) && (q[0], q[0 + 1]) in Edges(g);
        assert ExitSettled(g, ss, exits, q[0], visited, []);
        SubPath(Edges(g), q, 1, |q|);
        forall k: nat | k < |q[1..]| - 1 ensures Reach(Edges(g), q[1..][k], s) { assert Reach(Edges(g), q[k + 1], s); }
        SearchGoesOn(exits, visited, q[1..], s);
      }
    }

    /** If the search did not come to v, nothing of the segment can execute before it. */
    lemma MissedIsUnreachable(exits: set<nat>, visited: set<nat>, y: nat, v: nat)
      requires Ready() && Searched(g, ss, exits, visited) && v in g.blockFirst && v !in g.joins && v !in visited
      requires (y, v) in Edges(g) && !Late(g, ss, v) && exists s :: s in ss && Reach(Edges(g), y, s)
      ensures Unreachable(v)
    {
      var s :| s in ss && Reach(Edges(g), y, s);
      forall b | b in ss ensures !Reach(Edges(g), b, v) {
        if Reach(Edges(g), b, v) {
          var q: seq<nat> :| Path(Edges(g), q) && |q| >= 2 && q[0] == b && q[|q| - 1] == v;
          forall k: nat | k < |q| - 1 ensures Reach(Edges(g), q[k], s) {
            PathReaches(Edges(g), q, k, |q| - 1);
            ThroughOnlyPredecessor(g, q[k], y, v);
            if q[k] != y { ReachTransitive(Edges(g), q[k], y, s); }
          }
          SearchGoesOn(exits, visited, q, s);
        }
      }
    }

    /** The last place of p from which the segment can still execute. */
    lemma {:induction false} LastLate(p: seq<nat>, k: nat) returns (y: nat)
      requires k < |p| && Late(g, ss, p[k])
      ensures y < |p| && Late(g, ss, p[y]) && forall j :: y < j < |p| ==> !Late(g, ss, p[j])
      decreases |p| - k
    {
      if j :| k < j < |p| && Late(g, ss, p[j]) {
        y := LastLate(p, j);
      } else {
        y := k;
      }
    }

    /** The last instruction of the segment on a way through it is an exit. */
    lemma LastIsExit(exits: set<nat>, y: nat, visited: set<nat>)
      requires Ready() && Searched(g, ss, exits, visited) && ExitsAreSafe(g, ss, exits)
      requires y in ss && !exists s :: s in ss && Reach(Edges(g), y, s)
      ensures Anchor(g, y) in exits
    {
      NoExitBefore(g, ss, exits, y);
      assert ExitSettled(g, ss, exits, y, visited, []);
    }

    /** Where a way leaves what can still reach the segment there is an exit. */
    lemma BranchIsExit(exits: set<nat>, y: nat, v: nat, visited: set<nat>)
      requires Ready() && NoCriticalEdges(g) && Searched(g, ss, exits, visited)
      requires ExitsAreSafe(g, ss, exits) && exits <= g.nodes - g.phis
      requires forall v :: Unreachable(v) ==> Cut(exits, v)
      requires (y, v) in Edges(g) && !Late(g, ss, v) && exists s :: s in ss && Reach(Edges(g), y, s)
      ensures v in g.nodes && Anchor(g, v) in exits
    {
      LeavingBranch(g, ss, exits, y, v);
      if v in visited {
        assert ExitSettled(g, ss, exits, v, visited, []);
      } else {
        MissedIsUnreachable(exits, visited, y, v);
        assert Cut(exits, v);
        if Anchor(g, v) !in exits {
          var e :| e in exits && e != Anchor(g, v) && Reach(Edges(g), e, Anchor(g, v));
          if v in g.phis { ReachesAnchor(g, e, v); }
        }
      }
    }

    lemma ExitOnPath(exits: set<nat>, p: seq<nat>, visited: set<nat>) returns (k: nat)
      requires Ready() && NoCriticalEdges(g) && ss != {} && Iteration(g, p) && Searched(g, ss, exits, visited)
      requires ExitsAreSafe(g, ss, exits) && exits <= g.nodes - g.phis
      requires forall v :: Unreachable(v) ==> Cut(exits, v)
      ensures k < |p| && p[k] in exits
    {
      HeaderIsLate(g, ss);
      k := LastLate(p, 0);
      InPath(p, k);
      InPath(p, |p| - 1);
      if !exists s :: s in ss && Reach(Edges(g), p[k], s) {
        LastIsExit(exits, p[k], visited);
      } else {
        WithinIsNotLast(g, ss, p[k]);
        assert (p[k], p[k + 1]) in Edges(g);
        BranchIsExit(exits, p[k], p[k + 1], visited);
        k := AnchorOnPath(g, p, k + 1);
      }
    }

    lemma InPath(p: seq<nat>, k: nat)
      requires Ready() && FromHeader(g, p) && k < |p|
      ensures p[k] in g.nodes && (p[k] in g.back ==> p[k] !in g.phis)
    {
      if k > 0 { assert (p[k - 1], p[k - 1 + 1]) in Edges(g); }
    }

    lemma ExitIsCovered(found: set<nat>, e: nat)
      requires Ready() && NoCriticalEdges(g) && EntriesCover(g, ss, entries) && EntriesAreFirst(g, ss, entries)
      requires forall v :: v in Untouched(g, ss) ==> Covered(g, entries, Anchor(g, v))
      requires forall x :: x in found ==> SearchExit(g, ss, x)
      requires e in found || exists v :: v in Untouched(g, ss) && e == Anchor(g, v)
      ensures Covered(g, entries, e)
    {
      if e in found {
        var v :| v in g.nodes && e == Anchor(g, v) && EndsRegion(g, ss, v);
        RegionEndIsCovered(g, ss, entries, v);
        AnchorCovered(g, entries, v);
      }
    }

    lemma NothingAfterReturns(returns': set<nat>)
      requires AreReturns(g, returns')
      ensures ExitsAreSafe(g, ss, returns')
    {
      forall r, s | r in returns' && s in ss ensures !Reach(Edges(g), r, s) {
        if Reach(Edges(g), r, s) { var u := FirstStep(Edges(g), r, s); }
      }
    }

    lemma ExitsAreCovered(found: set<nat>, exits: set<nat>)
      requires Ready() && NoCriticalEdges(g) && EntriesCover(g, ss, entries) && EntriesAreFirst(g, ss, entries)
      requires forall v :: v in Untouched(g, ss) ==> Covered(g, entries, Anchor(g, v))
      requires forall x :: x in found ==> SearchExit(g, ss, x)
      requires forall e :: e in exits ==> e in found || exists v :: v in Untouched(g, ss) && e == Anchor(g, v)
      ensures EntriesBeforeExits(g, entries, exits)
    {
      forall e | e in exits ensures Covered(g, entries, e) { ExitIsCovered(found, e); }
    }

    lemma IterationsPassExits(exits: set<nat>, visited: set<nat>)
      requires Ready() && NoCriticalEdges(g) && ss != {} && Searched(g, ss, exits, visited)
      requires ExitsAreSafe(g, ss, exits) && exits <= g.nodes - g.phis
      requires forall v :: Unreachable(v) ==> Cut(exits, v)
      ensures ExitsCover(g, exits)
    {
      forall p | Iteration(g, p) ensures exists k: nat :: k < |p| && p[k] in exits {
        var k := ExitOnPath(exits, p, visited);
      }
    }

    /** The three phases; what each of them ends with. */
    method SearchAndExtend() returns (ghost found: set<nat>, ghost near: seq<nat>, ghost order: seq<nat>)
      requires Ready() && entries == {} && exits == {}
      modifies this`entries, this`exits
      ensures EntriesCover(g, ss, entries) && ExitsAreSafe(g, ss, exits) && EntriesAreFirst(g, ss, entries)
      ensures found <= exits <= g.nodes - g.phis && SearchResult(g, ss, found)
      ensures Lists(near, Front(g, ss)) && Lists(order, Untouched(g, ss)) && exits == CutAll(g, found, order)
      ensures entries == EnterAll(g, EnterAll(g, {}, near), order)
      ensures forall v :: v in Untouched(g, ss) ==> Covered(g, entries, Anchor(g, v))
      ensures forall e :: e in exits ==> e in found || exists v :: v in Untouched(g, ss) && e == Anchor(g, v)
      ensures forall v :: Unreachable(v) ==> Cut(exits, v)
    {
      FindEntries();
      near :| Lists(near, Front(g, ss)) && entries == EnterAll(g, {}, near);
      FindExits();
      found := exits;
      ExtendFrontier();
      order :| Lists(order, Untouched(g, ss)) && exits == CutAll(g, found, order)
               && entries == EnterAll(g, EnterAll(g, {}, near), order);
    }

    /** More exits leave settled what was settled. */
    lemma SearchedWithMore(found: set<nat>, exits: set<nat>) returns (visited: set<nat>)
      requires Ready() && SearchResult(g, ss, found) && found <= exits
      ensures Searched(g, ss, exits, visited)
    {
      visited :| Searched(g, ss, found, visited);
      forall v | v in visited ensures ExitSettled(g, ss, exits, v, visited, []) {
        assert ExitSettled(g, ss, found, v, visited, []);
      }
    }

    method DetermineEntryAndExitFrontier()
      requires Ready() && entries == {} && exits == {}
      modifies this`entries, this`exits
      ensures EntriesCover(g, ss, entries) && ExitsAreSafe(g, ss, exits) && EntriesAreFirst(g, ss, entries)
      ensures NoCriticalEdges(g) && ss != {} ==> ExitsCover(g, exits)
      ensures NoCriticalEdges(g) ==> EntriesBeforeExits(g, entries, exits)
      ensures exists found, near, order ::
                IsOutcome(g, ss, found, order, exits, {}) && EntriesOutcome(g, ss, near, order, entries)
      ensures NoCriticalEdges(g) && UntouchedApart(g, ss) ==> Apart(g, exits)
    {
      ghost var found, near, order := SearchAndExtend();
      if NoCriticalEdges(g) {
        ExitsAreCovered(found, exits);
        EveryOrderIsApartIff(g, ss, found);
        if ss != {} {
          var visited := SearchedWithMore(found, exits);
          IterationsPassExits(exits, visited);
        }
      }
      assert exits + {} == exits;
      assert IsOutcome(g, ss, found, order, exits, {}) && EntriesOutcome(g, ss, near, order, entries);
    }

    /**
     The frontiers of a segment, with the returns of the function as further exits.  The
     exits are apart if no two untouched blocks can execute in one iteration.
     */
    constructor (g: Cfg, ss: set<nat>, out: map<nat, set<nat>>, before: map<nat, set<nat>>, returns': set<nat>)
      requires Valid(g) && ss <= g.nodes - g.phis && IsReachability(g, out) && IsBeforeMap(g, before)
      requires AreReturns(g, returns')
      ensures this.g == g && this.ss == ss
      ensures EntriesCover(g, ss, entries) && ExitsAreSafe(g, ss, exits)
      ensures NoCriticalEdges(g) && ss != {} ==> ExitsCover(g, exits)
      ensures EntriesAreFirst(g, ss, entries)
      ensures NoCriticalEdges(g) ==> EntriesBeforeExits(g, entries, exits - returns')
      ensures exists found, near, order ::
                IsOutcome(g, ss, found, order, exits, returns') && EntriesOutcome(g, ss, near, order, entries)
      ensures NoCriticalEdges(g) && UntouchedApart(g, ss) ==> Apart(g, exits - returns')
      ensures NoCriticalEdges(g) && ss != {} && UntouchedApart(g, ss) ==>
                WellPlaced(g, Segment(ss, entries, exits), returns')
    {
      this.g, this.ss, this.out, this.before := g, ss, out, before;
      this.entries, this.exits := {}, {};
      new;
      DetermineEntryAndExitFrontier();
      ghost var found, near, order :|
        IsOutcome(g, ss, found, order, exits, {}) && EntriesOutcome(g, ss, near, order, entries);
      NothingAfterReturns(returns');
      exits := exits + returns';
      assert IsOutcome(g, ss, found, order, exits, returns');
    }
  }
}
