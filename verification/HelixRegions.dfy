/**
 The regions of an iteration that matter to a sequential segment, and the conditions on
 the entries and exits where its waits and signals are put.
 */
module HelixRegions {
  import opened Digraph
  import opened HelixCfg

  /** The place for a wait or signal at n: PHI nodes are not separated from the start of their block. */
  function Anchor(g: Cfg, n: nat): (r: nat)
    requires Valid(g) && n in g.nodes
    ensures r in g.nodes && r !in g.phis
    ensures n !in g.phis ==> r == n
    decreases g.phiRank[n]
  {
    if n in g.phis then
      assert n in g.phis * g.nodes && PhiFollowed(g, n);
      Anchor(g, g.phiNext[n])
    else n
  }

  /** A PHI node has one successor in its iteration, the rest of its block. */
  lemma OnlyPhiNext(g: Cfg, n: nat, m: nat)
    requires Valid(g) && n in g.phis && (n, m) in Edges(g)
    ensures PhiFollowed(g, n) && m == g.phiNext[n]
  {
    assert n in g.phis * g.nodes;
  }

  /** A path that goes on from n to something that is not a PHI node passes the anchor of n. */
  lemma {:induction false} AnchorOnPath(g: Cfg, p: seq<nat>, k: nat) returns (j: nat)
    requires Valid(g) && Path(Edges(g), p) && k < |p| && p[k] in g.nodes && p[|p| - 1] !in g.phis
    ensures k <= j < |p| && p[j] == Anchor(g, p[k])
    decreases |p| - k
  {
    if p[k] in g.phis {
      assert (p[k], p[k + 1]) in Edges(g);
      OnlyPhiNext(g, p[k], p[k + 1]);
      j := AnchorOnPath(g, p, k + 1);
    } else {
      j := k;
    }
  }

  /** What reaches the anchor of v without being a PHI node reaches v or is its anchor's own start. */
  lemma {:induction false} ReachesAnchor(g: Cfg, e: nat, v: nat)
    requires Valid(g) && v in g.nodes && e !in g.phis && v in g.phis && Reach(Edges(g), e, Anchor(g, v))
    ensures Reach(Edges(g), e, v)
    decreases g.phiRank[v]
  {
    assert v in g.phis * g.nodes && PhiFollowed(g, v);
    var m := g.phiNext[v];
    if m in g.phis { ReachesAnchor(g, e, m); }
    ThroughOnlyPredecessor(g, e, v, m);
  }

  lemma {:induction false} AnchorReached(g: Cfg, v: nat)
    requires Valid(g) && v in g.nodes
    ensures Anchor(g, v) == v || Reach(Edges(g), v, Anchor(g, v))
    decreases g.phiRank[v]
  {
    if v in g.phis {
      assert v in g.phis * g.nodes && PhiFollowed(g, v);
      EdgeReaches(Edges(g), v, g.phiNext[v]);
      AnchorReached(g, g.phiNext[v]);
      if Anchor(g, g.phiNext[v]) != g.phiNext[v] { ReachTransitive(Edges(g), v, g.phiNext[v], Anchor(g, v)); }
    }
  }

  lemma NothingDominatesHeader(g: Cfg, e: nat)
    requires Valid(g)
    ensures e !in g.doms[g.header]
  {
    var p := [g.header];
    assert FromHeader(g, p) && p[|p| - 1] == g.header;
    assert forall x :: x in p ==> x == g.header;
    assert !Dominates(g, e, g.header);
  }

  // ---------------------------------------------------------------- the conditions

  /** No instruction of the segment can execute after v, except v itself. */
  ghost predicate AfterAll(g: Cfg, ss: set<nat>, v: nat) {
    forall s :: s in ss && Reach(Edges(g), v, s) ==> s == v
  }

  /** v, or something it reaches, is in the segment. */
  ghost predicate Late(g: Cfg, ss: set<nat>, v: nat) {
    v in ss || exists s :: s in ss && Reach(Edges(g), v, s)
  }

  /** Safety of exits: nothing of the segment executes after any of them, not even the exit again. */
  ghost predicate ExitsAreSafe(g: Cfg, ss: set<nat>, exits: set<nat>) {
    forall e, s :: e in exits && s in ss ==> !Reach(Edges(g), e, s)
  }

  /** Coverage by entries: every way from the header to the segment passes one. */
  ghost predicate EntriesCover(g: Cfg, ss: set<nat>, entries: set<nat>) {
    forall p :: FromHeader(g, p) && p[|p| - 1] in ss ==> exists k: nat :: k < |p| && p[k] in entries
  }

  /** A complete iteration: from the header to an instruction that branches back to it. */
  ghost predicate Iteration(g: Cfg, p: seq<nat>) {
    FromHeader(g, p) && p[|p| - 1] in g.back
  }

  ghost predicate ExitsCover(g: Cfg, exits: set<nat>) {
    forall p :: Iteration(g, p) ==> exists k: nat :: k < |p| && p[k] in exits
  }

  ghost predicate IsBeforeMap(g: Cfg, before: map<nat, set<nat>>) {
    before.Keys == g.nodes && forall a, b :: b in g.nodes ==> (a in before[b] <==> a != b && Reach(Edges(g), a, b))
  }

  /** First instructions of blocks that the segment neither reaches nor is reached from. */
  ghost function Untouched(g: Cfg, ss: set<nat>): set<nat> {
    set v | v in g.nodes && v in g.blockFirst && v !in ss
            && forall s :: s in ss ==> !Reach(Edges(g), s, v) && !Reach(Edges(g), v, s)
  }

  /** v's block gets an exit unless another exit can execute before it. */
  ghost function CutOne(g: Cfg, exits: set<nat>, v: nat): set<nat>
    requires Valid(g) && v in g.nodes
  {
    var a := Anchor(g, v);
    if exists e :: e in exits && e != a && Reach(Edges(g), e, a) then exits else exits + {a}
  }

  /** The exits after looking at the given instructions in this order. */
  ghost function CutAll(g: Cfg, exits: set<nat>, order: seq<nat>): set<nat>
    requires Valid(g) && forall v :: v in order ==> v in g.nodes
  {
    if order == [] then exits
    else CutOne(g, CutAll(g, exits, order[..|order| - 1]), order[|order| - 1])
  }

  /** order lists every element of s once. */
  ghost predicate Lists(order: seq<nat>, s: set<nat>) {
    (forall v :: v in order <==> v in s) && forall i, j :: 0 <= i < j < |order| ==> order[i] != order[j]
  }

  lemma {:induction false} Enumerate(s: set<nat>) returns (order: seq<nat>)
    ensures Lists(order, s)
    decreases s
  {
    if s == {} {
      order := [];
    } else {
      var x :| x in s;
      var rest := Enumerate(s - {x});
      order := rest + [x];
    }
  }

  /** There is an order that starts with x and then y. */
  lemma StartWith(s: set<nat>, x: nat, y: nat) returns (order: seq<nat>)
    requires x in s && y in s
    ensures Lists(order, s) && |order| >= 1 && order[0] == x && (x != y ==> |order| >= 2 && order[1] == y)
  {
    var rest := Enumerate(s - {x} - {y});
    order := (if x == y then [x] else [x, y]) + rest;
    forall v ensures v in order <==> v in s {
      assert v in order <==> v == x || v == y || v in rest;
    }
    assert x !in rest && y !in rest;
  }

  lemma OneMoreListed(order: seq<nat>, s: set<nat>, v: nat, more: set<nat>)
    requires Lists(order, s) && v !in s && more == s + {v}
    ensures Lists(order + [v], more)
  {}

  lemma OneMoreCut(g: Cfg, exits: set<nat>, order: seq<nat>, u: set<nat>, todo: set<nat>, v: nat)
    requires Valid(g) && u <= g.nodes && todo <= u && v in todo && Lists(order, u - todo)
    ensures forall x :: x in order + [v] ==> x in g.nodes
    ensures CutAll(g, exits, order + [v]) == CutOne(g, CutAll(g, exits, order), v)
    ensures Lists(order + [v], u - (todo - {v}))
  {
    assert (order + [v])[..|order|] == order;
    assert u - (todo - {v}) == u - todo + {v};
  }

  /** What can still reach the segment has no exit before it. */
  lemma NoExitBefore(g: Cfg, ss: set<nat>, exits: set<nat>, v: nat)
    requires ExitsAreSafe(g, ss, exits) && Late(g, ss, v)
    ensures forall e :: e in exits ==> !Reach(Edges(g), e, v)
  {
    forall e | e in exits ensures !Reach(Edges(g), e, v) {
      if Reach(Edges(g), e, v) && v !in ss {
        var s :| s in ss && Reach(Edges(g), v, s);
        ReachTransitive(Edges(g), e, v, s);
      }
    }
  }

  /** If y still reaches the segment and its successor v does not, then v starts a block of its own. */
  lemma LeavingBranch(g: Cfg, ss: set<nat>, exits: set<nat>, y: nat, v: nat)
    requires Valid(g) && NoCriticalEdges(g) && ExitsAreSafe(g, ss, exits)
    requires (y, v) in Edges(g) && !Late(g, ss, v) && exists s :: s in ss && Reach(Edges(g), y, s)
    ensures v in g.blockFirst && v !in g.joins && v !in g.inner && AfterAll(g, ss, v)
    ensures forall e :: e in exits ==> !Reach(Edges(g), e, v)
  {
    var s :| s in ss && Reach(Edges(g), y, s);
    var u := FirstStep(Edges(g), y, s);
    assert u != v;
    if Reach(Edges(g), v, v) {
      ThroughOnlyPredecessor(g, v, y, v);
      ReachTransitive(Edges(g), v, y, s);
    }
    NoExitBefore(g, ss, exits, y);
    forall e | e in exits ensures !Reach(Edges(g), e, v) {
      if Reach(Edges(g), e, v) { ThroughOnlyPredecessor(g, e, y, v); }
    }
  }

  lemma MoreEntriesCover(g: Cfg, ss: set<nat>, a: set<nat>, b: set<nat>)
    requires EntriesCover(g, ss, a) && a <= b
    ensures EntriesCover(g, ss, b)
  {
    forall p | FromHeader(g, p) && p[|p| - 1] in ss ensures exists k: nat :: k < |p| && p[k] in b {
      var k: nat :| k < |p| && p[k] in a;
    }
  }

  // ---------------------------------------------------------------- entries come before exits

  /** No instruction of the segment executes before an entry in the same iteration. */
  ghost predicate EntriesAreFirst(g: Cfg, ss: set<nat>, entries: set<nat>) {
    forall e, s :: e in entries && s in ss ==> !Reach(Edges(g), s, e)
  }

  /** Every way from the header to n passes an entry, perhaps at n itself. */
  ghost predicate Covered(g: Cfg, entries: set<nat>, n: nat) {
    forall p :: FromHeader(g, p) && p[|p| - 1] == n ==> exists k: nat :: k < |p| && p[k] in entries
  }

  /** An iteration passes an entry no later than an exit. */
  ghost predicate EntriesBeforeExits(g: Cfg, entries: set<nat>, exits: set<nat>) {
    forall e :: e in exits ==> Covered(g, entries, e)
  }

  ghost predicate ReachesSegment(g: Cfg, ss: set<nat>, n: nat) {
    exists s :: s in ss && Reach(Edges(g), n, s)
  }

  ghost predicate FromSegment(g: Cfg, ss: set<nat>, n: nat) {
    n in ss || exists s :: s in ss && Reach(Edges(g), s, n)
  }

  /** n is between instructions of the segment, or one of them, and not the last. */
  ghost predicate Within(g: Cfg, ss: set<nat>, n: nat) {
    FromSegment(g, ss, n) && ReachesSegment(g, ss, n)
  }

  /** How the forward search can come to v. */
  ghost predicate Comes(g: Cfg, ss: set<nat>, v: nat) {
    v in ss || exists w: nat :: Within(g, ss, w) && (w, v) in Edges(g)
  }

  /** Where the forward search puts an exit. */
  ghost predicate EndsRegion(g: Cfg, ss: set<nat>, v: nat) {
    v in ss || (!Late(g, ss, v) && exists w: nat :: Within(g, ss, w) && (w, v) in Edges(g))
  }

  ghost predicate SearchExit(g: Cfg, ss: set<nat>, e: nat)
    requires Valid(g)
  {
    exists v :: v in g.nodes && e == Anchor(g, v) && EndsRegion(g, ss, v)
  }

  /** v was passed over for a reason. */
  ghost predicate Rejected(g: Cfg, ss: set<nat>, exits: set<nat>, v: nat) {
    v in g.inner || !AfterAll(g, ss, v) || exists e :: e in exits && Reach(Edges(g), e, v)
  }

  /** v has become an exit, or was passed over for a reason and its successors were or will be looked at. */
  ghost predicate ExitSettled(
    g: Cfg, ss: set<nat>, exits: set<nat>, v: nat, visited: set<nat>, queue: seq<nat>)
    requires Valid(g) && v in g.nodes
  {
    || (v !in g.inner && AfterAll(g, ss, v) && Anchor(g, v) in exits)
    || (Rejected(g, ss, exits, v) && forall u :: (v, u) in Edges(g) ==> u in visited || u in queue)
  }

  /** The search from the segment has settled everything it met. */
  ghost predicate Searched(g: Cfg, ss: set<nat>, exits: set<nat>, visited: set<nat>)
    requires Valid(g)
  {
    ss <= visited <= g.nodes && forall v :: v in visited ==> ExitSettled(g, ss, exits, v, visited, [])
  }

  /** What the forward search from the segment ends with. */
  ghost predicate SearchResult(g: Cfg, ss: set<nat>, exits: set<nat>)
    requires Valid(g)
  {
    && ExitsAreSafe(g, ss, exits) && exits <= g.nodes - g.phis
    && (exists visited :: Searched(g, ss, exits, visited))
    && (NoCriticalEdges(g) ==> forall e :: e in exits ==> SearchExit(g, ss, e))
  }

  /** The forward search passes over nothing but what still reaches the segment. */
  lemma RejectedReaches(g: Cfg, ss: set<nat>, exits: set<nat>, v: nat)
    requires Valid(g) && NoCriticalEdges(g) && ExitsAreSafe(g, ss, exits) && v in g.nodes
    requires Comes(g, ss, v) && Rejected(g, ss, exits, v)
    ensures Within(g, ss, v)
  {
    if Late(g, ss, v) {
      NoExitBefore(g, ss, exits, v);
      if v in g.inner && v in ss { assert Reach(Edges(g), v, v); }
    } else {
      var w: nat :| Within(g, ss, w) && (w, v) in Edges(g);
      LeavingBranch(g, ss, exits, w, v);
    }
    ComesFromSegment(g, ss, v);
  }

  lemma ComesFromSegment(g: Cfg, ss: set<nat>, v: nat)
    requires Comes(g, ss, v)
    ensures FromSegment(g, ss, v)
  {
    if v !in ss {
      var w: nat :| Within(g, ss, w) && (w, v) in Edges(g);
      EdgeReaches(Edges(g), w, v);
      if w !in ss {
        var s :| s in ss && Reach(Edges(g), s, w);
        ReachTransitive(Edges(g), s, w, v);
      }
    }
  }

  /** Without critical edges what still reaches the segment does not branch to the header. */
  lemma WithinIsNotLast(g: Cfg, ss: set<nat>, y: nat)
    requires Valid(g) && NoCriticalEdges(g) && ReachesSegment(g, ss, y)
    ensures y !in g.back
  {
    var s :| s in ss && Reach(Edges(g), y, s);
    var u := FirstStep(Edges(g), y, s);
  }

  lemma HeaderIsLate(g: Cfg, ss: set<nat>)
    requires Valid(g) && ss != {} && ss <= g.nodes
    ensures Late(g, ss, g.header)
  {
    var s :| s in ss;
    if s != g.header { assert Reach(Edges(g), g.header, s); }
  }

  /** An entry before everything of the segment: nothing of the segment reaches its anchor. */
  lemma AnchorIsFirst(g: Cfg, ss: set<nat>, v: nat)
    requires Valid(g) && v in g.nodes && ss !! g.phis && forall s :: s in ss ==> !Reach(Edges(g), s, v)
    ensures forall s :: s in ss ==> !Reach(Edges(g), s, Anchor(g, v))
  {
    forall s | s in ss ensures !Reach(Edges(g), s, Anchor(g, v)) {
      if Reach(Edges(g), s, Anchor(g, v)) && v in g.phis { ReachesAnchor(g, s, v); }
    }
  }

  lemma Prefix(g: Cfg, p: seq<nat>, k: nat)
    requires FromHeader(g, p) && k < |p|
    ensures FromHeader(g, p[..k + 1]) && p[..k + 1][|p[..k + 1]| - 1] == p[k]
  {
    SubPath(Edges(g), p, 0, k + 1);
  }

  /** If every way to v passes the covered instruction u, v is covered. */
  lemma CoveredThrough(g: Cfg, entries: set<nat>, u: nat, v: nat)
    requires Covered(g, entries, u)
    requires forall p :: FromHeader(g, p) && p[|p| - 1] == v ==> exists k: nat :: k < |p| && p[k] == u
    ensures Covered(g, entries, v)
  {
    forall p | FromHeader(g, p) && p[|p| - 1] == v ensures exists k: nat :: k < |p| && p[k] in entries {
      var k: nat :| k < |p| && p[k] == u;
      Prefix(g, p, k);
      var j: nat :| j < |p[..k + 1]| && p[..k + 1][j] in entries;
      assert p[j] in entries;
    }
  }

  /** Every way to the anchor of v passes v. */
  lemma {:induction false} WayToAnchor(g: Cfg, v: nat, p: seq<nat>) returns (k: nat)
    requires Valid(g) && v in g.nodes && FromHeader(g, p) && p[|p| - 1] == Anchor(g, v)
    ensures k < |p| && p[k] == v
    decreases g.phiRank[v]
  {
    if v in g.phis {
      assert v in g.phis * g.nodes && PhiFollowed(g, v);
      k := WayToAnchor(g, g.phiNext[v], p);
      k := StepBack(g, v, g.phiNext[v], p, k);
    } else {
      k := |p| - 1;
    }
  }

  lemma StepBack(g: Cfg, u: nat, v: nat, p: seq<nat>, k: nat) returns (j: nat)
    requires Valid(g) && (u, v) in Edges(g) && v !in g.joins && FromHeader(g, p) && k < |p| && p[k] == v
    ensures j < |p| && p[j] == u
  {
    j := k - 1;
    assert (p[k - 1], p[k - 1 + 1]) in Edges(g);
  }

  lemma AnchorCovered(g: Cfg, entries: set<nat>, v: nat)
    requires Valid(g) && v in g.nodes && Covered(g, entries, v)
    ensures Covered(g, entries, Anchor(g, v))
  {
    forall p | FromHeader(g, p) && p[|p| - 1] == Anchor(g, v) ensures exists k: nat :: k < |p| && p[k] == v {
      var k := WayToAnchor(g, v, p);
    }
    CoveredThrough(g, entries, v, Anchor(g, v));
  }

  lemma SuccessorCovered(g: Cfg, entries: set<nat>, w: nat, v: nat)
    requires Valid(g) && (w, v) in Edges(g) && v !in g.joins && Covered(g, entries, w)
    ensures Covered(g, entries, v)
  {
    forall p | FromHeader(g, p) && p[|p| - 1] == v ensures exists k: nat :: k < |p| && p[k] == w {
      var k := StepBack(g, w, v, p, |p| - 1);
    }
    CoveredThrough(g, entries, w, v);
  }

  /** What lies between two instructions of the segment is covered: entries do not come after the first one. */
  lemma BetweenIsCovered(g: Cfg, ss: set<nat>, entries: set<nat>, s: nat, w: nat)
    requires Valid(g) && EntriesCover(g, ss, entries) && EntriesAreFirst(g, ss, entries)
    requires s in ss && Reach(Edges(g), s, w) && ReachesSegment(g, ss, w)
    ensures Covered(g, entries, w)
  {
    var r :| r in ss && Reach(Edges(g), w, r);
    var q: seq<nat> :| Path(Edges(g), q) && |q| >= 2 && q[0] == w && q[|q| - 1] == r;
    forall p | FromHeader(g, p) && p[|p| - 1] == w ensures exists k: nat :: k < |p| && p[k] in entries {
      Join(Edges(g), p, q);
      var long := p + q[1..];
      var k: nat :| k < |long| && long[k] in entries;
      if k >= |p| {
        PathReaches(Edges(g), long, |p| - 1, k);
        ReachTransitive(Edges(g), s, w, long[k]);
      } else {
        assert p[k] in entries;
      }
    }
  }

  /** An exit found by the search is covered. */
  lemma RegionEndIsCovered(g: Cfg, ss: set<nat>, entries: set<nat>, v: nat)
    requires Valid(g) && NoCriticalEdges(g) && EntriesCover(g, ss, entries) && EntriesAreFirst(g, ss, entries)
    requires v in g.nodes && EndsRegion(g, ss, v)
    ensures Covered(g, entries, v)
  {
    if v !in ss {
      var w: nat :| Within(g, ss, w) && (w, v) in Edges(g);
      LeavingBranch(g, ss, {}, w, v);
      if w !in ss {
        var s :| s in ss && Reach(Edges(g), s, w);
        BetweenIsCovered(g, ss, entries, s, w);
      }
      SuccessorCovered(g, entries, w, v);
    }
  }

  lemma ItselfCovered(g: Cfg, entries: set<nat>, n: nat)
    requires n in entries
    ensures Covered(g, entries, n)
  {
    forall p | FromHeader(g, p) && p[|p| - 1] == n ensures exists k: nat :: k < |p| && p[k] in entries {
      assert p[|p| - 1] in entries;
    }
  }

  lemma MoreCovered(g: Cfg, a: set<nat>, b: set<nat>)
    requires a <= b
    ensures forall n :: Covered(g, a, n) ==> Covered(g, b, n)
  {
    forall n, p | Covered(g, a, n) && FromHeader(g, p) && p[|p| - 1] == n
      ensures exists k: nat :: k < |p| && p[k] in b {
      var k: nat :| k < |p| && p[k] in a;
    }
  }

  // ---------------------------------------------------------------- exits are apart

  /** No exit executes after another one, or again, in the same iteration. */
  ghost predicate Apart(g: Cfg, exits: set<nat>) {
    forall a, b {:trigger Reach(Edges(g), a, b)} :: a in exits && b in exits ==> !Reach(Edges(g), a, b)
  }

  /** No block that has nothing to do with the segment executes after another one, or again, in an iteration. */
  ghost predicate UntouchedApart(g: Cfg, ss: set<nat>)
    requires Valid(g)
  {
    forall u, v {:trigger Reach(Edges(g), Anchor(g, u), Anchor(g, v))} ::
      u in Untouched(g, ss) && v in Untouched(g, ss) ==> !Reach(Edges(g), Anchor(g, u), Anchor(g, v))
  }

  /** The instructions of a sequential segment and the frontiers computed for it. */
  datatype Segment = Segment(ss: set<nat>, entries: set<nat>, exits: set<nat>)

  /**
   What synchronisation needs of the frontiers.  The returns of the function are exits as
   well; nothing of the iteration follows them.
   */
  ghost predicate WellPlaced(g: Cfg, x: Segment, returns': set<nat>) {
    && EntriesCover(g, x.ss, x.entries) && ExitsAreSafe(g, x.ss, x.exits) && ExitsCover(g, x.exits)
    && EntriesBeforeExits(g, x.entries, x.exits - returns') && Apart(g, x.exits - returns')
  }

  /** The returns of the function: nothing follows them in the iteration, and they do not end it. */
  ghost predicate AreReturns(g: Cfg, returns': set<nat>) {
    returns' <= g.nodes - g.phis - g.back && forall r, u :: r in returns' ==> (r, u) !in Edges(g)
  }
}
