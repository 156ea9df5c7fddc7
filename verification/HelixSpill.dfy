/**
 Where HELIX loads a spilled loop-carried variable: a frontier of blocks that dominates
 every user of the variable and every loop exit, above the stores of the next value.
 */
module HelixSpill {
  import opened Digraph

  /**
   The blocks of a loop and its exit blocks.  `succ` are all edges, the back edges to the
   header included.  `idom` and `doms` are the dominator tree and the dominance relation.
   */
  datatype Blocks = Blocks(
    loop: set<nat>,
    exits: set<nat>,
    header: nat,
    succ: map<nat, set<nat>>,
    idom: map<nat, nat>,
    depth: map<nat, nat>,
    doms: map<nat, set<nat>>
  )

  /** The edges within one iteration. */
  ghost function Edges(g: Blocks): (e: set<(nat, nat)>)
    ensures forall a, b :: (a, b) in e <==> a in g.loop && a in g.succ && b in g.succ[a] && b != g.header
  {
    set a, b | a in g.loop && a in g.succ && b in g.succ[a] && b != g.header :: (a, b)
  }

  ghost predicate FromHeader(g: Blocks, p: seq<nat>) {
    Path(Edges(g), p) && p[0] == g.header
  }

  ghost predicate Dominates(g: Blocks, a: nat, b: nat) {
    forall p :: FromHeader(g, p) && p[|p| - 1] == b ==> a in p
  }

  ghost predicate Reached(g: Blocks, b: nat) {
    exists p :: FromHeader(g, p) && p[|p| - 1] == b
  }

  ghost predicate Valid(g: Blocks) {
    Shaped(g) && DominanceOk(g)
  }

  ghost predicate Shaped(g: Blocks) {
    && g.header in g.loop && g.succ.Keys == g.loop && g.loop !! g.exits
    && g.depth.Keys == g.doms.Keys == g.loop + g.exits
    && (forall a, b :: a in g.loop && b in g.succ[a] ==> b in g.loop + g.exits)
  }

  ghost predicate DominanceOk(g: Blocks)
    requires Shaped(g)
  {
    AllReached(g) && DomsOk(g) && IdomsOk(g)
  }

  ghost predicate AllReached(g: Blocks) {
    forall b {:trigger Reached(g, b)} :: b in g.loop + g.exits ==> Reached(g, b)
  }

  ghost predicate DomsOk(g: Blocks)
    requires Shaped(g)
  {
    forall a, b {:trigger Dominates(g, a, b)} :: b in g.loop + g.exits ==> (a in g.doms[b] <==> Dominates(g, a, b))
  }

  ghost predicate IdomsOk(g: Blocks)
    requires Shaped(g)
  {
    forall b {:trigger IsIdom(g, b)} :: b in g.loop + g.exits && b != g.header ==> IsIdom(g, b)
  }

  ghost predicate IsIdom(g: Blocks, b: nat)
    requires b in g.depth
  {
    && b in g.idom && g.idom[b] in g.loop && g.idom[b] != b && Dominates(g, g.idom[b], b)
    && g.idom[b] in g.depth && g.depth[g.idom[b]] < g.depth[b]
    && forall a {:trigger Dominates(g, a, b)} :: a != b && Dominates(g, a, b) ==> Dominates(g, a, g.idom[b])
  }

  /** OUT of the terminator of every block: what executes later in the iteration, exit blocks perhaps left out. */
  ghost predicate IsOut(g: Blocks, out: map<nat, set<nat>>) {
    && out.Keys == g.loop
    && forall a, b :: a in g.loop ==>
        (b in out[a] ==> Reach(Edges(g), a, b)) && (b in g.loop && Reach(Edges(g), a, b) ==> b in out[a])
  }

  // ---------------------------------------------------------------- dominance

  lemma HeaderDominates(g: Blocks, b: nat)
    ensures Dominates(g, g.header, b) && Dominates(g, b, b)
  {}

  /** The part of a path up to the first place of a. */
  lemma {:induction false} UpToFirst(g: Blocks, p: seq<nat>, a: nat) returns (q: seq<nat>)
    requires FromHeader(g, p) && a in p
    ensures FromHeader(g, q) && q[|q| - 1] == a && forall k: nat :: k < |q| - 1 ==> q[k] != a
    ensures |q| <= |p| && q == p[..|q|]
    decreases |p|
  {
    if p[|p| - 1] == a && a !in p[..|p| - 1] {
      q := p;
    } else {
      SubPath(Edges(g), p, 0, |p| - 1);
      q := UpToFirst(g, p[..|p| - 1], a);
    }
  }

  lemma DominatesTransitive(g: Blocks, a: nat, b: nat, c: nat)
    requires Dominates(g, a, b) && Dominates(g, b, c)
    ensures Dominates(g, a, c)
  {
    forall p | FromHeader(g, p) && p[|p| - 1] == c ensures a in p {
      var q := UpToFirst(g, p, b);
      assert a in q;
    }
  }

  lemma DominatesAntisymmetric(g: Blocks, a: nat, b: nat)
    requires Dominates(g, a, b) && Dominates(g, b, a) && Reached(g, a)
    ensures a == b
  {
    var p :| FromHeader(g, p) && p[|p| - 1] == a;
    var q := UpToFirst(g, p, a);
    var r := UpToFirst(g, q, b);
    assert a in r;
    var k :| 0 <= k < |r| && r[k] == a;
    assert q[k] == a;
  }

  /** The part of a path from the last place of a, which meets a only there. */
  lemma FromLast(g: Blocks, p: seq<nat>, a: nat) returns (i: nat)
    requires Path(Edges(g), p) && a in p
    ensures i < |p| && p[i] == a && Path(Edges(g), p[i..]) && forall k: nat :: i < k < |p| ==> p[k] != a
  {
    i := |p| - 1;
    while p[i] != a
      invariant 0 <= i < |p| && a in p[..i + 1] && forall k: nat :: i < k < |p| ==> p[k] != a
      decreases i
    {
      i := i - 1;
    }
    SubPath(Edges(g), p, i, |p|);
  }

  /** The dominators of a block are ordered by dominance. */
  lemma DominatorsFormChain(g: Blocks, a: nat, b: nat, v: nat)
    requires Dominates(g, a, v) && Dominates(g, b, v) && Reached(g, v)
    ensures Dominates(g, a, b) || Dominates(g, b, a)
  {
    var p :| FromHeader(g, p) && p[|p| - 1] == v;
    var i := FromLast(g, p, a);
    var j := FromLast(g, p, b);
    if i >= j {
      AvoidsTail(g, b, a, v, p[i..]);
    } else {
      AvoidsTail(g, a, b, v, p[j..]);
    }
  }

  /** If the way from b to v does not pass a, every way to b does. */
  lemma AvoidsTail(g: Blocks, a: nat, b: nat, v: nat, tail: seq<nat>)
    requires Dominates(g, a, v) && Path(Edges(g), tail) && tail[0] == b && tail[|tail| - 1] == v
    requires forall k: nat :: 0 < k < |tail| ==> tail[k] != a
    ensures Dominates(g, a, b)
  {
    forall q | FromHeader(g, q) && q[|q| - 1] == b ensures a in q {
      Join(Edges(g), q, tail);
      var r := q + tail[1..];
      assert a in r;
      var k :| 0 <= k < |r| && r[k] == a;
    }
  }

  // ---------------------------------------------------------------- invalidated blocks

  /** v follows a store's block through a successor inside the loop. */
  ghost predicate Invalid(g: Blocks, stores: set<nat>, v: nat) {
    exists s, b :: s in stores && (s, b) in Edges(g) && b in g.loop && (v == b || Reach(Edges(g), b, v))
  }

  /** v follows a store's block in the same iteration. */
  ghost predicate AfterStore(g: Blocks, stores: set<nat>, v: nat) {
    exists s :: s in stores && Reach(Edges(g), s, v)
  }

  /** v is an exit that a store's block branches to directly. */
  ghost predicate DirectExit(g: Blocks, stores: set<nat>, v: nat) {
    v in g.exits && exists s :: s in stores && (s, v) in Edges(g)
  }

  /** What the search misses are the exits that a store's block branches to directly. */
  lemma AfterStoreIff(g: Blocks, stores: set<nat>, v: nat)
    requires Valid(g)
    ensures AfterStore(g, stores, v) <==> Invalid(g, stores, v) || DirectExit(g, stores, v)
  {
    if AfterStore(g, stores, v) {
      var s :| s in stores && Reach(Edges(g), s, v);
      var u := FirstStep(Edges(g), s, v);
      if u in g.exits && u != v { var w := FirstStep(Edges(g), u, v); }
    }
    if Invalid(g, stores, v) {
      var s, b :| s in stores && (s, b) in Edges(g) && b in g.loop && (v == b || Reach(Edges(g), b, v));
      EdgeReaches(Edges(g), s, b);
      if v != b { ReachTransitive(Edges(g), s, b, v); }
    }
    if DirectExit(g, stores, v) {
      var s :| s in stores && (s, v) in Edges(g);
      EdgeReaches(Edges(g), s, v);
    }
  }

  /** The header can always be loaded in. */
  lemma HeaderIsValid(g: Blocks, stores: set<nat>)
    ensures !Invalid(g, stores, g.header)
  {
    forall b ensures !Reach(Edges(g), b, g.header) {
      if Reach(Edges(g), b, g.header) { var u := LastStep(Edges(g), b, g.header); }
    }
  }

  method InvalidatedBlocks(g: Blocks, out: map<nat, set<nat>>, stores: set<nat>) returns (invalidated: set<nat>)
    requires Valid(g) && IsOut(g, out) && stores <= g.loop
    ensures forall v :: v in g.loop + g.exits ==> (v in invalidated <==> Invalid(g, stores, v))
  {
    invalidated := {};
    var todo := stores;
    while todo != {}
      invariant todo <= stores
      invariant forall v :: v in invalidated ==> Invalid(g, stores, v)
      invariant forall s, b :: s in stores - todo && (s, b) in Edges(g) && b in g.loop ==>
                b in invalidated && out[b] <= invalidated
    {
      var store :| store in todo;
      ghost var before := invalidated;
      var more := After(g, out, store);
      invalidated := invalidated + more;
      todo := todo - {store};
      forall v | v in more ensures Invalid(g, stores, v) {
        var b :| (store, b) in Edges(g) && b in g.loop && (v == b || v in out[b]);
      }
    }
    forall v | v in g.loop ensures v in invalidated <==> Invalid(g, stores, v) {}
    ghost var inside := invalidated;
    todo := g.loop;
    while todo != {}
      invariant todo <= g.loop && inside <= invalidated
      invariant forall v :: v in g.loop ==> (v in invalidated <==> v in inside)
      invariant forall v :: v in invalidated ==> Invalid(g, stores, v)
      invariant forall u, v :: u in g.loop - todo && u in inside && v in g.succ[u] && v in g.exits ==> v in invalidated
    {
      var exitingBlock :| exitingBlock in todo;
      todo := todo - {exitingBlock};
      if exitingBlock in invalidated {
        ghost var known := invalidated;
        invalidated := invalidated + (g.succ[exitingBlock] * g.exits);
        forall v | v in invalidated ensures Invalid(g, stores, v) {
          if v !in known {
            assert (exitingBlock, v) in Edges(g);
            GoesOn(g, stores, exitingBlock, v);
          }
        }
      }
    }
    forall v | v in g.exits && Invalid(g, stores, v) ensures v in invalidated {
      var s, b :| s in stores && (s, b) in Edges(g) && b in g.loop && (v == b || Reach(Edges(g), b, v));
      var u := LastStep(Edges(g), b, v);
      assert Invalid(g, stores, u);
    }
  }

  lemma GoesOn(g: Blocks, stores: set<nat>, u: nat, v: nat)
    requires Invalid(g, stores, u) && (u, v) in Edges(g)
    ensures Invalid(g, stores, v)
  {
    var s, b :| s in stores && (s, b) in Edges(g) && b in g.loop && (u == b || Reach(Edges(g), b, u));
    EdgeReaches(Edges(g), u, v);
    if u != b { ReachTransitive(Edges(g), b, u, v); }
  }

  /** The successors of a store's block inside the loop, and what OUT says follows them. */
  method After(g: Blocks, out: map<nat, set<nat>>, store: nat) returns (more: set<nat>)
    requires Valid(g) && out.Keys == g.loop && store in g.loop
    ensures forall v :: v in more <==> exists b :: (store, b) in Edges(g) && b in g.loop && (v == b || v in out[b])
  {
    more := {};
    var todo := g.succ[store];
    while todo != {}
      invariant todo <= g.succ[store]
      invariant forall v ::
                  (v in more <==>
                     exists b :: b !in todo && (store, b) in Edges(g) && b in g.loop && (v == b || v in out[b]))
    {
      var b :| b in todo;
      ghost var before, left := more, todo;
      todo := todo - {b};
      if b != g.header && b in g.loop {
        more := more + {b} + out[b];
      }
      forall v ensures v in more
          <==> exists b :: b !in todo && (store, b) in Edges(g) && b in g.loop && (v == b || v in out[b]) {
        assert v in more <==> v in before || (b != g.header && b in g.loop && (v == b || v in out[b]));
      }
    }
  }

  // ---------------------------------------------------------------- the frontier

  /** f is the nearest dominator of b that no store invalidates. */
  ghost predicate IsNearest(g: Blocks, stores: set<nat>, f: nat, b: nat) {
    && !Invalid(g, stores, f) && Dominates(g, f, b)
    && forall d :: Dominates(g, d, b) && d in g.loop + g.exits && !Invalid(g, stores, d) ==> Dominates(g, d, f)
  }

  ghost predicate NearestOfSome(g: Blocks, stores: set<nat>, f: nat, users: set<nat>) {
    exists b :: b in users && IsNearest(g, stores, f, b)
  }

  /** The nearest dominator of a block that is not invalidated, found by walking up the dominator tree. */
  method ValidBlockToLoadIn(g: Blocks, ghost stores: set<nat>, invalidated: set<nat>, startBlock: nat)
    returns (validBlock: nat)
    requires Valid(g) && startBlock in g.loop + g.exits
    requires forall v :: v in g.loop + g.exits ==> (v in invalidated <==> Invalid(g, stores, v))
    ensures validBlock in g.loop + g.exits && IsNearest(g, stores, validBlock, startBlock)
  {
    validBlock := startBlock;
    HeaderDominates(g, startBlock);
    HeaderIsValid(g, stores);
    while validBlock in invalidated
      invariant validBlock in g.loop + g.exits && Dominates(g, validBlock, startBlock)
      invariant forall d :: Dominates(g, d, startBlock) && d in g.loop + g.exits && !Invalid(g, stores, d) ==>
                  Dominates(g, d, validBlock)
      decreases g.depth[validBlock]
    {
      assert validBlock != g.header && IsIdom(g, validBlock);
      DominatesTransitive(g, g.idom[validBlock], validBlock, startBlock);
      validBlock := g.idom[validBlock];
    }
  }

  /** Strict dominators are higher in the dominator tree. */
  lemma {:induction false} DominatorIsHigher(g: Blocks, a: nat, b: nat)
    requires Valid(g) && a in g.loop + g.exits && b in g.loop + g.exits && a != b && Dominates(g, a, b)
    ensures g.depth[a] < g.depth[b]
    decreases g.depth[b]
  {
    if b == g.header {
      HeaderDominates(g, a);
      assert Reached(g, a);
      DominatesAntisymmetric(g, a, b);
    } else {
      assert IsIdom(g, b);
      if a != g.idom[b] { DominatorIsHigher(g, a, g.idom[b]); }
    }
  }

  /** Drop the blocks that another frontier block dominates. */
  method Prune(g: Blocks, all: set<nat>) returns (frontier: set<nat>)
    requires Valid(g) && all <= g.loop + g.exits
    ensures frontier == set b | b in all && forall a :: a in all && a != b ==> a !in g.doms[b]
  {
    var unnecessary := {};
    var todo := all;
    while todo != {}
      invariant todo <= all
      invariant unnecessary == set b | b in all - todo && exists a :: a in all && a != b && a in g.doms[b]
    {
      var block :| block in todo;
      todo := todo - {block};
      if exists otherBlock :: otherBlock in all && otherBlock != block && otherBlock in g.doms[block] {
        unnecessary := unnecessary + {block};
      }
    }
    frontier := all - unnecessary;
  }

  ghost predicate Covers(g: Blocks, frontier: set<nat>, b: nat) {
    exists f :: f in frontier && Dominates(g, f, b)
  }

  /** Pruning keeps everything covered. */
  lemma {:induction false} PruningKeepsCover(g: Blocks, all: set<nat>, frontier: set<nat>, f: nat, b: nat)
    requires Valid(g) && all <= g.loop + g.exits && f in all && Dominates(g, f, b)
    requires frontier == set x | x in all && forall a :: a in all && a != x ==> a !in g.doms[x]
    ensures Covers(g, frontier, b)
    decreases g.depth[f]
  {
    if f !in frontier {
      var a :| a in all && a != f && a in g.doms[f];
      DominatorIsHigher(g, a, f);
      DominatesTransitive(g, a, f, b);
      PruningKeepsCover(g, all, frontier, a, b);
    }
  }

  /** What the frontier for the loads of a variable is. */
  ghost predicate IsFrontier(g: Blocks, stores: set<nat>, users: set<nat>, frontier: set<nat>) {
    && frontier <= g.loop + g.exits
    // every user and every loop exit has a load above it
    && (forall b :: b in users + g.exits ==> Covers(g, frontier, b))
    // no load dominates another
    && (forall a, b :: a in frontier && b in frontier && a != b ==> !Dominates(g, a, b))
    // every load is the nearest valid dominator of some user or exit
    && forall f :: f in frontier ==> NearestOfSome(g, stores, f, users + g.exits)
  }

  /**
   The frontier for the loads of one spilled variable.  `users` are the blocks that use it,
   for PHI nodes a block that dominates the use.
   */
  method DefineFrontier(g: Blocks, out: map<nat, set<nat>>, stores: set<nat>, users: set<nat>)
    returns (frontier: set<nat>)
    requires Valid(g) && IsOut(g, out) && stores <= g.loop && users <= g.loop + g.exits
    ensures IsFrontier(g, stores, users, frontier)
    ensures (forall f :: f in frontier ==> ReadsIncoming(g, stores, f)) <==> DirectExitsAreBelow(g, stores, users)
  {
    var invalidated := InvalidatedBlocks(g, out, stores);
    var all := CollectValidBlocks(g, stores, invalidated, users + g.exits);
    frontier := Prune(g, all);
    forall b | b in users + g.exits ensures Covers(g, frontier, b) {
      assert Covers(g, all, b);
      var f :| f in all && Dominates(g, f, b);
      PruningKeepsCover(g, all, frontier, f, b);
    }
    AllLoadsReadIncomingIff(g, stores, users, frontier);
  }

  method CollectValidBlocks(g: Blocks, ghost stores: set<nat>, invalidated: set<nat>, targets: set<nat>)
    returns (all: set<nat>)
    requires Valid(g) && targets <= g.loop + g.exits
    requires forall v :: v in g.loop + g.exits ==> (v in invalidated <==> Invalid(g, stores, v))
    ensures all <= g.loop + g.exits
    ensures forall b :: b in targets ==> Covers(g, all, b)
    ensures forall f :: f in all ==> NearestOfSome(g, stores, f, targets)
  {
    all := {};
    var todo := targets;
    while todo != {}
      invariant todo <= targets && all <= g.loop + g.exits
      invariant forall b :: b in targets - todo ==> Covers(g, all, b)
      invariant forall f :: f in all ==> NearestOfSome(g, stores, f, targets)
    {
      var block :| block in todo;
      todo := todo - {block};
      var validBlock := ValidBlockToLoadIn(g, stores, invalidated, block);
      CoverMore(g, all, validBlock, block);
      assert NearestOfSome(g, stores, validBlock, targets);
      all := all + {validBlock};
    }
  }

  lemma CoverMore(g: Blocks, all: set<nat>, f: nat, block: nat)
    requires Dominates(g, f, block)
    ensures Covers(g, all + {f}, block) && forall b :: Covers(g, all, b) ==> Covers(g, all + {f}, b)
  {
    forall b | Covers(g, all, b) ensures Covers(g, all + {f}, b) {
      var h :| h in all && Dominates(g, h, b);
      assert h in all + {f};
    }
    assert f in all + {f};
  }

  // ---------------------------------------------------------------- what the loads read

  /** Exactly one load reaches each user and each exit. */
  lemma OneLoadForEachUser(g: Blocks, frontier: set<nat>, b: nat, f: nat, h: nat)
    requires Valid(g) && b in g.loop + g.exits
    requires forall a, b :: a in frontier && b in frontier && a != b ==> !Dominates(g, a, b)
    requires f in frontier && h in frontier && Dominates(g, f, b) && Dominates(g, h, b)
    ensures f == h
  {
    assert Reached(g, b);
    DominatorsFormChain(g, f, h, b);
  }

  /** On every way to f in an iteration no store was executed in an earlier block. */
  ghost predicate ReadsIncoming(g: Blocks, stores: set<nat>, f: nat) {
    forall p, k: nat :: FromHeader(g, p) && p[|p| - 1] == f && k < |p| - 1 ==> p[k] !in stores
  }

  /**
   A load placed in a block that the search left valid, before any store of that block,
   reads the value with which the iteration began, unless the block is an exit that a
   store's block branches to directly; then on some way it reads the next value.
   */
  lemma LoadsReadIncomingIff(g: Blocks, stores: set<nat>, f: nat)
    requires Valid(g) && stores <= g.loop && f in g.loop + g.exits && !Invalid(g, stores, f)
    ensures ReadsIncoming(g, stores, f) <==> !DirectExit(g, stores, f)
  {
    AfterStoreIff(g, stores, f);
    if !DirectExit(g, stores, f) {
      forall p, k: nat | FromHeader(g, p) && p[|p| - 1] == f && k < |p| - 1 ensures p[k] !in stores {
        SubPath(Edges(g), p, k, |p|);
        assert p[k..][|p| - k - 1] == f;
        assert Reach(Edges(g), p[k], f);
      }
    } else {
      var s :| s in stores && (s, f) in Edges(g);
      assert Reached(g, s);
      var p :| FromHeader(g, p) && p[|p| - 1] == s;
      Join(Edges(g), p, [s, f]);
      var q := p + [s, f][1..];
      assert FromHeader(g, q) && q[|q| - 1] == f && q[|q| - 2] == s;
    }
  }

  /**
   Every exit that a store's block branches to, and that the search left valid, lies below
   another block that the search finds for some user or exit.
   */
  ghost predicate DirectExitsAreBelow(g: Blocks, stores: set<nat>, users: set<nat>) {
    forall x :: x in g.exits && DirectExit(g, stores, x) && !Invalid(g, stores, x) ==>
      exists a :: a != x && a in g.loop + g.exits && NearestOfSome(g, stores, a, users + g.exits) && Dominates(g, a, x)
  }

  /** What lies below a block found by the search is below the frontier, and not in it. */
  lemma BelowFoundIsBelowFrontier(
    g: Blocks, stores: set<nat>, users: set<nat>, frontier: set<nat>, a: nat, x: nat)
    requires Valid(g) && users <= g.loop + g.exits && IsFrontier(g, stores, users, frontier)
    requires a in g.loop + g.exits && NearestOfSome(g, stores, a, users + g.exits)
    requires x in g.loop + g.exits && x != a && Dominates(g, a, x)
    ensures x !in frontier
  {
    var b :| b in users + g.exits && IsNearest(g, stores, a, b);
    var h :| h in frontier && Dominates(g, h, b);
    assert NearestOfSome(g, stores, h, users + g.exits);
    assert Dominates(g, h, a);
    DominatesTransitive(g, h, a, x);
    if h == x {
      assert Reached(g, x);
      DominatesAntisymmetric(g, a, x);
    }
  }

  /**
   All loads of a frontier read the value with which the iteration began, exactly if no
   exit that a store's block branches to is in it; that is known from the loop and the
   users alone.
   */
  lemma AllLoadsReadIncomingIff(g: Blocks, stores: set<nat>, users: set<nat>, frontier: set<nat>)
    requires Valid(g) && stores <= g.loop && users <= g.loop + g.exits && IsFrontier(g, stores, users, frontier)
    ensures (forall f :: f in frontier ==> ReadsIncoming(g, stores, f))
            <==> forall f :: f in frontier ==> !DirectExit(g, stores, f)
    ensures (forall f :: f in frontier ==> ReadsIncoming(g, stores, f)) <==> DirectExitsAreBelow(g, stores, users)
  {
    forall f | f in frontier ensures ReadsIncoming(g, stores, f) <==> !DirectExit(g, stores, f) {
      LoadsReadIncomingIff(g, stores, f);
    }
    SurvivingExits(g, stores, users, frontier);
  }

  lemma SurvivingExits(g: Blocks, stores: set<nat>, users: set<nat>, frontier: set<nat>)
    requires Valid(g) && stores <= g.loop && users <= g.loop + g.exits && IsFrontier(g, stores, users, frontier)
    ensures (forall f :: f in frontier ==> !DirectExit(g, stores, f)) <==> DirectExitsAreBelow(g, stores, users)
  {
    if DirectExitsAreBelow(g, stores, users) {
      forall f | f in frontier ensures !DirectExit(g, stores, f) {
        assert NearestOfSome(g, stores, f, users + g.exits);
        if DirectExit(g, stores, f) {
          var a :| a != f && a in g.loop + g.exits && NearestOfSome(g, stores, a, users + g.exits)
              && Dominates(g, a, f);
          BelowFoundIsBelowFrontier(g, stores, users, frontier, a, f);
        }
      }
    }
    if forall f :: f in frontier ==> !DirectExit(g, stores, f) {
      forall x | x in g.exits && DirectExit(g, stores, x) && !Invalid(g, stores, x)
        ensures exists a :: a != x && a in g.loop + g.exits
                            && NearestOfSome(g, stores, a, users + g.exits) && Dominates(g, a, x)
      {
        assert Covers(g, frontier, x);
        var a :| a in frontier && Dominates(g, a, x);
      }
    }
  }

  // ---------------------------------------------------------------- a load that reads the next value

  /** The header branches to a user (1) and to a block with a store (2) that can leave the loop (4); 3 is the latch. */
  function StoreBeforeExit(): Blocks {
    Blocks({0, 1, 2, 3}, {4}, 0,
           map[0 := {1, 2}, 1 := {3}, 2 := {3, 4}, 3 := {0}],
           map[1 := 0, 2 := 0, 3 := 0, 4 := 2],
           map[0 := 0, 1 := 1, 2 := 1, 3 := 1, 4 := 2],
           map[0 := {0}, 1 := {0, 1}, 2 := {0, 2}, 3 := {0, 3}, 4 := {0, 2, 4}])
  }

  lemma {:induction false} PathsOfExample(p: seq<nat>)
    requires FromHeader(StoreBeforeExit(), p)
    ensures p in {[0], [0, 1], [0, 2], [0, 1, 3], [0, 2, 3], [0, 2, 4]}
    decreases |p|
  {
    var g := StoreBeforeExit();
    var n := |p| - 1;
    assert p == p[..n] + [p[n]];
    if n > 0 {
      assert (p[n - 1], p[n - 1 + 1]) in Edges(g);
      SubPath(Edges(g), p, 0, n);
      var q := p[..n];
      PathsOfExample(q);
      assert q[n - 1] == p[n - 1];
      if n == 1 { assert p == [0, p[1]]; }
      if n == 2 { assert p == [q[0], q[1], p[2]]; }
    } else {
      assert p == [0];
    }
  }

  lemma ExamplePaths()
    ensures var g := StoreBeforeExit();
            FromHeader(g, [0]) && FromHeader(g, [0, 1]) && FromHeader(g, [0, 2])
            && FromHeader(g, [0, 1, 3]) && FromHeader(g, [0, 2, 3]) && FromHeader(g, [0, 2, 4])
  {}

  lemma ExampleReached(b: nat)
    requires b in {0, 1, 2, 3, 4}
    ensures Reached(StoreBeforeExit(), b)
  {
    ExamplePaths();
    var ways := [[0], [0, 1], [0, 2], [0, 1, 3], [0, 2, 4]];
    var p := ways[b];
    assert FromHeader(StoreBeforeExit(), p) && p[|p| - 1] == b;
  }

  lemma ExampleDominance(a: nat, b: nat)
    requires b in {0, 1, 2, 3, 4}
    ensures Dominates(StoreBeforeExit(), a, b) <==> a in StoreBeforeExit().doms[b]
  {
    var g := StoreBeforeExit();
    ExamplePaths();
    if a in g.doms[b] {
      forall p | FromHeader(g, p) && p[|p| - 1] == b ensures a in p { PathsOfExample(p); }
    }
  }

  lemma ExampleIdom(b: nat)
    requires b in {1, 2, 3, 4}
    ensures IsIdom(StoreBeforeExit(), b)
  {
    var g := StoreBeforeExit();
    ExampleDominance(g.idom[b], b);
    forall a: nat | a != b && Dominates(g, a, b) ensures Dominates(g, a, g.idom[b]) {
      ExampleDominance(a, b);
      ExampleDominance(a, g.idom[b]);
    }
  }

  lemma ExampleIsShaped()
    ensures Shaped(StoreBeforeExit()) && StoreBeforeExit().loop + StoreBeforeExit().exits == {0, 1, 2, 3, 4}
  {}

  lemma ExampleIsValid()
    ensures Valid(StoreBeforeExit())
  {
    ExampleIsShaped();
    ExampleAllReached();
    ExampleDomsOk();
    ExampleIdomsOk();
  }

  lemma ExampleAllReached()
    ensures AllReached(StoreBeforeExit())
  {
    var g := StoreBeforeExit();
    forall b | b in g.loop + g.exits ensures Reached(g, b) { ExampleReached(b); }
  }

  lemma ExampleDomsOk()
    requires Shaped(StoreBeforeExit())
    ensures DomsOk(StoreBeforeExit())
  {
    var g := StoreBeforeExit();
    forall a: nat, b: nat | b in g.loop + g.exits ensures a in g.doms[b] <==> Dominates(g, a, b) {
      ExampleDominance(a, b);
    }
  }

  lemma ExampleIdomsOk()
    requires Shaped(StoreBeforeExit())
    ensures IdomsOk(StoreBeforeExit())
  {
    var g := StoreBeforeExit();
    forall b | b in g.loop + g.exits && b != g.header ensures IsIdom(g, b) { ExampleIdom(b); }
  }

  lemma ExampleInvalid(v: nat)
    ensures Invalid(StoreBeforeExit(), {2}, v) ==> v == 3
  {
    var g := StoreBeforeExit();
    if Invalid(g, {2}, v) && v != 3 {
      var s, b :| s in {2} && (s, b) in Edges(g) && b in g.loop && (v == b || Reach(Edges(g), b, v));
      var u := FirstStep(Edges(g), b, v);
    }
  }

  /** The search accepts the exit block 4 here, although the store in 2 executes before it. */
  lemma ExitLoadCanReadNextValue(frontier: set<nat>)
    requires var g := StoreBeforeExit();
             && (forall b :: b in {1} + g.exits ==> Covers(g, frontier, b))
             && (forall f :: f in frontier ==> f in g.loop + g.exits && NearestOfSome(g, {2}, f, {1} + g.exits))
    ensures Valid(StoreBeforeExit()) && 4 in frontier && !ReadsIncoming(StoreBeforeExit(), {2}, 4)
  {
    var g := StoreBeforeExit();
    ExampleIsValid();
    assert 4 in g.exits && g.exits == {4};
    assert Covers(g, frontier, 4);
    var f :| f in frontier && Dominates(g, f, 4);
    ExampleFrontier(f);
    ExampleLoad();
  }

  lemma ExampleLoad()
    ensures !ReadsIncoming(StoreBeforeExit(), {2}, 4)
  {
    ExampleIsValid();
    ExampleInvalid(4);
    assert (2, 4) in Edges(StoreBeforeExit());
    LoadsReadIncomingIff(StoreBeforeExit(), {2}, 4);
  }

  lemma ExampleFrontier(f: nat)
    requires NearestOfSome(StoreBeforeExit(), {2}, f, {1} + {4}) && Dominates(StoreBeforeExit(), f, 4)
    ensures f == 4
  {
    var b :| b in {1} + {4} && IsNearest(StoreBeforeExit(), {2}, f, b);
    NearestOfExample(f, b);
    ExampleDominance(f, 4);
  }

  /** 1 and 4 are their own nearest valid dominators. */
  lemma NearestOfExample(f: nat, b: nat)
    requires b in {1, 4} && IsNearest(StoreBeforeExit(), {2}, f, b)
    ensures f == b
  {
    var g := StoreBeforeExit();
    ExampleInvalid(b);
    ExampleDominance(b, b);
    assert Dominates(g, b, f);
    ExampleDominance(f, b);
    ExampleDominance(b, f);
  }
}
