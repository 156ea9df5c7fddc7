/**
 The control flow of a loop body at the level of instructions, what can execute after
 what within one iteration, and the data-flow analysis that computes it.
 */
module HelixCfg {
  import opened Digraph

  /**
   `succ` holds the edges inside the loop that stay in the iteration: edges to the header
   and edges that leave the loop are not in it.  `back` are the instructions that branch to
   the header.  `branching` instructions have more than one successor and `joins` more than
   one predecessor, counting all edges of the function.  `inner` are the instructions of
   sub-loops, `phis` the PHI nodes, each followed by `phiNext` in its block, and
   `blockFirst` the first instructions of blocks.  `doms[v]` are the instructions that strictly
   dominate v.
   */
  datatype Cfg = Cfg(
    nodes: set<nat>,
    succ: map<nat, set<nat>>,
    header: nat,
    back: set<nat>,
    branching: set<nat>,
    joins: set<nat>,
    inner: set<nat>,
    phis: set<nat>,
    phiNext: map<nat, nat>,
    phiRank: map<nat, nat>,
    blockFirst: set<nat>,
    doms: map<nat, set<nat>>
  )

  /** The edges within one iteration. */
  ghost function Edges(g: Cfg): (e: set<(nat, nat)>)
    ensures forall a, b :: (a, b) in e <==> a in g.succ && b in g.succ[a]
  {
    set a, b | a in g.succ && b in g.succ[a] :: (a, b)
  }

  ghost predicate FromHeader(g: Cfg, p: seq<nat>) {
    Path(Edges(g), p) && p[0] == g.header
  }

  /** What the compiler's data structures guarantee. */
  ghost predicate Valid(g: Cfg) {
    Shaped(g) && LoopsOk(g) && BranchesOk(g) && PhisOk(g) && DomsOk(g)
  }

  ghost predicate Shaped(g: Cfg) {
    && g.header in g.nodes && g.succ.Keys == g.nodes && g.phiRank.Keys == g.nodes && g.doms.Keys == g.nodes
    && (forall a, b {:trigger (a, b) in Edges(g)} :: (a, b) in Edges(g) ==> b in g.nodes && b != g.header)
  }

  /** Everything is reached from the header, and sub-loops are the cycles that avoid it. */
  ghost predicate LoopsOk(g: Cfg) {
    && (forall n {:trigger Reach(Edges(g), g.header, n)} :: n in g.nodes && n != g.header ==>
        Reach(Edges(g), g.header, n))
    && (forall n {:trigger Reach(Edges(g), n, n)} {:trigger n in g.inner} ::
          n in g.nodes ==> (n in g.inner <==> Reach(Edges(g), n, n)))
  }

  ghost predicate BranchesOk(g: Cfg) {
    && (forall a, b, c {:trigger (a, b) in Edges(g), (a, c) in Edges(g)} ::
          (a, b) in Edges(g) && (a, c) in Edges(g) && b != c ==> a in g.branching)
    && (forall a, b {:trigger (a, b) in Edges(g)} :: a in g.back && (a, b) in Edges(g) ==> a in g.branching)
    && (forall a, b, c {:trigger (a, c) in Edges(g), (b, c) in Edges(g)} ::
          (a, c) in Edges(g) && (b, c) in Edges(g) && a != b ==> c in g.joins)
    && (forall a, b {:trigger (a, b) in Edges(g)} :: (a, b) in Edges(g) && a in g.branching ==> b in g.blockFirst)
  }

  /** PHI nodes are followed by the rest of their block. */
  ghost predicate PhisOk(g: Cfg) {
    forall n {:trigger PhiFollowed(g, n)} {:trigger n in g.back} :: n in g.phis * g.nodes ==>
      n !in g.back && n !in g.branching && PhiFollowed(g, n)
  }

  ghost predicate DomsOk(g: Cfg) {
    forall v, e {:trigger Dominates(g, e, v)} {:trigger e in g.doms[v]} ::
      v in g.nodes && v in g.doms ==> (e in g.doms[v] <==> Dominates(g, e, v))
  }

  ghost predicate PhiFollowed(g: Cfg, n: nat) {
    && n in g.phiNext && (n, g.phiNext[n]) in Edges(g) && g.phiNext[n] !in g.joins
    && n in g.phiRank && g.phiNext[n] in g.phiRank && g.phiRank[g.phiNext[n]] < g.phiRank[n]
  }

  ghost predicate Dominates(g: Cfg, e: nat, v: nat) {
    e != v && forall p :: FromHeader(g, p) && p[|p| - 1] == v ==> e in p
  }

  /** No edge leads from an instruction with several successors to one with several predecessors. */
  ghost predicate NoCriticalEdges(g: Cfg) {
    && (forall a, b :: (a, b) in Edges(g) && a in g.branching ==> b !in g.joins)
    && (forall a :: a in g.back ==> a !in g.branching)  // the header has several predecessors
  }

  // ---------------------------------------------------------------- paths

  /** Whatever reaches an instruction with one predecessor reaches, or is, that predecessor. */
  lemma ThroughOnlyPredecessor(g: Cfg, a: nat, y: nat, v: nat)
    requires Valid(g) && Reach(Edges(g), a, v) && (y, v) in Edges(g) && v !in g.joins
    ensures a == y || Reach(Edges(g), a, y)
  {
    var u := LastStep(Edges(g), a, v);
  }

  lemma ReachIsNode(g: Cfg, a: nat, b: nat)
    requires Valid(g) && Reach(Edges(g), a, b)
    ensures a in g.nodes && b in g.nodes
  {
    var u := FirstStep(Edges(g), a, b);
    var w := LastStep(Edges(g), a, b);
  }

  /** A table that loses nothing but by the edges' starts lists what lies on every way. */
  lemma {:induction false} TableDominates(g: Cfg, table: map<nat, set<nat>>, p: seq<nat>, k: nat)
    requires FromHeader(g, p) && k < |p| && g.header in table && table[g.header] == {}
    requires forall a, b :: (a, b) in Edges(g) ==> a in table && b in table && table[b] <= table[a] + {a}
    ensures p[k] in table && forall e :: e in table[p[k]] ==> e in p[..k]
  {
    if k > 0 {
      TableDominates(g, table, p, k - 1);
      assert (p[k - 1], p[k - 1 + 1]) in Edges(g);
      assert p[..k] == p[..k - 1] + [p[k - 1]];
    }
  }

  // ---------------------------------------------------------------- the data-flow analysis

  /** The solution of the analysis: OUT of every instruction. */
  ghost predicate IsReachability(g: Cfg, out: map<nat, set<nat>>) {
    out.Keys == g.nodes && forall a, b :: a in g.nodes ==> (b in out[a] <==> Reach(Edges(g), a, b))
  }

  /** One application of the transfer functions to instruction a, with the edge to the header cut. */
  function Transfer(g: Cfg, out: map<nat, set<nat>>, a: nat): (r: set<nat>)
    requires a in g.succ && g.succ[a] <= out.Keys
    ensures forall s :: s in g.succ[a] ==> s in r && out[s] <= r
    ensures forall x :: x in r ==> x in g.succ[a] || exists s :: s in g.succ[a] && x in out[s]
  {
    g.succ[a] + set s, x | s in g.succ[a] && x in out[s] :: x
  }

  /** OUT is only ever what the program can do. */
  ghost predicate Justified(g: Cfg, out: map<nat, set<nat>>) {
    out.Keys == g.nodes && forall a, b :: a in g.nodes && b in out[a] ==> Reach(Edges(g), a, b)
  }

  lemma TransferIsJustified(g: Cfg, out: map<nat, set<nat>>, a: nat)
    requires Valid(g) && Justified(g, out) && a in g.nodes && g.succ[a] <= out.Keys
    ensures forall x :: x in Transfer(g, out, a) ==> Reach(Edges(g), a, x)
  {
    forall x | x in Transfer(g, out, a) ensures Reach(Edges(g), a, x) {
      if x in g.succ[a] {
        assert (a, x) in Edges(g);
        EdgeReaches(Edges(g), a, x);
      } else {
        var s :| s in g.succ[a] && x in out[s];
        assert (a, s) in Edges(g);
        EdgeReaches(Edges(g), a, s);
        ReachTransitive(Edges(g), a, s, x);
      }
    }
  }

  /** The number of pairs that are still missing bounds the rounds of the analysis. */
  ghost function Missing(nodes: set<nat>, out: map<nat, set<nat>>): set<(nat, nat)>
    requires nodes <= out.Keys
  {
    set a, b | a in nodes && b in nodes && b !in out[a] :: (a, b)
  }

  /** Apply the transfer functions of one instruction. */
  method ApplyTransfer(g: Cfg, before: map<nat, set<nat>>, a: nat) returns (out: map<nat, set<nat>>, grew: bool)
    requires Valid(g) && Justified(g, before) && a in g.nodes
    ensures Justified(g, out) && forall x :: x in g.nodes ==> before[x] <= out[x]
    ensures !grew ==> out == before && Fixpoint(g, out, {a})
    ensures grew ==> Grown(g.nodes, before, out)
  {
    forall s | s in g.succ[a] ensures s in g.nodes { assert (a, s) in Edges(g); }
    out := before;
    var now := Transfer(g, out, a);
    TransferIsJustified(g, out, a);
    grew := !(now <= out[a]);
    if grew {
      ghost var b :| b in now && b !in out[a];
      out := out[a := before[a] + now];
      assert b in out[a] && b !in before[a];
      forall x, y | x in g.nodes && y in out[x] ensures Reach(Edges(g), x, y) {
        assert x != a ==> y in before[x];
      }
    }
  }

  ghost predicate Grown(nodes: set<nat>, before: map<nat, set<nat>>, out: map<nat, set<nat>>)
    requires nodes <= before.Keys && nodes <= out.Keys
  {
    exists a, b :: a in nodes && b in out[a] && b !in before[a]
  }

  /** All transfer functions, each applied once. */
  method ApplyTransfers(g: Cfg, before: map<nat, set<nat>>) returns (out: map<nat, set<nat>>, changed: bool)
    requires Valid(g) && Justified(g, before)
    ensures Justified(g, out) && forall a :: a in g.nodes ==> before[a] <= out[a]
    ensures !changed ==> out == before && Fixpoint(g, out, g.nodes)
    ensures changed ==> Grown(g.nodes, before, out)
  {
    out, changed := before, false;
    var todo := g.nodes;
    while todo != {}
      invariant todo <= g.nodes && Justified(g, out)
      invariant forall a :: a in g.nodes ==> before[a] <= out[a]
      invariant !changed ==> out == before && Fixpoint(g, out, g.nodes - todo)
      invariant changed ==> Grown(g.nodes, before, out)
    {
      var a :| a in todo;
      ghost var was := out;
      var grew;
      out, grew := ApplyTransfer(g, out, a);
      StillGrown(g.nodes, before, was, out);
      changed := changed || grew;
      todo := todo - {a};
    }
  }

  lemma StillGrown(nodes: set<nat>, a: map<nat, set<nat>>, b: map<nat, set<nat>>, c: map<nat, set<nat>>)
    requires nodes <= a.Keys && nodes <= b.Keys && nodes <= c.Keys
    requires forall x :: x in nodes ==> a[x] <= b[x] <= c[x]
    ensures Grown(nodes, a, b) || Grown(nodes, b, c) ==> Grown(nodes, a, c)
  {}

  ghost predicate Fixpoint(g: Cfg, out: map<nat, set<nat>>, done: set<nat>) {
    forall a :: a in done ==> a in g.succ && a in out && g.succ[a] <= out.Keys && Transfer(g, out, a) <= out[a]
  }

  lemma FixpointHoldsSuccessors(g: Cfg, out: map<nat, set<nat>>)
    requires Valid(g) && Fixpoint(g, out, g.nodes)
    ensures forall a, s :: (a, s) in Edges(g) ==> a in out && s in out && s in out[a] && out[s] <= out[a]
  {
    forall a, s | (a, s) in Edges(g) ensures a in out && s in out && s in out[a] && out[s] <= out[a] {
      assert Transfer(g, out, a) <= out[a];
    }
  }

  lemma LessIsMissing(g: Cfg, before: map<nat, set<nat>>, out: map<nat, set<nat>>)
    requires Valid(g) && Justified(g, before) && Justified(g, out)
    requires forall a :: a in g.nodes ==> before[a] <= out[a]
    requires Grown(g.nodes, before, out)
    ensures Missing(g.nodes, out) < Missing(g.nodes, before)
  {
    var a, b :| a in g.nodes && b in out[a] && b !in before[a];
    ReachIsNode(g, a, b);
    assert (a, b) in Missing(g.nodes, before) && (a, b) !in Missing(g.nodes, out);
  }

  /** Iterate the transfer functions until nothing changes. */
  method ComputeReachability(g: Cfg) returns (out: map<nat, set<nat>>)
    requires Valid(g)
    ensures IsReachability(g, out)
  {
    out := map a | a in g.nodes :: {};
    var changed := true;
    while changed
      invariant Justified(g, out)
      invariant !changed ==> Fixpoint(g, out, g.nodes)
      decreases Missing(g.nodes, out), changed
    {
      ghost var before := out;
      out, changed := ApplyTransfers(g, out);
      if changed { LessIsMissing(g, before, out); }
    }
    FixpointHoldsSuccessors(g, out);
    forall a, b | a in g.nodes && Reach(Edges(g), a, b) ensures b in out[a] {
      ClosedHoldsReach(Edges(g), out, a, b);
    }
  }

  /** Who can have executed before an instruction: the inverse of OUT, without the instruction itself. */
  method ComputeBeforeInstructionMap(g: Cfg, out: map<nat, set<nat>>) returns (before: map<nat, set<nat>>)
    requires Valid(g) && IsReachability(g, out)
    ensures before.Keys == g.nodes
    ensures forall a, b :: b in g.nodes ==> (a in before[b] <==> a != b && Reach(Edges(g), a, b))
  {
    before := map n | n in g.nodes :: {};
    var todo := g.nodes;
    ghost var done: set<nat> := {};
    while todo != {}
      invariant done == g.nodes - todo && before.Keys == g.nodes
      invariant forall a, b :: b in g.nodes ==> (a in before[b] <==> Precedes(out, done, a, b))
    {
      var a :| a in todo;
      ghost var old' := before;
      before := map b | b in g.nodes :: if b in out[a] && a != b then before[b] + {a} else before[b];
      done, todo := done + {a}, todo - {a};
      forall x, b | b in g.nodes ensures x in before[b] <==> Precedes(out, done, x, b) {
        assert x in old'[b] <==> Precedes(out, done - {a}, x, b);
      }
    }
    assert done == g.nodes;
    forall a, b | b in g.nodes ensures a in before[b] <==> a != b && Reach(Edges(g), a, b) {
      assert a in before[b] <==> Precedes(out, done, a, b);
      if Reach(Edges(g), a, b) { ReachIsNode(g, a, b); }
    }
  }

  ghost predicate Precedes(out: map<nat, set<nat>>, done: set<nat>, a: nat, b: nat) {
    a in done && a in out && a != b && b in out[a]
  }
}
