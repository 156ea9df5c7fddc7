/**
 From the frontiers to the synchronised loop.  Waits are put before the entries of each
 segment and signals after its exits; every iteration then follows a path on which the
 run-time protocol is correct.
 */
module HelixPlacement {
  import opened Digraph
  import opened HelixCfg
  import opened HelixRegions
  import opened HelixFrontier
  import opened HelixMachine
  import opened HelixLoop
  import Counted = HelixCounted
  import PrologueTask = HelixPrologueTask
  import Prologue = HelixPrologue

  ghost predicate AllWellPlaced(g: Cfg, segs: seq<Segment>, returns': set<nat>) {
    forall s: nat {:trigger segs[s]} :: s < |segs| ==> WellPlaced(g, segs[s], returns')
  }

  /**
   The frontiers of all segments of a loop.  Their exits are apart when no two blocks that
   have nothing to do with the same segment can execute in one iteration.
   */
  method PlaceAll(
    g: Cfg, sets: seq<set<nat>>, out: map<nat, set<nat>>, before: map<nat, set<nat>>, returns': set<nat>)
    returns (segs: seq<Segment>)
    requires Valid(g) && NoCriticalEdges(g) && IsReachability(g, out) && IsBeforeMap(g, before)
              && AreReturns(g, returns')
    requires forall s: nat :: s < |sets| ==> sets[s] != {} && sets[s] <= g.nodes - g.phis
    ensures |segs| == |sets| && forall s: nat :: s < |segs| ==> segs[s].ss == sets[s]
    ensures (forall s: nat :: s < |sets| ==> UntouchedApart(g, sets[s])) ==> AllWellPlaced(g, segs, returns')
  {
    segs := [];
    while |segs| < |sets|
      invariant PlacedSoFar(g, sets, segs, returns')
    {
      var x := PlaceOne(g, sets[|segs|], out, before, returns');
      segs := segs + [x];
    }
  }

  method PlaceOne(g: Cfg, ss: set<nat>, out: map<nat, set<nat>>, before: map<nat, set<nat>>, returns': set<nat>)
    returns (x: Segment)
    requires Valid(g) && NoCriticalEdges(g) && IsReachability(g, out) && IsBeforeMap(g, before)
    requires AreReturns(g, returns') && ss != {} && ss <= g.nodes - g.phis
    ensures x.ss == ss && (UntouchedApart(g, ss) ==> WellPlaced(g, x, returns'))
  {
    var segment := new SequentialSegment(g, ss, out, before, returns');
    x := Segment(segment.ss, segment.entries, segment.exits);
  }

  /** The first segments have their frontiers. */
  ghost predicate PlacedSoFar(g: Cfg, sets: seq<set<nat>>, segs: seq<Segment>, returns': set<nat>)
    requires Valid(g)
  {
    && |segs| <= |sets|
    && forall s: nat {:trigger segs[s]} :: s < |segs| ==>
         segs[s].ss == sets[s] && (UntouchedApart(g, sets[s]) ==> WellPlaced(g, segs[s], returns'))
  }

  /** The waits at instruction n for the first k segments. */
  function Waits(segs: seq<Segment>, n: nat, k: nat): seq<Op>
    requires k <= |segs|
  {
    if k == 0 then []
    else Waits(segs, n, k - 1) + if n in segs[k - 1].entries then [Enter(k - 1)] else []
  }

  function Accesses(segs: seq<Segment>, n: nat, k: nat): seq<Op>
    requires k <= |segs|
  {
    if k == 0 then []
    else Accesses(segs, n, k - 1) + if n in segs[k - 1].ss then [Access(k - 1)] else []
  }

  function Signals(segs: seq<Segment>, n: nat, k: nat): seq<Op>
    requires k <= |segs|
  {
    if k == 0 then []
    else Signals(segs, n, k - 1) + if n in segs[k - 1].exits then [Leave(k - 1)] else []
  }

  /** What a core does at instruction n: waits before it, the instruction itself, signals after it. */
  function OpsAt(segs: seq<Segment>, n: nat): seq<Op> {
    Waits(segs, n, |segs|) + (Accesses(segs, n, |segs|) + [Local] + Signals(segs, n, |segs|))
  }

  /** What a core does along a way through an iteration. */
  function OpsOf(segs: seq<Segment>, p: seq<nat>): seq<Op> {
    if p == [] then [] else OpsOf(segs, p[..|p| - 1]) + OpsAt(segs, p[|p| - 1])
  }

  lemma {:induction false} WaitsHold(segs: seq<Segment>, n: nat, k: nat)
    requires k <= |segs|
    ensures forall o :: o in Waits(segs, n, k) <==> o.Enter? && o.seg < k && n in segs[o.seg].entries
  {
    if k > 0 { WaitsHold(segs, n, k - 1); }
  }

  lemma {:induction false} AccessesHold(segs: seq<Segment>, n: nat, k: nat)
    requires k <= |segs|
    ensures forall o :: o in Accesses(segs, n, k) <==> o.Access? && o.seg < k && n in segs[o.seg].ss
  {
    if k > 0 { AccessesHold(segs, n, k - 1); }
  }

  /** Each segment is signalled at most once at an instruction. */
  lemma {:induction false} SignalsHold(segs: seq<Segment>, n: nat, k: nat)
    requires k <= |segs|
    ensures forall o :: o in Signals(segs, n, k) <==> o.Leave? && o.seg < k && n in segs[o.seg].exits
    ensures forall i, j :: 0 <= i < j < |Signals(segs, n, k)| ==> Signals(segs, n, k)[i] != Signals(segs, n, k)[j]
  {
    if k > 0 {
      SignalsHold(segs, n, k - 1);
      var sofar := Signals(segs, n, k - 1);
      forall i | 0 <= i < |sofar| ensures sofar[i] != Leave(k - 1) { assert sofar[i] in sofar; }
    }
  }

  lemma OpsAtHold(segs: seq<Segment>, n: nat, s: nat)
    requires s < |segs|
    ensures Enter(s) in OpsAt(segs, n) <==> n in segs[s].entries
    ensures Leave(s) in OpsAt(segs, n) <==> n in segs[s].exits
  {
    WaitsHold(segs, n, |segs|);
    AccessesHold(segs, n, |segs|);
    SignalsHold(segs, n, |segs|);
  }

  /** The way passes an instruction of x. */
  ghost predicate Meets(p: seq<nat>, x: set<nat>) {
    exists i :: 0 <= i < |p| && p[i] in x
  }

  lemma MeetsLast(p: seq<nat>, x: set<nat>)
    requires p != []
    ensures Meets(p, x) <==> Meets(p[..|p| - 1], x) || p[|p| - 1] in x
  {
    var n := |p| - 1;
    if Meets(p[..n], x) {
      var i :| 0 <= i < n && p[..n][i] in x;
      assert p[i] in x;
    }
    if Meets(p, x) && p[n] !in x {
      var i :| 0 <= i < |p| && p[i] in x;
      assert p[..n][i] in x;
    }
  }

  /** Waits and signals of the whole way are those at its instructions. */
  lemma {:induction false} OpsHold(segs: seq<Segment>, p: seq<nat>, s: nat)
    requires s < |segs|
    ensures Enter(s) in OpsOf(segs, p) <==> Meets(p, segs[s].entries)
    ensures Leave(s) in OpsOf(segs, p) <==> Meets(p, segs[s].exits)
    decreases |p|
  {
    if p != [] {
      OpsHold(segs, p[..|p| - 1], s);
      OpsAtHold(segs, p[|p| - 1], s);
      MeetsLast(p, segs[s].entries);
      MeetsLast(p, segs[s].exits);
    }
  }

  // ---------------------------------------------------------------- the path is good

  lemma InIsOnPath(ops: seq<Op>, o: Op)
    ensures OnPath(ops, o, |ops|) <==> o in ops
  {
    if o in ops {
      var a :| 0 <= a < |ops| && ops[a] == o;
    }
  }

  /** One more operation. */
  lemma Append(ops: seq<Op>, segments: nat, o: Op)
    requires PathOk(ops, segments)
    requires match o
             case Enter(s) => s < segments
             case Access(s) => s < segments && Enter(s) in ops && Leave(s) !in ops
             case Leave(s) => s < segments && Enter(s) in ops && Leave(s) !in ops
             case Local => true
             case _ => false
    ensures PathOk(ops + [o], segments)
  {
    var now := ops + [o];
    forall j: nat | j < |now| ensures StepOk(now, segments, j) {
      if j < |ops| {
        assert StepOk(ops, segments, j);
        forall x ensures OnPath(now, x, j) <==> OnPath(ops, x, j) { SamePrefix(ops, o, x, j); }
      } else {
        forall x ensures OnPath(now, x, j) <==> x in ops {
          InIsOnPath(ops, x);
          SamePrefix(ops, o, x, j);
        }
      }
    }
  }

  lemma SamePrefix(ops: seq<Op>, o: Op, x: Op, j: nat)
    requires j <= |ops|
    ensures OnPath(ops + [o], x, j) <==> OnPath(ops, x, j)
  {
    if OnPath(ops, x, j) {
      var a: nat :| a < j && ops[a] == x;
      assert (ops + [o])[a] == x;
    }
    if OnPath(ops + [o], x, j) {
      var a: nat :| a < j && (ops + [o])[a] == x;
      assert ops[a] == x;
    }
  }

  lemma {:induction false} AppendWaits(ops: seq<Op>, w: seq<Op>, segments: nat)
    requires PathOk(ops, segments) && forall o :: o in w ==> o.Enter? && o.seg < segments
    ensures PathOk(ops + w, segments)
    decreases |w|
  {
    if w == [] {
      assert ops + w == ops;
    } else {
      var n := |w| - 1;
      AppendWaits(ops, w[..n], segments);
      assert w[n] in w;
      Append(ops + w[..n], segments, w[n]);
      assert ops + w[..n] + [w[n]] == ops + w;
    }
  }

  lemma {:induction false} AppendAccesses(ops: seq<Op>, a: seq<Op>, segments: nat)
    requires PathOk(ops, segments)
    requires forall o :: o in a ==> o.Access? && o.seg < segments && Enter(o.seg) in ops && Leave(o.seg) !in ops
    ensures PathOk(ops + a, segments)
    decreases |a|
  {
    if a == [] {
      assert ops + a == ops;
    } else {
      var n := |a| - 1;
      AppendAccesses(ops, a[..n], segments);
      assert a[n] in a;
      forall o | o in a[..n] ensures o != Leave(a[n].seg) { assert o in a; }
      Append(ops + a[..n], segments, a[n]);
      assert ops + a[..n] + [a[n]] == ops + a;
    }
  }

  lemma {:induction false} AppendSignals(ops: seq<Op>, l: seq<Op>, segments: nat)
    requires PathOk(ops, segments) && forall i, j :: 0 <= i < j < |l| ==> l[i] != l[j]
    requires forall o :: o in l ==> o.Leave? && o.seg < segments && Enter(o.seg) in ops && Leave(o.seg) !in ops
    ensures PathOk(ops + l, segments)
    decreases |l|
  {
    if l == [] {
      assert ops + l == ops;
    } else {
      var n := |l| - 1;
      AppendSignals(ops, l[..n], segments);
      assert l[n] in l;
      assert l[n] !in l[..n];
      Append(ops + l[..n], segments, l[n]);
      assert ops + l[..n] + [l[n]] == ops + l;
    }
  }

  /** What an iteration has done before the first instruction of its body: waits and checks. */
  ghost predicate IsFront(pre: seq<Op>, segments: nat) {
    PathOk(pre, segments) && forall o :: o in pre ==> !o.Leave?
  }

  /** Segment s needs no entries if it has been waited for in front of the body. */
  ghost predicate PlacedBehind(g: Cfg, x: Segment, returns': set<nat>, entered: bool) {
    && ExitsAreSafe(g, x.ss, x.exits) && Apart(g, x.exits - returns')
    && (entered || (EntriesCover(g, x.ss, x.entries) && EntriesBeforeExits(g, x.entries, x.exits - returns')))
  }

  ghost predicate AllPlacedBehind(g: Cfg, segs: seq<Segment>, returns': set<nat>, pre: seq<Op>) {
    forall s: nat {:trigger segs[s]} :: s < |segs| ==> PlacedBehind(g, segs[s], returns', Enter(s) in pre)
  }

  /** At an instruction of segment s, or at one of its exits, s has been entered and not left. */
  lemma InsideAt(g: Cfg, segs: seq<Segment>, returns': set<nat>, pre: seq<Op>, p: seq<nat>, s: nat)
    requires AllPlacedBehind(g, segs, returns', pre) && FromHeader(g, p) && s < |segs|
    requires forall n :: n in p ==> n !in returns'
    requires var n := p[|p| - 1]; n in segs[s].ss || n in segs[s].exits
    ensures Enter(s) in pre || Meets(p, segs[s].entries)
    ensures !Meets(p[..|p| - 1], segs[s].exits)
  {
    assert PlacedBehind(g, segs[s], returns', Enter(s) in pre);
    var n := p[|p| - 1];
    assert n in p;
    if Enter(s) !in pre {
      if n in segs[s].exits { assert Covered(g, segs[s].entries, n); }
      var k: nat :| k < |p| && p[k] in segs[s].entries;
    }
    forall i: nat | i < |p| - 1 ensures p[i] !in segs[s].exits {
      PathReaches(Edges(g), p, i, |p| - 1);
      assert p[i] in p;
    }
  }

  /** After the waits at the last instruction of p, s is entered and not left if the instruction needs it. */
  lemma InsideAfterWaits(g: Cfg, segs: seq<Segment>, returns': set<nat>, pre: seq<Op>, p: seq<nat>, s: nat)
    requires AllPlacedBehind(g, segs, returns', pre) && IsFront(pre, |segs|) && FromHeader(g, p) && s < |segs|
    requires forall n :: n in p ==> n !in returns'
    requires var n := p[|p| - 1]; n in segs[s].ss || n in segs[s].exits
    ensures var so := pre + OpsOf(segs, p[..|p| - 1]) + Waits(segs, p[|p| - 1], |segs|);
            Enter(s) in so && Leave(s) !in so
  {
    InsideAt(g, segs, returns', pre, p, s);
    OpsHold(segs, p[..|p| - 1], s);
    WaitsHold(segs, p[|p| - 1], |segs|);
    MeetsLast(p, segs[s].entries);
    assert p[|p| - 1] in segs[s].entries ==> Enter(s) in Waits(segs, p[|p| - 1], |segs|);
  }

  /** At instruction n `last` does no more than segs, with the same waits. */
  ghost predicate NoMoreAt(segs: seq<Segment>, last: seq<Segment>, n: nat) {
    && |last| == |segs| && Waits(last, n, |last|) == Waits(segs, n, |segs|)
    && forall s: nat {:trigger last[s]} ::
         s < |last| && (n in last[s].ss || n in last[s].exits) ==> n in segs[s].ss || n in segs[s].exits
  }

  /** One more instruction on the way, at which some signals may be left out. */
  lemma NextIsGood(
    g: Cfg, segs: seq<Segment>, returns': set<nat>, pre: seq<Op>, p: seq<nat>, last: seq<Segment>)
    requires AllPlacedBehind(g, segs, returns', pre) && IsFront(pre, |segs|) && FromHeader(g, p)
    requires forall n :: n in p ==> n !in returns'
    requires PathOk(pre + OpsOf(segs, p[..|p| - 1]), |segs|) && NoMoreAt(segs, last, p[|p| - 1])
    ensures PathOk(pre + (OpsOf(segs, p[..|p| - 1]) + OpsAt(last, p[|p| - 1])), |segs|)
  {
    var n, ops := p[|p| - 1], pre + OpsOf(segs, p[..|p| - 1]);
    forall s: nat | s < |last| && (n in last[s].ss || n in last[s].exits)
      ensures Enter(s) in ops + Waits(last, n, |last|) && Leave(s) !in ops + Waits(last, n, |last|)
    {
      InsideAfterWaits(g, segs, returns', pre, p, s);
    }
    InstructionIsGood(last, n, ops);
    Regroup(pre, OpsOf(segs, p[..|p| - 1]), OpsAt(last, n));
  }

  lemma Regroup(a: seq<Op>, b: seq<Op>, c: seq<Op>)
    ensures a + b + c == a + (b + c)
  {}

  /** The operations along every way through an iteration follow the protocol. */
  lemma {:induction false} WayIsGood(g: Cfg, segs: seq<Segment>, returns': set<nat>, pre: seq<Op>, p: seq<nat>)
    requires AllPlacedBehind(g, segs, returns', pre) && IsFront(pre, |segs|) && (p == [] || FromHeader(g, p))
    requires forall n :: n in p ==> n !in returns'
    ensures PathOk(pre + OpsOf(segs, p), |segs|)
    decreases |p|
  {
    if p == [] {
      assert pre + OpsOf(segs, p) == pre;
    } else {
      var k := |p| - 1;
      if k > 0 { SubPath(Edges(g), p, 0, k); }
      WayIsGood(g, segs, returns', pre, p[..k]);
      NextIsGood(g, segs, returns', pre, p, segs);
    }
  }

  /** One more instruction. */
  lemma InstructionIsGood(segs: seq<Segment>, n: nat, ops: seq<Op>)
    requires PathOk(ops, |segs|)
    requires forall s: nat :: s < |segs| && (n in segs[s].ss || n in segs[s].exits) ==>
               Enter(s) in ops + Waits(segs, n, |segs|) && Leave(s) !in ops + Waits(segs, n, |segs|)
    ensures PathOk(ops + OpsAt(segs, n), |segs|)
  {
    var so := ops + Waits(segs, n, |segs|);
    WaitsHold(segs, n, |segs|);
    AppendWaits(ops, Waits(segs, n, |segs|), |segs|);
    RestIsGood(segs, n, so);
    assert ops + OpsAt(segs, n) == so + (Accesses(segs, n, |segs|) + [Local] + Signals(segs, n, |segs|));
  }

  lemma RestIsGood(segs: seq<Segment>, n: nat, so: seq<Op>)
    requires PathOk(so, |segs|)
    requires forall s: nat :: s < |segs| && (n in segs[s].ss || n in segs[s].exits) ==>
              Enter(s) in so && Leave(s) !in so
    ensures PathOk(so + (Accesses(segs, n, |segs|) + [Local] + Signals(segs, n, |segs|)), |segs|)
  {
    var a, l := Accesses(segs, n, |segs|), Signals(segs, n, |segs|);
    AccessesHold(segs, n, |segs|);
    SignalsHold(segs, n, |segs|);
    AppendAccesses(so, a, |segs|);
    Append(so + a, |segs|, Local);
    AppendSignals(so + a + [Local], l, |segs|);
    assert so + a + [Local] + l == so + (a + [Local] + l);
  }

  /** A complete iteration does not return from the function. */
  lemma NoReturnOnWay(g: Cfg, returns': set<nat>, p: seq<nat>)
    requires AreReturns(g, returns') && FromHeader(g, p) && p[|p| - 1] !in returns'
    ensures forall n :: n in p ==> n !in returns'
  {
    forall i: nat | i < |p| ensures p[i] !in returns' {
      if i < |p| - 1 { assert (p[i], p[i + 1]) in Edges(g); }
    }
  }

  lemma LeavesOnWay(g: Cfg, segs: seq<Segment>, pre: seq<Op>, p: seq<nat>)
    requires Iteration(g, p) && forall s: nat {:trigger segs[s]} :: s < |segs| ==> ExitsCover(g, segs[s].exits)
    ensures LeavesAll(pre + OpsOf(segs, p), |segs|)
  {
    var ops := pre + OpsOf(segs, p);
    forall s: nat | s < |segs| ensures OnPath(ops, Leave(s), |ops|) {
      var k: nat :| k < |p| && p[k] in segs[s].exits;
      assert Meets(p, segs[s].exits);
      OpsHold(segs, p, s);
      InIsOnPath(ops, Leave(s));
    }
  }

  /**
   The frontiers give what the run-time protocol needs: along every complete iteration
   cells are accessed between the wait and the signal of their segment, each segment is
   signalled once, and no segment is forgotten.
   */
  lemma FrontiersSynchronise(g: Cfg, segs: seq<Segment>, returns': set<nat>, p: seq<nat>)
    requires AreReturns(g, returns') && AllWellPlaced(g, segs, returns') && Iteration(g, p)
    ensures PathOk(OpsOf(segs, p), |segs|) && LeavesAll(OpsOf(segs, p), |segs|)
  {
    NoReturnOnWay(g, returns', p);
    forall s: nat | s < |segs| ensures PlacedBehind(g, segs[s], returns', false) && ExitsCover(g, segs[s].exits) {
      assert WellPlaced(g, segs[s], returns');
    }
    WayIsGood(g, segs, returns', [], p);
    LeavesOnWay(g, segs, [], p);
    assert [] + OpsOf(segs, p) == OpsOf(segs, p);
  }

  // ---------------------------------------------------------------- the sequential prologue

  /** The prologue is waited for at the header only. */
  function Fronted(segs: seq<Segment>, gate: nat): seq<Segment>
    requires gate < |segs|
  {
    segs[gate := segs[gate].(entries := {})]
  }

  /** Behind a branch that leaves the loop the prologue is signalled in the exit block, after the flag is set. */
  function Behind(segs: seq<Segment>, gate: nat, n: nat): seq<Segment>
    requires gate < |segs|
  {
    segs[gate := segs[gate].(exits := segs[gate].exits - {n})]
  }

  /** A way from the header to a branch of the prologue that leaves the loop. */
  ghost predicate ExitingWay(g: Cfg, segs: seq<Segment>, gate: nat, returns': set<nat>, p: seq<nat>) {
    FromHeader(g, p) && gate < |segs| && p[|p| - 1] in segs[gate].ss && p[|p| - 1] !in returns'
  }

  /** What a core does along such a way until it is in the exit block. */
  function OpsOfExiting(segs: seq<Segment>, gate: nat, p: seq<nat>): seq<Op>
    requires gate < |segs| && p != []
  {
    OpsOf(segs, p[..|p| - 1]) + OpsAt(Behind(segs, gate, p[|p| - 1]), p[|p| - 1])
  }

  lemma FrontedIsPlaced(g: Cfg, segs: seq<Segment>, gate: nat, returns': set<nat>)
    requires AllWellPlaced(g, segs, returns') && gate < |segs|
    ensures IsFront([Enter(gate), Local], |segs|)
    ensures AllPlacedBehind(g, Fronted(segs, gate), returns', [Enter(gate), Local])
    ensures forall s: nat {:trigger Fronted(segs, gate)[s]} :: s < |segs| ==>
            ExitsCover(g, Fronted(segs, gate)[s].exits)
  {
    forall s: nat | s < |segs|
      ensures PlacedBehind(g, Fronted(segs, gate)[s], returns', Enter(s) in [Enter(gate), Local])
      ensures ExitsCover(g, Fronted(segs, gate)[s].exits)
    {
      assert WellPlaced(g, segs[s], returns');
    }
  }

  /** Complete iterations, behind the wait at the header and the check of the flag. */
  lemma FrontiersSynchroniseBehindGate(g: Cfg, segs: seq<Segment>, gate: nat, returns': set<nat>, p: seq<nat>)
    requires AreReturns(g, returns') && AllWellPlaced(g, segs, returns') && gate < |segs| && Iteration(g, p)
    ensures var ops := [Enter(gate), Local] + OpsOf(Fronted(segs, gate), p);
            PathOk(ops, |segs|) && LeavesAll(ops, |segs|)
  {
    NoReturnOnWay(g, returns', p);
    FrontedIsPlaced(g, segs, gate, returns');
    WayIsGood(g, Fronted(segs, gate), returns', [Enter(gate), Local], p);
    LeavesOnWay(g, Fronted(segs, gate), [Enter(gate), Local], p);
  }

  lemma {:induction false} SameWaits(segs: seq<Segment>, gate: nat, n: nat, k: nat)
    requires gate < |segs| && k <= |segs|
    ensures Waits(Behind(segs, gate, n), n, k) == Waits(segs, n, k)
  {
    if k > 0 { SameWaits(segs, gate, n, k - 1); }
  }

  lemma LessToLeave(segs: seq<Segment>, gate: nat, n: nat, s: nat)
    requires gate < |segs| && s < |segs|
    ensures var last := Behind(segs, gate, n);
            |last| == |segs| && last[s].ss == segs[s].ss && last[s].exits <= segs[s].exits
  {}

  /** The last instruction of an exiting way, with the prologue's signal left to the exit block. */
  lemma LeftToExitBlock(segs: seq<Segment>, gate: nat, n: nat)
    requires gate < |segs|
    ensures NoMoreAt(segs, Behind(segs, gate, n), n)
  {
    SameWaits(segs, gate, n, |segs|);
    forall s: nat | s < |segs| { LessToLeave(segs, gate, n, s); }
  }

  /** The prologue is not signalled on a way to one of its instructions. */
  lemma GateNotLeft(g: Cfg, segs: seq<Segment>, gate: nat, returns': set<nat>, pre: seq<Op>, p: seq<nat>)
    requires AllPlacedBehind(g, segs, returns', pre) && IsFront(pre, |segs|) && FromHeader(g, p) && gate < |segs|
    requires forall n :: n in p ==> n !in returns'
    requires p[|p| - 1] in segs[gate].ss
    ensures Leave(gate) !in pre + OpsOfExiting(segs, gate, p)
  {
    InsideAt(g, segs, returns', pre, p, gate);
    OpsHold(segs, p[..|p| - 1], gate);
    OpsAtHold(Behind(segs, gate, p[|p| - 1]), p[|p| - 1], gate);
  }

  /** The iteration that leaves the loop keeps the protocol, and does not signal the prologue before it has left. */
  lemma FrontiersSynchroniseExiting(g: Cfg, segs: seq<Segment>, gate: nat, returns': set<nat>, p: seq<nat>)
    requires AreReturns(g, returns') && AllWellPlaced(g, segs, returns') && ExitingWay(g, segs, gate, returns', p)
    ensures var ops := [Enter(gate), Local] + OpsOfExiting(Fronted(segs, gate), gate, p);
            PathOk(ops, |segs|) && Leave(gate) !in ops
  {
    var f, pre, k := Fronted(segs, gate), [Enter(gate), Local], |p| - 1;
    NoReturnOnWay(g, returns', p);
    FrontedIsPlaced(g, segs, gate, returns');
    if k > 0 { SubPath(Edges(g), p, 0, k); }
    WayIsGood(g, f, returns', pre, p[..k]);
    LeftToExitBlock(f, gate, p[k]);
    NextIsGood(g, f, returns', pre, p, Behind(f, gate, p[k]));
    GateNotLeft(g, f, gate, returns', pre, p);
  }

  // ---------------------------------------------------------------- from placement to the final memory

  /** Every iteration of the loop performs the operations along some complete way through the body. */
  ghost predicate FollowsFrontiers<L(!new), V(!new)>(
    g: Cfg, segs: seq<Segment>, loop: Loop<L, V>, trips: nat, len: nat -> nat)
  {
    && |loop.mem0| == loop.segments == |segs|
    && forall i: nat {:trigger TakesWay(g, segs, loop, len, i)} :: i < trips ==> TakesWay(g, segs, loop, len, i)
  }

  ghost predicate TakesWay<L(!new), V(!new)>(
    g: Cfg, segs: seq<Segment>, loop: Loop<L, V>, len: nat -> nat, i: nat)
  {
    && loop.op(Body(loop, len, i, len(i)).0) == Next
    && exists p :: Iteration(g, p) && HelixLoop.Path(loop, len, i) == OpsOf(segs, p)
  }

  lemma FrontiersSynchroniseLoop<L(!new), V(!new)>(
    g: Cfg, segs: seq<Segment>, returns': set<nat>, loop: Loop<L, V>, trips: nat, len: nat -> nat)
    requires AreReturns(g, returns') && AllWellPlaced(g, segs, returns') && FollowsFrontiers(g, segs, loop, trips, len)
    ensures Counted.Synchronised(loop, trips, len)
  {
    forall i: nat | i < trips ensures Counted.EndsIteration(loop, len, i) {
      assert TakesWay(g, segs, loop, len, i);
      var p :| Iteration(g, p) && HelixLoop.Path(loop, len, i) == OpsOf(segs, p);
      FrontiersSynchronise(g, segs, returns', p);
    }
  }

  /**
   From the compiler's placement to the run time: a counted loop whose waits and signals
   are put at such frontiers ends, on any number of cores and under every interleaving,
   with the memory of the sequential loop.
   */
  lemma PlacementRefinesSequentialLoop<L(!new), V(!new)>(
    g: Cfg, segs: seq<Segment>, returns': set<nat>, loop: Loop<L, V>, cores: nat, trips: nat, len: nat -> nat,
    run: seq<State<Counted.Ctl<L>, V>>)
    requires AreReturns(g, returns') && AllWellPlaced(g, segs, returns') && FollowsFrontiers(g, segs, loop, trips, len)
    requires 0 < cores
    requires IsRun(Counted.TaskOf(loop, cores, trips), run) && AllHalted(Counted.TaskOf(loop, cores, trips), Last(run))
    ensures Last(run).mem == LoopMem(loop, len, trips)
    ensures forall s: nat :: s < loop.segments ==> Last(run).done[s] == trips + cores
  {
    FrontiersSynchroniseLoop(g, segs, returns', loop, trips, len);
    Counted.RefinesSequentialLoop(loop, cores, trips, len, run);
  }

  /**
   The iterations before `exit` take complete ways, and iteration `exit` leaves the loop by a
   branch of the prologue.
   */
  ghost predicate FollowsPrologue<L(!new), V(!new)>(
    g: Cfg, segs: seq<Segment>, gate: nat, returns': set<nat>, loop: Loop<L, V>, exit: nat, len: nat -> nat)
  {
    && |loop.mem0| == loop.segments == |segs| && gate < |segs|
    && (forall i: nat {:trigger TakesWay(g, Fronted(segs, gate), loop, len, i)} ::
          i < exit ==> TakesWay(g, Fronted(segs, gate), loop, len, i))
    && loop.op(Body(loop, len, exit, len(exit)).0) == Halt
    && exists p :: ExitingWay(g, segs, gate, returns', p)
                   && HelixLoop.Path(loop, len, exit) == OpsOfExiting(Fronted(segs, gate), gate, p)
  }

  /** A complete iteration of a loop with a prologue. */
  ghost predicate KeepsProtocol<L(!new), V(!new)>(loop: Loop<L, V>, gate: nat, len: nat -> nat, i: nat) {
    && PathOk(PrologueTask.FullPath(loop, gate, len, i), loop.segments)
    && LeavesAll(PrologueTask.FullPath(loop, gate, len, i), loop.segments)
    && PrologueTask.EndsWith(loop, len, i, Next)
  }

  lemma IsSynchronised<L(!new), V(!new)>(loop: Loop<L, V>, gate: nat, exit: nat, len: nat -> nat)
    requires |loop.mem0| == loop.segments && gate < loop.segments
    requires forall i: nat {:trigger KeepsProtocol(loop, gate, len, i)} :: i < exit ==>
              KeepsProtocol(loop, gate, len, i)
    requires PathOk(PrologueTask.FullPath(loop, gate, len, exit), loop.segments)
    requires PrologueTask.EndsWith(loop, len, exit, Halt)
    requires !OnPath(PrologueTask.FullPath(loop, gate, len, exit), Leave(gate), 2 + len(exit))
    ensures PrologueTask.Synchronised(loop, gate, exit, len)
  {
    forall i: nat | i <= exit ensures PathOk(PrologueTask.FullPath(loop, gate, len, i), loop.segments) {
      if i < exit { assert KeepsProtocol(loop, gate, len, i); }
    }
    forall i: nat | i < exit
      ensures LeavesAll(PrologueTask.FullPath(loop, gate, len, i), loop.segments)
      ensures PrologueTask.EndsWith(loop, len, i, Next)
    {
      assert KeepsProtocol(loop, gate, len, i);
    }
  }

  lemma EarlierIteration<L(!new), V(!new)>(
    g: Cfg, segs: seq<Segment>, gate: nat, returns': set<nat>, loop: Loop<L, V>, len: nat -> nat, i: nat)
    requires AreReturns(g, returns') && AllWellPlaced(g, segs, returns') && gate < |segs|
    requires TakesWay(g, Fronted(segs, gate), loop, len, i)
    requires |segs| == loop.segments
    ensures KeepsProtocol(loop, gate, len, i)
  {
    var p :| Iteration(g, p) && HelixLoop.Path(loop, len, i) == OpsOf(Fronted(segs, gate), p);
    FrontiersSynchroniseBehindGate(g, segs, gate, returns', p);
  }

  lemma ExitingIteration<L(!new), V(!new)>(
    g: Cfg, segs: seq<Segment>, gate: nat, returns': set<nat>, loop: Loop<L, V>, exit: nat, len: nat -> nat)
    requires AreReturns(g, returns') && AllWellPlaced(g, segs, returns')
    requires FollowsPrologue(g, segs, gate, returns', loop, exit, len)
    ensures PathOk(PrologueTask.FullPath(loop, gate, len, exit), |segs|)
    ensures !OnPath(PrologueTask.FullPath(loop, gate, len, exit), Leave(gate), 2 + len(exit))
  {
    var p :| ExitingWay(g, segs, gate, returns', p)
             && HelixLoop.Path(loop, len, exit) == OpsOfExiting(Fronted(segs, gate), gate, p);
    FrontiersSynchroniseExiting(g, segs, gate, returns', p);
    InIsOnPath(PrologueTask.FullPath(loop, gate, len, exit), Leave(gate));
  }

  lemma FrontiersSynchronisePrologue<L(!new), V(!new)>(
    g: Cfg, segs: seq<Segment>, gate: nat, returns': set<nat>, loop: Loop<L, V>, exit: nat, len: nat -> nat)
    requires AreReturns(g, returns') && AllWellPlaced(g, segs, returns')
    requires FollowsPrologue(g, segs, gate, returns', loop, exit, len)
    ensures PrologueTask.Synchronised(loop, gate, exit, len)
  {
    forall i: nat | i < exit ensures KeepsProtocol(loop, gate, len, i) {
      assert TakesWay(g, Fronted(segs, gate), loop, len, i);
      EarlierIteration(g, segs, gate, returns', loop, len, i);
    }
    ExitingIteration(g, segs, gate, returns', loop, exit, len);
    IsSynchronised(loop, gate, exit, len);
  }

  /** The same for a loop with a sequential prologue: the exiting iteration is the last one that takes effect. */
  lemma PlacementRefinesPrologueLoop<L(!new), V(!new)>(
    g: Cfg, segs: seq<Segment>, gate: nat, returns': set<nat>, loop: Loop<L, V>, cores: nat, exit: nat,
    len: nat -> nat, run: seq<State<PrologueTask.Ctl<L>, V>>)
    requires AreReturns(g, returns') && AllWellPlaced(g, segs, returns') && 0 < cores
    requires FollowsPrologue(g, segs, gate, returns', loop, exit, len)
    requires IsRun(PrologueTask.TaskOf(loop, cores, gate), run)
    requires AllHalted(PrologueTask.TaskOf(loop, cores, gate), Last(run))
    ensures Last(run).mem == LoopMem(loop, len, exit + 1)
    ensures forall s: nat :: s < loop.segments ==>
                               Last(run).done[s] == if s == gate then exit + cores else exit + 1
  {
    FrontiersSynchronisePrologue(g, segs, gate, returns', loop, exit, len);
    Prologue.RefinesSequentialLoop(loop, cores, gate, exit, len, run);
  }
}
