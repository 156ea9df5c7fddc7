/**
 HELIX for a loop whose trip count is known: no sequential prologue.  A core leaves at
 its first iteration past the bound, where the exit block waits for every segment,
 last one first, and then signals every segment.
 */
module HelixCounted {
  import opened HelixMachine
  import opened HelixLoop
  import opened HelixOrder
  import opened HelixRuns

  datatype Ctl<L> = InBody(l: L) | InExit(k: nat)

  function OpOf<L(!new), V(!new)>(loop: Loop<L, V>, c: Ctl<L>): Op {
    match c
    case InBody(l) => loop.op(l)
    case InExit(k) =>
      if k < loop.segments then Enter(loop.segments - 1 - k)
      else if k < 2 * loop.segments then Leave(k - loop.segments)
      else Halt
  }

  function AdvanceOf<L(!new), V(!new)>(loop: Loop<L, V>, c: Ctl<L>): Ctl<L> {
    if c.InBody? then InBody(loop.advance(c.l)) else InExit(c.k + 1)
  }

  function AccessOf<L(!new), V(!new)>(loop: Loop<L, V>, c: Ctl<L>, v: V): (Ctl<L>, V) {
    if c.InBody? then (InBody(loop.onAccess(c.l, v).0), loop.onAccess(c.l, v).1) else (c, v)
  }

  function StartOf<L(!new), V(!new)>(loop: Loop<L, V>, trips: nat, i: nat): Ctl<L> {
    if i < trips then InBody(loop.locals(i)) else InExit(0)
  }

  function TaskOf<L(!new), V(!new)>(loop: Loop<L, V>, cores: nat, trips: nat): Task<Ctl<L>, V> {
    Task(cores, cores, loop.segments, loop.mem0,
         (i: nat) => StartOf(loop, trips, i),
         c => OpOf(loop, c),
         c => AdvanceOf(loop, c),
         (c, over) => c,
         (c, v) => AccessOf(loop, c, v))
  }

  ghost function BoundsOf<L(!new), V(!new)>(loop: Loop<L, V>, cores: nat, trips: nat, len: nat -> nat): Bounds
    requires 0 < cores
  {
    Bounds(trips,
           (s: nat) => trips + cores - 1,
           (i: nat) => if i < trips then len(i) else 2 * loop.segments,
           true, false, 0)
  }

  /** The task and its bounds, by what they do. */
  ghost predicate Fits<L(!new), V(!new)>(
    t: Task<Ctl<L>, V>, b: Bounds, loop: Loop<L, V>, cores: nat, trips: nat, len: nat -> nat)
  {
    && 0 < cores && t.cores == cores && t.segments == loop.segments && t.mem0 == loop.mem0
    && (forall i: nat {:trigger StartOf(loop, trips, i)} :: t.start(i) == StartOf(loop, trips, i))
    && (forall c {:trigger OpOf(loop, c)} :: t.op(c) == OpOf(loop, c))
    && (forall c {:trigger AdvanceOf(loop, c)} :: t.advance(c) == AdvanceOf(loop, c))
    && (forall c, v {:trigger AccessOf(loop, c, v)} :: t.onAccess(c, v) == AccessOf(loop, c, v))
    && b.final == trips && b.strict && !b.guarded
    && (forall s: nat {:trigger b.cap(s)} :: b.cap(s) == trips + cores - 1)
    && (forall i: nat {:trigger b.length(i)} :: b.length(i) == if i < trips then len(i) else 2 * loop.segments)
  }

  lemma TaskFits<L(!new), V(!new)>(loop: Loop<L, V>, cores: nat, trips: nat, len: nat -> nat)
    requires 0 < cores
    ensures Fits(TaskOf(loop, cores, trips), BoundsOf(loop, cores, trips, len), loop, cores, trips, len)
  {}

  ghost predicate EndsIteration<L(!new), V(!new)>(loop: Loop<L, V>, len: nat -> nat, i: nat) {
    && loop.op(Body(loop, len, i, len(i)).0) == Next
    && PathOk(Path(loop, len, i), loop.segments)
    && LeavesAll(Path(loop, len, i), loop.segments)
  }

  /** Every iteration reaches its back edge along a path that enters, uses and leaves each segment once. */
  ghost predicate Synchronised<L(!new), V(!new)>(loop: Loop<L, V>, trips: nat, len: nat -> nat) {
    && |loop.mem0| == loop.segments
    && forall i: nat {:trigger EndsIteration(loop, len, i)} :: i < trips ==> EndsIteration(loop, len, i)
  }

  /** In the machine's sequential execution the first iterations are those of the loop. */
  lemma {:induction false} SeqIsLoop<L(!new), V(!new)>(
    t: Task<Ctl<L>, V>, b: Bounds, loop: Loop<L, V>, cores: nat, trips: nat, len: nat -> nat, i: nat, j: nat)
    requires Fits(t, b, loop, cores, trips, len) && Synchronised(loop, trips, len) && i < trips && j <= len(i)
    ensures Seq(t, b, i, j) == (InBody(Body(loop, len, i, j).0), Body(loop, len, i, j).1)
    decreases i, j
  {
    if j == 0 {
      if i > 0 {
        SeqIsLoop(t, b, loop, cores, trips, len, i - 1, len(i - 1));
        LastMem(loop, len, i - 1);
      }
      SeqUnfold(t, b, i, 0);
      assert t.start(i) == StartOf(loop, trips, i);
    } else {
      SeqIsLoop(t, b, loop, cores, trips, len, i, j - 1);
      assert EndsIteration(loop, len, i);
      assert StepOk(Path(loop, len, i), loop.segments, j - 1);
      var (l, m) := Body(loop, len, i, j - 1);
      FollowsBody(t, b, loop, cores, trips, len, l, m);
      BodyStep(t, b, loop, i, j - 1, InBody(l), l, m, InBody(AfterOp(loop, l, m).0));
    }
  }

  /** The task follows the body operation by operation. */
  lemma FollowsBody<L(!new), V(!new)>(
    t: Task<Ctl<L>, V>, b: Bounds, loop: Loop<L, V>, cores: nat, trips: nat, len: nat -> nat, l: L, m: seq<V>)
    requires Fits(t, b, loop, cores, trips, len)
    requires var o := loop.op(l); o.Enter? || o.Leave? || o.Local? || (o.Access? && o.seg < |m|)
    ensures StandsFor(t, loop, InBody(l), l, m, InBody(AfterOp(loop, l, m).0))
  {
    assert t.op(InBody(l)) == OpOf(loop, InBody(l));
    assert t.advance(InBody(l)) == AdvanceOf(loop, InBody(l));
    if loop.op(l).Access? {
      var v := m[loop.op(l).seg];
      assert AccessOf(loop, InBody(l), v) == (InBody(loop.onAccess(l, v).0), loop.onAccess(l, v).1);
    }
  }

  lemma {:induction false} SeqOfExit<L(!new), V(!new)>(
    t: Task<Ctl<L>, V>, b: Bounds, loop: Loop<L, V>, cores: nat, trips: nat, len: nat -> nat, i: nat, j: nat)
    requires Fits(t, b, loop, cores, trips, len) && Synchronised(loop, trips, len) && trips <= i
              && j <= 2 * loop.segments
    ensures Seq(t, b, i, j) == (InExit(j), LoopMem(loop, len, trips))
    decreases i, j
  {
    if j == 0 {
      if i > trips { SeqOfExit(t, b, loop, cores, trips, len, i - 1, 2 * loop.segments); }
      else if i > 0 {
        SeqIsLoop(t, b, loop, cores, trips, len, i - 1, len(i - 1));
        LastMem(loop, len, i - 1);
      }
      SeqUnfold(t, b, i, 0);
      assert t.start(i) == StartOf(loop, trips, i);
    } else {
      SeqOfExit(t, b, loop, cores, trips, len, i, j - 1);
      assert t.op(InExit(j - 1)) == OpOf(loop, InExit(j - 1));
      assert t.advance(InExit(j - 1)) == AdvanceOf(loop, InExit(j - 1));
      SeqUnfold(t, b, i, j - 1);
    }
  }

  lemma OpsOfExit<L(!new), V(!new)>(
    t: Task<Ctl<L>, V>, b: Bounds, loop: Loop<L, V>, cores: nat, trips: nat, len: nat -> nat, i: nat, j: nat)
    requires Fits(t, b, loop, cores, trips, len) && Synchronised(loop, trips, len) && trips <= i
              && j <= 2 * loop.segments
    ensures OpAt(t, b, i, j) == if j < loop.segments then Enter(loop.segments - 1 - j)
                                else if j < 2 * loop.segments then Leave(j - loop.segments) else Halt
  {
    SeqOfExit(t, b, loop, cores, trips, len, i, j);
    assert t.op(InExit(j)) == OpOf(loop, InExit(j));
  }

  lemma {:induction false} SetsOfExit<L(!new), V(!new)>(
    t: Task<Ctl<L>, V>, b: Bounds, loop: Loop<L, V>, cores: nat, trips: nat, len: nat -> nat, i: nat, j: nat, s: nat)
    requires Fits(t, b, loop, cores, trips, len) && Synchronised(loop, trips, len) && trips <= i
              && j <= 2 * loop.segments
    ensures s in Entered(t, b, i, j) <==> loop.segments - j <= s < loop.segments
    ensures s in Left(t, b, i, j) <==> s < j - loop.segments
    decreases j
  {
    if j > 0 {
      OpsOfExit(t, b, loop, cores, trips, len, i, j - 1);
      SetsOfExit(t, b, loop, cores, trips, len, i, j - 1, s);
      if j > loop.segments { SetsOfExit(t, b, loop, cores, trips, len, i, j - 1, j - 1 - loop.segments); }
    }
  }

  lemma BodyIsDisciplined<L(!new), V(!new)>(
    t: Task<Ctl<L>, V>, b: Bounds, loop: Loop<L, V>, cores: nat, trips: nat, len: nat -> nat, i: nat, j: nat)
    requires Fits(t, b, loop, cores, trips, len) && Synchronised(loop, trips, len) && i < trips && j <= len(i)
    ensures OpOk(t, b, i, j)
  {
    var ops := Path(loop, len, i);
    assert EndsIteration(loop, len, i);
    forall a: nat | a <= |ops| ensures OpAt(t, b, i, a) == loop.op(Body(loop, len, i, a).0) {
      SeqIsLoop(t, b, loop, cores, trips, len, i, a);
      assert t.op(Seq(t, b, i, a).0) == OpOf(loop, Seq(t, b, i, a).0);
    }
    forall s: nat
      ensures s in Entered(t, b, i, j) <==> OnPath(ops, Enter(s), j)
      ensures s in Left(t, b, i, j) <==> OnPath(ops, Leave(s), j)
    {
      SetsFollowPath(t, b, i, ops, loop.segments, j, s);
    }
    if j < len(i) { assert StepOk(ops, loop.segments, j); }
  }

  lemma ExitIsDisciplined<L(!new), V(!new)>(
    t: Task<Ctl<L>, V>, b: Bounds, loop: Loop<L, V>, cores: nat, trips: nat, len: nat -> nat, i: nat, j: nat)
    requires Fits(t, b, loop, cores, trips, len) && Synchronised(loop, trips, len)
    requires trips <= i < trips + cores && j <= 2 * loop.segments
    ensures OpOk(t, b, i, j)
  {
    OpsOfExit(t, b, loop, cores, trips, len, i, j);
    forall s: nat { SetsOfExit(t, b, loop, cores, trips, len, i, j, s); }
  }

  lemma FitsIsDisciplined<L(!new), V(!new)>(
    t: Task<Ctl<L>, V>, b: Bounds, loop: Loop<L, V>, cores: nat, trips: nat, len: nat -> nat)
    requires Fits(t, b, loop, cores, trips, len) && Synchronised(loop, trips, len)
    ensures Disciplined(t, b)
  {
    forall i: nat, j: nat | i < trips + cores && j <= b.length(i) ensures OpOk(t, b, i, j) {
      if i < trips { BodyIsDisciplined(t, b, loop, cores, trips, len, i, j); }
      else { ExitIsDisciplined(t, b, loop, cores, trips, len, i, j); }
    }
  }

  /** A synchronised loop gives a disciplined task, so everything proved about runs applies to it. */
  lemma CountedIsDisciplined<L(!new), V(!new)>(loop: Loop<L, V>, cores: nat, trips: nat, len: nat -> nat)
    requires 0 < cores && Synchronised(loop, trips, len)
    ensures Disciplined(TaskOf(loop, cores, trips), BoundsOf(loop, cores, trips, len))
    ensures Fits(TaskOf(loop, cores, trips), BoundsOf(loop, cores, trips, len), loop, cores, trips, len)
  {
    TaskFits(loop, cores, trips, len);
    FitsIsDisciplined(TaskOf(loop, cores, trips), BoundsOf(loop, cores, trips, len), loop, cores, trips, len);
  }

  /**
   HELIX refines the sequential loop: whatever the number of cores and the interleaving,
   when all cores have returned the cells are those after the last sequential iteration,
   and each segment has been entered and signalled once for each of the N iterations and
   once for each core.
   */
  lemma RefinesSequentialLoop<L(!new), V(!new)>(
    loop: Loop<L, V>, cores: nat, trips: nat, len: nat -> nat, run: seq<State<Ctl<L>, V>>)
    requires 0 < cores && Synchronised(loop, trips, len)
    requires IsRun(TaskOf(loop, cores, trips), run) && AllHalted(TaskOf(loop, cores, trips), Last(run))
    ensures Last(run).mem == LoopMem(loop, len, trips)
    ensures forall s: nat :: s < loop.segments ==> Last(run).done[s] == trips + cores
  {
    CountedIsDisciplined(loop, cores, trips, len);
    EndsSequentially(TaskOf(loop, cores, trips), BoundsOf(loop, cores, trips, len), run);
    SeqOfExit(TaskOf(loop, cores, trips), BoundsOf(loop, cores, trips, len), loop, cores, trips, len, trips + cores, 0);
  }

  /** Each instance of a segment starts from the value the sequential loop has at that iteration. */
  lemma InstancesSeeSequentialValues<L(!new), V(!new)>(
    loop: Loop<L, V>, cores: nat, trips: nat, len: nat -> nat, run: seq<State<Ctl<L>, V>>, k: nat, c: nat, s: nat)
    requires 0 < cores && Synchronised(loop, trips, len) && IsRun(TaskOf(loop, cores, trips), run) && k < |run|
    requires Shaped(TaskOf(loop, cores, trips), run[k]) && c < cores && s < loop.segments
    requires Holds(run[k].cores[c], s) && run[k].cores[c].iter < trips
    ensures var x := run[k].cores[c];
            x.ctl == InBody(Body(loop, len, x.iter, x.pos).0) && run[k].mem[s] == Body(loop, len, x.iter, x.pos).1[s]
  {
    var t, b := TaskOf(loop, cores, trips), BoundsOf(loop, cores, trips, len);
    CountedIsDisciplined(loop, cores, trips, len);
    RunKeepsInv(t, b, run);
    assert Inv(t, b, run[k]);
    assert CoreOk(t, b, run[k].cores[c], c);
    SeesSequentialValues(t, b, run, k, c, s);
    SeqIsLoop(t, b, loop, cores, trips, len, run[k].cores[c].iter, run[k].cores[c].pos);
  }

  /** Past the waits of its exit block a core sees the final cells, so live-outs can be loaded there. */
  lemma LiveOutsAreFinal<L(!new), V(!new)>(
    loop: Loop<L, V>, cores: nat, trips: nat, len: nat -> nat, run: seq<State<Ctl<L>, V>>, k: nat, c: nat)
    requires 0 < cores && Synchronised(loop, trips, len) && IsRun(TaskOf(loop, cores, trips), run) && k < |run|
    requires Shaped(TaskOf(loop, cores, trips), run[k]) && c < cores
    requires run[k].cores[c].ctl == InExit(loop.segments)
    ensures run[k].mem == LoopMem(loop, len, trips)
  {
    var t, b := TaskOf(loop, cores, trips), BoundsOf(loop, cores, trips, len);
    CountedIsDisciplined(loop, cores, trips, len);
    RunKeepsInv(t, b, run);
    var st := run[k];
    assert Inv(t, b, st);
    var x := st.cores[c];
    assert CoreOk(t, b, x, c);
    if x.iter < trips { SeqIsLoop(t, b, loop, cores, trips, len, x.iter, x.pos); }
    else { SeqOfExit(t, b, loop, cores, trips, len, x.iter, x.pos); }
    forall s: nat | s < loop.segments ensures st.mem[s] == LoopMem(loop, len, trips)[s] {
      SetsOfExit(t, b, loop, cores, trips, len, x.iter, x.pos, s);
      assert Holds(x, s);
      SeesSequentialValues(t, b, run, k, c, s);
    }
  }

  /** The dispatcher's join returns: no run gets stuck, and all runs have the same bounded length. */
  lemma EveryCoreReturns<L(!new), V(!new)>(
    loop: Loop<L, V>, cores: nat, trips: nat, len: nat -> nat, run: seq<State<Ctl<L>, V>>)
    requires 0 < cores && Synchronised(loop, trips, len) && IsRun(TaskOf(loop, cores, trips), run)
    ensures var t, b := TaskOf(loop, cores, trips), BoundsOf(loop, cores, trips, len);
            && |run| - 1 <= TotalWork(cores, b, Init(t).cores)
            && (AllHalted(t, Last(run)) || exists st :: NextState(t, Last(run), st))
  {
    CountedIsDisciplined(loop, cores, trips, len);
    RunCanContinue(TaskOf(loop, cores, trips), BoundsOf(loop, cores, trips, len), run);
  }
}
