/**
 What holds of every run of HELIX on a loop with a sequential prologue: the memory at the
 end is that of the sequential loop, nothing of a later iteration's body runs, and every
 core leaves.
 */
module HelixPrologue {
  import opened Arith
  import opened HelixMachine
  import opened HelixLoop
  import opened HelixOrder
  import opened HelixRuns
  import opened HelixPrologueTask

  lemma SeqMemIsLast<C(!new), V(!new)>(t: Task<C, V>, b: Bounds, i: nat)
    requires i > 0
    ensures SeqMem(t, b, i) == Seq(t, b, i - 1, b.length(i - 1)).1
  {}

  lemma MemAtEnd<L(!new), V(!new)>(
    t: Task<Ctl<L>, V>, b: Bounds, loop: Loop<L, V>, cores: nat, gate: nat, exit: nat, len: nat -> nat)
    requires Fits(t, b, loop, cores, gate, exit, len) && Synchronised(loop, gate, exit, len)
    ensures SeqMem(t, b, exit + cores) == LoopMem(loop, len, exit + 1)
  {
    SeqMemIsLast(t, b, exit + cores);
    if cores == 1 { SeqOfExit(t, b, loop, cores, gate, exit, len, 2 * loop.segments + 2); }
    else { SeqOfFailed(t, b, loop, cores, gate, exit, len, exit + cores - 1, loop.segments); }
  }

  /** Every complete run ends with the cells of the sequential loop, its exiting iteration included. */
  lemma RefinesSequentialLoop<L(!new), V(!new)>(
    loop: Loop<L, V>, cores: nat, gate: nat, exit: nat, len: nat -> nat, run: seq<State<Ctl<L>, V>>)
    requires 0 < cores && Synchronised(loop, gate, exit, len)
    requires IsRun(TaskOf(loop, cores, gate), run) && AllHalted(TaskOf(loop, cores, gate), Last(run))
    ensures Last(run).mem == LoopMem(loop, len, exit + 1)
    ensures forall s: nat :: s < loop.segments ==>
                               Last(run).done[s] == if s == gate then exit + cores else exit + 1
  {
    var t, b := TaskOf(loop, cores, gate), BoundsOf(loop, cores, gate, exit, len);
    PrologueIsDisciplined(loop, cores, gate, exit, len);
    EndsSequentially(t, b, run);
    MemAtEnd(t, b, loop, cores, gate, exit, len);
  }

  /** Where a core may be in each iteration of the sequential execution. */
  ghost predicate Located<L(!new), V(!new)>(
    loop: Loop<L, V>, exit: nat, len: nat -> nat, i: nat, j: nat, c: Ctl<L>, m: seq<V>)
  {
    match c
    case InBody(l) => i <= exit && j >= 2 && (l, m) == Body(loop, len, i, j - 2)
    case InExit(k) => i == exit && j == 3 + len(exit) + k && m == LoopMem(loop, len, exit + 1)
    case InFailed(k) => i > exit
    case _ => j < 2
  }

  lemma ControlOf<L(!new), V(!new)>(
    t: Task<Ctl<L>, V>, b: Bounds, loop: Loop<L, V>, cores: nat, gate: nat, exit: nat, len: nat -> nat, i: nat, j: nat)
    requires Fits(t, b, loop, cores, gate, exit, len) && Synchronised(loop, gate, exit, len) && j <= b.length(i)
    ensures Located(loop, exit, len, i, j, Seq(t, b, i, j).0, Seq(t, b, i, j).1)
  {
    if i > exit { SeqOfFailed(t, b, loop, cores, gate, exit, len, i, if j < 2 then 0 else j - 2); }
    else if j <= 2 + len(i) { SeqIsLoop(t, b, loop, cores, gate, exit, len, i, if j < 2 then 0 else j - 2); }
    else { SeqOfExit(t, b, loop, cores, gate, exit, len, j - 3 - len(exit)); }
  }

  lemma CoreInRun<L(!new), V(!new)>(
    loop: Loop<L, V>, cores: nat, gate: nat, exit: nat, len: nat -> nat, run: seq<State<Ctl<L>, V>>, k: nat, c: nat)
    requires 0 < cores && Synchronised(loop, gate, exit, len) && IsRun(TaskOf(loop, cores, gate), run) && k < |run|
    requires c < cores
    ensures Disciplined(TaskOf(loop, cores, gate), BoundsOf(loop, cores, gate, exit, len))
    ensures Fits(TaskOf(loop, cores, gate), BoundsOf(loop, cores, gate, exit, len), loop, cores, gate, exit, len)
    ensures Inv(TaskOf(loop, cores, gate), BoundsOf(loop, cores, gate, exit, len), run[k])
    ensures CoreOk(TaskOf(loop, cores, gate), BoundsOf(loop, cores, gate, exit, len), run[k].cores[c], c)
  {
    PrologueIsDisciplined(loop, cores, gate, exit, len);
    RunKeepsInv(TaskOf(loop, cores, gate), BoundsOf(loop, cores, gate, exit, len), run);
    assert Inv(TaskOf(loop, cores, gate), BoundsOf(loop, cores, gate, exit, len), run[k]);
  }

  lemma CoreIsLocated<L(!new), V(!new)>(
    t: Task<Ctl<L>, V>, b: Bounds, loop: Loop<L, V>, cores: nat, gate: nat, exit: nat, len: nat -> nat,
    k: Core<Ctl<L>>, c: nat)
    requires Fits(t, b, loop, cores, gate, exit, len) && Synchronised(loop, gate, exit, len) && CoreOk(t, b, k, c)
    ensures k.ctl == Seq(t, b, k.iter, k.pos).0
    ensures Located(loop, exit, len, k.iter, k.pos, k.ctl, Seq(t, b, k.iter, k.pos).1)
  {
    ControlOf(t, b, loop, cores, gate, exit, len, k.iter, k.pos);
  }

  /** No core runs the body of an iteration after the exiting one, and none fails the check before it. */
  lemma NoBodyAfterExit<L(!new), V(!new)>(
    loop: Loop<L, V>, cores: nat, gate: nat, exit: nat, len: nat -> nat, run: seq<State<Ctl<L>, V>>, k: nat, c: nat)
    requires 0 < cores && Synchronised(loop, gate, exit, len) && IsRun(TaskOf(loop, cores, gate), run) && k < |run|
    requires Shaped(TaskOf(loop, cores, gate), run[k]) && c < cores
    ensures run[k].cores[c].ctl.InBody? ==> run[k].cores[c].iter <= exit
    ensures run[k].cores[c].ctl.InExit? ==> run[k].cores[c].iter == exit
    ensures run[k].cores[c].ctl.InFailed? ==> run[k].cores[c].iter > exit
  {
    CoreInRun(loop, cores, gate, exit, len, run, k, c);
    CoreIsLocated(TaskOf(loop, cores, gate), BoundsOf(loop, cores, gate, exit, len), loop, cores, gate, exit, len,
                  run[k].cores[c], c);
  }

  lemma {:induction false} GateLeftInExit<C(!new), V(!new)>(
    t: Task<C, V>, b: Bounds, i: nat, base: nat, gate: nat, n: nat, k: nat)
    requires forall a: nat :: a < k ==> OpAt(t, b, i, base + a) == ExitOp(n, gate, a)
    requires gate in Entered(t, b, i, base) && k >= 2
    ensures gate in Left(t, b, i, base + k)
    decreases k
  {
    if k == 2 {
      EnteredGrows(t, b, i, base, base + 1);
      assert OpAt(t, b, i, base + (k - 1)) == ExitOp(n, gate, k - 1);
    } else {
      GateLeftInExit(t, b, i, base, gate, n, k - 1);
    }
  }

  /** Behind the second operation of the exit block the prologue has been signalled. */
  lemma GateIsLeft<L(!new), V(!new)>(
    t: Task<Ctl<L>, V>, b: Bounds, loop: Loop<L, V>, cores: nat, gate: nat, exit: nat, len: nat -> nat, k: nat)
    requires Fits(t, b, loop, cores, gate, exit, len) && Synchronised(loop, gate, exit, len)
    requires 2 <= k <= 2 * loop.segments + 2
    ensures gate in Left(t, b, exit, 3 + len(exit) + k)
  {
    OpAtExit(t, b, loop, cores, gate, exit, len);
    SetsAtExit(t, b, loop, cores, gate, exit, len);
    SetsAfterLocal(t, b, exit, 2 + len(exit));
    OpsOfExit(t, b, loop, cores, gate, exit, len);
    GateLeftInExit(t, b, exit, 3 + len(exit), gate, loop.segments, k);
  }

  /** With the signal of instance `exit` given, the lock of the core that comes next is open. */
  lemma NextMayPass<L(!new), V(!new)>(
    t: Task<Ctl<L>, V>, b: Bounds, loop: Loop<L, V>, cores: nat, gate: nat, exit: nat, len: nat -> nat,
    st: State<Ctl<L>, V>, c: nat, d: nat)
    requires Fits(t, b, loop, cores, gate, exit, len) && gate < loop.segments && Inv(t, b, st)
    requires c < cores && d < cores && c != d && st.cores[c].iter == exit && gate in st.cores[c].left
    requires st.cores[d].iter == exit + 1 && st.cores[d].pos == 0 && st.cores[d].ctl.AtHeader?
    ensures Enabled(t, st, d)
  {
    var x, y, n := st.cores[c], st.cores[d], st.done[gate];
    assert CoreOk(t, b, y, d) && TokenOk(cores, x, gate, n) && TokenOk(cores, y, gate, n);
    assert LockOk(cores, y, gate, b, n, st.locks[d][gate]);
    assert b.cap(gate) == exit + cores - 1;
    TaskFields(t, loop, gate, y.ctl);
    SmallMod(d, cores);
  }

  lemma NextPassesHeader<L(!new), V(!new)>(
    t: Task<Ctl<L>, V>, b: Bounds, loop: Loop<L, V>, cores: nat, gate: nat, exit: nat, len: nat -> nat,
    st: State<Ctl<L>, V>, c: nat, d: nat)
    requires Fits(t, b, loop, cores, gate, exit, len) && Synchronised(loop, gate, exit, len) && Inv(t, b, st)
    requires c < cores && d < cores && c != d
    requires st.cores[c].ctl.InExit? && 2 <= st.cores[c].ctl.k <= 2 * loop.segments + 2
    requires st.cores[d].iter == exit + 1 && st.cores[d].ctl.AtHeader?
    ensures Enabled(t, st, d)
  {
    assert CoreOk(t, b, st.cores[c], c) && CoreOk(t, b, st.cores[d], d);
    CoreIsLocated(t, b, loop, cores, gate, exit, len, st.cores[c], c);
    GateIsLeft(t, b, loop, cores, gate, exit, len, st.cores[c].ctl.k);
    AtHeaderIsFirst(t, b, loop, cores, gate, exit, len, st.cores[d], d);
    NextMayPass(t, b, loop, cores, gate, exit, len, st, c, d);
  }

  /**
   The exiting core signals the prologue right after it has set the flag: from then on the
   next core can pass its header wait, while the exiting core is still in its exit block.
   */
  lemma NextCorePassesHeader<L(!new), V(!new)>(
    loop: Loop<L, V>, cores: nat, gate: nat, exit: nat, len: nat -> nat, run: seq<State<Ctl<L>, V>>, k: nat,
    c: nat, d: nat)
    requires 0 < cores && Synchronised(loop, gate, exit, len) && IsRun(TaskOf(loop, cores, gate), run) && k < |run|
    requires Shaped(TaskOf(loop, cores, gate), run[k]) && c < cores && d < cores && c != d
    requires run[k].cores[c].ctl.InExit? && 2 <= run[k].cores[c].ctl.k <= 2 * loop.segments + 2
    requires run[k].cores[d].iter == exit + 1 && run[k].cores[d].ctl.AtHeader?
    ensures Enabled(TaskOf(loop, cores, gate), run[k], d)
  {
    CoreInRun(loop, cores, gate, exit, len, run, k, c);
    NextPassesHeader(TaskOf(loop, cores, gate), BoundsOf(loop, cores, gate, exit, len), loop, cores, gate, exit, len,
                     run[k], c, d);
  }

  lemma AtHeaderIsFirst<L(!new), V(!new)>(
    t: Task<Ctl<L>, V>, b: Bounds, loop: Loop<L, V>, cores: nat, gate: nat, exit: nat, len: nat -> nat,
    x: Core<Ctl<L>>, d: nat)
    requires Fits(t, b, loop, cores, gate, exit, len) && Synchronised(loop, gate, exit, len) && CoreOk(t, b, x, d)
    requires x.iter == exit + 1 && x.ctl.AtHeader?
    ensures x.pos == 0
  {
    SeqOfFailed(t, b, loop, cores, gate, exit, len, x.iter, if x.pos < 2 then 0 else x.pos - 2);
  }

  /** Inside a segment, the body sees the local state and the cell it has in the sequential loop. */
  lemma InstancesSeeSequentialValues<L(!new), V(!new)>(
    loop: Loop<L, V>, cores: nat, gate: nat, exit: nat, len: nat -> nat,
    run: seq<State<Ctl<L>, V>>, k: nat, c: nat, s: nat)
    requires 0 < cores && Synchronised(loop, gate, exit, len) && IsRun(TaskOf(loop, cores, gate), run) && k < |run|
    requires Shaped(TaskOf(loop, cores, gate), run[k]) && c < cores && s < loop.segments
    requires Holds(run[k].cores[c], s) && run[k].cores[c].ctl.InBody?
    ensures var x := run[k].cores[c];
            && x.iter <= exit && x.pos >= 2
            && x.ctl.l == Body(loop, len, x.iter, x.pos - 2).0
            && run[k].mem[s] == Body(loop, len, x.iter, x.pos - 2).1[s]
  {
    CoreInRun(loop, cores, gate, exit, len, run, k, c);
    SeesSequentialValues(TaskOf(loop, cores, gate), BoundsOf(loop, cores, gate, exit, len), run, k, c, s);
    CoreIsLocated(TaskOf(loop, cores, gate), BoundsOf(loop, cores, gate, exit, len), loop, cores, gate, exit, len,
                  run[k].cores[c], c);
  }

  lemma MemAfterExit<L(!new), V(!new)>(
    t: Task<Ctl<L>, V>, b: Bounds, loop: Loop<L, V>, cores: nat, gate: nat, exit: nat, len: nat -> nat, i: nat, j: nat)
    requires Fits(t, b, loop, cores, gate, exit, len) && Synchronised(loop, gate, exit, len)
    requires exit < i && j <= 2 + loop.segments
    ensures Seq(t, b, i, j).1 == LoopMem(loop, len, exit + 1)
  {
    SeqOfFailed(t, b, loop, cores, gate, exit, len, i, if j < 2 then 0 else j - 2);
  }

  /** A segment that the exiting iteration has left keeps its final value. */
  lemma LeftCellIsFinal<L(!new), V(!new)>(
    t: Task<Ctl<L>, V>, b: Bounds, loop: Loop<L, V>, cores: nat, gate: nat, exit: nat, len: nat -> nat,
    st: State<Ctl<L>, V>, c: nat, s: nat)
    requires Fits(t, b, loop, cores, gate, exit, len) && Synchronised(loop, gate, exit, len)
    requires s < loop.segments && c < cores && Inv(t, b, st)
    requires st.cores[c].iter == exit && s in st.cores[c].left
    ensures st.mem[s] == LoopMem(loop, len, exit + 1)[s]
  {
    assert TokenOk(cores, st.cores[c], s, st.done[s]) && CellOk(t, b, st, s);
    if d: nat :| d < cores && Holds(st.cores[d], s) {
      assert TokenOk(cores, st.cores[d], s, st.done[s]) && CoreOk(t, b, st.cores[d], d);
      MemAfterExit(t, b, loop, cores, gate, exit, len, st.cores[d].iter, st.cores[d].pos);
    } else {
      MemAfterExit(t, b, loop, cores, gate, exit, len, st.done[s], 0);
    }
  }

  lemma EnteredCellIsFinal<L(!new), V(!new)>(
    t: Task<Ctl<L>, V>, b: Bounds, loop: Loop<L, V>, cores: nat, gate: nat, exit: nat, len: nat -> nat,
    st: State<Ctl<L>, V>, c: nat, s: nat)
    requires Fits(t, b, loop, cores, gate, exit, len) && Synchronised(loop, gate, exit, len)
    requires s < loop.segments && c < cores && Inv(t, b, st)
    requires st.cores[c].ctl.InExit? && s in st.cores[c].entered
    ensures st.mem[s] == LoopMem(loop, len, exit + 1)[s]
  {
    assert CoreOk(t, b, st.cores[c], c);
    CoreIsLocated(t, b, loop, cores, gate, exit, len, st.cores[c], c);
    if s in st.cores[c].left {
      LeftCellIsFinal(t, b, loop, cores, gate, exit, len, st, c, s);
    } else {
      assert CellOk(t, b, st, s) && Holds(st.cores[c], s);
    }
  }

  /** All waits of the exit block are behind the core. */
  lemma AllEntered<L(!new), V(!new)>(
    t: Task<Ctl<L>, V>, b: Bounds, loop: Loop<L, V>, cores: nat, gate: nat, exit: nat, len: nat -> nat,
    k: Core<Ctl<L>>, c: nat)
    requires Fits(t, b, loop, cores, gate, exit, len) && Synchronised(loop, gate, exit, len) && CoreOk(t, b, k, c)
    requires k.ctl == InExit(loop.segments + 2)
    ensures Covers(0, loop.segments, k.entered)
  {
    CoreIsLocated(t, b, loop, cores, gate, exit, len, k, c);
    SetsOfExit(t, b, loop, cores, gate, exit, len, loop.segments + 2);
  }

  /** Past the waits of its exit block the exiting core sees the final cells. */
  lemma LiveOutsAreFinal<L(!new), V(!new)>(
    loop: Loop<L, V>, cores: nat, gate: nat, exit: nat, len: nat -> nat, run: seq<State<Ctl<L>, V>>, k: nat, c: nat)
    requires 0 < cores && Synchronised(loop, gate, exit, len) && IsRun(TaskOf(loop, cores, gate), run) && k < |run|
    requires Shaped(TaskOf(loop, cores, gate), run[k]) && c < cores
    requires run[k].cores[c].ctl == InExit(loop.segments + 2)
    ensures run[k].mem == LoopMem(loop, len, exit + 1)
  {
    var t, b := TaskOf(loop, cores, gate), BoundsOf(loop, cores, gate, exit, len);
    CoreInRun(loop, cores, gate, exit, len, run, k, c);
    AllEntered(t, b, loop, cores, gate, exit, len, run[k].cores[c], c);
    forall s: nat | s < loop.segments ensures run[k].mem[s] == LoopMem(loop, len, exit + 1)[s] {
      EnteredCellIsFinal(t, b, loop, cores, gate, exit, len, run[k], c, s);
    }
  }

  /** Every core leaves: no run gets stuck before all cores have returned, and every run is bounded. */
  lemma EveryCoreReturns<L(!new), V(!new)>(
    loop: Loop<L, V>, cores: nat, gate: nat, exit: nat, len: nat -> nat, run: seq<State<Ctl<L>, V>>)
    requires 0 < cores && Synchronised(loop, gate, exit, len) && IsRun(TaskOf(loop, cores, gate), run)
    ensures var t, b := TaskOf(loop, cores, gate), BoundsOf(loop, cores, gate, exit, len);
            && |run| - 1 <= TotalWork(cores, b, Init(t).cores)
            && (AllHalted(t, Last(run)) || exists st :: NextState(t, Last(run), st))
  {
    PrologueIsDisciplined(loop, cores, gate, exit, len);
    RunCanContinue(TaskOf(loop, cores, gate), BoundsOf(loop, cores, gate, exit, len), run);
  }
}
