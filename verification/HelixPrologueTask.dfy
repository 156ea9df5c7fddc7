/**
 HELIX for a loop with a sequential prologue.  Every iteration waits for the prologue's
 segment at the header and then checks the loop-is-over flag.  A core that finds it set
 signals every segment and returns without waiting for the others.  The core that takes
 the loop exit sets the flag, signals the prologue, waits for all segments, and signals
 all of them, the prologue a second time.
 */
module HelixPrologueTask {
  import opened HelixMachine
  import opened HelixLoop
  import opened HelixOrder

  datatype Ctl<L> = AtHeader(l: L) | AtCheck(l: L) | InBody(l: L) | InExit(k: nat) | InFailed(k: nat)

  /** Operation k of the exit block. */
  function ExitOp(segments: nat, gate: nat, k: nat): Op {
    if k == 0 then Raise
    else if k == 1 then Leave(gate)
    else if k < segments + 2 then Enter(segments + 1 - k)
    else if k < 2 * segments + 2 then Leave(k - segments - 2)
    else Halt
  }

  function OpOf<L(!new), V(!new)>(loop: Loop<L, V>, gate: nat, c: Ctl<L>): Op {
    match c
    case AtHeader(_) => Enter(gate)
    case AtCheck(_) => Check
    case InBody(l) => if loop.op(l) == Halt then Local else loop.op(l)
    case InExit(k) => ExitOp(loop.segments, gate, k)
    case InFailed(k) => if k < loop.segments then Leave(k) else Halt
  }

  /** Taking a loop exit, `Halt` in the body, leads to the exit block. */
  function AdvanceOf<L(!new), V(!new)>(loop: Loop<L, V>, c: Ctl<L>): Ctl<L> {
    match c
    case AtHeader(l) => AtCheck(l)
    case AtCheck(l) => c
    case InBody(l) => if loop.op(l) == Halt then InExit(0) else InBody(loop.advance(l))
    case InExit(k) => InExit(k + 1)
    case InFailed(k) => InFailed(k + 1)
  }

  function CheckOf<L>(c: Ctl<L>, over: bool): Ctl<L> {
    if !c.AtCheck? then c else if over then InFailed(0) else InBody(c.l)
  }

  function AccessOf<L(!new), V(!new)>(loop: Loop<L, V>, c: Ctl<L>, v: V): (Ctl<L>, V) {
    if c.InBody? then (InBody(loop.onAccess(c.l, v).0), loop.onAccess(c.l, v).1) else (c, v)
  }

  function TaskOf<L(!new), V(!new)>(loop: Loop<L, V>, cores: nat, gate: nat): Task<Ctl<L>, V> {
    Task(cores, cores, loop.segments, loop.mem0,
         (i: nat) => AtHeader(loop.locals(i)),
         c => OpOf(loop, gate, c),
         c => AdvanceOf(loop, c),
         (c, over) => CheckOf(c, over),
         (c, v) => AccessOf(loop, c, v))
  }

  /** t is the task of the loop. */
  ghost predicate RunsLoop<L(!new), V(!new)>(t: Task<Ctl<L>, V>, loop: Loop<L, V>, gate: nat) {
    && t.segments == loop.segments && t.mem0 == loop.mem0
    && (forall i: nat {:trigger loop.locals(i)} :: t.start(i) == AtHeader(loop.locals(i)))
    && (forall c {:trigger OpOf(loop, gate, c)} :: t.op(c) == OpOf(loop, gate, c))
    && (forall c {:trigger AdvanceOf(loop, c)} :: t.advance(c) == AdvanceOf(loop, c))
    && (forall c, over {:trigger CheckOf(c, over)} :: t.onCheck(c, over) == CheckOf(c, over))
    && (forall c, v {:trigger AccessOf(loop, c, v)} :: t.onAccess(c, v) == AccessOf(loop, c, v))
  }

  /** Iterations up to the exiting one take part in every segment, the later ones only in the prologue. */
  ghost function BoundsOf<L(!new), V(!new)>(loop: Loop<L, V>, cores: nat, gate: nat, exit: nat, len: nat -> nat): Bounds
    requires 0 < cores
  {
    Bounds(exit,
           (s: nat) => if s == gate then exit + cores - 1 else exit,
           (i: nat) => if i < exit then 2 + len(i) else if i == exit then len(i) + 2 * loop.segments + 5
               else 2 + loop.segments,
           false, true, gate)
  }

  /** The task and its bounds, by what they do. */
  ghost predicate Fits<L(!new), V(!new)>(
    t: Task<Ctl<L>, V>, b: Bounds, loop: Loop<L, V>, cores: nat, gate: nat, exit: nat, len: nat -> nat)
  {
    && 0 < cores && t.cores == cores && RunsLoop(t, loop, gate)
    && b.final == exit && !b.strict && b.guarded && b.gate == gate
    && (forall s: nat {:trigger b.cap(s)} :: b.cap(s) == if s == gate then exit + cores - 1 else exit)
    && (forall i: nat {:trigger b.length(i)} :: b.length(i) ==
          if i < exit then 2 + len(i) else if i == exit then len(i) + 2 * loop.segments + 5 else 2 + loop.segments)
  }

  lemma TaskFits<L(!new), V(!new)>(loop: Loop<L, V>, cores: nat, gate: nat, exit: nat, len: nat -> nat)
    requires 0 < cores
    ensures Fits(TaskOf(loop, cores, gate), BoundsOf(loop, cores, gate, exit, len), loop, cores, gate, exit, len)
  {}

  /** The path of an iteration with the wait of its prologue in front. */
  ghost function FullPath<L(!new), V(!new)>(loop: Loop<L, V>, gate: nat, len: nat -> nat, i: nat): (ops: seq<Op>)
    ensures |ops| == 2 + len(i)
  {
    [Enter(gate), Local] + Path(loop, len, i)
  }

  ghost predicate EndsWith<L(!new), V(!new)>(loop: Loop<L, V>, len: nat -> nat, i: nat, o: Op) {
    loop.op(Body(loop, len, i, len(i)).0) == o
  }

  /**
   `exit` is the first iteration that takes a loop exit.  Every iteration follows a good
   path; the earlier ones leave every segment, and the exiting one takes the exit before
   the prologue is left.
   */
  ghost predicate Synchronised<L(!new), V(!new)>(loop: Loop<L, V>, gate: nat, exit: nat, len: nat -> nat) {
    && |loop.mem0| == loop.segments && gate < loop.segments
    && (forall i: nat {:trigger FullPath(loop, gate, len, i)} :: i <= exit ==>
          PathOk(FullPath(loop, gate, len, i), loop.segments))
    && (forall i: nat {:trigger FullPath(loop, gate, len, i)} :: i < exit ==>
          LeavesAll(FullPath(loop, gate, len, i), loop.segments))
    && (forall i: nat {:trigger EndsWith(loop, len, i, Next)} :: i < exit ==> EndsWith(loop, len, i, Next))
    && EndsWith(loop, len, exit, Halt)
    && !OnPath(FullPath(loop, gate, len, exit), Leave(gate), 2 + len(exit))
  }

  // ---------------------------------------------------------------- the sequential execution

  lemma PathStep<L(!new), V(!new)>(loop: Loop<L, V>, gate: nat, exit: nat, len: nat -> nat, i: nat, j: nat)
    requires Synchronised(loop, gate, exit, len) && i <= exit && j < len(i)
    ensures var o := loop.op(Body(loop, len, i, j).0);
            && FullPath(loop, gate, len, i)[2 + j] == o
            && (o.Enter? || o.Access? || o.Leave? || o.Local?)
            && (o.Access? ==> o.seg < loop.segments)
  {
    assert PathOk(FullPath(loop, gate, len, i), loop.segments);
    assert StepOk(FullPath(loop, gate, len, i), loop.segments, 2 + j);
  }

  lemma {:induction false} SeqIsLoop<L(!new), V(!new)>(
    t: Task<Ctl<L>, V>, b: Bounds, loop: Loop<L, V>, cores: nat, gate: nat, exit: nat, len: nat -> nat, i: nat, j: nat)
    requires Fits(t, b, loop, cores, gate, exit, len) && Synchronised(loop, gate, exit, len) && i <= exit && j <= len(i)
    ensures Seq(t, b, i, 0) == (AtHeader(loop.locals(i)), LoopMem(loop, len, i))
    ensures Seq(t, b, i, 1) == (AtCheck(loop.locals(i)), LoopMem(loop, len, i))
    ensures Seq(t, b, i, 2 + j) == (InBody(Body(loop, len, i, j).0), Body(loop, len, i, j).1)
    decreases i, j
  {
    if j == 0 {
      if i > 0 {
        SeqIsLoop(t, b, loop, cores, gate, exit, len, i - 1, len(i - 1));
        LastMem(loop, len, i - 1);
      }
      HeaderSteps(t, b, loop, gate, i, LoopMem(loop, len, i));
    } else {
      SeqIsLoop(t, b, loop, cores, gate, exit, len, i, j - 1);
      PathStep(loop, gate, exit, len, i, j - 1);
      var (l, m) := Body(loop, len, i, j - 1);
      FollowsBody(t, loop, gate, l, m);
      BodyStep(t, b, loop, i, 2 + (j - 1), InBody(l), l, m, InBody(AfterOp(loop, l, m).0));
    }
  }

  /** From the header to the check, and past it into the body or to the failed check. */
  lemma HeaderSteps<L(!new), V(!new)>(t: Task<Ctl<L>, V>, b: Bounds, loop: Loop<L, V>, gate: nat, i: nat, m: seq<V>)
    requires RunsLoop(t, loop, gate)
    requires m == if i == 0 then t.mem0 else Seq(t, b, i - 1, b.length(i - 1)).1
    ensures Seq(t, b, i, 0) == (AtHeader(loop.locals(i)), m)
    ensures Seq(t, b, i, 1) == (AtCheck(loop.locals(i)), m)
    ensures Seq(t, b, i, 2) == (if i > b.final then InFailed(0) else InBody(loop.locals(i)), m)
  {
    var l := loop.locals(i);
    TaskFields(t, loop, gate, AtHeader(l));
    TaskFields(t, loop, gate, AtCheck(l));
    assert CheckOf(AtCheck(l), i > b.final) == if i > b.final then InFailed(0) else InBody(l);
    SeqUnfold(t, b, i, 0);
    SeqUnfold(t, b, i, 1);
  }

  /** The task follows the body operation by operation. */
  lemma FollowsBody<L(!new), V(!new)>(t: Task<Ctl<L>, V>, loop: Loop<L, V>, gate: nat, l: L, m: seq<V>)
    requires RunsLoop(t, loop, gate)
    requires var o := loop.op(l); o.Enter? || o.Leave? || o.Local? || (o.Access? && o.seg < |m|)
    ensures StandsFor(t, loop, InBody(l), l, m, InBody(AfterOp(loop, l, m).0))
  {
    TaskFields(t, loop, gate, InBody(l));
    if loop.op(l).Access? {
      var v := m[loop.op(l).seg];
      assert AccessOf(loop, InBody(l), v) == (InBody(loop.onAccess(l, v).0), loop.onAccess(l, v).1);
    }
  }

  /** State k of the exit block, or of the block after a failed check. */
  function At<L>(failed: bool, k: nat): Ctl<L> {
    if failed then InFailed(k) else InExit(k)
  }

  ghost predicate Moves<L(!new), V(!new)>(t: Task<Ctl<L>, V>, failed: bool, k: nat) {
    var o := t.op(At(failed, k));
    (o.Enter? || o.Leave? || o.Raise?) && t.advance(At(failed, k)) == At(failed, k + 1)
  }

  /** Both blocks move from state to state without touching cells. */
  ghost predicate Stretch<L(!new), V(!new)>(t: Task<Ctl<L>, V>, failed: bool, n: nat) {
    forall k: nat {:trigger Moves(t, failed, k)} :: k < n ==> Moves(t, failed, k)
  }

  lemma {:induction false} SeqOfStretch<L(!new), V(!new)>(
    t: Task<Ctl<L>, V>, b: Bounds, i: nat, base: nat, failed: bool, n: nat, m: seq<V>, k: nat)
    requires Stretch(t, failed, n) && k <= n && Seq(t, b, i, base) == (At(failed, 0), m)
    ensures Seq(t, b, i, base + k) == (At(failed, k), m)
    decreases k
  {
    if k > 0 {
      SeqOfStretch(t, b, i, base, failed, n, m, k - 1);
      assert Moves(t, failed, k - 1);
    }
  }

  lemma TaskFields<L(!new), V(!new)>(t: Task<Ctl<L>, V>, loop: Loop<L, V>, gate: nat, c: Ctl<L>)
    requires RunsLoop(t, loop, gate)
    ensures t.op(c) == OpOf(loop, gate, c)
    ensures t.advance(c) == AdvanceOf(loop, c)
  {}

  lemma BlocksAreStretches<L(!new), V(!new)>(t: Task<Ctl<L>, V>, loop: Loop<L, V>, gate: nat)
    requires RunsLoop(t, loop, gate)
    ensures Stretch(t, false, 2 * loop.segments + 2)
    ensures Stretch(t, true, loop.segments)
  {
    forall k: nat | k < 2 * loop.segments + 2
      ensures Moves(t, false, k)
    {
      TaskFields(t, loop, gate, At(false, k));
    }
    forall k: nat | k < loop.segments
      ensures Moves(t, true, k)
    {
      TaskFields(t, loop, gate, At(true, k));
    }
  }

  lemma LocalStep<C(!new), V(!new)>(t: Task<C, V>, b: Bounds, i: nat, j: nat, c: C, m: seq<V>)
    requires Seq(t, b, i, j) == (c, m) && t.op(c) == Local
    ensures Seq(t, b, i, j + 1) == (t.advance(c), m)
  {}

  lemma TakeExit<L(!new), V(!new)>(t: Task<Ctl<L>, V>, loop: Loop<L, V>, gate: nat, l: L)
    requires RunsLoop(t, loop, gate) && loop.op(l) == Halt
    ensures t.op(InBody(l)) == Local
    ensures t.advance(InBody(l)) == InExit(0)
  {
    TaskFields(t, loop, gate, InBody(l));
  }

  /** Taking the loop exit leads to the exit block. */
  lemma ExitBlockStarts<L(!new), V(!new)>(
    t: Task<Ctl<L>, V>, b: Bounds, loop: Loop<L, V>, len: nat -> nat, exit: nat)
    requires Seq(t, b, exit, 2 + len(exit))
              == (InBody(Body(loop, len, exit, len(exit)).0), Body(loop, len, exit, len(exit)).1)
    requires t.op(InBody(Body(loop, len, exit, len(exit)).0)) == Local
    requires t.advance(InBody(Body(loop, len, exit, len(exit)).0)) == InExit(0)
    ensures Seq(t, b, exit, 3 + len(exit)) == (At(false, 0), LoopMem(loop, len, exit + 1))
  {
    LastMem(loop, len, exit);
    LocalStep(t, b, exit, 2 + len(exit), InBody(Body(loop, len, exit, len(exit)).0), LoopMem(loop, len, exit + 1));
  }

  lemma SeqAtExit<L(!new), V(!new)>(
    t: Task<Ctl<L>, V>, b: Bounds, loop: Loop<L, V>, cores: nat, gate: nat, exit: nat, len: nat -> nat)
    requires Fits(t, b, loop, cores, gate, exit, len) && Synchronised(loop, gate, exit, len)
    ensures Seq(t, b, exit, 3 + len(exit))
            == (At(false, 0), LoopMem(loop, len, exit + 1))
  {
    SeqIsLoop(t, b, loop, cores, gate, exit, len, exit, len(exit));
    TakeExit(t, loop, gate, Body(loop, len, exit, len(exit)).0);
    ExitBlockStarts(t, b, loop, len, exit);
  }

  /** The exit block of the exiting iteration. */
  lemma SeqOfExit<L(!new), V(!new)>(
    t: Task<Ctl<L>, V>, b: Bounds, loop: Loop<L, V>, cores: nat, gate: nat, exit: nat, len: nat -> nat, k: nat)
    requires Fits(t, b, loop, cores, gate, exit, len) && Synchronised(loop, gate, exit, len)
              && k <= 2 * loop.segments + 2
    ensures Seq(t, b, exit, 3 + len(exit) + k)
            == (InExit(k), LoopMem(loop, len, exit + 1))
  {
    SeqAtExit(t, b, loop, cores, gate, exit, len);
    BlocksAreStretches(t, loop, gate);
    SeqOfStretch(t, b, exit, 3 + len(exit),
                 false, 2 * loop.segments + 2, LoopMem(loop, len, exit + 1), k);
  }

  /** The iterations after the exiting one. */
  lemma {:induction false} SeqOfFailed<L(!new), V(!new)>(
    t: Task<Ctl<L>, V>, b: Bounds, loop: Loop<L, V>, cores: nat, gate: nat, exit: nat, len: nat -> nat, i: nat, k: nat)
    requires Fits(t, b, loop, cores, gate, exit, len) && Synchronised(loop, gate, exit, len) && exit < i
              && k <= loop.segments
    ensures && Seq(t, b, i, 0) == (AtHeader(loop.locals(i)), LoopMem(loop, len, exit + 1))
            && Seq(t, b, i, 1) == (AtCheck(loop.locals(i)), LoopMem(loop, len, exit + 1))
            && Seq(t, b, i, 2 + k) == (InFailed(k), LoopMem(loop, len, exit + 1))
    decreases i
  {
    if i - 1 == exit { SeqOfExit(t, b, loop, cores, gate, exit, len, 2 * loop.segments + 2); }
    else { SeqOfFailed(t, b, loop, cores, gate, exit, len, i - 1, loop.segments); }
    HeaderSteps(t, b, loop, gate, i, LoopMem(loop, len, exit + 1));
    BlocksAreStretches(t, loop, gate);
    SeqOfStretch(t, b, i, 2, true, loop.segments, LoopMem(loop, len, exit + 1), k);
  }

  // ---------------------------------------------------------------- the sets along each kind of iteration

  lemma OpsOfPath<L(!new), V(!new)>(
    t: Task<Ctl<L>, V>, b: Bounds, loop: Loop<L, V>, cores: nat, gate: nat, exit: nat, len: nat -> nat, i: nat,
    a: nat)
    requires Fits(t, b, loop, cores, gate, exit, len) && Synchronised(loop, gate, exit, len) && i <= exit
              && a < 2 + len(i)
    ensures var o := OpAt(t, b, i, a);
            if a == 1 then o == Check else o == FullPath(loop, gate, len, i)[a]
  {
    if a < 2 {
      SeqIsLoop(t, b, loop, cores, gate, exit, len, i, 0);
      TaskFields(t, loop, gate, Seq(t, b, i, a).0);
    } else {
      SeqIsLoop(t, b, loop, cores, gate, exit, len, i, a - 2);
      PathStep(loop, gate, exit, len, i, a - 2);
      TaskFields(t, loop, gate, Seq(t, b, i, a).0);
    }
  }

  lemma SetsOfPath<L(!new), V(!new)>(
    t: Task<Ctl<L>, V>, b: Bounds, loop: Loop<L, V>, cores: nat, gate: nat, exit: nat, len: nat -> nat, i: nat,
    j: nat, s: nat)
    requires Fits(t, b, loop, cores, gate, exit, len) && Synchronised(loop, gate, exit, len) && i <= exit
              && j <= 2 + len(i)
    ensures var ops := FullPath(loop, gate, len, i);
            && (s in Entered(t, b, i, j) <==> OnPath(ops, Enter(s), j))
            && (s in Left(t, b, i, j) <==> OnPath(ops, Leave(s), j))
  {
    var ops := FullPath(loop, gate, len, i);
    forall a: nat | a < |ops|
      ensures OpAt(t, b, i, a) == ops[a] || (OpAt(t, b, i, a) == Check && ops[a] == Local)
    {
      OpsOfPath(t, b, loop, cores, gate, exit, len, i, a);
    }
    SetsFollowPath(t, b, i, ops, loop.segments, j, s);
  }

  ghost predicate Covers(lo: int, hi: int, segs: set<nat>) {
    forall s: nat :: lo <= s < hi ==> s in segs
  }

  /** After operation k of the exit block, which starts at operation `base` of iteration i. */
  ghost predicate ExitSets<C(!new), V(!new)>(
    t: Task<C, V>, b: Bounds, i: nat, base: nat, gate: nat, n: nat, k: nat)
  {
    && Covers(n + 2 - k, n, Entered(t, b, i, base + k))
    && gate in Entered(t, b, i, base + k)
    && Covers(0, k - n - 2, Left(t, b, i, base + k))
    && (k <= 1 ==> gate !in Left(t, b, i, base + k))
    && (k >= 1 ==> Raised(t, b, i, base + k))
  }

  /** In the exit block all segments get entered before any but the prologue is signalled. */
  lemma {:induction false} ExitSetsHold<C(!new), V(!new)>(
    t: Task<C, V>, b: Bounds, i: nat, base: nat, gate: nat, n: nat, k: nat)
    requires forall a: nat :: a < k ==> OpAt(t, b, i, base + a) == ExitOp(n, gate, a)
    requires gate in Entered(t, b, i, base) && gate !in Left(t, b, i, base) && k <= 2 * n + 2
    ensures ExitSets(t, b, i, base, gate, n, k)
    decreases k
  {
    if k > 0 {
      ExitSetsHold(t, b, i, base, gate, n, k - 1);
      assert OpAt(t, b, i, base + (k - 1)) == ExitOp(n, gate, k - 1);
    }
  }

  lemma OpsOfExit<L(!new), V(!new)>(
    t: Task<Ctl<L>, V>, b: Bounds, loop: Loop<L, V>, cores: nat, gate: nat, exit: nat, len: nat -> nat)
    requires Fits(t, b, loop, cores, gate, exit, len) && Synchronised(loop, gate, exit, len)
    ensures var base := 3 + len(exit);
            forall a: nat :: a <= 2 * loop.segments + 2 ==> OpAt(t, b, exit, base + a) == ExitOp(loop.segments, gate, a)
  {
    var base := 3 + len(exit);
    forall a: nat | a <= 2 * loop.segments + 2
      ensures OpAt(t, b, exit, base + a) == ExitOp(loop.segments, gate, a)
    {
      SeqOfExit(t, b, loop, cores, gate, exit, len, a);
      TaskFields(t, loop, gate, InExit(a));
    }
  }

  lemma OpAtExit<L(!new), V(!new)>(
    t: Task<Ctl<L>, V>, b: Bounds, loop: Loop<L, V>, cores: nat, gate: nat, exit: nat, len: nat -> nat)
    requires Fits(t, b, loop, cores, gate, exit, len) && Synchronised(loop, gate, exit, len)
    ensures OpAt(t, b, exit, 2 + len(exit)) == Local
  {
    SeqIsLoop(t, b, loop, cores, gate, exit, len, exit, len(exit));
    TakeExit(t, loop, gate, Body(loop, len, exit, len(exit)).0);
  }

  lemma GateOnPath<L(!new), V(!new)>(loop: Loop<L, V>, gate: nat, len: nat -> nat, i: nat)
    ensures OnPath(FullPath(loop, gate, len, i), Enter(gate), 2 + len(i))
  {
    assert FullPath(loop, gate, len, i)[0] == Enter(gate);
  }

  lemma SetsAtExit<L(!new), V(!new)>(
    t: Task<Ctl<L>, V>, b: Bounds, loop: Loop<L, V>, cores: nat, gate: nat, exit: nat, len: nat -> nat)
    requires Fits(t, b, loop, cores, gate, exit, len) && Synchronised(loop, gate, exit, len)
    ensures gate in Entered(t, b, exit, 2 + len(exit))
    ensures gate !in Left(t, b, exit, 2 + len(exit))
  {
    SetsOfPath(t, b, loop, cores, gate, exit, len, exit, 2 + len(exit), gate);
    GateOnPath(loop, gate, len, exit);
  }

  lemma SetsAfterLocal<C(!new), V(!new)>(t: Task<C, V>, b: Bounds, i: nat, j: nat)
    requires OpAt(t, b, i, j) == Local
    ensures Entered(t, b, i, j + 1) == Entered(t, b, i, j) && Left(t, b, i, j + 1) == Left(t, b, i, j)
  {}

  lemma SetsOfExit<L(!new), V(!new)>(
    t: Task<Ctl<L>, V>, b: Bounds, loop: Loop<L, V>, cores: nat, gate: nat, exit: nat, len: nat -> nat, k: nat)
    requires Fits(t, b, loop, cores, gate, exit, len) && Synchronised(loop, gate, exit, len)
              && k <= 2 * loop.segments + 2
    ensures ExitSets(t, b, exit, 3 + len(exit),
                     gate, loop.segments, k)
  {
    OpAtExit(t, b, loop, cores, gate, exit, len);
    SetsAtExit(t, b, loop, cores, gate, exit, len);
    SetsAfterLocal(t, b, exit, 2 + len(exit));
    OpsOfExit(t, b, loop, cores, gate, exit, len);
    ExitSetsHold(t, b, exit, 3 + len(exit), gate, loop.segments, k);
  }

  lemma {:induction false} FailedSets<C(!new), V(!new)>(t: Task<C, V>, b: Bounds, i: nat, gate: nat, k: nat)
    requires OpAt(t, b, i, 0) == Enter(gate) && OpAt(t, b, i, 1) == Check
    requires forall a: nat :: a < k ==> OpAt(t, b, i, 2 + a) == Leave(a)
    ensures Entered(t, b, i, 1) == {gate} && Left(t, b, i, 1) == {}
    ensures Entered(t, b, i, 2 + k) == {gate}
    ensures Left(t, b, i, 2 + k) == if gate < k then {gate} else {}
    decreases k
  {
    if k > 0 {
      FailedSets(t, b, i, gate, k - 1);
      assert OpAt(t, b, i, 2 + (k - 1)) == Leave(k - 1);
    } else {
      assert Entered(t, b, i, 0) == {} && Left(t, b, i, 0) == {};
      assert Entered(t, b, i, 1) == {gate};
    }
  }

  lemma OpsOfFailed<L(!new), V(!new)>(
    t: Task<Ctl<L>, V>, b: Bounds, loop: Loop<L, V>, cores: nat, gate: nat, exit: nat, len: nat -> nat, i: nat, j: nat)
    requires Fits(t, b, loop, cores, gate, exit, len) && Synchronised(loop, gate, exit, len)
    requires exit < i && j <= 2 + loop.segments
    ensures OpAt(t, b, i, j) == if j == 0 then Enter(gate) else if j == 1 then Check
                                else if j - 2 < loop.segments then Leave(j - 2) else Halt
  {
    SeqOfFailed(t, b, loop, cores, gate, exit, len, i, if j < 2 then 0 else j - 2);
    TaskFields(t, loop, gate, Seq(t, b, i, j).0);
  }

  lemma SetsOfFailed<L(!new), V(!new)>(
    t: Task<Ctl<L>, V>, b: Bounds, loop: Loop<L, V>, cores: nat, gate: nat, exit: nat, len: nat -> nat, i: nat, k: nat)
    requires Fits(t, b, loop, cores, gate, exit, len) && Synchronised(loop, gate, exit, len) && exit < i
              && k <= loop.segments
    ensures Entered(t, b, i, 1) == {gate} && Left(t, b, i, 1) == {}
    ensures Entered(t, b, i, 2 + k) == {gate}
    ensures Left(t, b, i, 2 + k) == if gate < k then {gate} else {}
  {
    OpsOfFailed(t, b, loop, cores, gate, exit, len, i, 0);
    OpsOfFailed(t, b, loop, cores, gate, exit, len, i, 1);
    forall a: nat | a < k ensures OpAt(t, b, i, 2 + a) == Leave(a) {
      OpsOfFailed(t, b, loop, cores, gate, exit, len, i, 2 + a);
    }
    FailedSets(t, b, i, gate, k);
  }

  // ---------------------------------------------------------------- discipline

  lemma PathIsDisciplined<L(!new), V(!new)>(
    t: Task<Ctl<L>, V>, b: Bounds, loop: Loop<L, V>, cores: nat, gate: nat, exit: nat, len: nat -> nat, i: nat, j: nat)
    requires Fits(t, b, loop, cores, gate, exit, len) && Synchronised(loop, gate, exit, len) && i <= exit
              && j < 2 + len(i)
    ensures OpOk(t, b, i, j)
  {
    var ops := FullPath(loop, gate, len, i);
    forall s: nat
      ensures s in Entered(t, b, i, j) <==> OnPath(ops, Enter(s), j)
      ensures s in Left(t, b, i, j) <==> OnPath(ops, Leave(s), j)
    {
      SetsOfPath(t, b, loop, cores, gate, exit, len, i, j, s);
    }
    OpsOfPath(t, b, loop, cores, gate, exit, len, i, j);
    assert StepOk(ops, loop.segments, j);
    if j == 1 {
      assert ops[0] == Enter(gate);
      OpsOfPath(t, b, loop, cores, gate, exit, len, i, 0);
    }
  }

  lemma BackEdgeIsDisciplined<L(!new), V(!new)>(
    t: Task<Ctl<L>, V>, b: Bounds, loop: Loop<L, V>, cores: nat, gate: nat, exit: nat, len: nat -> nat, i: nat)
    requires Fits(t, b, loop, cores, gate, exit, len) && Synchronised(loop, gate, exit, len) && i < exit
    ensures OpOk(t, b, i, 2 + len(i))
  {
    SeqIsLoop(t, b, loop, cores, gate, exit, len, i, len(i));
    assert EndsWith(loop, len, i, Next);
    TaskFields(t, loop, gate, InBody(Body(loop, len, i, len(i)).0));
    var left := Left(t, b, i, 2 + len(i));
    forall s: nat | s < loop.segments ensures s in left {
      SetsOfPath(t, b, loop, cores, gate, exit, len, i, 2 + len(i), s);
      assert OnPath(FullPath(loop, gate, len, i), Leave(s), 2 + len(i)) by {
        assert LeavesAll(FullPath(loop, gate, len, i), loop.segments);
      }
    }
  }

  lemma ExitOpOk<C(!new), V(!new)>(t: Task<C, V>, b: Bounds, base: nat, gate: nat, k: nat)
    requires OpAt(t, b, b.final, base + k) == ExitOp(t.segments, gate, k) && k <= 2 * t.segments + 2
    requires ExitSets(t, b, b.final, base, gate, t.segments, k) && gate < t.segments
    requires b.length(b.final) == base + 2 * t.segments + 2 && !b.strict
    requires forall s: nat :: s < t.segments ==> b.final <= b.cap(s)
    ensures OpOk(t, b, b.final, base + k)
  {}

  lemma ExitIsDisciplined<L(!new), V(!new)>(
    t: Task<Ctl<L>, V>, b: Bounds, loop: Loop<L, V>, cores: nat, gate: nat, exit: nat, len: nat -> nat, j: nat)
    requires Fits(t, b, loop, cores, gate, exit, len) && Synchronised(loop, gate, exit, len)
    requires 2 + len(exit) <= j <= len(exit) + 2 * loop.segments + 5
    ensures OpOk(t, b, exit, j)
  {
    if j == 2 + len(exit) {
      OpAtExit(t, b, loop, cores, gate, exit, len);
    } else {
      var k := j - len(exit) - 3;
      OpsOfExit(t, b, loop, cores, gate, exit, len);
      SetsOfExit(t, b, loop, cores, gate, exit, len, k);
      ExitOpOk(t, b, 3 + len(exit), gate, k);
    }
  }

  lemma FailedIsDisciplined<L(!new), V(!new)>(
    t: Task<Ctl<L>, V>, b: Bounds, loop: Loop<L, V>, cores: nat, gate: nat, exit: nat, len: nat -> nat, i: nat, j: nat)
    requires Fits(t, b, loop, cores, gate, exit, len) && Synchronised(loop, gate, exit, len)
    requires exit < i < exit + cores && j <= 2 + loop.segments
    ensures OpOk(t, b, i, j)
  {
    OpsOfFailed(t, b, loop, cores, gate, exit, len, i, j);
    SetsOfFailed(t, b, loop, cores, gate, exit, len, i, if j < 2 then 0 else j - 2);
  }

  /** The prologue is left in the exiting iteration only after the flag is set. */
  lemma GateIsOk<L(!new), V(!new)>(
    t: Task<Ctl<L>, V>, b: Bounds, loop: Loop<L, V>, cores: nat, gate: nat, exit: nat, len: nat -> nat, j: nat)
    requires Fits(t, b, loop, cores, gate, exit, len) && Synchronised(loop, gate, exit, len)
              && j <= len(exit) + 2 * loop.segments + 5
    ensures GateOk(t, b, j)
  {
    if j <= 2 + len(exit) {
      SetsOfPath(t, b, loop, cores, gate, exit, len, exit, j, gate);
      NotRaisedOnPath(t, b, loop, cores, gate, exit, len, j);
    } else {
      SetsOfExit(t, b, loop, cores, gate, exit, len, j - len(exit) - 3);
    }
  }

  lemma {:induction false} NotRaisedOnPath<L(!new), V(!new)>(
    t: Task<Ctl<L>, V>, b: Bounds, loop: Loop<L, V>, cores: nat, gate: nat, exit: nat, len: nat -> nat, j: nat)
    requires Fits(t, b, loop, cores, gate, exit, len) && Synchronised(loop, gate, exit, len) && j <= 2 + len(exit)
    ensures !Raised(t, b, exit, j)
    decreases j
  {
    if j > 0 {
      NotRaisedOnPath(t, b, loop, cores, gate, exit, len, j - 1);
      OpsOfPath(t, b, loop, cores, gate, exit, len, exit, j - 1);
      assert StepOk(FullPath(loop, gate, len, exit), loop.segments, j - 1);
    }
  }

  lemma FitsIsDisciplined<L(!new), V(!new)>(
    t: Task<Ctl<L>, V>, b: Bounds, loop: Loop<L, V>, cores: nat, gate: nat, exit: nat, len: nat -> nat)
    requires Fits(t, b, loop, cores, gate, exit, len) && Synchronised(loop, gate, exit, len)
    ensures Disciplined(t, b)
  {
    forall i: nat, j: nat | i < exit + cores && j <= b.length(i) ensures OpOk(t, b, i, j) {
      if i > exit { FailedIsDisciplined(t, b, loop, cores, gate, exit, len, i, j); }
      else if j < 2 + len(i) { PathIsDisciplined(t, b, loop, cores, gate, exit, len, i, j); }
      else if i < exit { BackEdgeIsDisciplined(t, b, loop, cores, gate, exit, len, i); }
      else { ExitIsDisciplined(t, b, loop, cores, gate, exit, len, j); }
    }
    forall j: nat | j <= b.length(exit) ensures GateOk(t, b, j) { GateIsOk(t, b, loop, cores, gate, exit, len, j); }
  }

  /** A loop with a synchronised prologue gives a disciplined task. */
  lemma PrologueIsDisciplined<L(!new), V(!new)>(loop: Loop<L, V>, cores: nat, gate: nat, exit: nat, len: nat -> nat)
    requires 0 < cores && Synchronised(loop, gate, exit, len)
    ensures Disciplined(TaskOf(loop, cores, gate), BoundsOf(loop, cores, gate, exit, len))
    ensures Fits(TaskOf(loop, cores, gate), BoundsOf(loop, cores, gate, exit, len), loop, cores, gate, exit, len)
  {
    TaskFits(loop, cores, gate, exit, len);
    FitsIsDisciplined(TaskOf(loop, cores, gate), BoundsOf(loop, cores, gate, exit, len), loop, cores, gate, exit, len);
  }
}
