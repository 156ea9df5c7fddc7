/**
 Why an iteration may signal a segment only once.  A second signal can come after the next
 core has taken its lock; it opens that lock again, and the core can later enter an
 instance whose turn it is not.
 */
module HelixSignals {
  import opened HelixMachine
  import opened HelixLoop
  import opened HelixCounted

  /** A body that adds one to the cell of segment 0 and signals the segment twice. */
  function TwoSignals(): Loop<int, int> {
    Loop(1, [0], (i: nat) => 0,
         (l: int) =>
           match l { case 0 => Enter(0) case 1 => Access(0) case 2 => Leave(0) case 3 => Leave(0) case _ => Next },
         (l: int) => l + 1,
         (l: int, v: int) => (l + 1, v + 1))
  }

  /** What the task of this loop does on two cores, in the part of it that is needed. */
  ghost predicate RunsTwoSignals(t: Task<Ctl<int>, int>) {
    && t.cores == 2 && t.arrays == 2 && t.segments == 1 && t.mem0 == [0]
    && t.start(0) == InBody(0) && t.start(1) == InBody(0) && t.start(3) == InBody(0)
    && t.op(InBody(0)) == Enter(0) && t.op(InBody(1)) == Access(0)
    && t.op(InBody(2)) == Leave(0) && t.op(InBody(3)) == Leave(0) && t.op(InBody(4)) == Next
    && t.advance(InBody(0)) == InBody(1) && t.advance(InBody(2)) == InBody(3) && t.advance(InBody(3)) == InBody(4)
    && t.onAccess(InBody(1), 0) == (InBody(2), 1) && t.onAccess(InBody(1), 1) == (InBody(2), 2)
  }

  lemma TaskRunsTwoSignals()
    ensures RunsTwoSignals(TaskOf(TwoSignals(), 2, 4))
  {}

  /** A core in the body, after `pos` operations. */
  function At(iter: nat, pos: nat): Core<Ctl<int>> {
    Core(iter, pos, InBody(pos), if pos > 0 then {0} else {}, if pos > 2 then {0} else {})
  }

  function Now(v: int, a: bool, b: bool, c: Core<Ctl<int>>, d: Core<Ctl<int>>, done: nat): State<Ctl<int>, int> {
    State([v], [[a], [b]], false, [c, d], [done])
  }

  /** c performs its next operation. */
  ghost predicate Goes(t: Task<Ctl<int>, int>, s: State<Ctl<int>, int>, c: nat, r: State<Ctl<int>, int>) {
    Shaped(t, s) && c < t.cores && Enabled(t, s, c) && StepOf(t, s, c) == r
  }

  lemma Locks(a: bool, b: bool, x: bool)
    ensures SetLock([[a], [b]], 0, 0, x) == [[x], [b]] && SetLock([[a], [b]], 1, 0, x) == [[a], [x]]
  {
    assert [a][0 := x] == [x] && [b][0 := x] == [x];
    assert [[a], [b]][0 := [x]] == [[x], [b]] && [[a], [b]][1 := [x]] == [[a], [x]];
  }

  /** What wait and signal do to the two locks, and to the sets of a core. */
  lemma Facts()
    ensures forall a, b, x {:trigger SetLock([[a], [b]], 0, 0, x)} :: SetLock([[a], [b]], 0, 0, x) == [[x], [b]]
    ensures forall a, b, x {:trigger SetLock([[a], [b]], 1, 0, x)} :: SetLock([[a], [b]], 1, 0, x) == [[a], [x]]
    ensures {0} + {0} == {0} && {} + {0} == {0}
  {
    forall a, b, x { Locks(a, b, x); }
  }

  lemma FirstCoreSignals(t: Task<Ctl<int>, int>)
    requires RunsTwoSignals(t)
    ensures Init(t) == Now(0, true, false, At(0, 0), At(1, 0), 0)
    ensures Goes(t, Now(0, true, false, At(0, 0), At(1, 0), 0), 0, Now(0, false, false, At(0, 1), At(1, 0), 0))
    ensures Goes(t, Now(0, false, false, At(0, 1), At(1, 0), 0), 0, Now(1, false, false, At(0, 2), At(1, 0), 0))
    ensures Goes(t, Now(1, false, false, At(0, 2), At(1, 0), 0), 0, Now(1, false, true, At(0, 3), At(1, 0), 1))
  {
    Facts();
    var i := Init(t);
    assert i.locks[0] == [true] && i.locks[1] == [false];
    assert i.cores == [At(0, 0), At(1, 0)] && i.done == [0];
  }

  lemma SecondSignalComesLate(t: Task<Ctl<int>, int>)
    requires RunsTwoSignals(t)
    ensures Goes(t, Now(1, false, true, At(0, 3), At(1, 0), 1), 1, Now(1, false, false, At(0, 3), At(1, 1), 1))
    ensures Goes(t, Now(1, false, false, At(0, 3), At(1, 1), 1), 0, Now(1, false, true, At(0, 4), At(1, 1), 1))
    ensures Goes(t, Now(1, false, true, At(0, 4), At(1, 1), 1), 1, Now(2, false, true, At(0, 4), At(1, 2), 1))
  {
    Facts();
  }

  lemma NextInstanceTooEarly(t: Task<Ctl<int>, int>)
    requires RunsTwoSignals(t)
    ensures Goes(t, Now(2, false, true, At(0, 4), At(1, 2), 1), 1, Now(2, true, true, At(0, 4), At(1, 3), 2))
    ensures Goes(t, Now(2, true, true, At(0, 4), At(1, 3), 2), 1, Now(2, true, true, At(0, 4), At(1, 4), 2))
    ensures Goes(t, Now(2, true, true, At(0, 4), At(1, 4), 2), 1, Now(2, true, true, At(0, 4), At(3, 0), 2))
  {
    Facts();
  }

  lemma GoesIsNext(t: Task<Ctl<int>, int>, s: State<Ctl<int>, int>, c: nat, r: State<Ctl<int>, int>)
    requires Goes(t, s, c, r)
    ensures NextState(t, s, r)
  {}

  /**
   Iteration 3 can enter the segment although only the instances 0 and 1 are complete, and finds
   the cell of iteration 2.
   */
  lemma TwoSignalsBreakTheOrder(t: Task<Ctl<int>, int>) returns (run: seq<State<Ctl<int>, int>>)
    requires t == TaskOf(TwoSignals(), 2, 4)
    ensures IsRun(t, run) && Shaped(t, Last(run))
    ensures var k := Last(run).cores[1];
            && t.op(k.ctl) == Enter(0) && 0 !in k.entered && Enabled(t, Last(run), 1)
            && k.iter == 3 && Last(run).done[0] == 2 && Last(run).mem[0] == 2
  {
    TaskRunsTwoSignals();
    run := TooEarly(t);
  }

  lemma TooEarly(t: Task<Ctl<int>, int>) returns (run: seq<State<Ctl<int>, int>>)
    requires RunsTwoSignals(t)
    ensures IsRun(t, run) && Last(run) == Now(2, true, true, At(0, 4), At(3, 0), 2)
    ensures Shaped(t, Last(run)) && Enabled(t, Last(run), 1) && t.op(Last(run).cores[1].ctl) == Enter(0)
  {
    FirstCoreSignals(t);
    SecondSignalComesLate(t);
    NextInstanceTooEarly(t);
    run := [Now(0, true, false, At(0, 0), At(1, 0), 0), Now(0, false, false, At(0, 1), At(1, 0), 0),
            Now(1, false, false, At(0, 2), At(1, 0), 0), Now(1, false, true, At(0, 3), At(1, 0), 1),
            Now(1, false, false, At(0, 3), At(1, 1), 1), Now(1, false, true, At(0, 4), At(1, 1), 1),
            Now(2, false, true, At(0, 4), At(1, 2), 1), Now(2, true, true, At(0, 4), At(1, 3), 2),
            Now(2, true, true, At(0, 4), At(1, 4), 2), Now(2, true, true, At(0, 4), At(3, 0), 2)];
    var who := [0, 0, 0, 1, 0, 1, 1, 1, 1];
    forall k | 0 <= k < |run| - 1 ensures NextState(t, run[k], run[k + 1]) {
      GoesIsNext(t, run[k], who[k], run[k + 1]);
    }
    assert Past(t, 1) == 1;
  }
}
