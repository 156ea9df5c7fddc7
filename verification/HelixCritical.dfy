/**
 The dispatcher's second mode, a single lock array for all cores: the segments are critical
 sections.  The compiler looks this mode's entry point up and never emits a call to it, so
 nothing here is about code that HELIX generates today; the ordered mode it does use is the
 subject of HelixOrder and HelixRuns.  In this mode iterations take the segments in any
 order, one core at a time.  That no run gets stuck is proved for nested waits in descending
 order, the order of the exit block; the condition is not necessary, as an outer segment
 around every ascending nest would serve as well.
 */
module HelixCritical {
  import opened HelixMachine
  import opened HelixLoop
  import opened HelixCounted

  /** What a task may do in control state c after the waits `en` and the signals `le` of its iteration. */
  ghost predicate StepFollows<C(!new), V(!new)>(
    t: Task<C, V>, ok: (C, set<nat>, set<nat>) -> bool, c: C, en: set<nat>, le: set<nat>)
  {
    match t.op(c)
    case Enter(s) => s < t.segments && (s in en || Descends(en, le, s)) && ok(t.advance(c), en + {s}, le)
    case Access(s) => s < t.segments && s in en && s !in le && forall v :: ok(t.onAccess(c, v).0, en, le)
    case Leave(s) => s < t.segments && s in en && s !in le && ok(t.advance(c), en, le + {s})
    case Check => forall over :: ok(t.onCheck(c, over), en, le)
    case Next => en <= le
    case Halt => en <= le
    case _ => ok(t.advance(c), en, le)
  }

  /** The segments in use are all larger than s. */
  ghost predicate Descends(en: set<nat>, le: set<nat>, s: nat) {
    forall h :: h in en && h !in le ==> s < h
  }

  /** Whatever values the accesses and the flag give, the task stays within `ok`. */
  ghost predicate Follows<C(!new), V(!new)>(t: Task<C, V>, ok: (C, set<nat>, set<nat>) -> bool) {
    && t.arrays == 1 && |t.mem0| == t.segments
    && (forall i: nat :: ok(t.start(i), {}, {}))
    && (forall c, en, le {:trigger StepFollows(t, ok, c, en, le)} :: ok(c, en, le) ==> StepFollows(t, ok, c, en, le))
  }

  ghost predicate CoresFollow<C(!new), V(!new)>(t: Task<C, V>, ok: (C, set<nat>, set<nat>) -> bool, st: State<C, V>) {
    Shaped(t, st) && forall c: nat :: c < t.cores ==> ok(st.cores[c].ctl, st.cores[c].entered, st.cores[c].left)
  }

  /** The lock of s is open exactly when no core is inside, and never are two. */
  ghost predicate Exclusive<C(!new), V(!new)>(t: Task<C, V>, st: State<C, V>, s: nat)
    requires Shaped(t, st) && t.arrays == 1 && s < t.segments
  {
    && (st.locks[0][s] <==> forall c: nat :: c < t.cores ==> !Holds(st.cores[c], s))
    && (forall c: nat, d: nat :: c < t.cores && d < t.cores && Holds(st.cores[c], s) && Holds(st.cores[d], s) ==>
        c == d)
  }

  ghost predicate Safe<C(!new), V(!new)>(t: Task<C, V>, ok: (C, set<nat>, set<nat>) -> bool, st: State<C, V>) {
    t.arrays == 1 && CoresFollow(t, ok, st) && forall s: nat :: s < t.segments ==> Exclusive(t, st, s)
  }

  lemma CoresKeepFollowing<C(!new), V(!new)>(
    t: Task<C, V>, ok: (C, set<nat>, set<nat>) -> bool, st: State<C, V>, c: nat)
    requires Follows(t, ok) && Safe(t, ok, st) && c < t.cores && Enabled(t, st, c)
    ensures CoresFollow(t, ok, StepOf(t, st, c))
  {
    var k := st.cores[c];
    assert StepFollows(t, ok, k.ctl, k.entered, k.left);
    assert {} + k.left == k.left;
  }

  /** What one operation does to lock s and to who is inside s. */
  lemma EffectOn<C(!new), V(!new)>(
    t: Task<C, V>, ok: (C, set<nat>, set<nat>) -> bool, st: State<C, V>, c: nat, s: nat)
    requires Follows(t, ok) && Safe(t, ok, st) && c < t.cores && Enabled(t, st, c) && s < t.segments
    ensures var st' := StepOf(t, st, c); var k, o := st.cores[c], t.op(st.cores[c].ctl);
            && (forall d: nat :: d < t.cores && d != c ==> st'.cores[d] == st.cores[d])
            && (if o == Enter(s) && s !in k.entered then
                  st.locks[0][s] && !st'.locks[0][s] && Holds(st'.cores[c], s) == (s !in k.left)
                else if o == Leave(s) then
                  Holds(k, s) && st'.locks[0][s] && !Holds(st'.cores[c], s)
                else
                  st'.locks[0][s] == st.locks[0][s] && Holds(st'.cores[c], s) == Holds(k, s))
  {
    var k := st.cores[c];
    assert StepFollows(t, ok, k.ctl, k.entered, k.left);
    assert Past(t, c) == 0 && Future(t, c) == 0;
  }

  /** A signal is never ahead of its wait. */
  ghost predicate LeftEntered<C(!new), V(!new)>(t: Task<C, V>, st: State<C, V>)
    requires Shaped(t, st)
  {
    forall c: nat :: c < t.cores ==> st.cores[c].left <= st.cores[c].entered
  }

  lemma StepKeepsExclusive<C(!new), V(!new)>(
    t: Task<C, V>, ok: (C, set<nat>, set<nat>) -> bool, st: State<C, V>, c: nat)
    requires Follows(t, ok) && Safe(t, ok, st) && LeftEntered(t, st) && c < t.cores && Enabled(t, st, c)
    ensures Safe(t, ok, StepOf(t, st, c)) && LeftEntered(t, StepOf(t, st, c))
  {
    CoresKeepFollowing(t, ok, st, c);
    var st' := StepOf(t, st, c);
    forall s: nat | s < t.segments ensures Exclusive(t, st', s) {
      EffectOn(t, ok, st, c, s);
      assert Exclusive(t, st, s);
    }
    assert StepFollows(t, ok, st.cores[c].ctl, st.cores[c].entered, st.cores[c].left);
  }

  lemma InitIsSafe<C(!new), V(!new)>(t: Task<C, V>, ok: (C, set<nat>, set<nat>) -> bool)
    requires Follows(t, ok)
    ensures Safe(t, ok, Init(t)) && LeftEntered(t, Init(t))
  {
    var st := Init(t);
    assert Shaped(t, st);
    assert forall c: nat :: c < t.cores ==> st.cores[c] == Core(c, 0, t.start(c), {}, {});
    forall s: nat | s < t.segments ensures Exclusive(t, st, s) { assert st.locks[0][s]; }
  }

  lemma NextIsSafe<C(!new), V(!new)>(
    t: Task<C, V>, ok: (C, set<nat>, set<nat>) -> bool, st: State<C, V>, st': State<C, V>)
    requires Follows(t, ok) && Safe(t, ok, st) && LeftEntered(t, st) && NextState(t, st, st')
    ensures Safe(t, ok, st') && LeftEntered(t, st')
  {
    var c: nat :| c < t.cores && Enabled(t, st, c) && st' == StepOf(t, st, c);
    StepKeepsExclusive(t, ok, st, c);
  }

  /** Mutual exclusion, over every run of every task that pairs its waits and signals. */
  lemma {:induction false} MutualExclusion<C(!new), V(!new)>(
    t: Task<C, V>, ok: (C, set<nat>, set<nat>) -> bool, run: seq<State<C, V>>, k: nat)
    requires Follows(t, ok) && IsRun(t, run) && k < |run|
    ensures Safe(t, ok, run[k]) && LeftEntered(t, run[k])
    decreases k
  {
    if k == 0 {
      InitIsSafe(t, ok);
    } else {
      MutualExclusion(t, ok, run, k - 1);
      assert NextState(t, run[k - 1], run[k - 1 + 1]);
      NextIsSafe(t, ok, run[k - 1], run[k]);
    }
  }

  /** A cell changes only by an operation of the one core inside its segment. */
  lemma OnlyTheHolderWrites<C(!new), V(!new)>(
    t: Task<C, V>, ok: (C, set<nat>, set<nat>) -> bool, st: State<C, V>, c: nat, s: nat)
    requires Follows(t, ok) && Safe(t, ok, st) && c < t.cores && Enabled(t, st, c) && s < t.segments
    requires StepOf(t, st, c).mem[s] != st.mem[s]
    ensures Holds(st.cores[c], s) && !st.locks[0][s]
    ensures forall d: nat :: d < t.cores && d != c ==> !Holds(st.cores[d], s)
  {
    var k := st.cores[c];
    assert StepFollows(t, ok, k.ctl, k.entered, k.left);
    assert Exclusive(t, st, s);
  }

  /** From a core that cannot move to one that can: whoever is inside waits for a smaller segment or moves. */
  lemma {:induction false} SomeoneMoves<C(!new), V(!new)>(
    t: Task<C, V>, ok: (C, set<nat>, set<nat>) -> bool, st: State<C, V>, c: nat, s: nat) returns (d: nat)
    requires Follows(t, ok) && Safe(t, ok, st) && c < t.cores
    requires t.op(st.cores[c].ctl) == Enter(s)
    ensures d < t.cores && Enabled(t, st, d)
    decreases s
  {
    var k := st.cores[c];
    assert StepFollows(t, ok, k.ctl, k.entered, k.left);
    if Enabled(t, st, c) {
      d := c;
    } else {
      assert Past(t, c) == 0;
      assert Exclusive(t, st, s);
      d :| d < t.cores && Holds(st.cores[d], s);
      var h := st.cores[d];
      assert StepFollows(t, ok, h.ctl, h.entered, h.left);
      if !Enabled(t, st, d) {
        d := SomeoneMoves(t, ok, st, d, t.op(h.ctl).seg);
      }
    }
  }

  /** No deadlock: while a core has not returned, some core can take a step. */
  lemma NoDeadlock<C(!new), V(!new)>(
    t: Task<C, V>, ok: (C, set<nat>, set<nat>) -> bool, run: seq<State<C, V>>)
    requires Follows(t, ok) && IsRun(t, run)
    ensures AllHalted(t, Last(run)) || exists st :: NextState(t, Last(run), st)
  {
    var st := Last(run);
    MutualExclusion(t, ok, run, |run| - 1);
    if !AllHalted(t, st) {
      var c: nat :| c < t.cores && !Halted(t, st, c);
      var k := st.cores[c];
      assert StepFollows(t, ok, k.ctl, k.entered, k.left);
      var d := c;
      if !Enabled(t, st, c) { d := SomeoneMoves(t, ok, st, c, t.op(k.ctl).seg); }
      assert NextState(t, st, StepOf(t, st, d));
    }
  }

  // ---------------------------------------------------------------- loops with a known trip count

  /** The task of a counted loop when the dispatcher gives all cores the same array. */
  function CriticalTask<L(!new), V(!new)>(loop: Loop<L, V>, cores: nat, trips: nat): Task<Ctl<L>, V> {
    TaskOf(loop, cores, trips).(arrays := 1)
  }

  ghost predicate BodyStep<L(!new), V(!new)>(
    loop: Loop<L, V>, ok: (L, set<nat>, set<nat>) -> bool, l: L, en: set<nat>, le: set<nat>)
  {
    match loop.op(l)
    case Enter(s) => s < loop.segments && (s in en || Descends(en, le, s)) && ok(loop.advance(l), en + {s}, le)
    case Access(s) => s < loop.segments && s in en && s !in le && forall v :: ok(loop.onAccess(l, v).0, en, le)
    case Leave(s) => s < loop.segments && s in en && s !in le && ok(loop.advance(l), en, le + {s})
    case Local => ok(loop.advance(l), en, le)
    case Next => en <= le
    case _ => false
  }

  /** On every path through the body, waits and signals alternate and nested waits descend. */
  ghost predicate BodyFollows<L(!new), V(!new)>(loop: Loop<L, V>, ok: (L, set<nat>, set<nat>) -> bool) {
    && |loop.mem0| == loop.segments
    && (forall i: nat :: ok(loop.locals(i), {}, {}))
    && (forall l, en, le {:trigger BodyStep(loop, ok, l, en, le)} :: ok(l, en, le) ==> BodyStep(loop, ok, l, en, le))
  }

  ghost predicate CtlOk<L>(
    ok: (L, set<nat>, set<nat>) -> bool, segments: nat, c: Ctl<L>, en: set<nat>, le: set<nat>)
  {
    match c
    case InBody(l) => ok(l, en, le)
    case InExit(k) =>
      && k <= 2 * segments
      && (forall s: nat :: s in en <==> segments - k <= s < segments)
      && (forall s: nat :: s in le <==> s < k - segments)
  }

  /** The exit block waits in descending order, so the whole task of a counted loop is well behaved. */
  lemma CountedFollows<L(!new), V(!new)>(
    loop: Loop<L, V>, ok: (L, set<nat>, set<nat>) -> bool, cores: nat, trips: nat)
    requires BodyFollows(loop, ok)
    ensures Follows(CriticalTask(loop, cores, trips), (c, en, le) => CtlOk(ok, loop.segments, c, en, le))
  {
    var t := CriticalTask(loop, cores, trips);
    var all := (c: Ctl<L>, en: set<nat>, le: set<nat>) => CtlOk(ok, loop.segments, c, en, le);
    forall c, en, le | all(c, en, le) ensures StepFollows(t, all, c, en, le) {
      match c
      case InBody(l) => assert BodyStep(loop, ok, l, en, le);
      case InExit(k) =>
    }
  }

  /** With one lock array, a counted loop's segments exclude each other's executions and no run gets stuck. */
  lemma CriticalSections<L(!new), V(!new)>(
    loop: Loop<L, V>, ok: (L, set<nat>, set<nat>) -> bool, cores: nat, trips: nat,
    run: seq<State<Ctl<L>, V>>, c: nat, d: nat, s: nat)
    requires BodyFollows(loop, ok) && IsRun(CriticalTask(loop, cores, trips), run)
    requires Shaped(CriticalTask(loop, cores, trips), Last(run))
    requires c < cores && d < cores && c != d && s < loop.segments
    ensures !(Holds(Last(run).cores[c], s) && Holds(Last(run).cores[d], s))
    ensures AllHalted(CriticalTask(loop, cores, trips), Last(run))
            || exists st :: NextState(CriticalTask(loop, cores, trips), Last(run), st)
  {
    var t := CriticalTask(loop, cores, trips);
    var all := (c: Ctl<L>, en: set<nat>, le: set<nat>) => CtlOk(ok, loop.segments, c, en, le);
    CountedFollows(loop, ok, cores, trips);
    MutualExclusion(t, all, run, |run| - 1);
    assert Exclusive(t, Last(run), s);
    NoDeadlock(t, all, run);
  }

  /** A body that waits for segment 0 and, inside it, for segment 1. */
  function Ascending(): Loop<int, int> {
    Loop(2, [0, 0], (i: nat) => 0,
         (l: int) =>
           match l { case 0 => Enter(0) case 1 => Enter(1) case 2 => Leave(1) case 3 => Leave(0) case _ => Next },
         (l: int) => l + 1, (l: int, v: int) => (l, v))
  }

  /**
   Without a condition on the order it fails in this mode: against the exit block's descending
   waits, ascending ones can get stuck.
   */
  lemma AscendingWaitsCanDeadlock() returns (run: seq<State<Ctl<int>, int>>)
    ensures IsRun(CriticalTask(Ascending(), 2, 1), run)
    ensures !AllHalted(CriticalTask(Ascending(), 2, 1), Last(run))
    ensures !exists st :: NextState(CriticalTask(Ascending(), 2, 1), Last(run), st)
  {
    var t := CriticalTask(Ascending(), 2, 1);
    var a := Init(t);
    assert a.cores[0].ctl == InBody(0) && a.cores[1].ctl == InExit(0);
    assert t.op(InBody(0)) == Enter(0) && t.op(InExit(0)) == Enter(1);
    assert a.locks[0][0] && a.locks[0][1];
    var b := StepOf(t, a, 0);
    assert NextState(t, a, b);
    var c := StepOf(t, b, 1);
    assert NextState(t, b, c);
    run := [a, b, c];
    assert c.cores[0].ctl == InBody(1) && c.cores[1].ctl == InExit(1);
    assert t.op(InBody(1)) == Enter(1) && t.op(InExit(1)) == Enter(0);
    assert !Enabled(t, c, 0) && !Enabled(t, c, 1) && !Halted(t, c, 0);
  }
}
