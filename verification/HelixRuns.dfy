/**
 What holds of every run of a disciplined task: segments are entered in iteration
 order with sequential values, some core can always move until all have returned, the
 length of a run is fixed, and the final memory is that of the sequential loop.
 */
module HelixRuns {
  import opened Arith
  import opened HelixMachine
  import opened HelixOrder

  // ---------------------------------------------------------------- all runs

  lemma LastStep<C(!new), V(!new)>(t: Task<C, V>, run: seq<State<C, V>>) returns (p: seq<State<C, V>>, c: nat)
    requires IsRun(t, run) && |run| > 1
    ensures p == run[..|run| - 1] && IsRun(t, p)
    ensures Shaped(t, Last(p)) && c < t.cores && Enabled(t, Last(p), c) && Last(run) == StepOf(t, Last(p), c)
  {
    p := run[..|run| - 1];
    forall k | 0 <= k < |p| - 1 ensures NextState(t, p[k], p[k + 1]) {
      assert NextState(t, run[k], run[k + 1]);
    }
    assert NextState(t, run[|run| - 2], run[|run| - 2 + 1]);
    c :| c < t.cores && Enabled(t, Last(p), c) && Last(run) == StepOf(t, Last(p), c);
  }

  lemma {:induction false} RunKeepsInv<C(!new), V(!new)>(t: Task<C, V>, b: Bounds, run: seq<State<C, V>>)
    requires Disciplined(t, b) && t.arrays == t.cores && IsRun(t, run)
    ensures forall k :: 0 <= k < |run| ==> Inv(t, b, run[k])
    decreases |run|
  {
    if |run| == 1 {
      InitInv(t, b);
    } else {
      var p, c := LastStep(t, run);
      RunKeepsInv(t, b, p);
      assert Inv(t, b, p[|p| - 1]);
      StepKeepsInv(t, b, Last(p), c);
      assert run == p + [Last(run)];
      AppendOk(t, b, p, Last(run));
    }
  }

  lemma AppendOk<C(!new), V(!new)>(t: Task<C, V>, b: Bounds, p: seq<State<C, V>>, st: State<C, V>)
    requires Inv(t, b, st) && forall k :: 0 <= k < |p| ==> Inv(t, b, p[k])
    ensures forall k :: 0 <= k < |p + [st]| ==> Inv(t, b, (p + [st])[k])
  {}

  /**
   A core that is let into segment s in iteration i finds that exactly the instances
   before i are complete, that nobody else is inside, and that the cell has the value
   with which the sequential loop starts iteration i.
   */
  lemma EntersInOrder<C(!new), V(!new)>(t: Task<C, V>, b: Bounds, run: seq<State<C, V>>, k: nat, c: nat, s: nat)
    requires Disciplined(t, b) && t.arrays == t.cores && IsRun(t, run) && k < |run|
    requires Shaped(t, run[k]) && c < t.cores && s < t.segments
    requires t.op(run[k].cores[c].ctl) == Enter(s) && s !in run[k].cores[c].entered && Enabled(t, run[k], c)
    ensures run[k].done[s] == run[k].cores[c].iter
    ensures forall d: nat :: d < t.cores ==> !Holds(run[k].cores[d], s)
    ensures run[k].mem[s] == SeqMem(t, b, run[k].cores[c].iter)[s]
  {
    RunKeepsInv(t, b, run);
    assert Inv(t, b, run[k]);
    EnterIsDue(t, b, run[k], c, s);
  }

  lemma EnterIsDue<C(!new), V(!new)>(t: Task<C, V>, b: Bounds, st: State<C, V>, c: nat, s: nat)
    requires Disciplined(t, b) && Inv(t, b, st) && c < t.cores && s < t.segments
    requires t.op(st.cores[c].ctl) == Enter(s) && s !in st.cores[c].entered && Enabled(t, st, c)
    ensures st.done[s] == st.cores[c].iter
    ensures forall d: nat :: d < t.cores ==> !Holds(st.cores[d], s)
    ensures st.mem[s] == SeqMem(t, b, st.cores[c].iter)[s]
  {
    Discipline(t, b, st, c);
    SmallMod(c, t.cores);
    assert CoreOk(t, b, st.cores[c], c);
    assert LockOk(t.cores, st.cores[c], s, b, st.done[s], st.locks[c][s]);
    NoOtherHolder(t, b, st, c, s);
    assert CellOk(t, b, st, s);
  }

  /** Inside a segment, a core sees what the sequential loop would see there. */
  lemma SeesSequentialValues<C(!new), V(!new)>(t: Task<C, V>, b: Bounds, run: seq<State<C, V>>, k: nat, c: nat, s: nat)
    requires Disciplined(t, b) && t.arrays == t.cores && IsRun(t, run) && k < |run|
    requires Shaped(t, run[k]) && c < t.cores && s < t.segments && Holds(run[k].cores[c], s)
    ensures var x := run[k].cores[c];
            x.ctl == Seq(t, b, x.iter, x.pos).0 && run[k].mem[s] == Seq(t, b, x.iter, x.pos).1[s]
  {
    RunKeepsInv(t, b, run);
    assert Inv(t, b, run[k]);
    assert CoreOk(t, b, run[k].cores[c], c) && CellOk(t, b, run[k], s);
  }

  /**
   In a strict task every segment has exactly one token: either one core is inside and
   all its locks are closed, or nobody is inside and one lock is open, that of the core
   which runs the next instance.
   */
  lemma OneToken<C(!new), V(!new)>(t: Task<C, V>, b: Bounds, run: seq<State<C, V>>, k: nat, s: nat)
    requires Disciplined(t, b) && b.strict && t.arrays == t.cores && IsRun(t, run) && k < |run|
    requires Shaped(t, run[k]) && s < t.segments
    ensures var st := run[k]; var owner := st.done[s] % t.cores;
            forall c: nat :: c < t.cores ==>
              && (Holds(st.cores[c], s) ==> c == owner)
              && (st.locks[c][s] <==> c == owner && !Holds(st.cores[owner], s))
  {
    RunKeepsInv(t, b, run);
    var st := run[k];
    assert Inv(t, b, st);
    var owner := st.done[s] % t.cores;
    forall c: nat | c < t.cores
      ensures Holds(st.cores[c], s) ==> c == owner
      ensures st.locks[c][s] <==> c == owner && !Holds(st.cores[owner], s)
    {
      assert CoreOk(t, b, st.cores[c], c) && TokenOk(t.cores, st.cores[c], s, st.done[s]);
      assert LockOk(t.cores, st.cores[c], s, b, st.done[s], st.locks[c][s]);
      WantRange(t, b, st, c, s);
      if c == owner && !Holds(st.cores[c], s) {
        SameResidue(Want(t.cores, st.cores[c], s), st.done[s], t.cores);
      }
    }
  }

  // ---------------------------------------------------------------- progress

  /** Among the cores below m that have not returned, one with the smallest iteration. */
  ghost function Slowest<C(!new), V(!new)>(t: Task<C, V>, st: State<C, V>, m: nat): (r: nat)
    requires Shaped(t, st) && m <= t.cores
    ensures r == t.cores ==> forall c: nat :: c < m ==> Halted(t, st, c)
    ensures r != t.cores ==> r < m && !Halted(t, st, r)
    ensures r != t.cores ==> forall c: nat :: c < m && !Halted(t, st, c) ==> st.cores[r].iter <= st.cores[c].iter
  {
    if m == 0 then t.cores
    else
      var r := Slowest(t, st, m - 1);
      if Halted(t, st, m - 1) then r
      else if r == t.cores || st.cores[m - 1].iter < st.cores[r].iter then m - 1
      else r
  }

  /** A core that still holds a due instance, or has not reached it, has not returned and is not ahead of it. */
  lemma OwnerIsBehind<C(!new), V(!new)>(t: Task<C, V>, b: Bounds, st: State<C, V>, s: nat)
    requires Disciplined(t, b) && Inv(t, b, st) && s < t.segments && st.done[s] <= b.cap(s)
    ensures var d := st.done[s] % t.cores;
            && (st.cores[d].iter <= st.done[s])
            && !Halted(t, st, d)
  {
    var d := st.done[s] % t.cores;
    var x := st.cores[d];
    assert CoreOk(t, b, x, d) && TokenOk(t.cores, x, s, st.done[s]);
    WantRange(t, b, st, d, s);
    Discipline(t, b, st, d);
    LeftWithinEntered(t, b, x.iter, x.pos);
    if !Holds(x, s) { SameResidue(Want(t.cores, x, s), st.done[s], t.cores); }
  }

  /** Some core can always take a step until all have returned. */
  lemma Progress<C(!new), V(!new)>(t: Task<C, V>, b: Bounds, st: State<C, V>)
    requires Disciplined(t, b) && Inv(t, b, st)
    ensures (exists c: nat :: c < t.cores && Enabled(t, st, c)) <==> (exists c: nat :: c < t.cores && !Halted(t, st, c))
  {
    if c: nat :| c < t.cores && Enabled(t, st, c) { assert !Halted(t, st, c); }
    if x: nat :| x < t.cores && !Halted(t, st, x) {
      var c := Slowest(t, st, t.cores);
      Discipline(t, b, st, c);
      if !Enabled(t, st, c) {
        var k, s := st.cores[c], t.op(st.cores[c].ctl).seg;
        SmallMod(c, t.cores);
        assert CoreOk(t, b, k, c) && TokenOk(t.cores, k, s, st.done[s]);
        assert LockOk(t.cores, k, s, b, st.done[s], st.locks[c][s]);
        LeftWithinEntered(t, b, k.iter, k.pos);
        OwnerIsBehind(t, b, st, s);
        assert false;
      }
    }
  }

  // ---------------------------------------------------------------- every run is bounded

  /** The operations a core performs from the start of iteration i until it returns. */
  ghost function Work(n: nat, b: Bounds, i: nat): nat
    requires 0 < n
    decreases if i < b.final then b.final - i else 0
  {
    b.length(i) + if i < b.final then 1 + Work(n, b, i + n) else 0
  }

  ghost function CoreWork<C>(n: nat, b: Bounds, k: Core<C>): int
    requires 0 < n
  {
    Work(n, b, k.iter) - k.pos
  }

  ghost function TotalWork<C>(n: nat, b: Bounds, cores: seq<Core<C>>): int
    requires 0 < n
  {
    if cores == [] then 0 else TotalWork(n, b, cores[..|cores| - 1]) + CoreWork(n, b, cores[|cores| - 1])
  }

  lemma {:induction false} TotalWorkUpdate<C>(n: nat, b: Bounds, cores: seq<Core<C>>, c: nat, k: Core<C>)
    requires 0 < n && c < |cores|
    ensures TotalWork(n, b, cores[c := k]) == TotalWork(n, b, cores) - CoreWork(n, b, cores[c]) + CoreWork(n, b, k)
  {
    var m := |cores| - 1;
    if c == m {
      assert cores[c := k][..m] == cores[..m];
    } else {
      assert cores[c := k][..m] == cores[..m][c := k];
      TotalWorkUpdate(n, b, cores[..m], c, k);
    }
  }

  lemma {:induction false} TotalWorkNonNegative<C(!new), V(!new)>(t: Task<C, V>, b: Bounds, cores: seq<Core<C>>)
    requires 0 < t.cores && forall c: nat :: c < |cores| ==> CoreOk(t, b, cores[c], c)
    ensures 0 <= TotalWork(t.cores, b, cores)
  {
    if cores != [] {
      var m := |cores| - 1;
      assert CoreOk(t, b, cores[m], m);
      forall c: nat | c < m ensures CoreOk(t, b, cores[..m][c], c) { assert CoreOk(t, b, cores[c], c); }
      TotalWorkNonNegative(t, b, cores[..m]);
    }
  }

  lemma OperationIsWork<C(!new), V(!new)>(t: Task<C, V>, b: Bounds, st: State<C, V>, c: nat)
    requires Shaped(t, st) && c < t.cores && Enabled(t, st, c) && 0 < t.cores
    requires t.op(st.cores[c].ctl) == Next ==>
              st.cores[c].pos == b.length(st.cores[c].iter) && st.cores[c].iter < b.final
    ensures StepOf(t, st, c).cores == st.cores[c := StepOf(t, st, c).cores[c]]
    ensures CoreWork(t.cores, b, StepOf(t, st, c).cores[c]) == CoreWork(t.cores, b, st.cores[c]) - 1
  {}

  /** Each step does exactly one unit of the work. */
  lemma StepDoesWork<C(!new), V(!new)>(t: Task<C, V>, b: Bounds, st: State<C, V>, c: nat)
    requires Disciplined(t, b) && Inv(t, b, st) && c < t.cores && Enabled(t, st, c)
    ensures TotalWork(t.cores, b, StepOf(t, st, c).cores) == TotalWork(t.cores, b, st.cores) - 1
  {
    Discipline(t, b, st, c);
    assert CoreOk(t, b, st.cores[c], c);
    OperationIsWork(t, b, st, c);
    TotalWorkUpdate(t.cores, b, st.cores, c, StepOf(t, st, c).cores[c]);
  }

  /** Steps taken plus work left is the same in every state of every run. */
  lemma {:induction false} RunsAreBounded<C(!new), V(!new)>(t: Task<C, V>, b: Bounds, run: seq<State<C, V>>)
    requires Disciplined(t, b) && t.arrays == t.cores && IsRun(t, run)
    ensures |run| - 1 + TotalWork(t.cores, b, Last(run).cores) == TotalWork(t.cores, b, Init(t).cores)
    ensures |run| - 1 <= TotalWork(t.cores, b, Init(t).cores)
    decreases |run|
  {
    RunKeepsInv(t, b, run);
    var last := Last(run);
    assert Inv(t, b, last);
    TotalWorkNonNegative(t, b, last.cores);
    if |run| > 1 {
      var p, c := LastStep(t, run);
      RunsAreBounded(t, b, p);
      RunKeepsInv(t, b, p);
      assert Inv(t, b, p[|p| - 1]);
      StepDoesWork(t, b, Last(p), c);
    }
  }

  /** A run is no longer than the work of the task and can be continued until all cores have returned. */
  lemma RunCanContinue<C(!new), V(!new)>(t: Task<C, V>, b: Bounds, run: seq<State<C, V>>)
    requires Disciplined(t, b) && t.arrays == t.cores && IsRun(t, run)
    ensures |run| - 1 <= TotalWork(t.cores, b, Init(t).cores)
    ensures AllHalted(t, Last(run)) || exists st :: NextState(t, Last(run), st)
  {
    RunsAreBounded(t, b, run);
    RunKeepsInv(t, b, run);
    var last := run[|run| - 1];
    assert Inv(t, b, last);
    Progress(t, b, last);
    if !AllHalted(t, last) {
      var c: nat :| c < t.cores && Enabled(t, last, c);
      assert NextState(t, last, StepOf(t, last, c));
    }
  }

  // ---------------------------------------------------------------- the end of a run

  lemma HaltedCore<C(!new), V(!new)>(t: Task<C, V>, b: Bounds, st: State<C, V>, c: nat, s: nat)
    requires Disciplined(t, b) && Inv(t, b, st) && c < t.cores && s < t.segments && Halted(t, st, c)
    ensures b.final <= st.cores[c].iter < b.final + t.cores && st.cores[c].iter % t.cores == c
    ensures if st.cores[c].iter <= b.cap(s) then s in st.cores[c].left else s !in st.cores[c].entered
    ensures !Holds(st.cores[c], s)
  {
    Discipline(t, b, st, c);
    var k := st.cores[c];
    assert CoreOk(t, b, k, c);
    if k.iter > b.cap(s) { NotEnteredAfterCap(t, b, k.iter, k.pos, s); }
  }

  /** When all cores have returned, exactly the instances 0..cap(s) of segment s are complete. */
  lemma AllInstancesDone<C(!new), V(!new)>(t: Task<C, V>, b: Bounds, st: State<C, V>, s: nat)
    requires Disciplined(t, b) && Inv(t, b, st) && s < t.segments
    requires AllHalted(t, st)
    ensures st.done[s] == b.cap(s) + 1
  {
    var n, last := t.cores, b.cap(s);
    var c, d := last % n, (last + 1) % n;
    HaltedCore(t, b, st, c, s);
    HaltedCore(t, b, st, d, s);
    var x, y := st.cores[c], st.cores[d];
    assert CoreOk(t, b, x, c) && TokenOk(n, x, s, st.done[s]);
    assert CoreOk(t, b, y, d) && TokenOk(n, y, s, st.done[s]);
    LeftWithinEntered(t, b, x.iter, x.pos);
    LeftWithinEntered(t, b, y.iter, y.pos);
    if last >= b.final { SameResidue(x.iter, last, n); }
    if last < b.final { AddModulus(last, n); SameResidue(x.iter, last + n, n); }
    if last + 1 < b.final + n { SameResidue(y.iter, last + 1, n); }
    if last + 1 == b.final + n { AddModulus(b.final, n); SameResidue(y.iter, b.final, n); }
  }

  /** Every complete run ends with the memory of the sequential loop. */
  lemma EndsSequentially<C(!new), V(!new)>(t: Task<C, V>, b: Bounds, run: seq<State<C, V>>)
    requires Disciplined(t, b) && t.arrays == t.cores && IsRun(t, run)
    requires AllHalted(t, Last(run))
    ensures Last(run).mem == SeqMem(t, b, b.final + t.cores)
    ensures forall s: nat :: s < t.segments ==> Last(run).done[s] == b.cap(s) + 1
  {
    RunKeepsInv(t, b, run);
    var st := Last(run);
    assert Inv(t, b, st);
    forall s: nat | s < t.segments
      ensures st.done[s] == b.cap(s) + 1
      ensures st.mem[s] == SeqMem(t, b, b.final + t.cores)[s]
    {
      AllInstancesDone(t, b, st, s);
      forall c: nat | c < t.cores ensures !Holds(st.cores[c], s) { HaltedCore(t, b, st, c, s); }
      assert CellOk(t, b, st, s);
      UntouchedAfterCap(t, b, b.final + t.cores, s);
    }
  }
}
