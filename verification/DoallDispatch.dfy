/**
 Concurrent DOALL dispatches.  Any number of threads reserve cores, take an argument
 block, submit tasks, run one task themselves, wait for the others by locking their end
 locks and give cores and block back; the submitted tasks finish at any time.
 */
module DoallDispatch {
  import opened Arith
  import opened DoallRuntime

  /** One call of the task function: the loop with its environment, the number of tasks and which one this is. */
  datatype Call = Call(job: nat, numCores: nat, coreID: nat)

  /** A dispatch has submitted, or joined, its first i tasks. */
  datatype Phase = Submitting | Joining | Releasing

  /** Where a dispatch is.  `ran` records the calls that have returned; no step reads it. */
  datatype Thread =
    | Idle
    | Reserved(job: nat, n: nat)
    | Active(job: nat, n: nat, b: nat, phase: Phase, i: nat, ran: multiset<Call>)

  datatype State = State(pool: Pool, idle: int, threads: seq<Thread>)

  datatype Step =
    | Reserve(d: nat, job: nat, requested: nat)
    | Get(d: nat, b: nat)
    | Submit(d: nat)
    | RunOwn(d: nat)          // the dispatching thread runs the last task
    | Finish(b: nat, i: nat)  // a submitted task returns and unlocks its end lock
    | Join(d: nat)            // lock the next end lock
    | FreeCores(d: nat)
    | FreeArgs(d: nat)        // after this the dispatch returns

  predicate Uses(th: Thread, b: nat) {
    th.Active? && th.b == b
  }

  ghost predicate Shaped(st: State) {
    && IsI32(st.idle)
    && |st.pool.sizes| == |st.pool.avail| == |st.pool.blocks|
    && (forall b: nat :: b < |st.pool.blocks| ==> |st.pool.blocks[b]| == st.pool.sizes[b])
    && (forall d: nat :: d < |st.threads| ==> ThreadShaped(st.pool, st.threads[d]))
  }

  ghost predicate ThreadShaped(p: Pool, th: Thread) {
    && (!th.Idle? ==> 1 <= th.n < Two32)
    && (th.Active? ==> th.b < |p.blocks| && th.n - 1 <= |p.blocks[th.b]|)
    && (th.Active? ==> th.i <= th.n - 1)
  }

  ghost predicate Enabled(st: State, s: Step)
    requires Shaped(st)
  {
    match s
    case Reserve(d, job, requested) => d < |st.threads| && st.threads[d].Idle? && IsU32(requested)
    case Get(d, b) => d < |st.threads| && st.threads[d].Reserved? && Chosen(st.pool, st.threads[d].n - 1, b)
    case Submit(d) => d < |st.threads| && st.threads[d].Active? && st.threads[d].phase.Submitting?
        && st.threads[d].i < st.threads[d].n - 1
    case RunOwn(d) => d < |st.threads| && st.threads[d].Active? && st.threads[d].phase.Submitting?
        && st.threads[d].i == st.threads[d].n - 1
    case Finish(b, i) => b < |st.pool.blocks| && i < |st.pool.blocks[b]| && st.pool.blocks[b][i].live
    case Join(d) => d < |st.threads| && st.threads[d].Active? && st.threads[d].phase.Joining?
        && st.threads[d].i < st.threads[d].n - 1
                    && !st.pool.blocks[st.threads[d].b][st.threads[d].i].held
    case FreeCores(d) => d < |st.threads| && st.threads[d].Active? && st.threads[d].phase.Joining?
        && st.threads[d].i == st.threads[d].n - 1
    case FreeArgs(d) => d < |st.threads| && st.threads[d].Active? && st.threads[d].phase.Releasing?
  }

  ghost function WithSlot(p: Pool, b: nat, i: nat, s: Slot): Pool
    requires b < |p.blocks| && i < |p.blocks[b]|
  {
    p.(blocks := p.blocks[b := p.blocks[b][i := s]])
  }

  /** A returned call belongs to the dispatch that uses the block. */
  ghost function Credit(threads: seq<Thread>, b: nat, call: Call): (r: seq<Thread>)
    ensures |r| == |threads|
  {
    seq(|threads|, d requires 0 <= d < |threads| =>
      if Uses(threads[d], b) then threads[d].(ran := threads[d].ran + multiset{call}) else threads[d])
  }

  ghost function StepOf(st: State, s: Step): State
    requires Shaped(st) && Enabled(st, s)
  {
    match s
    case Reserve(d, job, requested) =>
      var n := Granted(st.idle, requested);
      st.(idle := ToI32(st.idle - n), threads := st.threads[d := Reserved(job, n)])
    case Get(d, b) =>
      var th := st.threads[d];
      State(Taken(st.pool, th.n - 1, b), st.idle, st.threads[d := Active(th.job, th.n, b, Submitting, 0, multiset{})])
    case Submit(d) =>
      var th := st.threads[d];
      var slot := st.pool.blocks[th.b][th.i].(live := true, job := th.job, numCores := th.n);
      State(WithSlot(st.pool, th.b, th.i, slot), st.idle, st.threads[d := th.(i := th.i + 1)])
    case RunOwn(d) =>
      var th := st.threads[d];
      var own := Call(th.job, th.n, th.n - 1);
      st.(threads := st.threads[d := th.(phase := Joining, i := 0, ran := th.ran + multiset{own})])
    case Finish(b, i) =>
      var slot := st.pool.blocks[b][i];
      State(WithSlot(st.pool, b, i, slot.(live := false, held := false)), st.idle,
            Credit(st.threads, b, Call(slot.job, slot.numCores, slot.coreID)))
    case Join(d) =>
      var th := st.threads[d];
      State(WithSlot(st.pool, th.b, th.i, st.pool.blocks[th.b][th.i].(held := true)), st.idle,
            st.threads[d := th.(i := th.i + 1)])
    case FreeCores(d) =>
      var th := st.threads[d];
      st.(idle := ToI32(st.idle + th.n), threads := st.threads[d := th.(phase := Releasing)])
    case FreeArgs(d) =>
      var th := st.threads[d];
      st.(pool := st.pool.(avail := st.pool.avail[th.b := true]), threads := st.threads[d := Idle])
  }

  ghost function Init(maxCores: nat, threads: nat): State
  {
    State(Pool([], [], []), ToI32(maxCores), seq(threads, d => Idle))
  }

  // ---------------------------------------------------------------- the invariant

  ghost function Submitted(th: Thread): nat
    requires th.Active? && 1 <= th.n
  {
    if th.phase.Submitting? then th.i else th.n - 1
  }

  ghost function Joined(th: Thread): nat
    requires th.Active? && 1 <= th.n
  {
    match th.phase
    case Submitting => 0
    case Joining => th.i
    case Releasing => th.n - 1
  }

  /** Slots that were submitted and not yet joined carry this dispatch's call and are locked while it runs. */
  ghost predicate SlotOk(th: Thread, s: Slot, i: nat)
    requires th.Active? && 1 <= th.n
  {
    && s.coreID == i
    && (if Joined(th) <= i < Submitted(th) then (s.live <==> s.held) && s.job == th.job && s.numCores == th.n
        else s.held && !s.live)
  }

  /** The calls of this dispatch that have returned. */
  ghost predicate Returned(th: Thread, s: seq<Slot>, call: Call)
    requires th.Active? && 1 <= th.n
  {
    && call.job == th.job && call.numCores == th.n
    && ((call.coreID < Submitted(th) && call.coreID < |s| && !s[call.coreID].live)
        || (call.coreID == th.n - 1 && !th.phase.Submitting?))
  }

  ghost predicate ThreadOk(th: Thread, s: seq<Slot>)
    requires th.Active? && 1 <= th.n
  {
    && (forall i: nat :: i < |s| ==> SlotOk(th, s[i], i))
    && (forall call :: th.ran[call] == if Returned(th, s, call) then 1 else 0)
  }

  ghost predicate HasUser(threads: seq<Thread>, b: nat) {
    exists d: nat :: d < |threads| && Uses(threads[d], b)
  }

  lemma UserStays(threads: seq<Thread>, d: nat, th: Thread, b: nat)
    requires d < |threads| && HasUser(threads, b) && (Uses(threads[d], b) ==> Uses(th, b))
    ensures HasUser(threads[d := th], b)
  {
    var e: nat :| e < |threads| && Uses(threads[e], b);
    assert Uses(threads[d := th][e], b);
  }

  ghost predicate Inv(st: State) {
    && Shaped(st)
    && (forall b: nat :: b < |st.pool.blocks| && st.pool.avail[b] ==> Quiet(st.pool.blocks[b]))
    && (forall d: nat, b: nat :: d < |st.threads| && b < |st.pool.blocks| && Uses(st.threads[d], b) ==>
          !st.pool.avail[b] && ThreadOk(st.threads[d], st.pool.blocks[b]))
    && (forall b: nat :: b < |st.pool.blocks| && !st.pool.avail[b] ==> HasUser(st.threads, b))
    && (forall d: nat, e: nat, b: nat ::
          d < |st.threads| && e < |st.threads| && Uses(st.threads[d], b) && Uses(st.threads[e], b) ==> d == e)
  }

  lemma ReserveKeeps(st: State, d: nat, job: nat, requested: nat)
    requires Inv(st) && Enabled(st, Reserve(d, job, requested))
    ensures Inv(StepOf(st, Reserve(d, job, requested)))
  {
    GrantIsInRange(st.idle, requested);
    SamePoolKeeps(st, StepOf(st, Reserve(d, job, requested)), d);
  }

  lemma FreeCoresKeeps(st: State, d: nat)
    requires Inv(st) && Enabled(st, FreeCores(d))
    ensures Inv(StepOf(st, FreeCores(d)))
  {
    var th := st.threads[d];
    var s := st.pool.blocks[th.b];
    assert Uses(th, th.b);
    assert ThreadOk(th, s);
    forall i: nat | i < |s| ensures SlotOk(th.(phase := Releasing), s[i], i) { assert SlotOk(th, s[i], i); }
    assert ThreadOk(th.(phase := Releasing), s);
    SamePoolKeeps(st, StepOf(st, FreeCores(d)), d);
  }

  /** A step of one thread that leaves the pool alone. */
  lemma SamePoolKeeps(st: State, st': State, d: nat)
    requires Inv(st) && Shaped(st') && st'.pool == st.pool && d < |st.threads| == |st'.threads|
    requires st'.threads == st.threads[d := st'.threads[d]]
    requires forall b: nat :: Uses(st'.threads[d], b) <==> Uses(st.threads[d], b)
    requires st'.threads[d].Active? ==> ThreadOk(st'.threads[d], st.pool.blocks[st'.threads[d].b])
    ensures Inv(st')
  {
    forall b: nat | b < |st.pool.blocks| && !st.pool.avail[b] ensures HasUser(st'.threads, b) {
      UserStays(st.threads, d, st'.threads[d], b);
    }
  }

  lemma GetKeeps(st: State, d: nat, b: nat)
    requires Inv(st) && Enabled(st, Get(d, b))
    ensures Inv(StepOf(st, Get(d, b)))
  {
    var st' := StepOf(st, Get(d, b));
    var th' := st'.threads[d];
    assert Uses(th', b);
    assert ThreadOk(th', st'.pool.blocks[b]);
    forall x: nat | x < |st.pool.blocks| && x != b
      ensures st'.pool.blocks[x] == st.pool.blocks[x] && st'.pool.avail[x] == st.pool.avail[x] {}
    forall x: nat | x < |st'.pool.blocks| && !st'.pool.avail[x] ensures HasUser(st'.threads, x) {
      if x != b { UserStays(st.threads, d, th', x); }
    }
    NobodyUses(st, b);
  }

  /** Before a block is handed out nobody uses it. */
  lemma NobodyUses(st: State, b: nat)
    requires Inv(st) && (b < |st.pool.blocks| ==> st.pool.avail[b])
    ensures forall d: nat :: d < |st.threads| ==> !Uses(st.threads[d], b)
  {}

  lemma FreeArgsKeeps(st: State, d: nat)
    requires Inv(st) && Enabled(st, FreeArgs(d))
    ensures Inv(StepOf(st, FreeArgs(d)))
  {
    var x := st.threads[d].b;
    assert Uses(st.threads[d], x);
    forall i: nat | i < |st.pool.blocks[x]|
      ensures st.pool.blocks[x][i].held && !st.pool.blocks[x][i].live && st.pool.blocks[x][i].coreID == i
    {
      assert SlotOk(st.threads[d], st.pool.blocks[x][i], i);
    }
    forall b: nat | b < |st.pool.blocks| && !st.pool.avail[b] && b != x ensures HasUser(st.threads[d := Idle], b) {
      UserStays(st.threads, d, Idle, b);
    }
  }

  /** Steps of a dispatch that change at most one slot of its own block. */
  lemma OwnStepKeeps(st: State, s: Step, d: nat)
    requires Inv(st) && Enabled(st, s) && (s == Submit(d) || s == RunOwn(d) || s == Join(d))
    ensures Inv(StepOf(st, s))
  {
    OwnThread(st, s, d);
    OwnBlockKeeps(st, StepOf(st, s), d);
  }

  lemma OwnBlockKeeps(st: State, st': State, d: nat)
    requires Inv(st) && Shaped(st') && d < |st.threads| == |st'.threads| && st.threads[d].Active?
    requires st'.threads == st.threads[d := st'.threads[d]]
    requires st'.threads[d].Active? && st'.threads[d].b == st.threads[d].b
    requires st'.pool.avail == st.pool.avail && |st'.pool.blocks| == |st.pool.blocks|
    requires forall b: nat :: b < |st.pool.blocks| && b != st.threads[d].b ==> st'.pool.blocks[b] == st.pool.blocks[b]
    requires ThreadOk(st'.threads[d], st'.pool.blocks[st.threads[d].b])
    ensures Inv(st')
  {
    assert Uses(st.threads[d], st.threads[d].b);
    forall b: nat | b < |st.pool.blocks| && !st.pool.avail[b] ensures HasUser(st'.threads, b) {
      UserStays(st.threads, d, st'.threads[d], b);
    }
  }

  lemma OwnThread(st: State, s: Step, d: nat)
    requires Inv(st) && Enabled(st, s) && (s == Submit(d) || s == RunOwn(d) || s == Join(d))
    ensures Shaped(StepOf(st, s)) && StepOf(st, s).threads[d].Active?
    ensures ThreadOk(StepOf(st, s).threads[d], StepOf(st, s).pool.blocks[st.threads[d].b])
  {
    var th, th' := st.threads[d], StepOf(st, s).threads[d];
    var p, p' := st.pool.blocks[th.b], StepOf(st, s).pool.blocks[th.b];
    assert Uses(th, th.b);
    assert ThreadOk(th, p);
    assert s.RunOwn? || SlotOk(th, p[th.i], th.i);
    forall i: nat | i < |p'| ensures SlotOk(th', p'[i], i) {
      assert SlotOk(th, p[i], i);
    }
  }

  lemma FinishKeeps(st: State, b: nat, i: nat)
    requires Inv(st) && Enabled(st, Finish(b, i))
    ensures Inv(StepOf(st, Finish(b, i)))
  {
    var st' := StepOf(st, Finish(b, i));
    forall d: nat | d < |st.threads| ensures forall x: nat :: Uses(st'.threads[d], x) <==> Uses(st.threads[d], x) {}
    forall x: nat | x < |st.pool.blocks| && !st.pool.avail[x] ensures HasUser(st'.threads, x) {
      var e: nat :| e < |st.threads| && Uses(st.threads[e], x);
      assert Uses(st'.threads[e], x);
    }
    forall d: nat, x: nat | d < |st'.threads| && x < |st'.pool.blocks| && Uses(st'.threads[d], x)
      ensures ThreadOk(st'.threads[d], st'.pool.blocks[x])
    {
      assert ThreadOk(st.threads[d], st.pool.blocks[x]);
      if x == b { FinishedSlot(st.threads[d], st.pool.blocks[b], i); }
    }
  }

  lemma FinishedSlot(th: Thread, s: seq<Slot>, i: nat)
    requires th.Active? && 1 <= th.n && ThreadOk(th, s) && i < |s| && s[i].live
    requires th.n - 1 <= |s| && (th.Active? ==> th.i <= th.n - 1)
    ensures ThreadOk(th.(ran := th.ran + multiset{Call(s[i].job, s[i].numCores, s[i].coreID)}),
                     s[i := s[i].(live := false, held := false)])
  {
    assert SlotOk(th, s[i], i);
    var s' := s[i := s[i].(live := false, held := false)];
    var call' := Call(s[i].job, s[i].numCores, s[i].coreID);
    var th' := th.(ran := th.ran + multiset{call'});
    forall k: nat | k < |s'| ensures SlotOk(th', s'[k], k) { assert SlotOk(th, s[k], k); }
    forall call ensures th'.ran[call] == if Returned(th', s', call) then 1 else 0 {
      assert th.ran[call] == if Returned(th, s, call) then 1 else 0;
    }
  }

  lemma StepKeepsInv(st: State, s: Step)
    requires Inv(st) && Enabled(st, s)
    ensures Inv(StepOf(st, s))
  {
    match s
    case Reserve(d, job, requested) => ReserveKeeps(st, d, job, requested);
    case FreeCores(d) => FreeCoresKeeps(st, d);
    case Get(d, b) => GetKeeps(st, d, b);
    case FreeArgs(d) => FreeArgsKeeps(st, d);
    case Finish(b, i) => FinishKeeps(st, b, i);
    case Submit(d) => OwnStepKeeps(st, s, d);
    case RunOwn(d) => OwnStepKeeps(st, s, d);
    case Join(d) => OwnStepKeeps(st, s, d);
  }

  // ---------------------------------------------------------------- all runs

  ghost predicate NextState(st: State, st': State) {
    Shaped(st) && exists s :: Enabled(st, s) && st' == StepOf(st, s)
  }

  ghost predicate IsRun(maxCores: nat, threads: nat, run: seq<State>) {
    && |run| > 0 && run[0] == Init(maxCores, threads)
    && forall k :: 0 <= k < |run| - 1 ==> NextState(run[k], run[k + 1])
  }

  lemma {:induction false} RunKeepsInv(maxCores: nat, threads: nat, run: seq<State>, k: nat)
    requires IsRun(maxCores, threads, run) && k < |run|
    ensures Inv(run[k])
    decreases k
  {
    if k > 0 {
      RunKeepsInv(maxCores, threads, run, k - 1);
      assert NextState(run[k - 1], run[k - 1 + 1]);
      var s :| Enabled(run[k - 1], s) && run[k] == StepOf(run[k - 1], s);
      StepKeepsInv(run[k - 1], s);
    }
  }

  /** No block serves two dispatches, and an available block is as a dispatch expects it. */
  lemma BlocksAreNotShared(maxCores: nat, threads: nat, run: seq<State>, k: nat, d: nat, e: nat)
    requires IsRun(maxCores, threads, run) && k < |run| && d < |run[k].threads| && e < |run[k].threads|
    requires d != e && run[k].threads[d].Active? && run[k].threads[e].Active?
    ensures Inv(run[k]) && run[k].threads[d].b != run[k].threads[e].b
    ensures !run[k].pool.avail[run[k].threads[d].b]
    ensures forall b: nat :: b < |run[k].pool.blocks| && run[k].pool.avail[b] ==> Quiet(run[k].pool.blocks[b])
  {
    RunKeepsInv(maxCores, threads, run, k);
    assert Uses(run[k].threads[d], run[k].threads[d].b) && Uses(run[k].threads[e], run[k].threads[e].b);
  }

  /**
   When a dispatch gives its block back and returns, each of its n tasks has run and
   returned exactly once with its own number, its own loop and the right task count, even
   if the block has more slots than it needed, and nothing still runs on the block.
   */
  lemma ReturnsAfterAllTasks(maxCores: nat, threads: nat, run: seq<State>, k: nat, d: nat, call: Call)
    requires IsRun(maxCores, threads, run) && k < |run|
    requires Shaped(run[k]) && Enabled(run[k], FreeArgs(d))
    ensures var th := run[k].threads[d];
            && Quiet(run[k].pool.blocks[th.b])
            && th.ran[call] == if call.job == th.job && call.numCores == th.n && call.coreID < th.n then 1 else 0
  {
    RunKeepsInv(maxCores, threads, run, k);
    var th := run[k].threads[d];
    assert Uses(th, th.b);
    var s := run[k].pool.blocks[th.b];
    assert ThreadOk(th, s);
    forall i: nat | i < |s| ensures s[i].held && !s[i].live && s[i].coreID == i { assert SlotOk(th, s[i], i); }
  }

  /** While a dispatch is under way something can happen, without starting another one. */
  lemma NoDeadlock(maxCores: nat, threads: nat, run: seq<State>, k: nat, d: nat) returns (s: Step)
    requires IsRun(maxCores, threads, run) && k < |run|
    requires d < |run[k].threads| && !run[k].threads[d].Idle?
    ensures Shaped(run[k]) && Enabled(run[k], s) && !s.Reserve?
  {
    RunKeepsInv(maxCores, threads, run, k);
    var st, th := run[k], run[k].threads[d];
    if th.Reserved? {
      var b := FirstFit(st.pool, th.n - 1, 0);
      s := Get(d, b);
    } else {
      assert Uses(th, th.b);
      match th.phase
      case Submitting => s := if th.i < th.n - 1 then Submit(d) else RunOwn(d);
      case Releasing => s := FreeArgs(d);
      case Joining =>
        if th.i == th.n - 1 {
          s := FreeCores(d);
        } else {
          assert SlotOk(th, st.pool.blocks[th.b][th.i], th.i);
          s := if st.pool.blocks[th.b][th.i].held then Finish(th.b, th.i) else Join(d);
        }
    }
  }

  lemma {:induction false} FirstFit(p: Pool, cores: nat, from: nat) returns (b: nat)
    requires |p.sizes| == |p.avail| && from <= |p.sizes|
    requires forall x: nat :: x < from ==> !(p.avail[x] && p.sizes[x] >= cores)
    ensures Chosen(p, cores, b)
    decreases |p.sizes| - from
  {
    if from == |p.sizes| || (p.avail[from] && p.sizes[from] >= cores) {
      b := from;
    } else {
      b := FirstFit(p, cores, from + 1);
    }
  }

  // ---------------------------------------------------------------- cores

  /** The cores granted to dispatches that have not given them back. */
  ghost function Held(threads: seq<Thread>): (n: int) {
    if threads == [] then 0
    else Held(threads[..|threads| - 1]) + HeldBy(threads[|threads| - 1])
  }

  ghost function HeldBy(th: Thread): nat {
    if th.Idle? || (th.Active? && th.phase.Releasing?) then 0 else th.n
  }

  lemma {:induction false} HeldUpdate(threads: seq<Thread>, d: nat, th: Thread)
    requires d < |threads|
    ensures Held(threads[d := th]) == Held(threads) - HeldBy(threads[d]) + HeldBy(th)
  {
    var k := |threads| - 1;
    if d == k {
      assert threads[d := th][..k] == threads[..k];
    } else {
      HeldUpdate(threads[..k], d, th);
      assert threads[d := th][..k] == threads[..k][d := th];
    }
  }

  lemma {:induction false} HeldSame(a: seq<Thread>, b: seq<Thread>)
    requires |a| == |b| && forall d: nat :: d < |a| ==> HeldBy(a[d]) == HeldBy(b[d])
    ensures Held(a) == Held(b)
  {
    if a != [] { HeldSame(a[..|a| - 1], b[..|b| - 1]); }
  }

  ghost predicate Conserved(maxCores: nat, st: State) {
    ToU32(st.idle + Held(st.threads)) == ToU32(maxCores)
  }

  /** Steps between the reservation and the release leave both counters alone. */
  lemma StepKeepsCores(st: State, s: Step)
    requires Shaped(st) && Enabled(st, s) && !s.Reserve? && !s.FreeCores?
    ensures StepOf(st, s).idle == st.idle && Held(StepOf(st, s).threads) == Held(st.threads)
  {
    var st' := StepOf(st, s);
    if s.Finish? {
      HeldSame(st.threads, st'.threads);
    } else {
      HeldUpdate(st.threads, s.d, st'.threads[s.d]);
    }
  }

  lemma ReserveMovesCores(st: State, d: nat, job: nat, requested: nat)
    requires Shaped(st) && Enabled(st, Reserve(d, job, requested))
    ensures var st' := StepOf(st, Reserve(d, job, requested)); var n := Granted(st.idle, requested);
            st'.idle == ToI32(st.idle - n) && Held(st'.threads) == Held(st.threads) + n
  {
    HeldUpdate(st.threads, d, Reserved(job, Granted(st.idle, requested)));
  }

  lemma FreeMovesCores(st: State, d: nat)
    requires Shaped(st) && Enabled(st, FreeCores(d))
    ensures var st' := StepOf(st, FreeCores(d)); var n := st.threads[d].n;
            st'.idle == ToI32(st.idle + n) && Held(st'.threads) == Held(st.threads) - n
  {
    HeldUpdate(st.threads, d, st.threads[d].(phase := Releasing));
  }

  lemma StepConserves(maxCores: nat, st: State, s: Step)
    requires Shaped(st) && Enabled(st, s) && Conserved(maxCores, st)
    ensures Conserved(maxCores, StepOf(st, s))
  {
    match s
    case Reserve(d, job, requested) =>
      ReserveMovesCores(st, d, job, requested);
      CounterModulo(st.idle - Granted(st.idle, requested), Held(StepOf(st, s).threads));
    case FreeCores(d) =>
      FreeMovesCores(st, d);
      CounterModulo(st.idle + st.threads[d].n, Held(StepOf(st, s).threads));
    case _ =>
      StepKeepsCores(st, s);
  }

  /** Storing the counter in 32 bits keeps the sum modulo 2^32. */
  lemma CounterModulo(x: int, h: int)
    ensures ToU32(ToI32(x) + h) == ToU32(x + h)
  {
    var q := (ToI32(x) - x) / Two32;
    SameModulo(x);
    var a, b := ToI32(x) / Two32, x / Two32;
    assert ToI32(x) == x + Two32 * (a - b);
    AddMultiple(x + h, a - b, Two32);
  }

  lemma {:induction false} InitConserves(maxCores: nat, threads: nat)
    ensures Conserved(maxCores, Init(maxCores, threads))
  {
    HeldByNobody(Init(maxCores, threads).threads);
    SameModulo(maxCores);
  }

  lemma {:induction false} HeldByNobody(threads: seq<Thread>)
    requires forall d: nat :: d < |threads| ==> threads[d].Idle?
    ensures Held(threads) == 0
  {
    if threads != [] { HeldByNobody(threads[..|threads| - 1]); }
  }

  /** Idle and granted cores always add up to the maximum, modulo 2^32. */
  lemma {:induction false} CoresAreConserved(maxCores: nat, threads: nat, run: seq<State>, k: nat)
    requires IsRun(maxCores, threads, run) && k < |run|
    ensures Conserved(maxCores, run[k])
    decreases k
  {
    if k == 0 {
      InitConserves(maxCores, threads);
    } else {
      CoresAreConserved(maxCores, threads, run, k - 1);
      RunKeepsInv(maxCores, threads, run, k - 1);
      assert NextState(run[k - 1], run[k - 1 + 1]);
      var s :| Enabled(run[k - 1], s) && run[k] == StepOf(run[k - 1], s);
      StepConserves(maxCores, run[k - 1], s);
    }
  }

  /** When every dispatch has returned, all cores are idle again. */
  lemma AllCoresComeBack(maxCores: nat, threads: nat, run: seq<State>, k: nat)
    requires IsRun(maxCores, threads, run) && k < |run| && maxCores < 0x8000_0000
    requires forall d: nat :: d < |run[k].threads| ==> run[k].threads[d].Idle?
    ensures run[k].idle == maxCores
  {
    CoresAreConserved(maxCores, threads, run, k);
    RunKeepsInv(maxCores, threads, run, k);
    HeldByNobody(run[k].threads);
    SameModulo(run[k].idle);
    SameModulo(maxCores);
    assert ToI32(run[k].idle) == ToI32(maxCores);
  }

  /**
   Once all cores are taken the next dispatch still gets one, and from then on every
   dispatch gets all the cores it asks for, until some are given back.
   */
  lemma OversubscribedAfterTwo(maxCores: nat, first: nat, second: nat, third: nat)
    requires 1 <= maxCores < 0x8000_0000 && maxCores <= first < Two32 && 1 <= second < Two32
              && 1 <= third <= 0x8000_0000
    ensures var a := Granted(maxCores, first); var idle1 := ToI32(maxCores - a);
            var b := Granted(idle1, second); var idle2 := ToI32(idle1 - b);
            a == maxCores && b == 1 && Granted(idle2, third) == third
  {
    SameModulo(-1);
  }
}
