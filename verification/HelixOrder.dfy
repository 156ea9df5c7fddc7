/**
 The token ring.  With one lock array per core, every disciplined task enters each
 segment in iteration order, one core at a time, and every cell has the value the
 sequential execution gives it.
 */
module HelixOrder {
  import opened Arith
  import opened HelixMachine

  // ---------------------------------------------------------------- the sequential execution

  lemma {:induction false} LeftWithinEntered<C(!new), V(!new)>(t: Task<C, V>, b: Bounds, i: nat, j: nat)
    ensures Left(t, b, i, j) <= Entered(t, b, i, j)
  {
    if j > 0 { LeftWithinEntered(t, b, i, j - 1); }
  }

  /** Before its wait, a segment has not been touched in this iteration. */
  lemma {:induction false} UntouchedBeforeEnter<C(!new), V(!new)>(t: Task<C, V>, b: Bounds, i: nat, j: nat, s: nat)
    requires Disciplined(t, b) && i < b.final + t.cores && j <= b.length(i) && s < t.segments
    requires s !in Entered(t, b, i, j)
    ensures Seq(t, b, i, j).1[s] == SeqMem(t, b, i)[s]
  {
    if j > 0 {
      UntouchedBeforeEnter(t, b, i, j - 1, s);
      assert OpOk(t, b, i, j - 1);
    }
  }

  /** After its signal, a segment keeps its value for the rest of the iteration. */
  lemma {:induction false} UntouchedAfterLeave<C(!new), V(!new)>(
    t: Task<C, V>, b: Bounds, i: nat, j: nat, e: nat, s: nat)
    requires Disciplined(t, b) && i < b.final + t.cores && j <= e <= b.length(i) && s < t.segments
    requires s in Left(t, b, i, j)
    ensures s in Left(t, b, i, e)
    ensures Seq(t, b, i, e).1[s] == Seq(t, b, i, j).1[s]
    decreases e
  {
    if j < e {
      UntouchedAfterLeave(t, b, i, j, e - 1, s);
      assert OpOk(t, b, i, e - 1);
    }
  }

  /** A segment that was left holds the value with which the next iteration starts. */
  lemma LeftIsNextStart<C(!new), V(!new)>(t: Task<C, V>, b: Bounds, i: nat, j: nat, s: nat)
    requires Disciplined(t, b) && i < b.final + t.cores && j <= b.length(i) && s < t.segments
    requires s in Left(t, b, i, j)
    ensures Seq(t, b, i, j).1[s] == SeqMem(t, b, i + 1)[s]
  {
    UntouchedAfterLeave(t, b, i, j, b.length(i), s);
  }

  /** Iterations after the last wait for a segment leave its cell alone. */
  lemma {:induction false} UntouchedAfterCap<C(!new), V(!new)>(t: Task<C, V>, b: Bounds, i: nat, s: nat)
    requires Disciplined(t, b) && s < t.segments && b.cap(s) < i <= b.final + t.cores
    ensures SeqMem(t, b, i)[s] == SeqMem(t, b, b.cap(s) + 1)[s]
    decreases i
  {
    if b.cap(s) + 1 < i {
      UntouchedAfterCap(t, b, i - 1, s);
      NotEnteredAfterCap(t, b, i - 1, b.length(i - 1), s);
      UntouchedBeforeEnter(t, b, i - 1, b.length(i - 1), s);
    }
  }

  lemma {:induction false} NotEnteredAfterCap<C(!new), V(!new)>(t: Task<C, V>, b: Bounds, i: nat, j: nat, s: nat)
    requires Disciplined(t, b) && s < t.segments && b.cap(s) < i < b.final + t.cores && j <= b.length(i)
    ensures s !in Entered(t, b, i, j)
  {
    if j > 0 {
      NotEnteredAfterCap(t, b, i, j - 1, s);
      assert OpOk(t, b, i, j - 1);
    }
  }

  // ---------------------------------------------------------------- the invariant

  /** The next iteration in which this core waits for segment s. */
  ghost function Want<C>(n: nat, k: Core<C>, s: nat): nat {
    if s in k.entered then k.iter + n else k.iter
  }

  /** The core is where the sequential execution of its iteration is after `pos` operations. */
  ghost predicate CoreOk<C(!new), V(!new)>(t: Task<C, V>, b: Bounds, k: Core<C>, c: nat)
    requires 0 < t.cores
  {
    && k.iter % t.cores == c
    && k.iter < b.final + t.cores
    && k.pos <= b.length(k.iter)
    && k.ctl == Seq(t, b, k.iter, k.pos).0
    && k.entered == Entered(t, b, k.iter, k.pos)
    && k.left == Left(t, b, k.iter, k.pos)
  }

  /** Where the token of segment s is, as core k knows it. */
  ghost predicate TokenOk<C>(n: nat, k: Core<C>, s: nat, done: nat) {
    && (s in k.left ==> k.iter < done <= k.iter + n)
    && (s !in k.left ==> done <= k.iter < done + n)
    && (Holds(k, s) ==> done == k.iter)
  }

  /** A lock that will still be waited for is open exactly when the token has arrived. */
  ghost predicate LockOk<C>(n: nat, k: Core<C>, s: nat, b: Bounds, done: nat, open: bool) {
    b.strict || Want(n, k, s) <= b.cap(s) ==> (open <==> done == Want(n, k, s))
  }

  ghost predicate CellOk<C(!new), V(!new)>(t: Task<C, V>, b: Bounds, st: State<C, V>, s: nat)
    requires Shaped(t, st) && |t.mem0| == t.segments && s < t.segments
  {
    && (forall c: nat :: c < t.cores && Holds(st.cores[c], s) ==>
          st.mem[s] == Seq(t, b, st.cores[c].iter, st.cores[c].pos).1[s])
    && ((forall c: nat :: c < t.cores ==> !Holds(st.cores[c], s)) ==> st.mem[s] == SeqMem(t, b, st.done[s])[s])
  }

  ghost predicate FlagOk<C(!new), V(!new)>(t: Task<C, V>, b: Bounds, st: State<C, V>)
    requires Shaped(t, st) && 0 < t.cores
  {
    var k := st.cores[b.final % t.cores];
    st.flag <==> k.iter == b.final && Raised(t, b, b.final, k.pos)
  }

  ghost predicate Inv<C(!new), V(!new)>(t: Task<C, V>, b: Bounds, st: State<C, V>) {
    && Shaped(t, st) && 0 < t.cores && t.arrays == t.cores && |t.mem0| == t.segments
    && (forall c: nat {:trigger CoreOk(t, b, st.cores[c], c)} :: c < t.cores ==> CoreOk(t, b, st.cores[c], c))
    && (forall c: nat, s: nat {:trigger TokenOk(t.cores, st.cores[c], s, st.done[s])} ::
          c < t.cores && s < t.segments ==>
          TokenOk(t.cores, st.cores[c], s, st.done[s]))
    && (forall c: nat, s: nat {:trigger LockOk(t.cores, st.cores[c], s, b, st.done[s], st.locks[c][s])} ::
          c < t.cores && s < t.segments ==> LockOk(t.cores, st.cores[c], s, b, st.done[s], st.locks[c][s]))
    && (forall s: nat {:trigger CellOk(t, b, st, s)} :: s < t.segments ==> CellOk(t, b, st, s))
    && FlagOk(t, b, st)
  }

  lemma InitInv<C(!new), V(!new)>(t: Task<C, V>, b: Bounds)
    requires Disciplined(t, b) && t.arrays == t.cores
    ensures Inv(t, b, Init(t))
  {
    var st := Init(t);
    forall c: nat | c < t.cores ensures CoreOk(t, b, st.cores[c], c) {
      assert OpOk(t, b, c, 0);
    }
  }

  // ---------------------------------------------------------------- every operation keeps the invariant

  lemma Discipline<C(!new), V(!new)>(t: Task<C, V>, b: Bounds, st: State<C, V>, c: nat)
    requires Disciplined(t, b) && Inv(t, b, st) && c < t.cores
    ensures OpOk(t, b, st.cores[c].iter, st.cores[c].pos)
    ensures OpAt(t, b, st.cores[c].iter, st.cores[c].pos) == t.op(st.cores[c].ctl)
  {
    assert CoreOk(t, b, st.cores[c], c);
  }

  /** Two cores are never in the same iteration. */
  lemma DistinctIterations<C(!new), V(!new)>(t: Task<C, V>, b: Bounds, st: State<C, V>, c: nat, d: nat)
    requires Inv(t, b, st) && c < t.cores && d < t.cores && c != d
    ensures st.cores[c].iter % t.cores == c && st.cores[d].iter % t.cores == d
    ensures st.cores[c].iter != st.cores[d].iter
    ensures st.cores[c].iter != st.cores[d].iter + t.cores
  {
    assert CoreOk(t, b, st.cores[c], c) && CoreOk(t, b, st.cores[d], d);
    AddModulus(st.cores[d].iter, t.cores);
  }

  /** The flag, read while holding the gate, tells whether the loop is over. */
  lemma FlagValue<C(!new), V(!new)>(t: Task<C, V>, b: Bounds, st: State<C, V>, c: nat)
    requires Disciplined(t, b) && Inv(t, b, st) && c < t.cores
    requires t.op(st.cores[c].ctl) == Check
    ensures st.flag <==> st.cores[c].iter > b.final
  {
    Discipline(t, b, st, c);
    var k, g, e := st.cores[c], b.gate, b.final % t.cores;
    var x := st.cores[e];
    assert CoreOk(t, b, k, c) && CoreOk(t, b, x, e);
    assert TokenOk(t.cores, k, g, st.done[g]) && TokenOk(t.cores, x, g, st.done[g]);
    assert st.done[g] == k.iter;
    if x.iter == b.final {
      assert GateOk(t, b, x.pos);
      LeftWithinEntered(t, b, b.final, x.pos);
      if c != e { DistinctIterations(t, b, st, c, e); }
    } else {
      if b.final < x.iter + t.cores { SameResidue(x.iter, b.final, t.cores); }
    }
  }

  lemma CoreKept<C(!new), V(!new)>(t: Task<C, V>, b: Bounds, st: State<C, V>, c: nat)
    requires Disciplined(t, b) && Inv(t, b, st) && c < t.cores && Enabled(t, st, c)
    ensures CoreOk(t, b, StepOf(t, st, c).cores[c], c)
  {
    Discipline(t, b, st, c);
    var k := st.cores[c];
    assert CoreOk(t, b, k, c);
    match t.op(k.ctl)
    case Access(s) => assert CellOk(t, b, st, s);
    case Check => FlagValue(t, b, st, c);
    case Next => AddModulus(k.iter, t.cores);
    case _ =>
  }

  lemma TokenKeptByEnter<C(!new), V(!new)>(t: Task<C, V>, b: Bounds, st: State<C, V>, c: nat, d: nat, s: nat)
    requires Disciplined(t, b) && Inv(t, b, st) && c < t.cores && Enabled(t, st, c)
    requires d < t.cores && s < t.segments && t.op(st.cores[c].ctl).Enter?
    ensures TokenOk(t.cores, StepOf(t, st, c).cores[d], s, StepOf(t, st, c).done[s])
  {
    Discipline(t, b, st, c);
    var k := st.cores[c];
    assert CoreOk(t, b, k, c) && TokenOk(t.cores, st.cores[d], s, st.done[s]);
    if d == c && t.op(k.ctl).seg == s && s !in k.entered {
      assert LockOk(t.cores, k, s, b, st.done[s], st.locks[c][s]);
      LeftWithinEntered(t, b, k.iter, k.pos);
      SmallMod(c, t.arrays);
    }
  }

  lemma TokenKeptByLeave<C(!new), V(!new)>(t: Task<C, V>, b: Bounds, st: State<C, V>, c: nat, d: nat, s: nat)
    requires Disciplined(t, b) && Inv(t, b, st) && c < t.cores && Enabled(t, st, c)
    requires d < t.cores && s < t.segments && t.op(st.cores[c].ctl).Leave?
    ensures TokenOk(t.cores, StepOf(t, st, c).cores[d], s, StepOf(t, st, c).done[s])
  {
    assert TokenOk(t.cores, st.cores[c], s, st.done[s]) && TokenOk(t.cores, st.cores[d], s, st.done[s]);
    if d != c { DistinctIterations(t, b, st, c, d); DistinctIterations(t, b, st, d, c); }
  }

  lemma TokenKept<C(!new), V(!new)>(t: Task<C, V>, b: Bounds, st: State<C, V>, c: nat, d: nat, s: nat)
    requires Disciplined(t, b) && Inv(t, b, st) && c < t.cores && Enabled(t, st, c)
    requires d < t.cores && s < t.segments
    ensures TokenOk(t.cores, StepOf(t, st, c).cores[d], s, StepOf(t, st, c).done[s])
  {
    var o := t.op(st.cores[c].ctl);
    if o.Enter? { TokenKeptByEnter(t, b, st, c, d, s); }
    else if o.Leave? { TokenKeptByLeave(t, b, st, c, d, s); }
    else {
      Discipline(t, b, st, c);
      assert CoreOk(t, b, st.cores[c], c);
      assert TokenOk(t.cores, st.cores[c], s, st.done[s]) && TokenOk(t.cores, st.cores[d], s, st.done[s]);
    }
  }

  /** The next wait of core d lies within one round of the token. */
  lemma WantRange<C(!new), V(!new)>(t: Task<C, V>, b: Bounds, st: State<C, V>, d: nat, s: nat)
    requires Inv(t, b, st) && d < t.cores && s < t.segments
    ensures Want(t.cores, st.cores[d], s) % t.cores == d
    ensures if Holds(st.cores[d], s) then Want(t.cores, st.cores[d], s) == st.done[s] + t.cores
            else st.done[s] <= Want(t.cores, st.cores[d], s) < st.done[s] + t.cores
  {
    var x := st.cores[d];
    assert CoreOk(t, b, x, d) && TokenOk(t.cores, x, s, st.done[s]);
    AddModulus(x.iter, t.cores);
    LeftWithinEntered(t, b, x.iter, x.pos);
  }

  /**
   A signal reaches the next core exactly when its next wait is due, or that lock is
   open already.  Core k signals, x is the core whose array is signalled.
   */
  lemma SignalIsDue<C>(n: nat, b: Bounds, k: Core<C>, x: Core<C>, s: nat, done: nat, same: bool)
    requires 0 < n && b.final <= b.cap(s) + 1 && b.cap(s) < b.final + n
    requires TokenOk(n, k, s, done) && (s in k.left ==> s in k.entered)
    requires (s in k.left ==> k.iter >= b.final && !b.strict) && (s !in k.entered ==> k.iter > b.cap(s) && !b.strict)
    requires Want(n, x, s) % n == (k.iter + 1) % n
    requires if Holds(x, s) then Want(n, x, s) == done + n else done <= Want(n, x, s) < done + n
    requires if same then k == x else Want(n, x, s) != k.iter
    requires !same && Holds(k, s) ==> !Holds(x, s)
    ensures b.strict || Want(n, x, s) <= b.cap(s) ==> Want(n, x, s) == if Holds(k, s) then k.iter + 1 else done
  {
    var w, i := Want(n, x, s), k.iter;
    if b.strict || w <= b.cap(s) {
      if w < i + 1 + n && i + 1 < w + n { SameResidue(w, i + 1, n); }
      if w + n < i + 1 + n && i + 1 < w + n + n { AddModulus(w, n); SameResidue(w + n, i + 1, n); }
    }
  }

  /** At most one core is inside a segment. */
  lemma SoleHolder<C(!new), V(!new)>(t: Task<C, V>, b: Bounds, st: State<C, V>, c: nat, d: nat, s: nat)
    requires Inv(t, b, st) && c < t.cores && d < t.cores && s < t.segments && c != d
    requires st.done[s] == st.cores[c].iter
    ensures !Holds(st.cores[d], s)
  {
    DistinctIterations(t, b, st, c, d);
    assert TokenOk(t.cores, st.cores[d], s, st.done[s]);
  }

  lemma SignalEffect<C(!new), V(!new)>(t: Task<C, V>, st: State<C, V>, c: nat, d: nat, s: nat)
    requires Shaped(t, st) && t.arrays == t.cores && c < t.cores && d < t.cores && s < t.segments
    requires t.op(st.cores[c].ctl) == Leave(s)
    ensures Enabled(t, st, c)
    ensures var k, r := st.cores[c], StepOf(t, st, c);
            && r.locks[d][s] == (d == (c + 1) % t.cores || st.locks[d][s])
            && r.done[s] == (if Holds(k, s) then st.done[s] + 1 else st.done[s])
            && Want(t.cores, r.cores[d], s) == Want(t.cores, st.cores[d], s)
  {}

  /** Where the next wait of core d stands when core c signals s. */
  lemma WantAtSignal<C(!new), V(!new)>(t: Task<C, V>, b: Bounds, st: State<C, V>, c: nat, d: nat, s: nat)
    requires Disciplined(t, b) && Inv(t, b, st) && c < t.cores
    requires d < t.cores && s < t.segments && t.op(st.cores[c].ctl) == Leave(s)
    ensures var k, w := st.cores[c], Want(t.cores, st.cores[d], s);
            if d == (c + 1) % t.cores then
              b.strict || w <= b.cap(s) ==> w == (if Holds(k, s) then k.iter + 1 else st.done[s])
            else
              w != k.iter + 1
    ensures Holds(st.cores[c], s) ==> st.done[s] == st.cores[c].iter != Want(t.cores, st.cores[d], s)
  {
    Discipline(t, b, st, c);
    var n, k, x := t.cores, st.cores[c], st.cores[d];
    assert CoreOk(t, b, k, c) && TokenOk(n, k, s, st.done[s]);
    WantRange(t, b, st, d, s);
    LeftWithinEntered(t, b, k.iter, k.pos);
    if d != c && Holds(k, s) { SoleHolder(t, b, st, c, d, s); }
    if d != c { DistinctIterations(t, b, st, c, d); }
    NextResidue(k.iter, n);
    if d == (c + 1) % n {
      SignalIsDue(n, b, k, x, s, st.done[s], c == d);
    }
  }

  lemma LockKeptBySignal<C(!new), V(!new)>(t: Task<C, V>, b: Bounds, st: State<C, V>, c: nat, d: nat, s: nat)
    requires Disciplined(t, b) && Inv(t, b, st) && c < t.cores && Enabled(t, st, c)
    requires d < t.cores && s < t.segments && t.op(st.cores[c].ctl) == Leave(s)
    ensures LockOk(t.cores, StepOf(t, st, c).cores[d], s, b, StepOf(t, st, c).done[s], StepOf(t, st, c).locks[d][s])
  {
    assert LockOk(t.cores, st.cores[d], s, b, st.done[s], st.locks[d][s]);
    SignalEffect(t, st, c, d, s);
    WantAtSignal(t, b, st, c, d, s);
  }

  lemma LockUntouched<C(!new), V(!new)>(t: Task<C, V>, st: State<C, V>, c: nat, d: nat, s: nat)
    requires Shaped(t, st) && t.arrays == t.cores && c < t.cores && d < t.cores && s < t.segments && Enabled(t, st, c)
    requires t.op(st.cores[c].ctl) == Enter(s) ==> d != c || s in st.cores[c].entered
    requires t.op(st.cores[c].ctl) != Leave(s)
    requires t.op(st.cores[c].ctl) == Next ==> s in st.cores[c].entered
    ensures var r := StepOf(t, st, c);
            && r.locks[d][s] == st.locks[d][s]
            && r.done[s] == st.done[s]
            && Want(t.cores, r.cores[d], s) == Want(t.cores, st.cores[d], s)
  {
    SmallMod(c, t.cores);
  }

  lemma LockTaken<C(!new), V(!new)>(t: Task<C, V>, st: State<C, V>, c: nat, s: nat)
    requires Shaped(t, st) && t.arrays == t.cores && c < t.cores && s < t.segments && Enabled(t, st, c)
    requires t.op(st.cores[c].ctl) == Enter(s) && s !in st.cores[c].entered
    ensures var r := StepOf(t, st, c);
            && st.locks[c][s] && !r.locks[c][s]
            && r.done[s] == st.done[s]
            && Want(t.cores, r.cores[c], s) == st.cores[c].iter + t.cores
  {
    SmallMod(c, t.cores);
  }

  lemma LockKept<C(!new), V(!new)>(t: Task<C, V>, b: Bounds, st: State<C, V>, c: nat, d: nat, s: nat)
    requires Disciplined(t, b) && Inv(t, b, st) && c < t.cores && Enabled(t, st, c)
    requires d < t.cores && s < t.segments
    ensures LockOk(t.cores, StepOf(t, st, c).cores[d], s, b, StepOf(t, st, c).done[s], StepOf(t, st, c).locks[d][s])
  {
    var k := st.cores[c];
    var o := t.op(k.ctl);
    assert LockOk(t.cores, st.cores[d], s, b, st.done[s], st.locks[d][s]);
    if o == Leave(s) {
      LockKeptBySignal(t, b, st, c, d, s);
    } else if o == Enter(s) && d == c && s !in k.entered {
      Discipline(t, b, st, c);
      LockTaken(t, st, c, s);
    } else {
      if o == Next {
        Discipline(t, b, st, c);
        assert CoreOk(t, b, k, c);
        LeftWithinEntered(t, b, k.iter, k.pos);
      }
      LockUntouched(t, st, c, d, s);
    }
  }

  lemma NoOtherHolder<C(!new), V(!new)>(t: Task<C, V>, b: Bounds, st: State<C, V>, c: nat, s: nat)
    requires Inv(t, b, st) && c < t.cores && s < t.segments && st.done[s] == st.cores[c].iter
    ensures forall d: nat :: d < t.cores && d != c ==> !Holds(st.cores[d], s)
  {
    forall d: nat | d < t.cores && d != c ensures !Holds(st.cores[d], s) { SoleHolder(t, b, st, c, d, s); }
  }

  lemma CellKeptByEnter<C(!new), V(!new)>(t: Task<C, V>, b: Bounds, st: State<C, V>, c: nat, s: nat)
    requires Disciplined(t, b) && Inv(t, b, st) && c < t.cores && Enabled(t, st, c) && s < t.segments
    requires t.op(st.cores[c].ctl) == Enter(s) && s !in st.cores[c].entered
    ensures CellOk(t, b, StepOf(t, st, c), s)
  {
    Discipline(t, b, st, c);
    var k := st.cores[c];
    assert CoreOk(t, b, k, c) && CellOk(t, b, st, s);
    SmallMod(c, t.cores);
    assert LockOk(t.cores, k, s, b, st.done[s], st.locks[c][s]);
    UntouchedBeforeEnter(t, b, k.iter, k.pos, s);
    NoOtherHolder(t, b, st, c, s);
  }

  lemma CellKeptByLeave<C(!new), V(!new)>(t: Task<C, V>, b: Bounds, st: State<C, V>, c: nat, s: nat)
    requires Disciplined(t, b) && Inv(t, b, st) && c < t.cores && Enabled(t, st, c) && s < t.segments
    requires t.op(st.cores[c].ctl) == Leave(s) && Holds(st.cores[c], s)
    ensures CellOk(t, b, StepOf(t, st, c), s)
  {
    Discipline(t, b, st, c);
    var k := st.cores[c];
    assert CoreOk(t, b, k, c) && CellOk(t, b, st, s) && TokenOk(t.cores, k, s, st.done[s]);
    LeftIsNextStart(t, b, k.iter, k.pos + 1, s);
    NoOtherHolder(t, b, st, c, s);
  }

  lemma AccessStep<C(!new), V(!new)>(t: Task<C, V>, b: Bounds, i: nat, j: nat, s: nat)
    requires OpAt(t, b, i, j) == Access(s) && s < |t.mem0|
    ensures Seq(t, b, i, j + 1).1[s] == t.onAccess(Seq(t, b, i, j).0, Seq(t, b, i, j).1[s]).1
  {}

  lemma CellKeptByAccess<C(!new), V(!new)>(t: Task<C, V>, b: Bounds, st: State<C, V>, c: nat, s: nat)
    requires Disciplined(t, b) && Inv(t, b, st) && c < t.cores && Enabled(t, st, c) && s < t.segments
    requires t.op(st.cores[c].ctl) == Access(s)
    ensures CellOk(t, b, StepOf(t, st, c), s)
  {
    Discipline(t, b, st, c);
    var k, r := st.cores[c], StepOf(t, st, c);
    assert CoreOk(t, b, k, c) && CellOk(t, b, st, s) && TokenOk(t.cores, k, s, st.done[s]);
    AccessStep(t, b, k.iter, k.pos, s);
    NoOtherHolder(t, b, st, c, s);
    assert Holds(k, s) && Holds(r.cores[c], s);
    assert forall d: nat :: d < t.cores && d != c ==> r.cores[d] == st.cores[d];
  }

  lemma CellStays<C(!new), V(!new)>(t: Task<C, V>, b: Bounds, i: nat, j: nat, s: nat)
    requires |t.mem0| == t.segments && s < t.segments && OpAt(t, b, i, j) != Access(s)
    ensures Seq(t, b, i, j + 1).1[s] == Seq(t, b, i, j).1[s]
  {}

  /** No other operation touches the cell of s or changes who is inside s. */
  ghost predicate LeavesAlone<C(!new), V(!new)>(t: Task<C, V>, k: Core<C>, s: nat) {
    var o := t.op(k.ctl);
    && o != Access(s)
    && (o == Enter(s) ==> s in k.entered)
    && (o == Leave(s) ==> !Holds(k, s))
    && (o == Next ==> !Holds(k, s))
  }

  lemma OtherEffect<C(!new), V(!new)>(t: Task<C, V>, st: State<C, V>, c: nat, d: nat, s: nat)
    requires Shaped(t, st) && c < t.cores && d < t.cores && s < t.segments && Enabled(t, st, c)
    requires LeavesAlone(t, st.cores[c], s)
    ensures var r := StepOf(t, st, c);
            && r.mem[s] == st.mem[s] && r.done[s] == st.done[s]
            && Holds(r.cores[d], s) == Holds(st.cores[d], s)
            && (Holds(r.cores[d], s) ==>
                  r.cores[d].iter == st.cores[d].iter
                  && r.cores[d].pos == st.cores[d].pos + if d == c then 1 else 0)
  {}

  lemma CellKeptByOthers<C(!new), V(!new)>(t: Task<C, V>, b: Bounds, st: State<C, V>, c: nat, s: nat)
    requires Disciplined(t, b) && Inv(t, b, st) && c < t.cores && Enabled(t, st, c) && s < t.segments
    requires LeavesAlone(t, st.cores[c], s)
    ensures CellOk(t, b, StepOf(t, st, c), s)
  {
    Discipline(t, b, st, c);
    var k, r := st.cores[c], StepOf(t, st, c);
    assert CellOk(t, b, st, s);
    OtherEffect(t, st, c, c, s);
    CellStays(t, b, k.iter, k.pos, s);
    forall d: nat | d < t.cores
      ensures Holds(r.cores[d], s) == Holds(st.cores[d], s)
      ensures Holds(r.cores[d], s) ==>
                Seq(t, b, r.cores[d].iter, r.cores[d].pos).1[s] == Seq(t, b, st.cores[d].iter, st.cores[d].pos).1[s]
    {
      OtherEffect(t, st, c, d, s);
    }
  }

  lemma CellKept<C(!new), V(!new)>(t: Task<C, V>, b: Bounds, st: State<C, V>, c: nat, s: nat)
    requires Disciplined(t, b) && Inv(t, b, st) && c < t.cores && Enabled(t, st, c) && s < t.segments
    ensures CellOk(t, b, StepOf(t, st, c), s)
  {
    var o := t.op(st.cores[c].ctl);
    if o == Enter(s) && s !in st.cores[c].entered { CellKeptByEnter(t, b, st, c, s); }
    else if o == Leave(s) && Holds(st.cores[c], s) { CellKeptByLeave(t, b, st, c, s); }
    else if o == Access(s) { CellKeptByAccess(t, b, st, c, s); }
    else {
      Discipline(t, b, st, c);
      assert CoreOk(t, b, st.cores[c], c);
      CellKeptByOthers(t, b, st, c, s);
    }
  }

  lemma FlagKept<C(!new), V(!new)>(t: Task<C, V>, b: Bounds, st: State<C, V>, c: nat)
    requires Disciplined(t, b) && Inv(t, b, st) && c < t.cores && Enabled(t, st, c)
    ensures FlagOk(t, b, StepOf(t, st, c))
  {
    Discipline(t, b, st, c);
    assert CoreOk(t, b, st.cores[c], c);
  }

  lemma CoresKept<C(!new), V(!new)>(t: Task<C, V>, b: Bounds, st: State<C, V>, c: nat)
    requires Disciplined(t, b) && Inv(t, b, st) && c < t.cores && Enabled(t, st, c)
    ensures forall d: nat :: d < t.cores ==> CoreOk(t, b, StepOf(t, st, c).cores[d], d)
  {
    var r := StepOf(t, st, c);
    forall d: nat | d < t.cores ensures CoreOk(t, b, r.cores[d], d) {
      assert CoreOk(t, b, st.cores[d], d);
      if d == c { CoreKept(t, b, st, c); } else { assert r.cores[d] == st.cores[d]; }
    }
  }

  lemma TokensKept<C(!new), V(!new)>(t: Task<C, V>, b: Bounds, st: State<C, V>, c: nat)
    requires Disciplined(t, b) && Inv(t, b, st) && c < t.cores && Enabled(t, st, c)
    ensures var r := StepOf(t, st, c);
            forall d: nat, s: nat :: d < t.cores && s < t.segments ==> TokenOk(t.cores, r.cores[d], s, r.done[s])
  {
    var r := StepOf(t, st, c);
    forall d: nat, s: nat | d < t.cores && s < t.segments ensures TokenOk(t.cores, r.cores[d], s, r.done[s]) {
      TokenKept(t, b, st, c, d, s);
    }
  }

  lemma LocksKept<C(!new), V(!new)>(t: Task<C, V>, b: Bounds, st: State<C, V>, c: nat)
    requires Disciplined(t, b) && Inv(t, b, st) && c < t.cores && Enabled(t, st, c)
    ensures var r := StepOf(t, st, c);
            forall d: nat, s: nat :: d < t.cores && s < t.segments ==>
              LockOk(t.cores, r.cores[d], s, b, r.done[s], r.locks[d][s])
  {
    var r := StepOf(t, st, c);
    forall d: nat, s: nat | d < t.cores && s < t.segments
      ensures LockOk(t.cores, r.cores[d], s, b, r.done[s], r.locks[d][s])
    {
      LockKept(t, b, st, c, d, s);
    }
  }

  lemma CellsKept<C(!new), V(!new)>(t: Task<C, V>, b: Bounds, st: State<C, V>, c: nat)
    requires Disciplined(t, b) && Inv(t, b, st) && c < t.cores && Enabled(t, st, c)
    ensures forall s: nat :: s < t.segments ==> CellOk(t, b, StepOf(t, st, c), s)
  {
    forall s: nat | s < t.segments ensures CellOk(t, b, StepOf(t, st, c), s) { CellKept(t, b, st, c, s); }
  }

  lemma StepKeepsInv<C(!new), V(!new)>(t: Task<C, V>, b: Bounds, st: State<C, V>, c: nat)
    requires Disciplined(t, b) && Inv(t, b, st) && c < t.cores && Enabled(t, st, c)
    ensures Inv(t, b, StepOf(t, st, c))
  {
    CoresKept(t, b, st, c);
    TokensKept(t, b, st, c);
    LocksKept(t, b, st, c);
    CellsKept(t, b, st, c);
    FlagKept(t, b, st, c);
  }
}
