/**
 The loops that the tasks run after they were rewired: DOALL tasks without and with guards
 around the header, and HELIX cores.  Each method is the emitted loop; what it reports is
 compared with the indices the task owns.
 */
module DoallTask {
  import opened Arith
  import opened DoallChunks

  // ---------------------------------------------------------------- periodic variables

  function Pow2(w: nat): (p: nat)
    ensures p > 0
  {
    if w == 0 then 1 else 2 * Pow2(w - 1)
  }

  /** The place of iteration i in its period. */
  function Place(period: nat): nat -> nat {
    (i: nat) => if period > 0 then i % period else i
  }

  /** Reduction to m values. */
  function Mod(m: nat): int -> int
    requires m > 0
  {
    (x: int) => x % m
  }

  /** A variable that steps, wraps around, and starts again wherever its place in the period is zero. */
  ghost function Recurrence(init: int, step: int, wrap: int -> int, place: nat -> nat, i: nat): int {
    if i == 0 || place(i) == 0 then wrap(init) else wrap(Recurrence(init, step, wrap, place, i - 1) + step)
  }

  /** The variable of width w in the sequential loop. */
  ghost function Periodic(init: int, step: int, period: nat, w: nat, i: nat): int {
    Recurrence(init, step, Mod(Pow2(w)), Place(period), i)
  }

  /** The number that the w bits of x stand for in two's complement. */
  function Signed(x: nat, w: nat): (r: int)
    requires 0 < w && x < Pow2(w)
    ensures r == x <==> x < Pow2(w - 1)
  {
    if x < Pow2(w - 1) then x else x - Pow2(w)
  }

  function Abs(x: int): nat {
    if x < 0 then -x else x
  }

  /** The signed remainder, which takes the sign of the dividend. */
  function SRem(a: int, b: int): int
    requires b != 0
  {
    if a >= 0 then a % Abs(b) else -((-a) % Abs(b))
  }

  /**
   The value computed at the header from the 64-bit iteration counter.  The period, `pw`
   bits wide, is extended with its sign, and so is the counter read by the remainder; the
   64-bit product is truncated to w bits.
   */
  function PeriodicFromCounter(init: int, step: int, period: nat, pw: nat, w: nat, iter: nat): int
    requires 0 < pw && 0 < period < Pow2(pw)
  {
    (((step * SRem(Signed(iter % Pow2(64), 64), Signed(period, pw))) % Pow2(64)) % Pow2(w) + init) % Pow2(w)
  }

  lemma {:induction false} Pow2Splits(w: nat, v: nat)
    requires w <= v
    ensures Pow2(v) == Pow2(w) * Pow2(v - w)
    decreases v
  {
    if w < v {
      Pow2Splits(w, v - 1);
      assert 2 * (Pow2(w) * Pow2(v - 1 - w)) == Pow2(w) * (2 * Pow2(v - 1 - w));
    }
  }

  lemma ModOfMod(x: int, m: nat, k: nat)
    requires 0 < m && 0 < k
    ensures 0 < m * k && (x % (m * k)) % m == x % m
  {
    var n := m * k;
    MulMonotone(m, 1, k);
    assert x == n * (x / n) + x % n;
    assert n * (x / n) == m * (k * (x / n));
    AddMultiple(x % n, k * (x / n), m);
  }

  ghost predicate Absorbs(wrap: int -> int, a: int, b: int) {
    wrap(wrap(a) + b) == wrap(a + b)
  }

  /** The recurrence in closed form; offset(r) is the distance from the start after r steps. */
  lemma {:induction false} RecurrenceClosed(
    init: int, step: int, wrap: int -> int, place: nat -> nat, offset: nat -> int, i: nat)
    requires forall a, b :: Absorbs(wrap, a, b)
    requires offset(0) == 0 && forall r: nat :: offset(r + 1) == offset(r) + step
    requires place(0) == 0 && forall j: nat :: place(j + 1) != 0 ==> place(j) == place(j + 1) - 1
    ensures Recurrence(init, step, wrap, place, i) == wrap(init + offset(place(i)))
  {
    if i > 0 && place(i) != 0 {
      assert place(i - 1 + 1) != 0;
      RecurrenceClosed(init, step, wrap, place, offset, i - 1);
      assert Absorbs(wrap, init + offset(place(i - 1)), step);
      assert offset(place(i - 1) + 1) == offset(place(i - 1)) + step;
    }
  }

  function Multiple(step: int): nat -> int {
    (r: nat) => step * r
  }

  /** The variable is its initial value plus step times its place, in w bits. */
  lemma PeriodicClosed(init: int, step: int, period: nat, w: nat, i: nat)
    requires period > 0
    ensures Periodic(init, step, period, w, i) == (init + step * (i % period)) % Pow2(w)
  {
    PlaceSteps(period);
    forall a, b ensures Absorbs(Mod(Pow2(w)), a, b) { AddMod(a, b, Pow2(w)); }
    forall r: nat ensures Multiple(step)(r + 1) == Multiple(step)(r) + step { OneMore(step, r); }
    NoOffset(step, 0);
    RecurrenceClosed(init, step, Mod(Pow2(w)), Place(period), Multiple(step), i);
  }

  lemma NoOffset(step: int, r: nat)
    requires r == 0
    ensures step * r == 0
  {}

  lemma OneMore(step: int, r: nat)
    ensures step * (r + 1) == step * r + step
  {}

  lemma PlaceSteps(period: nat)
    requires period > 0
    ensures Place(period)(0) == 0
    ensures forall j: nat :: Place(period)(j + 1) != 0 ==> Place(period)(j) == Place(period)(j + 1) - 1
  {
    forall j: nat | (j + 1) % period != 0 ensures j % period == (j + 1) % period - 1 { PredecessorMod(j + 1, period); }
  }

  lemma PredecessorMod(i: nat, n: nat)
    requires 0 < n && i > 0 && i % n != 0
    ensures (i - 1) % n == i % n - 1
  {
    assert i - 1 == n * (i / n) + (i % n - 1);
    DivModUnique(n, i / n, i % n - 1);
  }

  lemma Truncated(x: int, init: int, w: nat)
    requires w <= 64
    ensures ((x % Pow2(64)) % Pow2(w) + init) % Pow2(w) == (init + x) % Pow2(w)
  {
    Pow2Splits(w, 64);
    ModOfMod(x, Pow2(w), Pow2(64 - w));
    AddMod(x, init, Pow2(w));
  }

  lemma CounterIsPositive(iter: nat)
    requires iter < Pow2(63)
    ensures Signed(iter % Pow2(64), 64) == iter
  {
    var p := Pow2(64);
    assert p == 2 * Pow2(63);
    SmallMod(iter, p);
  }

  lemma EmittedRemainder(period: nat, pw: nat, iter: nat)
    requires 0 < pw && 0 < period < Pow2(pw) && iter < Pow2(63)
    ensures SRem(Signed(iter % Pow2(64), 64), Signed(period, pw)) == iter % Abs(Signed(period, pw))
  {
    CounterIsPositive(iter);
  }

  /** The value at the header is the initial value plus step times the emitted remainder. */
  lemma FromCounterClosed(init: int, step: int, period: nat, pw: nat, w: nat, iter: nat)
    requires 0 < pw && 0 < period < Pow2(pw) && w <= 64 && iter < Pow2(63)
    ensures PeriodicFromCounter(init, step, period, pw, w, iter)
            == (init + step * (iter % Abs(Signed(period, pw)))) % Pow2(w)
  {
    EmittedRemainder(period, pw, iter);
    var r := SRem(Signed(iter % Pow2(64), 64), Signed(period, pw));
    Truncated(step * r, init, w);
  }

  /** For periods up to half their type's range, and variables of up to 64 bits, it is that of the sequential loop. */
  lemma PeriodicMatches(init: int, step: int, period: nat, pw: nat, w: nat, iter: nat)
    requires 0 < pw && 0 < period <= Pow2(pw - 1) && w <= 64 && iter < Pow2(63)
    ensures PeriodicFromCounter(init, step, period, pw, w, iter) == Periodic(init, step, period, w, iter)
  {
    FromCounterClosed(init, step, period, pw, w, iter);
    PeriodicClosed(init, step, period, w, iter);
  }

  /** The emitted code is right for every variable and iteration exactly up to that bound on the period. */
  lemma PeriodicMatchesIff(period: nat, pw: nat, w: nat)
    requires 0 < pw <= w <= 64 && 0 < period < Pow2(pw)
    ensures (forall init, step, iter: nat :: iter < Pow2(63) ==>
               PeriodicFromCounter(init, step, period, pw, w, iter) == Periodic(init, step, period, w, iter))
            <==> period <= Pow2(pw - 1)
  {
    if period <= Pow2(pw - 1) {
      forall init, step, iter: nat | iter < Pow2(63)
        ensures PeriodicFromCounter(init, step, period, pw, w, iter) == Periodic(init, step, period, w, iter)
      {
        PeriodicMatches(init, step, period, pw, w, iter);
      }
    } else {
      LargePeriod(period, pw, w);
    }
  }

  lemma {:induction false} Pow2Grows(w: nat, v: nat)
    requires w <= v
    ensures Pow2(w) <= Pow2(v)
    decreases v
  {
    if w < v { Pow2Grows(w, v - 1); }
  }

  lemma StartsAgain(m: nat)
    requires 0 < m
    ensures (0 + 1 * (m % m)) % m == 0 && m % m == 0
  {}

  /** In its first iterations a periodic variable that starts from 0 in steps of 1 counts them. */
  lemma CountsUp(period: nat, w: nat, iter: nat)
    requires iter < period && iter < Pow2(w)
    ensures Periodic(0, 1, period, w, iter) == iter
  {
    PeriodicClosed(0, 1, period, w, iter);
    SmallMod(iter, period);
    SmallMod(iter, Pow2(w));
  }

  /** With its top bit set a larger period stands for a negative number, and the variable starts again too early. */
  lemma LargePeriod(period: nat, pw: nat, w: nat)
    requires 0 < pw <= w <= 64 && Pow2(pw - 1) < period < Pow2(pw)
    ensures var iter := Pow2(pw) - period;
            && iter < Pow2(63) && PeriodicFromCounter(0, 1, period, pw, w, iter) == 0
            && Periodic(0, 1, period, w, iter) == iter > 0
  {
    var iter := Pow2(pw) - period;
    Pow2Grows(pw - 1, 63);
    Pow2Grows(pw, w);
    FromCounterClosed(0, 1, period, pw, w, iter);
    CountsUp(period, w, iter);
    StartsAgain(iter);
    SmallMod(0, Pow2(w));
  }

  // ---------------------------------------------------------------- the emitted loops

  /** A governing induction variable and a periodic variable. */
  datatype Loop = Loop(
    start: int, step: int, bound: int, init: int, pvStep: int, period: nat, periodWidth: nat, width: nat)
  {
    ghost predicate Valid(trips: nat) {
      && step != 0 && TripCount(trips, start, step, bound)
      && 0 < periodWidth && 0 < period < Pow2(periodWidth) && width <= 64
    }
  }

  /**
   The values of the periodic variable at the headers of the given iterations, for periods
   that are not negative in their type, as long as the counter is not.
   */
  ghost predicate PeriodicAt(loop: Loop, headers: seq<nat>, values: seq<int>)
    requires 0 < loop.periodWidth
  {
    && |values| == |headers|
    && forall k: nat :: k < |headers| && loop.period <= Pow2(loop.periodWidth - 1) && headers[k] < Pow2(63) ==>
         values[k] == Periodic(loop.init, loop.pvStep, loop.period, loop.width, headers[k])
  }

  lemma OneMoreValue(loop: Loop, headers: seq<nat>, values: seq<int>, iter: nat)
    requires 0 < loop.periodWidth && 0 < loop.period < Pow2(loop.periodWidth) && loop.width <= 64
    requires PeriodicAt(loop, headers, values)
    ensures var pv := PeriodicFromCounter(loop.init, loop.pvStep, loop.period, loop.periodWidth, loop.width, iter);
            PeriodicAt(loop, headers + [iter], values + [pv])
  {
    if loop.period <= Pow2(loop.periodWidth - 1) && iter < Pow2(63) {
      PeriodicMatches(loop.init, loop.pvStep, loop.period, loop.periodWidth, loop.width, iter);
    }
  }

  /**
   A DOALL task whose header may run past the bound.  It runs the bodies of its own
   iterations in order, and its header once more, at its first own index past the end.
   */
  method ChunkedTask(loop: Loop, t: nat, tasks: nat, chunk: nat, ghost trips: nat)
    returns (bodies: seq<nat>, headers: seq<nat>, periodic: seq<int>)
    requires loop.Valid(trips) && 0 < chunk && t < tasks
    ensures bodies == Owned(OwnerOf(chunk, tasks), t, trips)
    ensures |headers| == |bodies| + 1 && headers[..|bodies|] == bodies
    ensures headers[|bodies|] >= trips && Owner(headers[|bodies|], chunk, tasks) == t
    ensures forall k: nat :: trips <= k < headers[|bodies|] ==> Owner(k, chunk, tasks) != t
    ensures PeriodicAt(loop, headers, periodic)
  {
    bodies, headers, periodic := [], [], [];
    var iv := loop.start + loop.step * (t * chunk);
    var counter := 0;
    var iter := t * chunk;
    FirstIndex(t, chunk, tasks);
    ghost var owner := OwnerOf(chunk, tasks);
    while true
      invariant iv == loop.start + loop.step * iter
      invariant counter == iter % chunk && Owner(iter, chunk, tasks) == t
      invariant bodies == Owned(owner, t, iter) && headers == bodies
      invariant forall i :: i in bodies ==> i < trips
      invariant PeriodicAt(loop, headers, periodic)
      decreases trips - iter
    {
      var pv := PeriodicFromCounter(loop.init, loop.pvStep, loop.period, loop.periodWidth, loop.width, iter);
      OneMoreValue(loop, headers, periodic, iter);
      headers, periodic := headers + [iter], periodic + [pv];
      PastIff(iter, trips, loop.start, loop.step, loop.bound);
      if Past(iv, loop.step, loop.bound) {
        FirstPastEnd(chunk, tasks, t, trips, iter);
        return;
      }
      bodies := bodies + [iter];
      OwnedStep(iter, chunk, tasks, t);
      NextIsOwn(iter, chunk, tasks);
      NextValue(loop, iter, chunk, tasks);
      var chunkCompleted := counter + 1 == chunk;
      iv := iv + loop.step;
      iter := iter + 1;
      if chunkCompleted {
        iv := iv + loop.step * ((tasks - 1) * chunk);
        iter := iter + (tasks - 1) * chunk;
        counter := 0;
      } else {
        counter := counter + 1;
      }
    }
  }

  /** If the list up to n holds nothing from the trip count on, nothing between is owned. */
  lemma FirstPastEnd(chunk: nat, tasks: nat, t: nat, trips: nat, n: nat)
    requires 0 < chunk && 0 < tasks && trips <= n
    requires forall i :: i in Owned(OwnerOf(chunk, tasks), t, n) ==> i < trips
    ensures Owned(OwnerOf(chunk, tasks), t, n) == Owned(OwnerOf(chunk, tasks), t, trips)
    ensures forall k: nat :: trips <= k < n ==> Owner(k, chunk, tasks) != t
  {
    var owner := OwnerOf(chunk, tasks);
    OwnedBelow(owner, t, trips, n);
    OwnedIsFilter(owner, t, n);
    forall k: nat | trips <= k < n ensures Owner(k, chunk, tasks) != t {
      assert owner(k) == Owner(k, chunk, tasks);
      assert k in Owned(owner, t, n) <==> owner(k) == t;
    }
  }

  lemma NextValue(loop: Loop, i: nat, chunk: nat, tasks: nat)
    requires 0 < chunk && 0 < tasks
    ensures loop.start + loop.step * NextIndex(i, chunk, tasks)
            == loop.start + loop.step * i + loop.step
               + if i % chunk + 1 == chunk then loop.step * ((tasks - 1) * chunk) else 0
  {
    var m := (tasks - 1) * chunk;
    assert loop.step * (i + 1 + m) == loop.step * i + loop.step + loop.step * m;
  }

  /**
   A DOALL task with guards, for headers whose work must not be repeated: before the first
   header and at every latch it looks whether the previous index was already past the end.
   Its headers are exactly its own indices up to and including the trip count.
   */
  method GuardedTask(loop: Loop, t: nat, tasks: nat, chunk: nat, ghost trips: nat)
    returns (bodies: seq<nat>, headers: seq<nat>)
    requires loop.Valid(trips) && 0 < chunk && t < tasks
    ensures bodies == Owned(OwnerOf(chunk, tasks), t, trips)
    ensures headers == Owned(OwnerOf(chunk, tasks), t, trips + 1)
  {
    bodies, headers := [], [];
    var iv := loop.start + loop.step * (t * chunk);
    var counter := 0;
    var iter := t * chunk;
    ghost var owner := OwnerOf(chunk, tasks);
    FirstIndex(t, chunk, tasks);
    IsFirst(loop, iter);
    PreviousIsPast(loop, trips, iter);
    if iv != loop.start && Past(iv - loop.step, loop.step, loop.bound) {
      NoneLeft(owner, t, trips, iter);
      return;
    }
    while true
      invariant iv == loop.start + loop.step * iter && iter <= trips
      invariant counter == iter % chunk && Owner(iter, chunk, tasks) == t
      invariant bodies == headers == Owned(owner, t, iter) && forall i :: i in bodies ==> i < trips
      decreases trips - iter
    {
      headers := headers + [iter];
      OwnedStep(iter, chunk, tasks, t);
      PastIff(iter, trips, loop.start, loop.step, loop.bound);
      if Past(iv, loop.step, loop.bound) {
        return;
      }
      bodies := bodies + [iter];
      NextIsOwn(iter, chunk, tasks);
      NextValue(loop, iter, chunk, tasks);
      var chunkCompleted := counter + 1 == chunk;
      iv := iv + loop.step;
      if chunkCompleted {
        iv := iv + loop.step * ((tasks - 1) * chunk);
        counter := 0;
      } else {
        counter := counter + 1;
      }
      iter := NextIndex(iter, chunk, tasks);
      PreviousIsPast(loop, trips, iter);
      if Past(iv - loop.step, loop.step, loop.bound) {
        NoneLeft(owner, t, trips, iter);
        return;
      }
    }
  }

  /** A task whose indices below n are all at most `trips` has no others up to there. */
  lemma NoneLeft(owner: nat -> nat, t: nat, trips: nat, n: nat)
    requires trips < n && forall i: nat :: i in Owned(owner, t, n) ==> i < trips
    ensures Owned(owner, t, n) == Owned(owner, t, trips) == Owned(owner, t, trips + 1)
  {
    OwnedBelow(owner, t, trips, n);
    OwnedBelow(owner, t, trips + 1, n);
  }

  /** The induction variable has its start value in the first iteration only. */
  lemma IsFirst(loop: Loop, i: nat)
    requires loop.step != 0
    ensures loop.start + loop.step * i == loop.start <==> i == 0
  {
    if i > 0 {
      ScaleUp(if loop.step > 0 then loop.step else -loop.step, 1, i);
    }
  }

  lemma PreviousIsPast(loop: Loop, trips: nat, i: nat)
    requires loop.Valid(trips)
    ensures i > 0 ==> (Past(loop.start + loop.step * i - loop.step, loop.step, loop.bound) <==> i > trips)
  {
    if i > 0 {
      assert loop.step * i - loop.step == loop.step * (i - 1);
      PastIff(i - 1, trips, loop.start, loop.step, loop.bound);
    }
  }

  lemma CoreStep(loop: Loop, i: nat, cores: nat, core: nat)
    requires 0 < cores && Owner(i, 1, cores) == core
    ensures Owner(i + cores, 1, cores) == core
    ensures Owned(OwnerOf(1, cores), core, i + cores) == Owned(OwnerOf(1, cores), core, i) + [i]
    ensures loop.start + loop.step * (i + cores) == loop.start + loop.step * i + loop.step + loop.step * (cores - 1)
  {
    OwnedStep(i, 1, cores, core);
    NextIsOwn(i, 1, cores);
    ChunksOfOne(i, cores);
    assert loop.step * (i + cores) == loop.step * i + loop.step + loop.step * (cores - 1);
  }

  lemma RoundEarlier(core: nat, cores: nat, n: nat)
    requires 0 < cores <= n && Owner(n, 1, cores) == core
    ensures Owner(n - cores, 1, cores) == core
  {
    ChunksOfOne(n, cores);
    ChunksOfOne(n - cores, cores);
    AddModulus(n - cores, cores);
  }

  /** The least index of a core that is not below the trip count is less than one round away. */
  lemma LeastOwn(core: nat, cores: nat, trips: nat, n: nat)
    requires core < cores && trips <= n && Owner(n, 1, cores) == core
    requires forall i: nat :: trips <= i < n ==> Owner(i, 1, cores) != core
    ensures n < trips + cores && n % cores == core
  {
    ChunksOfOne(n, cores);
    if n >= cores { RoundEarlier(core, cores, n); }
  }

  /** A HELIX core: it starts at its number and advances by the number of cores. */
  method HelixCore(loop: Loop, core: nat, cores: nat, ghost trips: nat)
    returns (bodies: seq<nat>, headers: seq<nat>, periodic: seq<int>)
    requires loop.Valid(trips) && core < cores
    ensures bodies == Owned(OwnerOf(1, cores), core, trips)
    ensures |headers| == |bodies| + 1 && headers[..|bodies|] == bodies
    ensures trips <= headers[|bodies|] < trips + cores && headers[|bodies|] % cores == core
    ensures PeriodicAt(loop, headers, periodic)
  {
    bodies, headers, periodic := [], [], [];
    var iv := loop.start + loop.step * core;
    var iter := core;
    ghost var owner := OwnerOf(1, cores);
    assert core * 1 == core;
    FirstIndex(core, 1, cores);
    while true
      invariant iv == loop.start + loop.step * iter && Owner(iter, 1, cores) == core
      invariant bodies == Owned(owner, core, iter) && headers == bodies
      invariant forall i :: i in bodies ==> i < trips
      invariant PeriodicAt(loop, headers, periodic)
      decreases trips - iter
    {
      var pv := PeriodicFromCounter(loop.init, loop.pvStep, loop.period, loop.periodWidth, loop.width, iter);
      OneMoreValue(loop, headers, periodic, iter);
      headers, periodic := headers + [iter], periodic + [pv];
      PastIff(iter, trips, loop.start, loop.step, loop.bound);
      if Past(iv, loop.step, loop.bound) {
        FirstPastEnd(1, cores, core, trips, iter);
        LeastOwn(core, cores, trips, iter);
        return;
      }
      bodies := bodies + [iter];
      CoreStep(loop, iter, cores, core);
      iv := iv + loop.step + loop.step * (cores - 1);
      iter := iter + cores;
    }
  }

  /** All tasks together run every body index once, and with guards every header index once, for any trip count. */
  lemma TasksCoverLoop(chunk: nat, tasks: nat, trips: nat)
    requires 0 < chunk && 0 < tasks
    ensures AllOwned(OwnerOf(chunk, tasks), trips, tasks) == multiset(Below(trips))
    ensures AllOwned(OwnerOf(chunk, tasks), trips + 1, tasks) == multiset(Below(trips + 1))
  {
    ExactCover(OwnerOf(chunk, tasks), tasks, trips);
    ExactCover(OwnerOf(chunk, tasks), tasks, trips + 1);
  }
}
