/**
 Reductions in DOALL loops.  Every task accumulates into a private copy that starts at the
 identity; a task that leaves past the end must not count its last header.  The caller
 combines the private copies of the threads used with the initial value.
 */
module DoallReduction {
  import opened DoallChunks
  import opened DoallTask

  datatype Monoid<!A(!new)> = Monoid(op: (A, A) -> A, id: A) {
    ghost predicate Unit(a: A) { op(id, a) == a }

    ghost predicate Swaps(a: A, b: A) { op(a, b) == op(b, a) }

    ghost predicate Regroups(a: A, b: A, c: A) { op(op(a, b), c) == op(a, op(b, c)) }

    ghost predicate Commutative() {
      (forall a :: Unit(a)) && (forall a, b :: Swaps(a, b)) && (forall a, b, c :: Regroups(a, b, c))
    }
  }

  /** What iteration i adds: g in the header, then f in the body. */
  datatype Terms<!A(!new)> = Terms(header: nat -> A, body: nat -> A)

  function Whole<A(!new)>(m: Monoid<A>, x: Terms<A>, i: nat): A {
    m.op(x.header(i), x.body(i))
  }

  /** The sequential loop: n whole iterations, then one more header. */
  ghost function Accumulated<A(!new)>(m: Monoid<A>, x: Terms<A>, init: A, n: nat): A {
    if n == 0 then init
    else m.op(m.op(Accumulated(m, x, init, n - 1), x.header(n - 1)), x.body(n - 1))
  }

  ghost function Sequential<A(!new)>(m: Monoid<A>, x: Terms<A>, init: A, trips: nat): A {
    m.op(Accumulated(m, x, init, trips), x.header(trips))
  }

  /** The whole iterations of a list of indices, from the identity. */
  ghost function Fold<A(!new)>(m: Monoid<A>, x: Terms<A>, indices: seq<nat>): A {
    if indices == [] then m.id
    else m.op(Fold(m, x, indices[..|indices| - 1]), Whole(m, x, indices[|indices| - 1]))
  }

  /** The header that ends the loop counts for the task that owns it. */
  ghost function LastHeader<A(!new)>(m: Monoid<A>, x: Terms<A>, owner: nat -> nat, t: nat, trips: nat): A {
    if owner(trips) == t then x.header(trips) else m.id
  }

  /** What the private copy of task t has to hold. */
  ghost function Partial<A(!new)>(m: Monoid<A>, x: Terms<A>, owner: nat -> nat, t: nat, trips: nat): A {
    m.op(Fold(m, x, Owned(owner, t, trips)), LastHeader(m, x, owner, t, trips))
  }

  /** A task with its accumulator; at the exit block the header's addition is dropped if it was not due. */
  method ReducingTask<A(!new)>(m: Monoid<A>, x: Terms<A>, loop: Loop, t: nat, tasks: nat, chunk: nat, ghost trips: nat)
    returns (result: A)
    requires m.Commutative() && loop.Valid(trips) && 0 < chunk && t < tasks
    ensures result == Partial(m, x, OwnerOf(chunk, tasks), t, trips)
  {
    var phi := m.id;
    var iv := loop.start + loop.step * (t * chunk);
    var counter := 0;
    var iter := t * chunk;
    ghost var owner := OwnerOf(chunk, tasks);
    FirstIndex(t, chunk, tasks);
    while true
      invariant iv == loop.start + loop.step * iter
      invariant counter == iter % chunk && Owner(iter, chunk, tasks) == t
      invariant phi == Fold(m, x, Owned(owner, t, iter))
      invariant forall i :: i in Owned(owner, t, iter) ==> i < trips
      decreases trips - iter
    {
      var producer := m.op(phi, x.header(iter));
      PastIff(iter, trips, loop.start, loop.step, loop.bound);
      if Past(iv, loop.step, loop.bound) {
        ExitValue(m, x, loop, t, owner, trips, iter);
        var skipLastHeader := iv != loop.start && Past(iv - loop.step, loop.step, loop.bound);
        result := if skipLastHeader then phi else producer;
        return;
      }
      phi := m.op(producer, x.body(iter));
      OwnedStep(iter, chunk, tasks, t);
      FoldMore(m, x, Owned(owner, t, iter), iter);
      NextIsOwn(iter, chunk, tasks);
      NextValue(loop, iter, chunk, tasks);
      var chunkCompleted := counter + 1 == chunk;
      iv := iv + loop.step;
      if chunkCompleted {
        iv := iv + loop.step * ((tasks - 1) * chunk);
        counter := 0;
      } else {
        counter := counter + 1;
      }
      iter := NextIndex(iter, chunk, tasks);
    }
  }

  /** What the exit block has to select, the header PHI or its producer. */
  lemma ExitValue<A(!new)>(m: Monoid<A>, x: Terms<A>, loop: Loop, t: nat, owner: nat -> nat, trips: nat, iter: nat)
    requires m.Commutative() && loop.Valid(trips) && owner(iter) == t && trips <= iter
    requires forall i :: i in Owned(owner, t, iter) ==> i < trips
    ensures var iv := loop.start + loop.step * iter;
            var skip := iv != loop.start && Past(iv - loop.step, loop.step, loop.bound);
            var phi := Fold(m, x, Owned(owner, t, iter));
            Partial(m, x, owner, t, trips) == if skip then phi else m.op(phi, x.header(iter))
  {
    OwnedBelow(owner, t, trips, iter);
    IsFirst(loop, iter);
    PreviousIsPast(loop, trips, iter);
    NoOwnBetween(owner, t, trips, iter);
    UnitRight(m, Fold(m, x, Owned(owner, t, iter)));
  }

  lemma FoldMore<A(!new)>(m: Monoid<A>, x: Terms<A>, indices: seq<nat>, i: nat)
    requires m.Commutative()
    ensures Fold(m, x, indices + [i]) == m.op(m.op(Fold(m, x, indices), x.header(i)), x.body(i))
  {
    assert (indices + [i])[..|indices|] == indices;
    assert m.Regroups(Fold(m, x, indices), x.header(i), x.body(i));
  }

  /** When the list up to iter is the list up to trips, nothing in between is the task's own. */
  lemma NoOwnBetween(owner: nat -> nat, t: nat, trips: nat, iter: nat)
    requires trips <= iter && Owned(owner, t, iter) == Owned(owner, t, trips) && owner(iter) == t
    ensures owner(trips) == t <==> iter == trips
  {
    OwnedIsFilter(owner, t, iter);
    OwnedIsFilter(owner, t, trips);
    var inBetween := trips in Owned(owner, t, iter);
  }

  /** The reduction after the tasks: the initial value, then the private copies in turn. */
  ghost function Combined<A(!new)>(m: Monoid<A>, init: A, partials: seq<A>): A {
    if partials == [] then init
    else m.op(Combined(m, init, partials[..|partials| - 1]), partials[|partials| - 1])
  }

  method CombinePartials<A(!new)>(m: Monoid<A>, init: A, partials: seq<A>, threadsUsed: nat) returns (result: A)
    requires threadsUsed <= |partials|
    ensures result == Combined(m, init, partials[..threadsUsed])
  {
    result := init;
    for k := 0 to threadsUsed
      invariant result == Combined(m, init, partials[..k])
    {
      result := m.op(result, partials[k]);
      assert partials[..k + 1][..k] == partials[..k];
    }
  }

  // ---------------------------------------------------------------- the combination is the sequential result

  lemma Swap4<A(!new)>(m: Monoid<A>, a: A, b: A, c: A, d: A)
    requires m.Commutative()
    ensures m.op(m.op(a, b), m.op(c, d)) == m.op(m.op(a, c), m.op(b, d))
  {
    calc {
      m.op(m.op(a, b), m.op(c, d));
      { assert m.Regroups(a, b, m.op(c, d)); }
      m.op(a, m.op(b, m.op(c, d)));
      { assert m.Regroups(b, c, d) && m.Swaps(b, c) && m.Regroups(c, b, d); }
      m.op(a, m.op(c, m.op(b, d)));
      { assert m.Regroups(a, c, m.op(b, d)); }
      m.op(m.op(a, c), m.op(b, d));
    }
  }

  lemma UnitRight<A(!new)>(m: Monoid<A>, a: A)
    requires m.Commutative()
    ensures m.op(a, m.id) == a
  {
    assert m.Swaps(a, m.id) && m.Unit(a);
  }

  /** The folds of the first k tasks, combined. */
  ghost function Folds<A(!new)>(m: Monoid<A>, x: Terms<A>, owner: nat -> nat, n: nat, k: nat): A {
    if k == 0 then m.id else m.op(Folds(m, x, owner, n, k - 1), Fold(m, x, Owned(owner, k - 1, n)))
  }

  lemma {:induction false} FoldsNothing<A(!new)>(m: Monoid<A>, x: Terms<A>, owner: nat -> nat, k: nat)
    requires m.Commutative()
    ensures Folds(m, x, owner, 0, k) == m.id
  {
    if k > 0 { FoldsNothing(m, x, owner, k - 1); UnitRight(m, m.id); }
  }

  lemma FoldOwnedMore<A(!new)>(m: Monoid<A>, x: Terms<A>, owner: nat -> nat, t: nat, n: nat)
    ensures Fold(m, x, Owned(owner, t, n + 1))
            == if owner(n) == t then m.op(Fold(m, x, Owned(owner, t, n)), Whole(m, x, n))
                else Fold(m, x, Owned(owner, t, n))
  {
    assert (Owned(owner, t, n) + [n])[..|Owned(owner, t, n)|] == Owned(owner, t, n);
    assert Owned(owner, t, n) + [] == Owned(owner, t, n);
  }

  lemma MoveRight<A(!new)>(m: Monoid<A>, a: A, b: A, c: A)
    requires m.Commutative()
    ensures m.op(a, m.op(b, c)) == m.op(m.op(a, b), c)
    ensures m.op(m.op(a, c), b) == m.op(m.op(a, b), c)
  {
    assert m.Regroups(a, b, c) && m.Regroups(a, c, b) && m.Swaps(c, b);
  }

  /** One more index changes the fold of its owner only. */
  lemma {:induction false} FoldsMore<A(!new)>(m: Monoid<A>, x: Terms<A>, owner: nat -> nat, n: nat, k: nat)
    requires m.Commutative()
    ensures Folds(m, x, owner, n + 1, k)
            == if owner(n) < k then m.op(Folds(m, x, owner, n, k), Whole(m, x, n)) else Folds(m, x, owner, n, k)
  {
    if k > 0 {
      FoldsMore(m, x, owner, n, k - 1);
      FoldOwnedMore(m, x, owner, k - 1, n);
      MoveRight(m, Folds(m, x, owner, n, k - 1), Fold(m, x, Owned(owner, k - 1, n)), Whole(m, x, n));
    }
  }

  /** Over all tasks the folds give the whole iterations of the sequential loop. */
  lemma {:induction false} FoldsAreSequential<A(!new)>(
    m: Monoid<A>, x: Terms<A>, owner: nat -> nat, tasks: nat, init: A, n: nat)
    requires m.Commutative() && forall i: nat :: owner(i) < tasks
    ensures m.op(init, Folds(m, x, owner, n, tasks)) == Accumulated(m, x, init, n)
  {
    if n == 0 {
      FoldsNothing(m, x, owner, tasks);
      UnitRight(m, init);
    } else {
      FoldsAreSequential(m, x, owner, tasks, init, n - 1);
      FoldsMore(m, x, owner, n - 1, tasks);
      var a := Folds(m, x, owner, n - 1, tasks);
      MoveRight(m, init, a, Whole(m, x, n - 1));
      MoveRight(m, m.op(init, a), x.header(n - 1), x.body(n - 1));
    }
  }

  /** The private copies of the first k tasks, combined. */
  lemma {:induction false} PartialsCombine<A(!new)>(
    m: Monoid<A>, x: Terms<A>, owner: nat -> nat, trips: nat, init: A, partials: seq<A>, k: nat)
    requires m.Commutative() && k <= |partials|
    requires forall t: nat :: t < k ==> partials[t] == Partial(m, x, owner, t, trips)
    ensures Combined(m, init, partials[..k])
            == m.op(m.op(init, Folds(m, x, owner, trips, k)), if owner(trips) < k then x.header(trips) else m.id)
  {
    if k == 0 {
      UnitRight(m, init);
    } else {
      PartialsCombine(m, x, owner, trips, init, partials, k - 1);
      assert partials[..k][..k - 1] == partials[..k - 1];
      var a, e := m.op(init, Folds(m, x, owner, trips, k - 1)), if owner(trips) < k - 1 then x.header(trips) else m.id;
      var b, h := Fold(m, x, Owned(owner, k - 1, trips)), LastHeader(m, x, owner, k - 1, trips);
      Swap4(m, a, e, b, h);
      assert m.Regroups(init, Folds(m, x, owner, trips, k - 1), b);
      assert m.Unit(h);
      UnitRight(m, e);
    }
  }

  /**
   For any commutative monoid, number of tasks and chunk size, combining the private copies
   gives the value of the sequential loop, the accumulations of its header included.
   */
  lemma ReductionIsSequential<A(!new)>(
    m: Monoid<A>, x: Terms<A>, tasks: nat, chunk: nat, trips: nat, init: A, partials: seq<A>)
    requires m.Commutative() && 0 < tasks && 0 < chunk && |partials| == tasks
    requires forall t: nat :: t < tasks ==> partials[t] == Partial(m, x, OwnerOf(chunk, tasks), t, trips)
    ensures Combined(m, init, partials) == Sequential(m, x, init, trips)
  {
    var owner := OwnerOf(chunk, tasks);
    assert partials[..tasks] == partials;
    PartialsCombine(m, x, owner, trips, init, partials, tasks);
    assert forall i: nat :: owner(i) < tasks;
    FoldsAreSequential(m, x, owner, tasks, init, trips);
  }

  /** The whole parallel reduction, tasks and combination. */
  method ParallelReduction<A(!new)>(
    m: Monoid<A>, x: Terms<A>, loop: Loop, tasks: nat, chunk: nat, init: A, ghost trips: nat) returns (result: A)
    requires m.Commutative() && loop.Valid(trips) && 0 < chunk && 0 < tasks
    ensures result == Sequential(m, x, init, trips)
  {
    var partials: seq<A> := [];
    for t := 0 to tasks
      invariant |partials| == t
      invariant forall u: nat :: u < t ==> partials[u] == Partial(m, x, OwnerOf(chunk, tasks), u, trips)
    {
      var p := ReducingTask(m, x, loop, t, tasks, chunk, trips);
      partials := partials + [p];
    }
    result := CombinePartials(m, init, partials, tasks);
    assert partials[..tasks] == partials;
    ReductionIsSequential(m, x, tasks, chunk, trips, init, partials);
  }
}
