/**
 The sequential loop, and what the placement of waits and signals guarantees along the
 path an iteration takes through the loop body.
 */
module HelixLoop {
  import opened HelixMachine

  /**
   A loop body as a sequence of operations chosen by local state.  `locals(i)` is the
   local state at the header of iteration i: induction and periodic variables are
   recomputed from i, everything else that crosses iterations lives in a cell.
   `Next` is the back edge and `Halt` a loop exit.
   */
  datatype Loop<!L(!new), !V(!new)> = Loop(
    segments: nat,
    mem0: seq<V>,
    locals: nat -> L,
    op: L -> Op,
    advance: L -> L,
    onAccess: (L, V) -> (L, V)
  )

  /** Local state and cells after j operations of iteration i; waits and signals do nothing here. */
  ghost function Body<L(!new), V(!new)>(loop: Loop<L, V>, len: nat -> nat, i: nat, j: nat): (r: (L, seq<V>))
    ensures |r.1| == |loop.mem0|
    decreases i, 1, j
  {
    if j == 0 then
      (loop.locals(i), LoopMem(loop, len, i))
    else
      var r := Body(loop, len, i, j - 1);
      match loop.op(r.0)
      case Access(s) =>
        if s < |r.1| then (loop.onAccess(r.0, r.1[s]).0, r.1[s := loop.onAccess(r.0, r.1[s]).1]) else r
      case _ => (loop.advance(r.0), r.1)
  }

  /** The cells after the first i iterations, where iteration k performs len(k) operations. */
  ghost function LoopMem<L(!new), V(!new)>(loop: Loop<L, V>, len: nat -> nat, i: nat): (m: seq<V>)
    ensures |m| == |loop.mem0|
    decreases i, 0, 0
  {
    if i == 0 then loop.mem0 else Body(loop, len, i - 1, len(i - 1)).1
  }

  lemma LastMem<L(!new), V(!new)>(loop: Loop<L, V>, len: nat -> nat, i: nat)
    ensures LoopMem(loop, len, i + 1) == Body(loop, len, i, len(i)).1
  {}

  /** Local state and cells after one operation of the body. */
  ghost function AfterOp<L(!new), V(!new)>(loop: Loop<L, V>, l: L, m: seq<V>): (L, seq<V>)
    requires loop.op(l).Access? ==> loop.op(l).seg < |m|
  {
    if loop.op(l).Access? then
      var s := loop.op(l).seg;
      (loop.onAccess(l, m[s]).0, m[s := loop.onAccess(l, m[s]).1])
    else (loop.advance(l), m)
  }

  /** Control c of the task stands for the body's local state l and goes on as the body does, to `next`. */
  ghost predicate StandsFor<C(!new), L(!new), V(!new)>(
    t: Task<C, V>, loop: Loop<L, V>, c: C, l: L, m: seq<V>, next: C)
  {
    && t.op(c) == loop.op(l)
    && match loop.op(l)
       case Access(s) => s < |m| && t.onAccess(c, m[s]) == (next, loop.onAccess(l, m[s]).1)
       case Enter(_) => t.advance(c) == next
       case Leave(_) => t.advance(c) == next
       case Local => t.advance(c) == next
       case _ => false
  }

  /** One operation of the body in the machine's sequential execution. */
  lemma BodyStep<C(!new), L(!new), V(!new)>(
    t: Task<C, V>, b: Bounds, loop: Loop<L, V>, i: nat, j: nat, c: C, l: L, m: seq<V>, next: C)
    requires Seq(t, b, i, j) == (c, m) && StandsFor(t, loop, c, l, m, next)
    ensures Seq(t, b, i, j + 1) == (next, AfterOp(loop, l, m).1)
  {
    SeqUnfold(t, b, i, j);
  }

  /** The operations of iteration i, without the one that ends it. */
  ghost function Path<L(!new), V(!new)>(loop: Loop<L, V>, len: nat -> nat, i: nat): (ops: seq<Op>)
    ensures |ops| == len(i)
  {
    seq(len(i), j requires 0 <= j < len(i) => loop.op(Body(loop, len, i, j).0))
  }

  ghost predicate OnPath(ops: seq<Op>, o: Op, j: nat)
    requires j <= |ops|
  {
    exists a: nat :: a < j && ops[a] == o
  }

  ghost predicate StepOk(ops: seq<Op>, segments: nat, j: nat)
    requires j < |ops|
  {
    match ops[j]
    case Enter(s) => s < segments
    case Access(s) => s < segments && OnPath(ops, Enter(s), j) && !OnPath(ops, Leave(s), j)
    case Leave(s) => s < segments && OnPath(ops, Enter(s), j) && !OnPath(ops, Leave(s), j)
    case Local => true
    case _ => false
  }

  /** Cells are accessed, and segments signalled, after an entry and before any signal of the segment. */
  ghost predicate PathOk(ops: seq<Op>, segments: nat) {
    forall j: nat :: j < |ops| ==> StepOk(ops, segments, j)
  }

  ghost predicate LeavesAll(ops: seq<Op>, segments: nat) {
    forall s: nat :: s < segments ==> OnPath(ops, Leave(s), |ops|)
  }

  /** ssState is set exactly when an entry has been passed. */
  lemma {:induction false} EnteredIff<C(!new), V(!new)>(t: Task<C, V>, b: Bounds, i: nat, j: nat, s: nat)
    ensures s in Entered(t, b, i, j) <==> exists a: nat :: a < j && OpAt(t, b, i, a) == Enter(s)
  {
    if j > 0 {
      EnteredIff(t, b, i, j - 1, s);
      assert s in Entered(t, b, i, j) <==> s in Entered(t, b, i, j - 1) || OpAt(t, b, i, j - 1) == Enter(s);
    }
  }

  lemma {:induction false} LeftIff<C(!new), V(!new)>(t: Task<C, V>, b: Bounds, i: nat, j: nat, s: nat)
    ensures s in Left(t, b, i, j) <==>
            exists a: nat :: a < j && OpAt(t, b, i, a) == Leave(s) && s in Entered(t, b, i, a)
  {
    if j > 0 {
      LeftIff(t, b, i, j - 1, s);
      assert s in Left(t, b, i, j) <==>
             s in Left(t, b, i, j - 1) || (OpAt(t, b, i, j - 1) == Leave(s) && s in Entered(t, b, i, j - 1));
    }
  }

  /** A segment once entered stays entered. */
  lemma {:induction false} EnteredGrows<C(!new), V(!new)>(t: Task<C, V>, b: Bounds, i: nat, j: nat, e: nat)
    requires j <= e
    ensures Entered(t, b, i, j) <= Entered(t, b, i, e)
  {
    if j < e { EnteredGrows(t, b, i, j, e - 1); }
  }

  /** On a good path the sets of the machine say what the path says. */
  lemma SetsFollowPath<C(!new), V(!new)>(t: Task<C, V>, b: Bounds, i: nat, ops: seq<Op>, segments: nat, j: nat, s: nat)
    requires PathOk(ops, segments) && j <= |ops|
    requires forall a: nat :: a < |ops| ==> OpAt(t, b, i, a) == ops[a] || (ops[a] == Local && OpAt(t, b, i, a) == Check)
    ensures s in Entered(t, b, i, j) <==> OnPath(ops, Enter(s), j)
    ensures s in Left(t, b, i, j) <==> OnPath(ops, Leave(s), j)
  {
    EnteredIff(t, b, i, j, s);
    LeftIff(t, b, i, j, s);
    if a: nat :| a < j && ops[a] == Leave(s) {
      assert StepOk(ops, segments, a);
      EnteredIff(t, b, i, a, s);
    }
    if s in Left(t, b, i, j) {
      var a: nat :| a < j && OpAt(t, b, i, a) == Leave(s) && s in Entered(t, b, i, a);
      assert ops[a] == Leave(s);
    }
    if s in Entered(t, b, i, j) {
      var a: nat :| a < j && OpAt(t, b, i, a) == Enter(s);
      assert ops[a] == Enter(s);
    }
  }
}
