/**
 The HELIX dispatcher: it allocates the arrays of spinlocks, closes all but those of
 array 0, and hands every task its past and its future array.
 */
module HelixDispatcher {
  import opened HelixMachine

  /** The locks as the machine sees them. */
  ghost function Matrix(locks: array2<bool>): (m: seq<seq<bool>>)
    reads locks
    ensures |m| == locks.Length0 && forall a :: 0 <= a < |m| ==> |m[a]| == locks.Length1
    ensures forall a, s :: 0 <= a < |m| && 0 <= s < |m[a]| ==> m[a][s] == locks[a, s]
  {
    seq(locks.Length0, a requires 0 <= a < locks.Length0 reads locks =>
      seq(locks.Length1, s requires 0 <= s < locks.Length1 reads locks => locks[a, s]))
  }

  lemma SameMatrix(m: seq<seq<bool>>, w: seq<seq<bool>>)
    requires |m| == |w| && forall a :: 0 <= a < |m| ==> |m[a]| == |w[a]|
    requires forall a, s :: 0 <= a < |m| && 0 <= s < |m[a]| ==> m[a][s] == w[a][s]
    ensures m == w
  {
    assert forall a :: 0 <= a < |m| ==> m[a] == w[a];
  }

  class Dispatcher {
    const cores: nat
    const arrays: nat
    const segments: nat
    const locks: array2<bool>    // true: open
    const past: array<nat>
    const future: array<nat>

    /** The tasks' view of the locks is the one the token ring is proved for. */
    ghost predicate Valid()
      reads past, future
    {
      && 0 < cores && arrays in {1, cores}
      && locks.Length0 == arrays && locks.Length1 == segments
      && past.Length == cores && future.Length == cores
      && (forall c :: 0 <= c < cores ==> past[c] == c % arrays && future[c] == (c + 1) % arrays)
      && (forall c :: 0 <= c < cores ==> past[c] < arrays && future[c] < arrays)
    }

    /** Allocate and initialise; `ordered` chooses one array per core, otherwise all cores share one. */
    constructor (cores: nat, segments: nat, ordered: bool)
      requires 0 < cores
      ensures Valid() && fresh(locks) && fresh(past) && fresh(future) && past != future
      ensures this.cores == cores && this.segments == segments && arrays == (if ordered then cores else 1)
      ensures forall a, s :: 0 <= a < arrays && 0 <= s < segments ==> (locks[a, s] <==> a == 0)
    {
      var n := if ordered then cores else 1;
      var ls := new bool[n, segments];
      var i := 0;
      while i < n
        invariant 0 <= i <= n
        invariant forall a, s :: 0 <= a < i && 0 <= s < segments ==> (ls[a, s] <==> a == 0)
      {
        var lockID := 0;
        while lockID < segments
          invariant 0 <= lockID <= segments
          invariant forall a, s :: 0 <= a < i && 0 <= s < segments ==> (ls[a, s] <==> a == 0)
          invariant forall s :: 0 <= s < lockID ==> (ls[i, s] <==> i == 0)
        {
          ls[i, lockID] := true;
          if i > 0 {
            ls[i, lockID] := false;
          }
          lockID := lockID + 1;
        }
        i := i + 1;
      }
      var ps, fs := new nat[cores], new nat[cores];
      i := 0;
      while i < cores - 1
        modifies ps, fs
        invariant 0 <= i <= cores - 1
        invariant forall c :: 0 <= c < i ==> ps[c] == c % n && fs[c] == (c + 1) % n
        invariant forall c :: 0 <= c < i ==> ps[c] < n && fs[c] < n
      {
        ps[i], fs[i] := i % n, (i + 1) % n;
        i := i + 1;
      }
      // the task the dispatcher runs itself signals array 0
      ps[cores - 1], fs[cores - 1] := (cores - 1) % n, 0;
      LastSignalsFirst(cores, n);
      this.cores, this.arrays, this.segments, this.locks, this.past, this.future := cores, n, segments, ls, ps, fs;
    }

    /** One attempt of the spinlock in HELIX_wait by core c; the core spins while it fails. */
    method TryWait(c: nat, s: nat) returns (taken: bool)
      requires Valid() && c < cores && s < segments
      modifies locks
      ensures taken == old(Matrix(locks))[c % arrays][s]
      ensures Matrix(locks) == if taken then SetLock(old(Matrix(locks)), c % arrays, s, false) else old(Matrix(locks))
    {
      ghost var was := Matrix(locks);
      taken := locks[past[c], s];
      if taken {
        locks[past[c], s] := false;
        SameMatrix(Matrix(locks), SetLock(was, c % arrays, s, false));
      }
    }

    /** HELIX_signal by core c: an unlock, which leaves an open lock open. */
    method Signal(c: nat, s: nat)
      requires Valid() && c < cores && s < segments
      modifies locks
      ensures Matrix(locks) == SetLock(old(Matrix(locks)), (c + 1) % arrays, s, true)
    {
      ghost var was := Matrix(locks);
      locks[future[c], s] := true;
      SameMatrix(Matrix(locks), SetLock(was, (c + 1) % arrays, s, true));
    }
  }

  lemma LastSignalsFirst(cores: nat, arrays: nat)
    requires 0 < cores && arrays in {1, cores}
    ensures cores % arrays == 0
  {}

  /** The dispatcher starts the tasks in the initial state of the machine. */
  lemma StartsInInitialState<C(!new), V(!new)>(t: Task<C, V>, d: Dispatcher)
    requires d.Valid() && d.cores == t.cores && d.arrays == t.arrays && d.segments == t.segments
    requires forall a, s :: 0 <= a < d.arrays && 0 <= s < d.segments ==> (d.locks[a, s] <==> a == 0)
    ensures Matrix(d.locks) == Init(t).locks
    ensures forall c: nat :: c < t.cores ==> d.past[c] == Past(t, c) && d.future[c] == Future(t, c)
  {
    SameMatrix(Matrix(d.locks), Init(t).locks);
  }

  /**
   Core c's next operation, carried out on the dispatcher's arrays.  It goes through exactly
   when the machine lets the core step, and leaves the locks of the machine's next state;
   otherwise the core spins and the locks stay as they are.
   */
  method CarryOut<C(!new), V(!new)>(t: Task<C, V>, st: State<C, V>, d: Dispatcher, c: nat) returns (done: bool)
    requires d.Valid() && d.cores == t.cores && d.arrays == t.arrays && d.segments == t.segments
    requires Shaped(t, st) && c < t.cores && Matrix(d.locks) == st.locks
    requires match t.op(st.cores[c].ctl) case Enter(s) => s < t.segments case Access(s) => s < t.segments
                                         case Leave(s) => s < t.segments case _ => true
    modifies d.locks
    ensures done <==> Enabled(t, st, c)
    ensures Matrix(d.locks) == if done then StepOf(t, st, c).locks else st.locks
  {
    match t.op(st.cores[c].ctl)
    case Enter(s) =>
      done := true;
      if s !in st.cores[c].entered {
        done := d.TryWait(c, s);
      }
    case Leave(s) =>
      d.Signal(c, s);
      done := true;
    case Halt =>
      done := false;
    case _ =>
      done := true;
  }

  /** With one array per core the arrays form a ring: no two cores wait on, or signal, the same one. */
  lemma Ring(d: Dispatcher, c: nat, e: nat)
    requires d.Valid() && d.arrays == d.cores && c < d.cores && e < d.cores && c != e
    ensures d.past[c] != d.past[e] && d.future[c] != d.future[e]
    ensures d.future[c] == d.past[(c + 1) % d.cores]
  {
    NextInRing(c, d.cores);
    NextInRing(e, d.cores);
  }

  lemma NextInRing(c: nat, n: nat)
    requires c < n
    ensures c % n == c && (c + 1) % n == (if c + 1 == n then 0 else c + 1)
  {}
}
