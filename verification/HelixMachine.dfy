/**
 The machine on which a HELIX task runs: several cores, one array of spinlocks
 per core, one lock per sequential segment in each array, and one loop-carried
 cell per segment.  Core c executes iterations c, c+n, c+2n, ...  It waits on its
 own array and signals the array of core c+1.

 A task is given by its next operation in each control state.  The same machine
 runs loops with and without a sequential prologue; they differ only in the
 operations their iterations perform.
 */
module HelixMachine {

  /** What a core does next.  `Enter` is the wait guarded by ssState. */
  datatype Op =
    | Enter(seg: nat)   // wait on the past array unless ssState is already set
    | Access(seg: nat)  // read and write the cell of a segment
    | Leave(seg: nat)   // signal on the future array
    | Local             // anything private to the core
    | Check             // load the loop-is-over flag
    | Raise             // store 1 to the loop-is-over flag
    | Next              // back edge: go to this core's next iteration
    | Halt              // return from the task

  datatype Task<!C(!new), !V(!new)> = Task(
    cores: nat,
    arrays: nat,
    segments: nat,
    mem0: seq<V>,
    start: nat -> C,
    op: C -> Op,
    advance: C -> C,
    onCheck: (C, bool) -> C,
    onAccess: (C, V) -> (C, V)
  )

  /**
   The shape of the sequential execution.  Iterations below `final` end at the back
   edge, the later ones end the task.  `cap(s)` is the last iteration that waits for
   segment s, `length(i)` the number of operations of iteration i, and `gate` the
   segment that protects the loop-is-over flag of a `guarded` loop.  In a `strict`
   task every signal ends a wait.
   */
  datatype Bounds = Bounds(
    final: nat, cap: nat -> nat, length: nat -> nat, strict: bool, guarded: bool, gate: nat)

  // ---------------------------------------------------------------- sequential execution

  ghost function SeqStep<C(!new), V(!new)>(t: Task<C, V>, c: C, m: seq<V>, over: bool): (r: (C, seq<V>))
    ensures |r.1| == |m|
  {
    match t.op(c)
    case Access(s) =>
      if s < |m| then (t.onAccess(c, m[s]).0, m[s := t.onAccess(c, m[s]).1]) else (c, m)
    case Check => (t.onCheck(c, over), m)
    case Next => (c, m)
    case Halt => (c, m)
    case _ => (t.advance(c), m)
  }

  /** Control state and cells after j operations of iteration i, one iteration after the other. */
  ghost function Seq<C(!new), V(!new)>(t: Task<C, V>, b: Bounds, i: nat, j: nat): (r: (C, seq<V>))
    ensures |r.1| == |t.mem0|
    decreases i, j
  {
    if j == 0 then
      (t.start(i), if i == 0 then t.mem0 else Seq(t, b, i - 1, b.length(i - 1)).1)
    else
      var r := Seq(t, b, i, j - 1);
      SeqStep(t, r.0, r.1, i > b.final)
  }

  lemma SeqUnfold<C(!new), V(!new)>(t: Task<C, V>, b: Bounds, i: nat, j: nat)
    ensures Seq(t, b, i, j + 1) == SeqStep(t, Seq(t, b, i, j).0, Seq(t, b, i, j).1, i > b.final)
    ensures Seq(t, b, i, 0) == (t.start(i), if i == 0 then t.mem0 else Seq(t, b, i - 1, b.length(i - 1)).1)
  {}

  ghost function OpAt<C(!new), V(!new)>(t: Task<C, V>, b: Bounds, i: nat, j: nat): Op {
    t.op(Seq(t, b, i, j).0)
  }

  /** The cells when iteration i starts. */
  ghost function SeqMem<C(!new), V(!new)>(t: Task<C, V>, b: Bounds, i: nat): (m: seq<V>)
    ensures |m| == |t.mem0|
  {
    Seq(t, b, i, 0).1
  }

  /** The segments whose ssState is set after j operations of iteration i. */
  ghost function Entered<C(!new), V(!new)>(t: Task<C, V>, b: Bounds, i: nat, j: nat): set<nat> {
    if j == 0 then {}
    else
      var o := OpAt(t, b, i, j - 1);
      if o.Enter? then Entered(t, b, i, j - 1) + {o.seg} else Entered(t, b, i, j - 1)
  }

  /** The segments entered and signalled after j operations of iteration i. */
  ghost function Left<C(!new), V(!new)>(t: Task<C, V>, b: Bounds, i: nat, j: nat): set<nat> {
    if j == 0 then {}
    else
      var o := OpAt(t, b, i, j - 1);
      if o.Leave? && o.seg in Entered(t, b, i, j - 1) then Left(t, b, i, j - 1) + {o.seg}
      else Left(t, b, i, j - 1)
  }

  ghost predicate Raised<C(!new), V(!new)>(t: Task<C, V>, b: Bounds, i: nat, j: nat) {
    j > 0 && (OpAt(t, b, i, j - 1).Raise? || Raised(t, b, i, j - 1))
  }

  // ---------------------------------------------------------------- discipline

  /**
   What the compiler guarantees of operation j of iteration i: cells are touched only
   between the wait and the signal of their segment, and a signal that does not end a
   wait is possible only where no later wait can be confused by it.
   */
  ghost predicate OpOk<C(!new), V(!new)>(t: Task<C, V>, b: Bounds, i: nat, j: nat) {
    var en, le := Entered(t, b, i, j), Left(t, b, i, j);
    match OpAt(t, b, i, j)
    case Enter(s) => j < b.length(i) && s < t.segments && (s !in en ==> i <= b.cap(s))
    case Access(s) => j < b.length(i) && s < t.segments && s in en && s !in le
    case Leave(s) => j < b.length(i) && s < t.segments
                     && (s in le ==> i >= b.final && !b.strict) && (s !in en ==> i > b.cap(s) && !b.strict)
    case Local => j < b.length(i)
    case Check => j < b.length(i) && b.guarded && b.gate in en && b.gate !in le
                  && (i == b.final ==> !Raised(t, b, i, j))
    case Raise => j < b.length(i) && i == b.final
    case Next => j == b.length(i) && i < b.final && forall s: nat :: s < t.segments ==> s in le
    case Halt => j == b.length(i) && i >= b.final
                 && forall s: nat :: s < t.segments && i <= b.cap(s) ==> s in le
  }

  ghost predicate GateOk<C(!new), V(!new)>(t: Task<C, V>, b: Bounds, j: nat) {
    (b.gate in Left(t, b, b.final, j) ==> Raised(t, b, b.final, j))
    && (Raised(t, b, b.final, j) ==> b.gate in Entered(t, b, b.final, j))
  }

  ghost predicate Disciplined<C(!new), V(!new)>(t: Task<C, V>, b: Bounds) {
    && 0 < t.cores
    && |t.mem0| == t.segments
    && (forall s: nat :: s < t.segments ==> b.final <= b.cap(s) + 1 && b.cap(s) < b.final + t.cores)
    && (forall i: nat, j: nat {:trigger OpOk(t, b, i, j)} :: i < b.final + t.cores && j <= b.length(i) ==>
        OpOk(t, b, i, j))
    && (b.guarded ==>
          b.gate < t.segments && forall j: nat {:trigger GateOk(t, b, j)} :: j <= b.length(b.final) ==> GateOk(t, b, j))
  }

  // ---------------------------------------------------------------- the machine

  /** `pos` and `left` only record history; no transition reads them. */
  datatype Core<C> = Core(iter: nat, pos: nat, ctl: C, entered: set<nat>, left: set<nat>)

  /** `locks[a][s]` holds when lock s of array a is open; `done[s]` counts the completed instances of s. */
  datatype State<C, V> = State(
    mem: seq<V>, locks: seq<seq<bool>>, flag: bool, cores: seq<Core<C>>, done: seq<nat>)

  ghost predicate Shaped<C(!new), V(!new)>(t: Task<C, V>, st: State<C, V>) {
    && 0 < t.arrays
    && |st.mem| == t.segments
    && |st.done| == t.segments
    && |st.cores| == t.cores
    && |st.locks| == t.arrays
    && forall a :: 0 <= a < t.arrays ==> |st.locks[a]| == t.segments
  }

  function Past<C(!new), V(!new)>(t: Task<C, V>, c: nat): nat
    requires 0 < t.arrays
  {
    c % t.arrays
  }

  function Future<C(!new), V(!new)>(t: Task<C, V>, c: nat): nat
    requires 0 < t.arrays
  {
    (c + 1) % t.arrays
  }

  ghost predicate Holds<C>(k: Core<C>, s: nat) {
    s in k.entered && s !in k.left
  }

  ghost predicate Enabled<C(!new), V(!new)>(t: Task<C, V>, st: State<C, V>, c: nat)
    requires Shaped(t, st) && c < t.cores
  {
    var k := st.cores[c];
    match t.op(k.ctl)
    case Enter(s) => s < t.segments && (s in k.entered || st.locks[Past(t, c)][s])
    case Access(s) => s < t.segments
    case Leave(s) => s < t.segments
    case Halt => false
    case _ => true
  }

  function SetLock(locks: seq<seq<bool>>, a: nat, s: nat, open: bool): (r: seq<seq<bool>>)
    requires a < |locks| && s < |locks[a]|
    ensures |r| == |locks| && forall x :: 0 <= x < |r| ==> |r[x]| == |locks[x]|
    ensures forall x, y :: 0 <= x < |r| && 0 <= y < |r[x]| ==>
                             r[x][y] == if x == a && y == s then open else locks[x][y]
  {
    locks[a := locks[a][s := open]]
  }

  /** One operation of core c.  HELIX_wait takes the lock, HELIX_signal opens it whatever its state. */
  ghost function StepOf<C(!new), V(!new)>(t: Task<C, V>, st: State<C, V>, c: nat): (r: State<C, V>)
    requires Shaped(t, st) && c < t.cores && Enabled(t, st, c)
    ensures Shaped(t, r)
  {
    var k := st.cores[c];
    match t.op(k.ctl)
    case Enter(s) =>
      var k' := k.(pos := k.pos + 1, ctl := t.advance(k.ctl), entered := k.entered + {s});
      st.(cores := st.cores[c := k'],
      locks := if s in k.entered then st.locks else SetLock(st.locks, Past(t, c), s, false))
    case Access(s) =>
      var r := t.onAccess(k.ctl, st.mem[s]);
      st.(cores := st.cores[c := k.(pos := k.pos + 1, ctl := r.0)], mem := st.mem[s := r.1])
    case Leave(s) =>
      var k' := k.(pos := k.pos + 1, ctl := t.advance(k.ctl),
      left := if s in k.entered then k.left + {s} else k.left);
      st.(cores := st.cores[c := k'],
      locks := SetLock(st.locks, Future(t, c), s, true),
      done := if Holds(k, s) then st.done[s := st.done[s] + 1] else st.done)
    case Local => st.(cores := st.cores[c := k.(pos := k.pos + 1, ctl := t.advance(k.ctl))])
    case Check => st.(cores := st.cores[c := k.(pos := k.pos + 1, ctl := t.onCheck(k.ctl, st.flag))])
    case Raise => st.(cores := st.cores[c := k.(pos := k.pos + 1, ctl := t.advance(k.ctl))], flag := true)
    case Next => st.(cores := st.cores[c := Core(k.iter + t.cores, 0, t.start(k.iter + t.cores), {}, {})])
  }

  /** The state in which the dispatcher starts the tasks: only array 0 is open. */
  ghost function Init<C(!new), V(!new)>(t: Task<C, V>): State<C, V> {
    State(t.mem0,
          seq(t.arrays, a => seq(t.segments, s => a == 0)),
          false,
          seq(t.cores, c requires c >= 0 => Core(c, 0, t.start(c), {}, {})),
          seq(t.segments, s => 0))
  }

  ghost predicate NextState<C(!new), V(!new)>(t: Task<C, V>, st: State<C, V>, st': State<C, V>) {
    Shaped(t, st) && exists c: nat :: c < t.cores && Enabled(t, st, c) && st' == StepOf(t, st, c)
  }

  /** A run: any interleaving of the cores, from the initial state. */
  ghost predicate IsRun<C(!new), V(!new)>(t: Task<C, V>, run: seq<State<C, V>>) {
    && |run| > 0
    && run[0] == Init(t)
    && forall k :: 0 <= k < |run| - 1 ==> NextState(t, run[k], run[k + 1])
  }

  function Last<T>(s: seq<T>): T
    requires s != []
  {
    s[|s| - 1]
  }

  ghost predicate Halted<C(!new), V(!new)>(t: Task<C, V>, st: State<C, V>, c: nat)
    requires Shaped(t, st) && c < t.cores
  {
    t.op(st.cores[c].ctl).Halt?
  }

  ghost predicate AllHalted<C(!new), V(!new)>(t: Task<C, V>, st: State<C, V>) {
    Shaped(t, st) && forall c: nat :: c < t.cores ==> Halted(t, st, c)
  }
}
