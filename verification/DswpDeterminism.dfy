/**
 Every schedule of a DSWP pipeline computes what the loop computes.  Each queue holds the
 values of the loop that are pushed and not yet popped, every stage has the loop's values
 for all it knows, and no schedule deadlocks; if the loop ends, all stages leave in the
 iteration and at the branch where it does, and the queues end empty.
 */
module DswpDeterminism {
  import opened Arith
  import opened DswpBody
  import opened DswpPipeline

  /** How often stage st of queue q has come past its push, or its pop. */
  ghost function Pushed<V(!new)>(p: Pipeline<V>, s: State<V>, q: nat): nat
    requires Shaped(p, s) && q < |p.queues| && QueueOk(p, q)
  {
    var st := p.queues[q].from;
    s.stages[st].iter + if Push(q) in p.code[st][..s.stages[st].pc] then 1 else 0
  }

  ghost function Popped<V(!new)>(p: Pipeline<V>, s: State<V>, q: nat): nat
    requires Shaped(p, s) && q < |p.queues| && QueueOk(p, q)
  {
    var st := p.queues[q].to;
    s.stages[st].iter + if Pop(q) in p.code[st][..s.stages[st].pc] then 1 else 0
  }

  /** What has been pushed is what has been popped and then what is in the queue. */
  ghost predicate ContentsOk<V(!new)>(p: Pipeline<V>, s: State<V>, q: nat)
    requires Shaped(p, s) && q < |p.queues| && QueueOk(p, q)
  {
    Balanced(p.body, p.queues[q].producer, Pushed(p, s, q), Popped(p, s, q), s.queues[q])
  }

  /** The stage has the loop's values: those of this iteration where it has come past them. */
  ghost predicate HasValues<V(!new)>(p: Pipeline<V>, st: nat, x: Stage<V>)
    requires Connected(p) && st < |p.runs| && x.pc <= |p.code[st]| && Fits(p.body, x.env)
  {
    forall v: nat {:trigger v in Knows(p, st)} ::
      v in Knows(p, st) ==> v < p.body.size && HasValue(p, st, x, v)
  }

  ghost predicate HasValue<V(!new)>(p: Pipeline<V>, st: nat, x: Stage<V>, v: nat)
    requires Connected(p) && st < |p.runs| && x.pc <= |p.code[st]| && Fits(p.body, x.env) && v < p.body.size
  {
    && x.env.prev[v] == Val(p.body, v, x.iter)
    && x.env.cur[v] == Val(p.body, v, if IsDone(p, p.code[st], x.pc, v) then x.iter + 1 else x.iter)
  }

  /** The stage has not come past branch y in iteration i. */
  ghost predicate NotPastBranch<V(!new)>(p: Pipeline<V>, st: nat, x: Stage<V>, i: nat, y: nat)
    requires Connected(p) && st < |p.runs| && x.pc <= |p.code[st]|
  {
    x.iter < i || (x.iter == i && LeaveIf(y) !in p.code[st][..x.pc])
  }

  /** The stage has not come past the end of the loop, and has left it only there. */
  ghost predicate NotPast<V(!new)>(p: Pipeline<V>, st: nat, x: Stage<V>)
    requires Connected(p) && st < |p.runs| && x.pc <= |p.code[st]|
  {
    && (forall i: nat, y: nat {:trigger LeavesAt(p.body, i, y)} ::
          LeavesAt(p.body, i, y) ==> NotPastBranch(p, st, x, i, y))
    && (x.left ==> x.pc < |p.code[st]| && p.code[st][x.pc].LeaveIf?
                   && LeavesAt(p.body, x.iter, p.code[st][x.pc].branch))
  }

  ghost predicate StageOk<V(!new)>(p: Pipeline<V>, st: nat, x: Stage<V>)
    requires Connected(p) && st < |p.runs|
  {
    x.pc <= |p.code[st]| && Fits(p.body, x.env) && HasValues(p, st, x) && NotPast(p, st, x)
  }

  ghost predicate Inv<V(!new)>(p: Pipeline<V>, s: State<V>) {
    && Shaped(p, s)
    && (forall st: nat {:trigger StageOk(p, st, s.stages[st])} ::
          st < |p.runs| ==> StageOk(p, st, s.stages[st]))
    && (forall q: nat {:trigger ContentsOk(p, s, q)} {:trigger QueueOk(p, q)} ::
          q < |p.queues| ==> QueueOk(p, q) && ContentsOk(p, s, q))
  }

  // ---------------------------------------------------------------- what a stage knows at its next operation

  ghost predicate AtOp<V(!new)>(p: Pipeline<V>, st: nat, x: Stage<V>, o: Op) {
    && Connected(p) && st < |p.runs| && x.pc < |p.code[st]| && p.code[st][x.pc] == o && Placed(p, st, o)
    && Fits(p.body, x.env) && HasValues(p, st, x)
  }

  /** The conditions around j, if they come before. */
  lemma HasControls<V(!new)>(p: Pipeline<V>, st: nat, x: Stage<V>, o: Op, j: nat)
    requires AtOp(p, st, x, o) && j < p.body.size && KnowsAll(p, st, p.body.controls[j])
    requires PlaceOf(p, o).pos == p.body.head[j] || (PlaceOf(p, o).pos >= j && PlaceOf(p, o).kind > 0)
    ensures KnowsControls(p.body, j, x.iter, x.env)
  {
    ControlsDone(p, st, x.pc, j);
    forall k: nat | k < |p.body.controls[j]|
      ensures p.body.controls[j][k] < p.body.size
              && x.env.cur[p.body.controls[j][k]] == Val(p.body, p.body.controls[j][k], x.iter + 1)
    {
      assert p.body.controls[j][k] in Knows(p, st);
      assert HasValue(p, st, x, p.body.controls[j][k]);
    }
  }

  /** A stage knows whether the value of a queue is used. */
  lemma KnowsUse<V(!new)>(p: Pipeline<V>, st: nat, x: Stage<V>, o: Op)
    requires AtOp(p, st, x, o) && (o.Pop? || o.Push?)
    ensures o.queue < |p.queues| && QueueOk(p, o.queue)
    ensures Used(p, o.queue, x.env) <==> Ran(p.body, p.queues[o.queue].producer, x.iter)
  {
    var j := p.queues[o.queue].producer;
    assert QueueOk(p, o.queue) && ControlsOk(p.body, j);
    HasControls(p, st, x, o, j);
    SameControl(p.body, j, x.iter, x.env);
  }

  /** A stage that pushes has the value of this iteration. */
  lemma HasProduct<V(!new)>(p: Pipeline<V>, st: nat, x: Stage<V>, q: nat)
    requires AtOp(p, st, x, Push(q))
    ensures q < |p.queues| && QueueOk(p, q)
    ensures x.env.cur[p.queues[q].producer] == Val(p.body, p.queues[q].producer, x.iter + 1)
  {
    assert QueueOk(p, q);
    var j := p.queues[q].producer;
    DoneBefore(p, st, x.pc, j);
    assert j in Knows(p, st);
    assert HasValue(p, st, x, j);
  }

  lemma HasOperands<V(!new)>(p: Pipeline<V>, st: nat, x: Stage<V>, j: nat)
    requires AtOp(p, st, x, Work(j))
    ensures j < p.body.size && KnowsOperands(p.body, j, x.iter, x.env)
  {
    assert RunOk(p, st, j) && ReadsOk(p.body, j);
    forall k: nat | k < |p.body.operands[j]|
      ensures var r := p.body.operands[j][k];
              r.src < p.body.size && Arg(x.env, r) == Val(p.body, r.src, if r.carried then x.iter else x.iter + 1)
    {
      var r := p.body.operands[j][k];
      assert r.src in Knows(p, st);
      assert HasValue(p, st, x, r.src);
      if !r.carried { DoneBefore(p, st, x.pc, r.src); }
    }
  }

  lemma KnowsExit<V(!new)>(p: Pipeline<V>, st: nat, x: Stage<V>, y: nat)
    requires AtOp(p, st, x, LeaveIf(y))
    ensures y in p.body.exits && (Leaves(p.body, y, x.env) <==> LeavesAt(p.body, x.iter, y))
  {
    assert ExitOk(p.body, y) && ExitKnown(p, st, y);
    HasControls(p, st, x, LeaveIf(y), y);
    var c := p.body.exits[y];
    DoneBefore(p, st, x.pc, c);
    assert c in Knows(p, st);
    assert HasValue(p, st, x, c);
    SameExit(p.body, y, x.iter, x.env);
  }

  // ---------------------------------------------------------------- one step keeps the values

  lemma DoneStep<V(!new)>(p: Pipeline<V>, ops: seq<Op>, k: nat, v: nat)
    requires k < |ops| && (ops[k].Pop? ==> ops[k].queue < |p.queues|)
    ensures IsDone(p, ops, k + 1, v) <==> IsDone(p, ops, k, v) || Provides(p, ops[k], v)
  {
    assert ops[..k + 1] == ops[..k] + [ops[k]];
    if IsDone(p, ops, k, v) && Work(v) !in ops[..k] {
      var q: nat :| q < |p.queues| && p.queues[q].producer == v && Pop(q) in ops[..k];
      assert Pop(q) in ops[..k + 1];
    }
    if ops[k].Pop? && p.queues[ops[k].queue].producer == v { assert Pop(ops[k].queue) in ops[..k + 1]; }
  }

  /** The operation gives the stage this iteration's value of v. */
  ghost predicate Provides<V(!new)>(p: Pipeline<V>, o: Op, v: nat)
    requires o.Pop? ==> o.queue < |p.queues|
  {
    o == Work(v) || (o.Pop? && p.queues[o.queue].producer == v)
  }

  /** If what an operation provides is right, all values stay right. */
  lemma ValuesKept<V(!new)>(p: Pipeline<V>, st: nat, x: Stage<V>, o: Op, y: Stage<V>)
    requires AtOp(p, st, x, o) && y.iter == x.iter && y.pc == x.pc + 1
    requires Fits(p.body, y.env) && y.env.prev == x.env.prev
    requires o.Pop? ==> o.queue < |p.queues|
    requires forall v: nat :: v < p.body.size ==>
               if Provides(p, o, v) then y.env.cur[v] == Val(p.body, v, x.iter + 1) else y.env.cur[v] == x.env.cur[v]
    ensures HasValues(p, st, y)
  {
    forall v: nat | v in Knows(p, st) ensures v < p.body.size && HasValue(p, st, y, v) {
      assert HasValue(p, st, x, v);
      DoneStep(p, p.code[st], x.pc, v);
    }
  }

  /** What stage st pops is the value of its own iteration. */
  lemma PopsCurrentValue<V(!new)>(p: Pipeline<V>, s: State<V>, st: nat, q: nat)
    requires Inv(p, s) && st < |p.runs| && AtOp(p, st, s.stages[st], Pop(q))
    ensures q < |p.queues| && QueueOk(p, q) && Popped(p, s, q) == s.stages[st].iter
    ensures Used(p, q, s.stages[st].env) ==>
              && (s.queues[q] == [] <==> Pushed(p, s, q) <= s.stages[st].iter)
              && (s.queues[q] != [] ==> s.queues[q][0] == Val(p.body, p.queues[q].producer, s.stages[st].iter + 1))
  {
    var x := s.stages[st];
    assert QueueOk(p, q) && ContentsOk(p, s, q);
    BeforeIff(p, st, x.pc, Pop(q));
    KnowsUse(p, st, x, Pop(q));
    if Used(p, q, x.env) { BalancedPop(p.body, p.queues[q].producer, Pushed(p, s, q), x.iter, s.queues[q]); }
  }

  lemma PopValue<V(!new)>(p: Pipeline<V>, st: nat, x: Stage<V>, q: nat, incoming: seq<V>)
    requires AtOp(p, st, x, Pop(q)) && !x.left && q < |p.queues| && QueueOk(p, q)
    requires Used(p, q, x.env) ==> incoming != [] && incoming[0] == Val(p.body, p.queues[q].producer, x.iter + 1)
    ensures HasValues(p, st, After(p, st, x, Pop(q), incoming))
  {
    if !Used(p, q, x.env) { UnusedKeepsValue(p, st, x, q); }
    var j, y := p.queues[q].producer, After(p, st, x, Pop(q), incoming);
    assert y.env.cur[j] == Val(p.body, j, x.iter + 1);
    assert forall v: nat :: v < p.body.size && v != j ==> y.env.cur[v] == x.env.cur[v];
    ValuesKept(p, st, x, Pop(q), y);
  }

  lemma UnusedKeepsValue<V(!new)>(p: Pipeline<V>, st: nat, x: Stage<V>, q: nat)
    requires AtOp(p, st, x, Pop(q)) && q < |p.queues| && QueueOk(p, q) && !Used(p, q, x.env)
    ensures x.env.cur[p.queues[q].producer] == Val(p.body, p.queues[q].producer, x.iter + 1)
  {
    KnowsUse(p, st, x, Pop(q));
    var j := p.queues[q].producer;
    var done := HasKnown(p, st, x, j);
    KeptValue(p.body, j, x.iter, x.env.cur[j], done);
  }

  lemma HasKnown<V(!new)>(p: Pipeline<V>, st: nat, x: Stage<V>, v: nat) returns (done: bool)
    requires Connected(p) && st < |p.runs| && x.pc <= |p.code[st]| && Fits(p.body, x.env) && HasValues(p, st, x)
    requires v in Knows(p, st)
    ensures v < p.body.size && done == IsDone(p, p.code[st], x.pc, v)
    ensures x.env.prev[v] == Val(p.body, v, x.iter)
    ensures x.env.cur[v] == Val(p.body, v, if done then x.iter + 1 else x.iter)
  {
    assert HasValue(p, st, x, v);
    done := IsDone(p, p.code[st], x.pc, v);
  }

  lemma PopKept<V(!new)>(p: Pipeline<V>, s: State<V>, st: nat, q: nat)
    requires Inv(p, s) && st < |p.runs| && Enabled(p, s, st) && AtOp(p, st, s.stages[st], Pop(q))
    ensures q < |p.queues| && (Used(p, q, s.stages[st].env) ==> s.queues[q] != [])
    ensures HasValues(p, st, After(p, st, s.stages[st], Pop(q), s.queues[q]))
  {
    PopsCurrentValue(p, s, st, q);
    PopValue(p, st, s.stages[st], q, s.queues[q]);
  }

  lemma WorkValue<V(!new)>(p: Pipeline<V>, st: nat, x: Stage<V>, j: nat)
    requires AtOp(p, st, x, Work(j))
    ensures j < p.body.size && Exec(p.body, j, x.iter == 0, x.env).cur[j] == Val(p.body, j, x.iter + 1)
  {
    assert RunOk(p, st, j);
    HasOperands(p, st, x, j);
    HasControls(p, st, x, Work(j), j);
    var done := HasKnown(p, st, x, j);
    SameValue(p.body, j, x.iter, x.env, done);
  }

  lemma WorkKept<V(!new)>(p: Pipeline<V>, st: nat, x: Stage<V>, j: nat)
    requires AtOp(p, st, x, Work(j)) && !x.left
    ensures HasValues(p, st, After(p, st, x, Work(j), []))
  {
    WorkValue(p, st, x, j);
    ValuesKept(p, st, x, Work(j), After(p, st, x, Work(j), []));
  }

  /** A stage leaves where the loop is left, and goes on otherwise. */
  lemma LeaveKept<V(!new)>(p: Pipeline<V>, st: nat, x: Stage<V>, y: nat)
    requires Connected(p) && AtOp(p, st, x, LeaveIf(y)) && NotPast(p, st, x) && !x.left
    ensures StageOk(p, st, After(p, st, x, LeaveIf(y), []))
  {
    KnowsExit(p, st, x, y);
    var r := After(p, st, x, LeaveIf(y), []);
    if !r.left {
      ValuesKept(p, st, x, LeaveIf(y), r);
      NotPastStep(p, st, x, r);
    } else {
      assert r == x.(left := true);
      StillHasValues(p, st, x, r);
      NotPastLeft(p, st, x, r);
    }
  }

  lemma StillHasValues<V(!new)>(p: Pipeline<V>, st: nat, x: Stage<V>, y: Stage<V>)
    requires Connected(p) && st < |p.runs| && x.pc <= |p.code[st]| && Fits(p.body, x.env) && HasValues(p, st, x)
    requires y == x.(left := true)
    ensures HasValues(p, st, y)
  {
    forall v: nat | v in Knows(p, st) ensures v < p.body.size && HasValue(p, st, y, v) {
      assert HasValue(p, st, x, v);
    }
  }

  lemma NotPastStep<V(!new)>(p: Pipeline<V>, st: nat, x: Stage<V>, y: Stage<V>)
    requires Connected(p) && st < |p.runs| && x.pc < |p.code[st]| && NotPast(p, st, x)
    requires !y.left && y.iter == x.iter && y.pc == x.pc + 1
    requires var o := p.code[st][x.pc]; o.LeaveIf? ==> !LeavesAt(p.body, x.iter, o.branch)
    ensures NotPast(p, st, y)
  {
    var ops := p.code[st];
    assert ops[..x.pc + 1] == ops[..x.pc] + [ops[x.pc]];
    forall i: nat, b: nat | LeavesAt(p.body, i, b) ensures NotPastBranch(p, st, y, i, b) {
      assert NotPastBranch(p, st, x, i, b);
    }
  }

  lemma NotPastLeft<V(!new)>(p: Pipeline<V>, st: nat, x: Stage<V>, y: Stage<V>)
    requires Connected(p) && st < |p.runs| && x.pc < |p.code[st]| && NotPast(p, st, x) && y == x.(left := true)
    requires p.code[st][x.pc].LeaveIf? && LeavesAt(p.body, x.iter, p.code[st][x.pc].branch)
    ensures NotPast(p, st, y)
  {
    forall i: nat, b: nat | LeavesAt(p.body, i, b) ensures NotPastBranch(p, st, y, i, b) {
      assert NotPastBranch(p, st, x, i, b);
    }
  }

  /** Back at the header all values are those of the next iteration. */
  lemma IterationKept<V(!new)>(p: Pipeline<V>, st: nat, x: Stage<V>)
    requires Connected(p) && st < |p.runs| && StageOk(p, st, x) && x.pc == |p.code[st]|
    ensures StageOk(p, st, NextIteration(x))
  {
    var y := NextIteration(x);
    forall v: nat | v in Knows(p, st) ensures v < p.body.size && HasValue(p, st, y, v) {
      assert HasValue(p, st, x, v);
      AllDone(p, st, v);
    }
    NotPastNext(p, st, x);
  }

  lemma NotPastNext<V(!new)>(p: Pipeline<V>, st: nat, x: Stage<V>)
    requires Connected(p) && st < |p.runs| && x.pc == |p.code[st]| && NotPast(p, st, x)
    ensures NotPast(p, st, NextIteration(x))
  {
    var y := NextIteration(x);
    assert p.code[st][..x.pc] == p.code[st];
    assert InOrder(p, st, p.code[st]);
    forall i: nat, b: nat | LeavesAt(p.body, i, b) ensures NotPastBranch(p, st, y, i, b) {
      assert NotPastBranch(p, st, x, i, b);
      BelongsIsPlaced(p, st, LeaveIf(b));
    }
  }

  /** A stage that has left has done so where the loop ends. */
  lemma LeftAtEnd<V(!new)>(p: Pipeline<V>, st: nat, x: Stage<V>)
    requires Connected(p) && st < |p.runs| && x.pc <= |p.code[st]| && NotPast(p, st, x) && x.left
    ensures EndsAt(p.body, x.iter, p.code[st][x.pc].branch)
  {
    var exit := p.code[st][x.pc].branch;
    forall i: nat, y: nat | i < x.iter || (i == x.iter && y < exit) ensures !LeavesAt(p.body, i, y) {
      if LeavesAt(p.body, i, y) {
        assert NotPastBranch(p, st, x, i, y);
        BeforeIff(p, st, x.pc, LeaveIf(y));
      }
    }
  }

  lemma AllDone<V(!new)>(p: Pipeline<V>, st: nat, v: nat)
    requires Connected(p) && st < |p.runs| && v in Knows(p, st)
    ensures IsDone(p, p.code[st], |p.code[st]|, v) && !IsDone(p, p.code[st], 0, v)
  {
    assert InOrder(p, st, p.code[st]);
    var ops := p.code[st];
    assert ops[..|ops|] == ops;
    if v in p.runs[st] {
      assert Belongs(p, st, Work(v));
    } else {
      var q: nat :| q < |p.queues| && p.queues[q].to == st && p.queues[q].producer == v;
      assert Belongs(p, st, Pop(q));
    }
  }

  lemma IsAtOp<V(!new)>(p: Pipeline<V>, st: nat, x: Stage<V>)
    requires Connected(p) && st < |p.runs| && StageOk(p, st, x) && x.pc < |p.code[st]|
    ensures AtOp(p, st, x, p.code[st][x.pc])
  {
    assert InOrder(p, st, p.code[st]);
    assert p.code[st][x.pc] in p.code[st];
  }

  lemma StageKept<V(!new)>(p: Pipeline<V>, s: State<V>, st: nat)
    requires Inv(p, s) && st < |p.runs| && Enabled(p, s, st)
    ensures StageOk(p, st, StepOf(p, s, st).stages[st])
  {
    var x := s.stages[st];
    assert StageOk(p, st, x);
    if x.pc == |p.code[st]| {
      IterationKept(p, st, x);
    } else {
      IsAtOp(p, st, x);
      var y := StepOf(p, s, st).stages[st];
      match p.code[st][x.pc]
      case Pop(q) =>
        PopKept(p, s, st, q);
        NotPastStep(p, st, x, y);
      case Push(q) =>
        ValuesKept(p, st, x, Push(q), y);
        NotPastStep(p, st, x, y);
      case Work(j) =>
        WorkKept(p, st, x, j);
        NotPastStep(p, st, x, y);
      case LeaveIf(b) =>
        LeaveKept(p, st, x, b);
    }
  }

  // ---------------------------------------------------------------- one step keeps the queues

  /** How a step changes the number of times an operation o of a stage has been passed. */
  ghost function Turns(ops: seq<Op>, iter: nat, pc: nat, o: Op): nat
    requires pc <= |ops|
  {
    iter + if o in ops[..pc] then 1 else 0
  }

  lemma TurnsStep<V(!new)>(p: Pipeline<V>, st: nat, x: Stage<V>, y: Stage<V>, o: Op)
    requires Connected(p) && st < |p.runs| && x.pc <= |p.code[st]| && Belongs(p, st, o)
    requires if x.pc == |p.code[st]| then y.iter == x.iter + 1 && y.pc == 0 else y.iter == x.iter && y.pc == x.pc + 1
    ensures Turns(p.code[st], y.iter, y.pc, o)
            == Turns(p.code[st], x.iter, x.pc, o) + if x.pc < |p.code[st]| && p.code[st][x.pc] == o then 1 else 0
  {
    var ops := p.code[st];
    assert InOrder(p, st, p.code[st]);
    if x.pc < |ops| {
      assert ops[..x.pc + 1] == ops[..x.pc] + [ops[x.pc]];
      if ops[x.pc] == o { BeforeIff(p, st, x.pc, o); }
    } else {
      assert ops[..x.pc] == ops;
    }
  }

  /** What a step does to the turns and the contents of a queue. */
  lemma QueueEffect<V(!new)>(p: Pipeline<V>, s: State<V>, st: nat, q: nat)
    requires Shaped(p, s) && st < |p.runs| && Enabled(p, s, st) && q < |p.queues|
    ensures QueueOk(p, q)
    ensures var x, r := s.stages[st], StepOf(p, s, st);
            var pops := x.pc < |p.code[st]| && p.code[st][x.pc] == Pop(q);
            var pushes := x.pc < |p.code[st]| && p.code[st][x.pc] == Push(q);
            && Popped(p, r, q) == Popped(p, s, q) + (if pops then 1 else 0)
            && Pushed(p, r, q) == Pushed(p, s, q) + (if pushes then 1 else 0)
            && (pops && Used(p, q, x.env) ==> s.queues[q] != [] && r.queues[q] == s.queues[q][1..])
            && (pushes && Used(p, q, x.env) ==> r.queues[q] == s.queues[q] + [x.env.cur[p.queues[q].producer]])
            && ((!pops && !pushes) || !Used(p, q, x.env) ==> r.queues[q] == s.queues[q])
  {
    var x, r := s.stages[st], StepOf(p, s, st);
    assert QueueOk(p, q);
    assert InOrder(p, st, p.code[st]);
    var left := !x.left && r.stages[st].left;
    if x.pc < |p.code[st]| { assert p.code[st][x.pc] in p.code[st]; }
    if st == p.queues[q].from && !left { TurnsStep(p, st, x, r.stages[st], Push(q)); }
    if st == p.queues[q].to && !left { TurnsStep(p, st, x, r.stages[st], Pop(q)); }
  }

  lemma ContentsKept<V(!new)>(p: Pipeline<V>, s: State<V>, st: nat, q: nat)
    requires Inv(p, s) && st < |p.runs| && Enabled(p, s, st) && q < |p.queues|
    ensures QueueOk(p, q) && ContentsOk(p, StepOf(p, s, st), q)
  {
    var x := s.stages[st];
    assert QueueOk(p, q) && ContentsOk(p, s, q) && StageOk(p, st, x);
    var pops := x.pc < |p.code[st]| && p.code[st][x.pc] == Pop(q);
    var pushes := x.pc < |p.code[st]| && p.code[st][x.pc] == Push(q);
    if x.pc < |p.code[st]| { IsAtOp(p, st, x); }
    if pops {
      PoppedContents(p, s, st, q);
    } else if pushes {
      PushedContents(p, s, st, q);
    } else {
      QueueEffect(p, s, st, q);
    }
  }

  lemma IsContents<V(!new)>(p: Pipeline<V>, s: State<V>, q: nat, m: nat, k: nat, rest: seq<V>)
    requires Shaped(p, s) && q < |p.queues| && QueueOk(p, q) && Pushed(p, s, q) == m && Popped(p, s, q) == k
    requires s.queues[q] == rest && Balanced(p.body, p.queues[q].producer, m, k, rest)
    ensures ContentsOk(p, s, q)
  {}

  lemma PoppedContents<V(!new)>(p: Pipeline<V>, s: State<V>, st: nat, q: nat)
    requires Inv(p, s) && st < |p.runs| && Enabled(p, s, st) && AtOp(p, st, s.stages[st], Pop(q))
    requires q < |p.queues|
    ensures QueueOk(p, q) && ContentsOk(p, StepOf(p, s, st), q)
  {
    QueueEffect(p, s, st, q);
    var m, rest := PopBalance(p, s, st, q);
    IsContents(p, StepOf(p, s, st), q, m, s.stages[st].iter + 1, rest);
  }

  lemma PopBalance<V(!new)>(p: Pipeline<V>, s: State<V>, st: nat, q: nat)
    returns (m: nat, rest: seq<V>)
    requires Inv(p, s) && st < |p.runs| && Enabled(p, s, st) && AtOp(p, st, s.stages[st], Pop(q))
    requires q < |p.queues|
    ensures QueueOk(p, q) && Popped(p, s, q) == s.stages[st].iter && m == Pushed(p, s, q)
    ensures Used(p, q, s.stages[st].env) ==> s.queues[q] != []
    ensures rest == if Used(p, q, s.stages[st].env) then s.queues[q][1..] else s.queues[q]
    ensures Balanced(p.body, p.queues[q].producer, m, s.stages[st].iter + 1, rest)
  {
    PopsCurrentValue(p, s, st, q);
    KnowsUse(p, st, s.stages[st], Pop(q));
    assert ContentsOk(p, s, q);
    m := Pushed(p, s, q);
    rest := if Used(p, q, s.stages[st].env) then s.queues[q][1..] else s.queues[q];
    BalancedPop(p.body, p.queues[q].producer, m, s.stages[st].iter, s.queues[q]);
  }

  lemma PushedContents<V(!new)>(p: Pipeline<V>, s: State<V>, st: nat, q: nat)
    requires Inv(p, s) && st < |p.runs| && Enabled(p, s, st) && AtOp(p, st, s.stages[st], Push(q))
    requires q < |p.queues|
    ensures QueueOk(p, q) && ContentsOk(p, StepOf(p, s, st), q)
  {
    QueueEffect(p, s, st, q);
    var k, rest := PushBalance(p, s, st, q);
    IsContents(p, StepOf(p, s, st), q, s.stages[st].iter + 1, k, rest);
  }

  lemma PushFacts<V(!new)>(p: Pipeline<V>, st: nat, x: Stage<V>, q: nat)
    requires AtOp(p, st, x, Push(q)) && q < |p.queues|
    ensures QueueOk(p, q) && p.queues[q].from == st && Push(q) !in p.code[st][..x.pc]
    ensures Used(p, q, x.env) <==> Ran(p.body, p.queues[q].producer, x.iter)
    ensures x.env.cur[p.queues[q].producer] == Val(p.body, p.queues[q].producer, x.iter + 1)
  {
    BeforeIff(p, st, x.pc, Push(q));
    KnowsUse(p, st, x, Push(q));
    HasProduct(p, st, x, q);
  }

  lemma PushBalance<V(!new)>(p: Pipeline<V>, s: State<V>, st: nat, q: nat)
    returns (k: nat, rest: seq<V>)
    requires Inv(p, s) && st < |p.runs| && AtOp(p, st, s.stages[st], Push(q)) && q < |p.queues|
    ensures QueueOk(p, q) && Pushed(p, s, q) == s.stages[st].iter && k == Popped(p, s, q)
    ensures var x := s.stages[st];
            rest == if Used(p, q, x.env) then s.queues[q] + [x.env.cur[p.queues[q].producer]] else s.queues[q]
    ensures Balanced(p.body, p.queues[q].producer, s.stages[st].iter + 1, k, rest)
  {
    var x := s.stages[st];
    PushFacts(p, st, x, q);
    assert ContentsOk(p, s, q);
    k := Popped(p, s, q);
    rest := if Ran(p.body, p.queues[q].producer, x.iter) then s.queues[q] + [x.env.cur[p.queues[q].producer]]
        else s.queues[q];
    BalancedPush(p.body, p.queues[q].producer, x.iter, k, s.queues[q]);
  }

  lemma StepKeepsInv<V(!new)>(p: Pipeline<V>, s: State<V>, st: nat)
    requires Inv(p, s) && st < |p.runs| && Enabled(p, s, st)
    ensures Inv(p, StepOf(p, s, st))
  {
    var r := StepOf(p, s, st);
    forall x: nat | x < |p.runs| ensures StageOk(p, x, r.stages[x]) {
      if x == st { StageKept(p, s, st); } else { assert StageOk(p, x, s.stages[x]); }
    }
    forall q: nat | q < |p.queues| ensures QueueOk(p, q) && ContentsOk(p, r, q) {
      ContentsKept(p, s, st, q);
    }
  }

  lemma InitInv<V(!new)>(p: Pipeline<V>)
    requires Connected(p)
    ensures Inv(p, Init(p))
  {
    var s := Init(p);
    forall st: nat | st < |p.runs| ensures StageOk(p, st, s.stages[st]) {
      forall v: nat | v in Knows(p, st) ensures v < p.body.size && HasValue(p, st, s.stages[st], v) {
        KnownIsValue(p, st, v);
        AllDone(p, st, v);
      }
    }
    forall q: nat | q < |p.queues| ensures QueueOk(p, q) && ContentsOk(p, s, q) {
      assert QueueOk(p, q);
    }
  }

  lemma KnownIsValue<V(!new)>(p: Pipeline<V>, st: nat, v: nat)
    requires Connected(p) && st < |p.runs| && v in Knows(p, st)
    ensures v < p.body.size
  {
    if v in p.runs[st] {
      assert RunOk(p, st, v);
    } else {
      var q: nat :| q < |p.queues| && p.queues[q].to == st && p.queues[q].producer == v;
      assert QueueOk(p, q);
    }
  }

  lemma {:induction false} RunKeepsInv<V(!new)>(p: Pipeline<V>, run: seq<State<V>>, k: nat)
    requires Connected(p) && IsRun(p, run) && k < |run|
    ensures Inv(p, run[k])
    decreases k
  {
    if k == 0 {
      InitInv(p);
    } else {
      RunKeepsInv(p, run, k - 1);
      assert NextState(p, run[k - 1], run[k - 1 + 1]);
      NextKeepsInv(p, run[k - 1], run[k]);
    }
  }

  lemma NextKeepsInv<V(!new)>(p: Pipeline<V>, s: State<V>, r: State<V>)
    requires Inv(p, s) && NextState(p, s, r)
    ensures Inv(p, r)
  {
    var st: nat :| st < |p.runs| && Enabled(p, s, st) && r == StepOf(p, s, st);
    StepKeepsInv(p, s, st);
  }

  // ---------------------------------------------------------------- results

  /** Under every schedule a stage that starts iteration i has, for all it knows, the loop's values at that point. */
  lemma StagesComputeSequentially<V(!new)>(p: Pipeline<V>, run: seq<State<V>>, k: nat, st: nat, v: nat)
    requires Connected(p) && IsRun(p, run) && k < |run| && st < |p.runs| && v in Knows(p, st)
    ensures Shaped(p, run[k]) && v < p.body.size
    ensures var x := run[k].stages[st];
            x.pc == 0 ==> x.env.cur[v] == x.env.prev[v] == Orig(p.body, x.iter, 0).cur[v]
  {
    RunKeepsInv(p, run, k);
    var x := run[k].stages[st];
    assert StageOk(p, st, x);
    assert HasValue(p, st, x, v);
    OrigIs(p.body, x.iter, 0, v);
    AllDone(p, st, v);
  }

  /** What stage st computes by an instruction is what the loop computes by it in that iteration. */
  lemma InstructionsComputeSequentially<V(!new)>(p: Pipeline<V>, run: seq<State<V>>, k: nat, st: nat, j: nat)
    requires Connected(p) && IsRun(p, run) && k < |run| && st < |p.runs|
    requires Shaped(p, run[k]) && Enabled(p, run[k], st)
    requires var x := run[k].stages[st]; x.pc < |p.code[st]| && p.code[st][x.pc] == Work(j)
    ensures j < p.body.size
    ensures var x := run[k].stages[st];
            StepOf(p, run[k], st).stages[st].env.cur[j] == Orig(p.body, x.iter, j + 1).cur[j]
  {
    RunKeepsInv(p, run, k);
    var x := run[k].stages[st];
    assert StageOk(p, st, x);
    IsAtOp(p, st, x);
    WorkValue(p, st, x, j);
  }

  /** A branch that leaves the loop is taken by a stage exactly when the loop takes it in that iteration. */
  lemma AllStagesDecideAlike<V(!new)>(p: Pipeline<V>, run: seq<State<V>>, k: nat, st: nat, y: nat)
    requires Connected(p) && IsRun(p, run) && k < |run| && st < |p.runs|
    requires Shaped(p, run[k]) && Enabled(p, run[k], st)
    requires var x := run[k].stages[st]; x.pc < |p.code[st]| && p.code[st][x.pc] == LeaveIf(y)
    ensures StepOf(p, run[k], st).stages[st].left <==> LeavesAt(p.body, run[k].stages[st].iter, y)
  {
    RunKeepsInv(p, run, k);
    assert StageOk(p, st, run[k].stages[st]);
    IsAtOp(p, st, run[k].stages[st]);
    KnowsExit(p, st, run[k].stages[st], y);
  }

  /** Before the exit a queue has been pushed by one end exactly if it has been popped by the other. */
  lemma ExitAlike<V(!new)>(p: Pipeline<V>, q: nat, exit: nat, k: nat, m: nat)
    requires Connected(p) && q < |p.queues| && QueueOk(p, q) && exit in p.body.exits
    requires k < |p.code[p.queues[q].from]| && p.code[p.queues[q].from][k] == LeaveIf(exit)
    requires m < |p.code[p.queues[q].to]| && p.code[p.queues[q].to][m] == LeaveIf(exit)
    ensures Push(q) in p.code[p.queues[q].from][..k] <==> Pop(q) in p.code[p.queues[q].to][..m]
  {
    BeforeIff(p, p.queues[q].from, k, Push(q));
    BeforeIff(p, p.queues[q].to, m, Pop(q));
    assert ExitOk(p.body, exit) && ControlsOk(p.body, p.queues[q].producer);
  }

  /** The place of the exit in the code of a stage. */
  lemma ExitIn<V(!new)>(p: Pipeline<V>, st: nat, exit: nat) returns (m: nat)
    requires Connected(p) && st < |p.runs| && exit in p.body.exits
    ensures m < |p.code[st]| && p.code[st][m] == LeaveIf(exit)
  {
    assert InOrder(p, st, p.code[st]);
    BelongsIsPlaced(p, st, LeaveIf(exit));
    m :| 0 <= m < |p.code[st]| && p.code[st][m] == LeaveIf(exit);
  }

  /** The first stage that has not left can always act: its producers have left everything it needs. */
  lemma FirstStageCanAct<V(!new)>(p: Pipeline<V>, s: State<V>, st: nat)
    requires Inv(p, s) && st < |p.runs| && !s.stages[st].left
    requires forall x: nat :: x < st ==> s.stages[x].left
    ensures Enabled(p, s, st)
  {
    var x := s.stages[st];
    assert StageOk(p, st, x);
    if x.pc < |p.code[st]| && p.code[st][x.pc].Pop? {
      IsAtOp(p, st, x);
      ProducerHasPushed(p, s, st, p.code[st][x.pc].queue);
    }
  }

  lemma ProducerHasPushed<V(!new)>(p: Pipeline<V>, s: State<V>, st: nat, q: nat)
    requires Inv(p, s) && st < |p.runs| && AtOp(p, st, s.stages[st], Pop(q))
    requires forall x: nat :: x < st ==> s.stages[x].left
    ensures q < |p.queues| && (Used(p, q, s.stages[st].env) ==> s.queues[q] != [])
  {
    var x := s.stages[st];
    PopsCurrentValue(p, s, st, q);
    var from := p.queues[q].from;
    var y := s.stages[from];
    assert StageOk(p, from, y) && StageOk(p, st, x);
    var exit := p.code[from][y.pc].branch;
    assert NotPastBranch(p, st, x, y.iter, exit);
    if x.iter == y.iter {
      var m := ExitIn(p, st, exit);
      BeforeIff(p, st, x.pc, LeaveIf(exit));
      BeforeIff(p, st, m, Pop(q));
      ExitAlike(p, q, exit, y.pc, m);
    }
  }

  lemma {:induction false} FirstNotLeft<V(!new)>(p: Pipeline<V>, s: State<V>, st: nat) returns (r: nat)
    requires Shaped(p, s) && st < |p.runs| && !s.stages[st].left
    ensures r <= st && !s.stages[r].left && forall x: nat :: x < r ==> s.stages[x].left
  {
    if x: nat :| x < st && !s.stages[x].left { r := FirstNotLeft(p, s, x); } else { r := st; }
  }

  /** No schedule deadlocks. */
  lemma NoDeadlock<V(!new)>(p: Pipeline<V>, run: seq<State<V>>, k: nat)
    requires Connected(p) && IsRun(p, run) && k < |run|
    ensures AllLeft(p, run[k]) || exists s :: NextState(p, run[k], s)
  {
    RunKeepsInv(p, run, k);
    if !AllLeft(p, run[k]) {
      var x: nat :| x < |p.runs| && !run[k].stages[x].left;
      var st := FirstNotLeft(p, run[k], x);
      FirstStageCanAct(p, run[k], st);
      assert NextState(p, run[k], StepOf(p, run[k], st));
    }
  }

  // ---------------------------------------------------------------- termination

  ghost function Progress<V>(sizes: seq<nat>, stages: seq<Stage<V>>): nat
    requires |sizes| == |stages|
  {
    if stages == [] then 0
    else
      var m := |stages| - 1;
      Progress(sizes[..m], stages[..m]) + stages[m].iter * (sizes[m] + 1) + stages[m].pc + if stages[m].left then 1
          else 0
  }

  ghost function Sizes<V(!new)>(p: Pipeline<V>): (r: seq<nat>)
    requires Connected(p)
    ensures |r| == |p.runs| && forall st: nat :: st < |r| ==> r[st] == |p.code[st]|
  {
    seq(|p.runs|, st requires 0 <= st < |p.runs| => |p.code[st]|)
  }

  ghost function Limit(sizes: seq<nat>, last: nat): nat {
    if sizes == [] then 0 else Limit(sizes[..|sizes| - 1], last) + (last + 1) * (sizes[|sizes| - 1] + 1)
  }

  ghost predicate Adds<V>(size: nat, x: Stage<V>, y: Stage<V>) {
    || (y.iter == x.iter && y.pc == x.pc + 1 && y.left == x.left)
    || (y.iter == x.iter + 1 && y.pc == 0 && x.pc == size && y.left == x.left)
    || (y.iter == x.iter && y.pc == x.pc && y.left && !x.left)
  }

  lemma {:induction false} ProgressUpdate<V>(sizes: seq<nat>, stages: seq<Stage<V>>, st: nat, y: Stage<V>)
    requires |sizes| == |stages| && st < |stages| && Adds(sizes[st], stages[st], y)
    ensures Progress(sizes, stages[st := y]) == Progress(sizes, stages) + 1
  {
    var m := |stages| - 1;
    if st == m {
      assert stages[st := y][..m] == stages[..m];
      assert (stages[m].iter + 1) * (sizes[m] + 1) == stages[m].iter * (sizes[m] + 1) + sizes[m] + 1;
    } else {
      assert stages[st := y][..m] == stages[..m][st := y];
      ProgressUpdate(sizes[..m], stages[..m], st, y);
    }
  }

  lemma StageBound(iter: nat, last: nat, size: nat, rest: nat)
    requires iter <= last && rest <= size + 1
    ensures iter * (size + 1) + rest <= (last + 1) * (size + 1)
  {
    MulMonotone(size + 1, iter, last);
    assert (last + 1) * (size + 1) == (size + 1) * last + (size + 1);
    assert iter * (size + 1) == (size + 1) * iter;
  }

  lemma {:induction false} ProgressBound<V>(sizes: seq<nat>, stages: seq<Stage<V>>, last: nat)
    requires |sizes| == |stages|
    requires forall st: nat :: st < |stages| ==> stages[st].iter <= last && stages[st].pc <= sizes[st]
    requires forall st: nat :: st < |stages| && stages[st].left ==> stages[st].pc < sizes[st]
    ensures Progress(sizes, stages) <= Limit(sizes, last)
  {
    if stages != [] {
      var m := |stages| - 1;
      ProgressBound(sizes[..m], stages[..m], last);
      StageBound(stages[m].iter, last, sizes[m], stages[m].pc + if stages[m].left then 1 else 0);
    }
  }

  lemma StepAdds<V(!new)>(p: Pipeline<V>, s: State<V>, st: nat)
    requires Shaped(p, s) && st < |p.runs| && Enabled(p, s, st)
    ensures Adds(|p.code[st]|, s.stages[st], StepOf(p, s, st).stages[st])
    ensures StepOf(p, s, st).stages == s.stages[st := StepOf(p, s, st).stages[st]]
  {}

  lemma InitHasNoProgress<V(!new)>(p: Pipeline<V>)
    requires Connected(p)
    ensures |Init(p).stages| == |p.runs| && Progress(Sizes(p), Init(p).stages) == 0
  {
    NoProgress(Sizes(p), Init(p).stages);
  }

  lemma NextProgresses<V(!new)>(p: Pipeline<V>, s: State<V>, r: State<V>)
    requires NextState(p, s, r)
    ensures |r.stages| == |s.stages| == |p.runs| && Progress(Sizes(p), r.stages) == Progress(Sizes(p), s.stages) + 1
  {
    var st: nat :| st < |p.runs| && Enabled(p, s, st) && r == StepOf(p, s, st);
    StepAdds(p, s, st);
    ProgressUpdate(Sizes(p), s.stages, st, r.stages[st]);
  }

  lemma {:induction false} EachStepProgresses<V(!new)>(p: Pipeline<V>, run: seq<State<V>>, k: nat)
    requires Connected(p) && IsRun(p, run) && k < |run|
    ensures |run[k].stages| == |p.runs| && Progress(Sizes(p), run[k].stages) == k
    decreases k
  {
    if k == 0 {
      InitHasNoProgress(p);
    } else {
      EachStepProgresses(p, run, k - 1);
      assert NextState(p, run[k - 1], run[k - 1 + 1]);
      NextProgresses(p, run[k - 1], run[k]);
    }
  }

  /** If the loop ends, every run is bounded: each step moves one stage forward by one operation. */
  lemma RunsAreBounded<V(!new)>(p: Pipeline<V>, last: nat, exit: nat, run: seq<State<V>>, k: nat)
    requires Connected(p) && EndsAt(p.body, last, exit) && IsRun(p, run) && k < |run|
    ensures k <= Limit(Sizes(p), last)
  {
    EachStepProgresses(p, run, k);
    RunKeepsInv(p, run, k);
    WithinLimit(p, last, exit, run[k]);
  }

  lemma WithinLimit<V(!new)>(p: Pipeline<V>, last: nat, exit: nat, s: State<V>)
    requires Inv(p, s) && EndsAt(p.body, last, exit)
    ensures Progress(Sizes(p), s.stages) <= Limit(Sizes(p), last)
  {
    forall st: nat | st < |p.runs|
      ensures s.stages[st].iter <= last && s.stages[st].pc <= Sizes(p)[st]
      ensures s.stages[st].left ==> s.stages[st].pc < Sizes(p)[st]
    {
      assert StageOk(p, st, s.stages[st]);
      assert NotPastBranch(p, st, s.stages[st], last, exit);
    }
    ProgressBound(Sizes(p), s.stages, last);
  }

  lemma {:induction false} NoProgress<V>(sizes: seq<nat>, stages: seq<Stage<V>>)
    requires |sizes| == |stages|
    requires forall st: nat :: st < |stages| ==> stages[st].iter == 0 && stages[st].pc == 0 && !stages[st].left
    ensures Progress(sizes, stages) == 0
  {
    if stages != [] { NoProgress(sizes[..|stages| - 1], stages[..|stages| - 1]); }
  }

  /**
   When all stages have left, the loop ends too; each stage has, for all it knows, the
   values with which it ends, and every value pushed has been popped.
   */
  lemma EndsSequentially<V(!new)>(p: Pipeline<V>, run: seq<State<V>>, k: nat) returns (last: nat, exit: nat)
    requires Connected(p) && IsRun(p, run) && k < |run| && AllLeft(p, run[k])
    ensures EndsAt(p.body, last, exit) && exit < p.body.size
    ensures forall st: nat, v: nat :: st < |p.runs| && v in Knows(p, st) ==>
              v < p.body.size && run[k].stages[st].env.cur[v] == Orig(p.body, last, exit + 1).cur[v]
    ensures forall q: nat :: q < |p.queues| ==> run[k].queues[q] == []
  {
    RunKeepsInv(p, run, k);
    var first := run[k].stages[0];
    assert StageOk(p, 0, first);
    last, exit := first.iter, p.code[0][first.pc].branch;
    LeftAtEnd(p, 0, first);
    assert ExitOk(p.body, exit);
    forall st: nat, v: nat | st < |p.runs| && v in Knows(p, st)
      ensures v < p.body.size && run[k].stages[st].env.cur[v] == Orig(p.body, last, exit + 1).cur[v]
    {
      LeftTogether(p, last, exit, run[k], st);
      ValueAtExit(p, last, exit, st, run[k].stages[st], v);
    }
    forall q: nat | q < |p.queues| ensures run[k].queues[q] == [] { EmptyAtExit(p, last, exit, run[k], q); }
  }

  /** All stages leave in the iteration and at the branch where the loop ends. */
  lemma LeftTogether<V(!new)>(p: Pipeline<V>, last: nat, exit: nat, s: State<V>, st: nat)
    requires Inv(p, s) && st < |p.runs| && s.stages[st].left && EndsAt(p.body, last, exit)
    ensures StageOk(p, st, s.stages[st]) && s.stages[st].iter == last
    ensures p.code[st][s.stages[st].pc] == LeaveIf(exit)
  {
    var x := s.stages[st];
    assert StageOk(p, st, x);
    LeftAtEnd(p, st, x);
    var y := p.code[st][x.pc].branch;
    assert LeavesAt(p.body, last, exit) && LeavesAt(p.body, x.iter, y);
  }

  /** At the exit a stage has this iteration's value of what comes before the exit, and of nothing else. */
  lemma ValueAtExit<V(!new)>(p: Pipeline<V>, last: nat, exit: nat, st: nat, x: Stage<V>, v: nat)
    requires Connected(p) && st < |p.runs| && StageOk(p, st, x) && x.left && v in Knows(p, st)
    requires exit < p.body.size && exit in p.body.exits && x.iter == last && p.code[st][x.pc] == LeaveIf(exit)
    ensures v < p.body.size && x.env.cur[v] == Orig(p.body, last, exit + 1).cur[v]
  {
    var done := HasKnown(p, st, x, v);
    DoneAtExit(p, st, x.pc, exit, v);
    OrigIs(p.body, last, exit + 1, v);
  }

  lemma DoneAtExit<V(!new)>(p: Pipeline<V>, st: nat, k: nat, exit: nat, v: nat)
    requires Connected(p) && st < |p.runs| && v in Knows(p, st) && v < p.body.size && exit in p.body.exits
    requires k < |p.code[st]| && p.code[st][k] == LeaveIf(exit)
    ensures IsDone(p, p.code[st], k, v) <==> v <= exit
  {
    assert ExitOk(p.body, exit);
    assert InOrder(p, st, p.code[st]);
    assert p.code[st][k] in p.code[st];
    if v <= exit { DoneBefore(p, st, k, v); }
    if IsDone(p, p.code[st], k, v) {
      if Work(v) in p.code[st][..k] {
        assert Work(v) in p.code[st];
        BeforeIff(p, st, k, Work(v));
      } else {
        var q: nat :| q < |p.queues| && p.queues[q].producer == v && Pop(q) in p.code[st][..k];
        assert Pop(q) in p.code[st];
        BeforeIff(p, st, k, Pop(q));
      }
    }
  }

  lemma EmptyAtExit<V(!new)>(p: Pipeline<V>, last: nat, exit: nat, s: State<V>, q: nat)
    requires Inv(p, s) && AllLeft(p, s) && q < |p.queues| && EndsAt(p.body, last, exit)
    ensures s.queues[q] == []
  {
    assert QueueOk(p, q) && ContentsOk(p, s, q);
    SameTurnsAtExit(p, last, exit, s, q);
  }

  lemma SameTurnsAtExit<V(!new)>(p: Pipeline<V>, last: nat, exit: nat, s: State<V>, q: nat)
    requires Inv(p, s) && AllLeft(p, s) && q < |p.queues| && QueueOk(p, q) && EndsAt(p.body, last, exit)
    ensures Pushed(p, s, q) == Popped(p, s, q)
  {
    var from, to := p.queues[q].from, p.queues[q].to;
    LeftTogether(p, last, exit, s, from);
    LeftTogether(p, last, exit, s, to);
    ExitAlike(p, q, exit, s.stages[from].pc, s.stages[to].pc);
  }
}
