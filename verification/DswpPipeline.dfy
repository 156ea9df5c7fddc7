/**
 The DSWP pipeline at run time.  Every stage goes through the body of the loop in program
 order, but executes only its own and its cloned instructions.  It pops what other stages
 compute at the start of the block that computes it, pushes right after production, and
 takes the branches that leave the loop like everybody else.
 */
module DswpPipeline {
  import opened DswpBody
  import Stages = DswpStages

  /** `runs[st]` are the instructions that stage st executes, and `code[st]` is its code for one iteration. */
  datatype Pipeline<!V(!new)> = Pipeline(
    body: Body<V>, runs: seq<set<nat>>, queues: seq<Stages.Queue>, code: seq<seq<Op>>)

  datatype Op =
    | Pop(queue: nat)
    | Push(queue: nat)
    | Work(instruction: nat)
    | LeaveIf(branch: nat)

  /** What stage st has: what it executes and what it pops. */
  ghost function Knows<V(!new)>(p: Pipeline<V>, st: nat): set<nat>
    requires st < |p.runs|
  {
    p.runs[st] + set q: nat | q < |p.queues| && p.queues[q].to == st :: p.queues[q].producer
  }

  ghost predicate KnowsAll<V(!new)>(p: Pipeline<V>, st: nat, xs: seq<nat>)
    requires st < |p.runs|
  {
    forall k: nat :: k < |xs| ==> xs[k] in Knows(p, st)
  }

  /** A stage has the operands and the conditions of what it executes. */
  ghost predicate RunOk<V(!new)>(p: Pipeline<V>, st: nat, j: nat)
    requires st < |p.runs| && Sized(p.body)
  {
    && j < p.body.size && KnowsAll(p, st, p.body.controls[j])
    && forall k: nat :: k < |p.body.operands[j]| ==> p.body.operands[j][k].src in Knows(p, st)
  }

  /** A queue leads forward, from a stage that has the value, and both its stages know when it is used. */
  ghost predicate QueueOk<V(!new)>(p: Pipeline<V>, q: nat)
    requires q < |p.queues| && Sized(p.body)
  {
    var x := p.queues[q];
    && x.from < x.to < |p.runs| && x.producer < p.body.size && x.producer in Knows(p, x.from)
    && KnowsAll(p, x.from, p.body.controls[x.producer]) && KnowsAll(p, x.to, p.body.controls[x.producer])
  }

  /** Every stage learns the conditions under which the loop is left. */
  ghost predicate ExitKnown<V(!new)>(p: Pipeline<V>, st: nat, x: nat)
    requires st < |p.runs| && Sized(p.body) && x in p.body.exits
  {
    x < p.body.size && p.body.exits[x] in Knows(p, st) && KnowsAll(p, st, p.body.controls[x])
  }

  ghost predicate Wired<V(!new)>(p: Pipeline<V>) {
    && Valid(p.body) && 0 < |p.runs|
    && (forall st: nat, j: nat {:trigger RunOk(p, st, j)} {:trigger j in p.runs[st]} ::
          st < |p.runs| && j in p.runs[st] ==> RunOk(p, st, j))
    && (forall q: nat {:trigger QueueOk(p, q)} {:trigger p.queues[q]} :: q < |p.queues| ==> QueueOk(p, q))
    && (forall st: nat, x: nat {:trigger ExitKnown(p, st, x)} ::
          st < |p.runs| && x in p.body.exits ==> ExitKnown(p, st, x))
  }

  // ---------------------------------------------------------------- the code of a stage

  /** A position in the body, and an order for what happens there. */
  datatype Place = Place(pos: nat, kind: nat, queue: nat)

  ghost predicate Less(a: Place, b: Place) {
    a.pos < b.pos || (a.pos == b.pos && (a.kind < b.kind || (a.kind == b.kind && a.queue < b.queue)))
  }

  /** PHI nodes are not separated: what they compute is pushed after the last one of them. */
  function PushAt<V(!new)>(b: Body<V>, j: nat): nat
    requires j < |b.head|
  {
    if j < b.head[j] then b.head[j] - 1 else j
  }

  /**
   Pops come at the first instruction of the producer's block that is no PHI node.  A value
   that a stage popped itself is pushed on behind the pop.
   */
  function PlaceOf<V(!new)>(p: Pipeline<V>, o: Op): Place
    requires o.Pop? || o.Push? ==> o.queue < |p.queues| && p.queues[o.queue].producer < |p.body.head|
    requires o.Push? ==> p.queues[o.queue].from < |p.runs|
  {
    match o
    case Pop(q) => Place(p.body.head[p.queues[q].producer], 0, q)
    case Push(q) =>
      var j := p.queues[q].producer;
      if j in p.runs[p.queues[q].from] then Place(PushAt(p.body, j), 3, q) else Place(p.body.head[j], 1, q)
    case Work(j) => Place(j, 2, 0)
    case LeaveIf(x) => Place(x, 4, 0)
  }

  /** The operations of stage st. */
  ghost predicate Belongs<V(!new)>(p: Pipeline<V>, st: nat, o: Op)
    requires st < |p.runs|
  {
    match o
    case Pop(q) => q < |p.queues| && p.queues[q].to == st
    case Push(q) => q < |p.queues| && p.queues[q].from == st
    case Work(j) => j in p.runs[st]
    case LeaveIf(x) => x in p.body.exits
  }

  /** Operations on queues at one place of the body, in the order of the queues. */
  ghost function QueueOps<V(!new)>(p: Pipeline<V>, st: nat, pos: nat, kind: nat, k: nat): seq<Op>
    requires Wired(p) && st < |p.runs| && k <= |p.queues|
  {
    if k == 0 then [] else
    var o := if kind == 0 then Pop(k - 1) else Push(k - 1);
    assert QueueOk(p, k - 1);
    QueueOps(p, st, pos, kind, k - 1)
    + if Belongs(p, st, o) && PlaceOf(p, o) == Place(pos, kind, k - 1) then [o] else []
  }

  ghost function WorkAt<V(!new)>(p: Pipeline<V>, st: nat, pos: nat): seq<Op>
    requires st < |p.runs|
  {
    if pos in p.runs[st] then [Work(pos)] else []
  }

  ghost function LeaveAt<V(!new)>(p: Pipeline<V>, pos: nat): seq<Op> {
    if pos in p.body.exits then [LeaveIf(pos)] else []
  }

  /** What stage st does at one place of the body. */
  ghost function OpsAt<V(!new)>(p: Pipeline<V>, st: nat, pos: nat): seq<Op>
    requires Wired(p) && st < |p.runs|
  {
    QueueOps(p, st, pos, 0, |p.queues|) + QueueOps(p, st, pos, 1, |p.queues|) + WorkAt(p, st, pos)
    + QueueOps(p, st, pos, 3, |p.queues|) + LeaveAt(p, pos)
  }

  ghost function OpsUpTo<V(!new)>(p: Pipeline<V>, st: nat, pos: nat): seq<Op>
    requires Wired(p) && st < |p.runs|
  {
    if pos == 0 then [] else OpsUpTo(p, st, pos - 1) + OpsAt(p, st, pos - 1)
  }

  /** One iteration of stage st. */
  ghost function Ops<V(!new)>(p: Pipeline<V>, st: nat): seq<Op>
    requires Wired(p) && st < |p.runs|
  {
    OpsUpTo(p, st, p.body.size)
  }

  // ---------------------------------------------------------------- the code is in order

  ghost predicate Placed<V(!new)>(p: Pipeline<V>, st: nat, o: Op)
    requires Wired(p) && st < |p.runs|
  {
    Belongs(p, st, o) && (o.Pop? || o.Push? ==> QueueOk(p, o.queue))
  }

  ghost predicate Before<V(!new)>(p: Pipeline<V>, st: nat, a: Op, c: Op)
    requires Wired(p) && st < |p.runs|
  {
    Placed(p, st, a) && Placed(p, st, c) && Less(PlaceOf(p, a), PlaceOf(p, c))
  }

  ghost predicate Sorted<V(!new)>(p: Pipeline<V>, st: nat, ops: seq<Op>)
    requires Wired(p) && st < |p.runs|
  {
    && (forall k: nat :: k < |ops| ==> Placed(p, st, ops[k]))
    && forall k: nat, m: nat {:trigger Before(p, st, ops[k], ops[m])} :: k < m < |ops| ==> Before(p, st, ops[k], ops[m])
  }

  lemma SortedJoin<V(!new)>(p: Pipeline<V>, st: nat, a: seq<Op>, c: seq<Op>)
    requires Wired(p) && st < |p.runs| && Sorted(p, st, a) && Sorted(p, st, c)
    requires forall x, y :: x in a && y in c ==> Before(p, st, x, y)
    ensures Sorted(p, st, a + c)
  {
    var r := a + c;
    forall k: nat | k < |r| ensures Placed(p, st, r[k]) {}
    forall k: nat, m: nat | k < m < |r| ensures Before(p, st, r[k], r[m]) {
      if m < |a| { assert Before(p, st, a[k], a[m]); }
      else if k >= |a| { assert Before(p, st, c[k - |a|], c[m - |a|]); }
      else { assert r[k] in a && r[m] in c; }
    }
  }

  ghost predicate At<V(!new)>(p: Pipeline<V>, st: nat, o: Op, pos: nat, kind: nat)
    requires Wired(p) && st < |p.runs|
  {
    Placed(p, st, o) && PlaceOf(p, o).pos == pos && PlaceOf(p, o).kind == kind
  }

  /** ops are the operations of st at a place, in order. */
  ghost predicate Lists<V(!new)>(p: Pipeline<V>, st: nat, ops: seq<Op>, pos: nat, kind: nat)
    requires Wired(p) && st < |p.runs|
  {
    Sorted(p, st, ops) && forall o :: o in ops <==> At(p, st, o, pos, kind)
  }

  /** ops are the operations on the first k queues at a place, in order. */
  ghost predicate ListsQueues<V(!new)>(p: Pipeline<V>, st: nat, ops: seq<Op>, pos: nat, kind: nat, k: nat)
    requires Wired(p) && st < |p.runs|
  {
    && Sorted(p, st, ops)
    && forall o :: o in ops <==> At(p, st, o, pos, kind) && (o.Pop? || o.Push?) && o.queue < k
  }

  lemma OneMoreQueue<V(!new)>(p: Pipeline<V>, st: nat, ops: seq<Op>, pos: nat, kind: nat, k: nat, o: Op)
    requires Wired(p) && st < |p.runs| && ListsQueues(p, st, ops, pos, kind, k) && k < |p.queues|
    requires kind in {0, 1, 3} && o == if kind == 0 then Pop(k) else Push(k)
    ensures QueueOk(p, k)
    ensures ListsQueues(p, st,
              ops + if Belongs(p, st, o) && PlaceOf(p, o) == Place(pos, kind, k) then [o] else [], pos, kind, k + 1)
  {
    assert QueueOk(p, k);
    assert forall x :: At(p, st, x, pos, kind) && (x.Pop? || x.Push?) && x.queue == k ==> x == o;
    if At(p, st, o, pos, kind) {
      assert PlaceOf(p, o) == Place(pos, kind, k);
      forall x | x in ops ensures Before(p, st, x, o) {}
      SortedJoin(p, st, ops, [o]);
    } else {
      assert !(Belongs(p, st, o) && PlaceOf(p, o) == Place(pos, kind, k));
      assert ops + [] == ops;
    }
  }

  lemma QueueOpsUnfold<V(!new)>(p: Pipeline<V>, st: nat, pos: nat, kind: nat, k: nat)
    requires Wired(p) && st < |p.runs| && k < |p.queues|
    ensures QueueOk(p, k)
    ensures var o := if kind == 0 then Pop(k) else Push(k);
            QueueOps(p, st, pos, kind, k + 1)
            == QueueOps(p, st, pos, kind, k)
               + if Belongs(p, st, o) && PlaceOf(p, o) == Place(pos, kind, k) then [o] else []
  {
    assert QueueOk(p, k);
  }

  lemma {:induction false} QueueOpsHold<V(!new)>(p: Pipeline<V>, st: nat, pos: nat, kind: nat, k: nat)
    returns (ops: seq<Op>)
    requires Wired(p) && st < |p.runs| && k <= |p.queues| && kind in {0, 1, 3}
    ensures ops == QueueOps(p, st, pos, kind, k) && ListsQueues(p, st, ops, pos, kind, k)
  {
    ops := [];
    if k > 0 {
      var m := k - 1;
      var sofar := QueueOpsHold(p, st, pos, kind, m);
      var o := if kind == 0 then Pop(m) else Push(m);
      OneMoreQueue(p, st, sofar, pos, kind, m, o);
      ops := sofar + if Belongs(p, st, o) && PlaceOf(p, o) == Place(pos, kind, m) then [o] else [];
      QueueOpsUnfold(p, st, pos, kind, m);
    }
  }

  lemma QueueOpsList<V(!new)>(p: Pipeline<V>, st: nat, pos: nat, kind: nat)
    requires Wired(p) && st < |p.runs| && kind in {0, 1, 3}
    ensures Lists(p, st, QueueOps(p, st, pos, kind, |p.queues|), pos, kind)
  {
    var ops := QueueOpsHold(p, st, pos, kind, |p.queues|);
  }

  lemma WorkAndLeaveList<V(!new)>(p: Pipeline<V>, st: nat, pos: nat)
    requires Wired(p) && st < |p.runs|
    ensures Lists(p, st, WorkAt(p, st, pos), pos, 2) && Lists(p, st, LeaveAt(p, pos), pos, 4)
  {}

  ghost predicate ListsBelow<V(!new)>(p: Pipeline<V>, st: nat, ops: seq<Op>, pos: nat, kind: nat)
    requires Wired(p) && st < |p.runs|
  {
    && Sorted(p, st, ops)
    && forall o :: o in ops <==> Placed(p, st, o) && PlaceOf(p, o).pos == pos && PlaceOf(p, o).kind < kind
  }

  lemma ListsJoin<V(!new)>(p: Pipeline<V>, st: nat, a: seq<Op>, c: seq<Op>, pos: nat, kind: nat)
    requires Wired(p) && st < |p.runs| && ListsBelow(p, st, a, pos, kind) && Lists(p, st, c, pos, kind)
    ensures ListsBelow(p, st, a + c, pos, kind + 1)
  {
    SortedJoin(p, st, a, c);
  }

  lemma OpsAtHold<V(!new)>(p: Pipeline<V>, st: nat, pos: nat)
    requires Wired(p) && st < |p.runs|
    ensures ListsBelow(p, st, OpsAt(p, st, pos), pos, 5)
  {
    var n := |p.queues|;
    QueueOpsList(p, st, pos, 0);
    QueueOpsList(p, st, pos, 1);
    QueueOpsList(p, st, pos, 3);
    WorkAndLeaveList(p, st, pos);
    var a := QueueOps(p, st, pos, 0, n);
    ListsJoin(p, st, [], a, pos, 0);
    assert [] + a == a;
    ListsJoin(p, st, a, QueueOps(p, st, pos, 1, n), pos, 1);
    var c := a + QueueOps(p, st, pos, 1, n);
    ListsJoin(p, st, c, WorkAt(p, st, pos), pos, 2);
    var d := c + WorkAt(p, st, pos);
    ListsJoin(p, st, d, QueueOps(p, st, pos, 3, n), pos, 3);
    ListsJoin(p, st, d + QueueOps(p, st, pos, 3, n), LeaveAt(p, pos), pos, 4);
  }

  ghost predicate ListsUpTo<V(!new)>(p: Pipeline<V>, st: nat, ops: seq<Op>, pos: nat)
    requires Wired(p) && st < |p.runs|
  {
    Sorted(p, st, ops) && forall o :: o in ops <==> Placed(p, st, o) && PlaceOf(p, o).pos < pos
  }

  lemma NextPosition<V(!new)>(p: Pipeline<V>, st: nat, sofar: seq<Op>, more: seq<Op>, pos: nat)
    requires Wired(p) && st < |p.runs| && pos > 0
    requires ListsUpTo(p, st, sofar, pos - 1) && ListsBelow(p, st, more, pos - 1, 5)
    ensures ListsUpTo(p, st, sofar + more, pos)
  {
    forall x, y | x in sofar && y in more ensures Before(p, st, x, y) {}
    SortedJoin(p, st, sofar, more);
  }

  lemma OpsUpToUnfold<V(!new)>(p: Pipeline<V>, st: nat, pos: nat)
    requires Wired(p) && st < |p.runs| && pos > 0
    ensures OpsUpTo(p, st, pos) == OpsUpTo(p, st, pos - 1) + OpsAt(p, st, pos - 1)
  {}

  lemma {:induction false} OpsUpToHold<V(!new)>(p: Pipeline<V>, st: nat, pos: nat) returns (ops: seq<Op>)
    requires Wired(p) && st < |p.runs|
    ensures ops == OpsUpTo(p, st, pos) && ListsUpTo(p, st, ops, pos)
  {
    if pos == 0 {
      ops := [];
    } else {
      var sofar := OpsUpToHold(p, st, pos - 1);
      var more := OpsAt(p, st, pos - 1);
      OpsAtHold(p, st, pos - 1);
      NextPosition(p, st, sofar, more, pos);
      ops := sofar + more;
      OpsUpToUnfold(p, st, pos);
    }
  }

  /** ops are the operations of the stage, each once, in the order of their places. */
  ghost predicate InOrder<V(!new)>(p: Pipeline<V>, st: nat, ops: seq<Op>)
    requires Wired(p) && st < |p.runs|
  {
    Sorted(p, st, ops) && forall o :: o in ops <==> Placed(p, st, o)
  }

  lemma BelongsIsPlaced<V(!new)>(p: Pipeline<V>, st: nat, o: Op)
    requires Wired(p) && st < |p.runs| && Belongs(p, st, o)
    ensures Placed(p, st, o) && PlaceOf(p, o).pos < p.body.size
  {
    match o
    case Pop(q) => assert QueueOk(p, q) && ControlsOk(p.body, p.queues[q].producer);
    case Push(q) => assert QueueOk(p, q) && ControlsOk(p.body, p.queues[q].producer);
    case Work(j) => assert RunOk(p, st, j);
    case LeaveIf(x) => assert ExitOk(p.body, x);
  }

  lemma OpsAreInOrder<V(!new)>(p: Pipeline<V>, st: nat)
    requires Wired(p) && st < |p.runs|
    ensures InOrder(p, st, Ops(p, st))
  {
    var ops := OpsUpToHold(p, st, p.body.size);
    forall o | Placed(p, st, o) ensures PlaceOf(p, o).pos < p.body.size { BelongsIsPlaced(p, st, o); }
  }

  /** A pipeline whose stages have the code that is generated for them. */
  ghost predicate Connected<V(!new)>(p: Pipeline<V>) {
    && Wired(p) && |p.code| == |p.runs|
    && forall st: nat {:trigger p.code[st]} :: st < |p.runs| ==> InOrder(p, st, p.code[st])
  }

  /** The pipeline for a body, its stages and their queues. */
  ghost function Generate<V(!new)>(body: Body<V>, runs: seq<set<nat>>, queues: seq<Stages.Queue>): (p: Pipeline<V>)
    requires Wired(Pipeline(body, runs, queues, []))
    ensures p.body == body && p.runs == runs && p.queues == queues
  {
    var p := Pipeline(body, runs, queues, []);
    p.(code := seq(|runs|, st requires 0 <= st < |runs| => Ops(p, st)))
  }

  lemma GeneratedIsConnected<V(!new)>(body: Body<V>, runs: seq<set<nat>>, queues: seq<Stages.Queue>)
    requires Wired(Pipeline(body, runs, queues, []))
    ensures Connected(Generate(body, runs, queues))
  {
    var p, r := Pipeline(body, runs, queues, []), Generate(body, runs, queues);
    SameWires(p, r);
    forall st: nat | st < |runs| ensures InOrder(r, st, r.code[st]) {
      OpsAreInOrder(p, st);
      SameOrder(p, r, st, Ops(p, st));
    }
  }

  lemma SameWires<V(!new)>(p: Pipeline<V>, r: Pipeline<V>)
    requires Wired(p) && r == p.(code := r.code)
    ensures Wired(r)
  {
    forall st: nat, j: nat | st < |p.runs| && j in p.runs[st] ensures RunOk(r, st, j) { assert RunOk(p, st, j); }
    forall q: nat | q < |p.queues| ensures QueueOk(r, q) { assert QueueOk(p, q); }
    forall st: nat, x: nat | st < |p.runs| && x in p.body.exits ensures ExitKnown(r, st, x) {
      assert ExitKnown(p, st, x);
    }
  }

  lemma SameOrder<V(!new)>(p: Pipeline<V>, r: Pipeline<V>, st: nat, ops: seq<Op>)
    requires Wired(p) && Wired(r) && r == p.(code := r.code) && st < |p.runs| && InOrder(p, st, ops)
    ensures InOrder(r, st, ops)
  {
    forall o ensures Placed(r, st, o) <==> Placed(p, st, o) {
      if Belongs(p, st, o) {
        BelongsIsPlaced(p, st, o);
        BelongsIsPlaced(r, st, o);
      }
    }
    forall k: nat, m: nat | k < m < |ops| ensures Before(r, st, ops[k], ops[m]) {
      assert Before(p, st, ops[k], ops[m]);
    }
  }

  /** What comes before operation k is what has a smaller place. */
  lemma BeforeIff<V(!new)>(p: Pipeline<V>, st: nat, k: nat, o: Op)
    requires Connected(p) && st < |p.runs| && k < |p.code[st]| && Belongs(p, st, o)
    ensures Placed(p, st, o) && Placed(p, st, p.code[st][k])
    ensures o in p.code[st][..k] <==> Less(PlaceOf(p, o), PlaceOf(p, p.code[st][k]))
  {
    var ops := p.code[st];
    BelongsIsPlaced(p, st, o);
    assert InOrder(p, st, ops);
    var m: nat :| m < |ops| && ops[m] == o;
    if m < k {
      assert Before(p, st, ops[m], ops[k]);
      assert ops[..k][m] == o;
    } else {
      if m > k { assert Before(p, st, ops[k], ops[m]); }
      if o in ops[..k] {
        var n: nat :| n < k && ops[..k][n] == o;
        assert Before(p, st, ops[n], ops[k]);
      }
    }
  }

  /** Each operation has one position in the code. */
  lemma PositionOf<V(!new)>(p: Pipeline<V>, st: nat, o: Op) returns (k: nat)
    requires Connected(p) && st < |p.runs| && Belongs(p, st, o)
    ensures k < |p.code[st]| && p.code[st][k] == o
  {
    BelongsIsPlaced(p, st, o);
    assert InOrder(p, st, p.code[st]);
    k :| 0 <= k < |p.code[st]| && p.code[st][k] == o;
  }

  /** Work is done in program order, and a branch that leaves the loop comes after all that precedes it. */
  lemma CodeIsInProgramOrder<V(!new)>(p: Pipeline<V>, st: nat, k: nat, m: nat)
    requires Connected(p) && st < |p.runs| && k < m < |p.code[st]|
    ensures p.code[st][k].Work? && p.code[st][m].Work? ==> p.code[st][k].instruction < p.code[st][m].instruction
    ensures p.code[st][k].Work? && p.code[st][m].LeaveIf? ==> p.code[st][k].instruction <= p.code[st][m].branch
    ensures p.code[st][k].LeaveIf? && p.code[st][m].Work? ==> p.code[st][k].branch < p.code[st][m].instruction
    ensures p.code[st][k].LeaveIf? && p.code[st][m].LeaveIf? ==> p.code[st][k].branch < p.code[st][m].branch
  {
    assert InOrder(p, st, p.code[st]);
    assert Before(p, st, p.code[st][k], p.code[st][m]);
  }

  /** A pop stands behind the work on PHI nodes of the producer's block and before all that follows them. */
  lemma PopStartsBlock<V(!new)>(p: Pipeline<V>, st: nat, k: nat, i: nat)
    requires Connected(p) && st < |p.runs| && k < |p.code[st]| && p.code[st][k].Pop? && i in p.runs[st]
    ensures var q := p.code[st][k].queue;
            && q < |p.queues| && p.queues[q].producer < |p.body.head|
            && (Work(i) in p.code[st][..k] <==> i < p.body.head[p.queues[q].producer])
  {
    BeforeIff(p, st, k, Work(i));
  }

  /**
   A push follows production: nothing stands between them but other pushes of the value, or
   the remaining PHI nodes of the block if the value is one.
   */
  lemma PushFollowsProduction<V(!new)>(p: Pipeline<V>, st: nat, q: nat) returns (a: nat, b: nat)
    requires Connected(p) && st < |p.runs| && q < |p.queues| && p.queues[q].from == st
    requires p.queues[q].producer in p.runs[st]
    ensures QueueOk(p, q) && a < b < |p.code[st]|
    ensures p.code[st][a] == Work(p.queues[q].producer) && p.code[st][b] == Push(q)
    ensures forall k :: a < k < b && p.code[st][k].Work? ==>
              p.code[st][k].instruction < p.body.head[p.queues[q].producer]
    ensures p.body.head[p.queues[q].producer] <= p.queues[q].producer ==>
              forall k :: a < k < b ==> PushOf(p, p.code[st][k], p.queues[q].producer)
  {
    assert QueueOk(p, q);
    a := PositionOf(p, st, Work(p.queues[q].producer));
    b := PositionOf(p, st, Push(q));
    BeforeIff(p, st, b, Work(p.queues[q].producer));
    OneOccurrence(p, st, a, b);
    forall k | a < k < b
      ensures p.code[st][k].Work? ==> p.code[st][k].instruction < p.body.head[p.queues[q].producer]
      ensures p.body.head[p.queues[q].producer] <= p.queues[q].producer ==>
                PushOf(p, p.code[st][k], p.queues[q].producer)
    {
      BetweenPlaces(p, st, a, k, b);
      BetweenProductionAndPush(p, st, q, p.code[st][k]);
    }
  }

  /** A stage that pushes on what it popped does so before it goes on with the producer's block. */
  lemma ForwardFollowsPop<V(!new)>(p: Pipeline<V>, st: nat, q: nat) returns (r: nat, a: nat, b: nat)
    requires Connected(p) && st < |p.runs| && q < |p.queues| && p.queues[q].from == st
    requires p.queues[q].producer !in p.runs[st]
    ensures r < |p.queues| && p.queues[r].to == st && p.queues[r].producer == p.queues[q].producer
    ensures a < b < |p.code[st]| && p.code[st][a] == Pop(r) && p.code[st][b] == Push(q)
    ensures forall k :: a < k < b ==> p.code[st][k].Pop? || p.code[st][k].Push?
  {
    assert QueueOk(p, q);
    r :| r < |p.queues| && p.queues[r].to == st && p.queues[r].producer == p.queues[q].producer;
    a := PositionOf(p, st, Pop(r));
    b := PositionOf(p, st, Push(q));
    BeforeIff(p, st, b, Pop(r));
    OneOccurrence(p, st, a, b);
    forall k | a < k < b ensures p.code[st][k].Pop? || p.code[st][k].Push? { BetweenPlaces(p, st, a, k, b); }
  }

  ghost predicate PushOf<V(!new)>(p: Pipeline<V>, o: Op, x: nat) {
    o.Push? && o.queue < |p.queues| && p.queues[o.queue].producer == x
  }

  lemma OneOccurrence<V(!new)>(p: Pipeline<V>, st: nat, a: nat, b: nat)
    requires Connected(p) && st < |p.runs| && a < |p.code[st]| && b < |p.code[st]|
    requires p.code[st][a] in p.code[st][..b]
    ensures a < b
  {
    assert InOrder(p, st, p.code[st]);
    forall k: nat, m: nat | k < m < |p.code[st]| ensures p.code[st][k] != p.code[st][m] {
      assert Before(p, st, p.code[st][k], p.code[st][m]);
    }
    var k: nat :| k < b && p.code[st][..b][k] == p.code[st][a];
  }

  lemma BetweenPlaces<V(!new)>(p: Pipeline<V>, st: nat, a: nat, k: nat, b: nat)
    requires Connected(p) && st < |p.runs| && a < k < b < |p.code[st]|
    ensures Before(p, st, p.code[st][a], p.code[st][k]) && Before(p, st, p.code[st][k], p.code[st][b])
  {
    assert InOrder(p, st, p.code[st]);
  }

  lemma BetweenProductionAndPush<V(!new)>(p: Pipeline<V>, st: nat, q: nat, o: Op)
    requires Connected(p) && st < |p.runs| && q < |p.queues| && p.queues[q].from == st
    requires p.queues[q].producer in p.runs[st] && QueueOk(p, q)
    requires Before(p, st, Work(p.queues[q].producer), o) && Before(p, st, o, Push(q))
    ensures o.Work? ==> o.instruction < p.body.head[p.queues[q].producer]
    ensures p.body.head[p.queues[q].producer] <= p.queues[q].producer ==> PushOf(p, o, p.queues[q].producer)
  {
    if o.Push? {
      assert QueueOk(p, o.queue);
      assert HeadOk(p.body, p.queues[o.queue].producer);
    }
  }

  /** Stage st has this iteration's value of x after its first k operations. */
  ghost predicate IsDone<V(!new)>(p: Pipeline<V>, ops: seq<Op>, k: nat, x: nat)
    requires k <= |ops|
  {
    || Work(x) in ops[..k]
    || exists q: nat :: q < |p.queues| && p.queues[q].producer == x && Pop(q) in ops[..k]
  }

  lemma DoneBefore<V(!new)>(p: Pipeline<V>, st: nat, k: nat, x: nat)
    requires Connected(p) && st < |p.runs| && k < |p.code[st]| && x in Knows(p, st) && x < p.body.size
    requires Placed(p, st, p.code[st][k])
    requires var at := PlaceOf(p, p.code[st][k]);
             && (x in p.runs[st] ==> x < at.pos || (x == at.pos && at.kind > 2))
             && (x !in p.runs[st] ==> p.body.head[x] < at.pos || (p.body.head[x] == at.pos && at.kind > 0))
    ensures IsDone(p, p.code[st], k, x)
  {
    if x in p.runs[st] {
      BeforeIff(p, st, k, Work(x));
    } else {
      var q: nat :| q < |p.queues| && p.queues[q].to == st && p.queues[q].producer == x;
      BeforeIff(p, st, k, Pop(q));
    }
  }

  /** The conditions around j are known before a place in or after j's block. */
  lemma ControlsDone<V(!new)>(p: Pipeline<V>, st: nat, k: nat, j: nat)
    requires Connected(p) && st < |p.runs| && k < |p.code[st]| && j < p.body.size && KnowsAll(p, st, p.body.controls[j])
    requires Placed(p, st, p.code[st][k])
    requires var at := PlaceOf(p, p.code[st][k]); at.pos == p.body.head[j] || (at.pos >= j && at.kind > 0)
    ensures forall i: nat :: i < |p.body.controls[j]| ==>
              p.body.controls[j][i] < p.body.size && IsDone(p, p.code[st], k, p.body.controls[j][i])
  {
    assert ControlsOk(p.body, j);
    forall i: nat | i < |p.body.controls[j]|
      ensures p.body.controls[j][i] < p.body.size && IsDone(p, p.code[st], k, p.body.controls[j][i])
    {
      assert Precedes(p.body, p.body.controls[j][i], j);
      DoneBefore(p, st, k, p.body.controls[j][i]);
    }
  }

  // ---------------------------------------------------------------- the machine

  /** A stage: its iteration, its next operation, its variables, and whether it has left the loop. */
  datatype Stage<V> = Stage(iter: nat, pc: nat, env: Env<V>, left: bool)

  datatype State<V> = State(stages: seq<Stage<V>>, queues: seq<seq<V>>)

  ghost predicate Shaped<V(!new)>(p: Pipeline<V>, s: State<V>) {
    && Connected(p) && |s.stages| == |p.runs| && |s.queues| == |p.queues|
    && forall st: nat :: st < |p.runs| ==> s.stages[st].pc <= |p.code[st]| && Fits(p.body, s.stages[st].env)
  }

  /** Is the value of queue q used in this iteration, as far as the stage knows? */
  ghost predicate Used<V(!new)>(p: Pipeline<V>, q: nat, e: Env<V>)
    requires Connected(p) && q < |p.queues| && Fits(p.body, e)
  {
    assert QueueOk(p, q) && ControlsOk(p.body, p.queues[q].producer);
    Reached(p.body, p.queues[q].producer, e)
  }

  /** A pop waits until its queue has a value. */
  ghost predicate Enabled<V(!new)>(p: Pipeline<V>, s: State<V>, st: nat)
    requires Shaped(p, s) && st < |p.runs|
  {
    var x := s.stages[st];
    assert InOrder(p, st, p.code[st]);
    && !x.left
    && (x.pc < |p.code[st]| && p.code[st][x.pc].Pop? ==>
          assert Placed(p, st, p.code[st][x.pc]);
          var q := p.code[st][x.pc].queue;
          Used(p, q, x.env) ==> s.queues[q] != [])
  }

  /** Stage x after operation o, with value v if it is a pop. */
  ghost function After<V(!new)>(p: Pipeline<V>, st: nat, x: Stage<V>, o: Op, incoming: seq<V>): (r: Stage<V>)
    requires Connected(p) && st < |p.runs| && Placed(p, st, o) && Fits(p.body, x.env) && !x.left
    requires o.Pop? && Used(p, o.queue, x.env) ==> incoming != []
    ensures Fits(p.body, r.env) && r.env.prev == x.env.prev
    ensures r.iter == x.iter && if r.left then r.pc == x.pc else r.pc == x.pc + 1
  {
    match o
    case Pop(q) =>
      assert QueueOk(p, q);
      var j := p.queues[q].producer;
      x.(pc := x.pc + 1, env := if Used(p, q, x.env) then x.env.(cur := x.env.cur[j := incoming[0]]) else x.env)
    case Push(q) => x.(pc := x.pc + 1)
    case Work(j) => assert RunOk(p, st, j); x.(pc := x.pc + 1, env := Exec(p.body, j, x.iter == 0, x.env))
    case LeaveIf(b) => if Leaves(p.body, b, x.env) then x.(left := true) else x.(pc := x.pc + 1)
  }

  /** The queues after operation o of a stage with variables e. */
  ghost function Moved<V(!new)>(p: Pipeline<V>, o: Op, e: Env<V>, queues: seq<seq<V>>): (r: seq<seq<V>>)
    requires Connected(p) && |queues| == |p.queues| && Fits(p.body, e)
    requires o.Pop? || o.Push? ==> o.queue < |p.queues|
    requires o.Pop? && Used(p, o.queue, e) ==> queues[o.queue] != []
    ensures |r| == |queues|
  {
    match o
    case Pop(q) => if Used(p, q, e) then queues[q := queues[q][1..]] else queues
    case Push(q) =>
      assert QueueOk(p, q);
      if Used(p, q, e) then queues[q := queues[q] + [e.cur[p.queues[q].producer]]] else queues
    case _ => queues
  }

  ghost function NextIteration<V>(x: Stage<V>): Stage<V> {
    Stage(x.iter + 1, 0, Env(x.env.cur, x.env.cur), x.left)
  }

  /** One operation of stage st, or the branch back to the header. */
  ghost function StepOf<V(!new)>(p: Pipeline<V>, s: State<V>, st: nat): (r: State<V>)
    requires Shaped(p, s) && st < |p.runs| && Enabled(p, s, st)
    ensures Shaped(p, r)
  {
    var x := s.stages[st];
    if x.pc == |p.code[st]| then
      s.(stages := s.stages[st := NextIteration(x)])
    else
      var o := p.code[st][x.pc];
      assert InOrder(p, st, p.code[st]) && Placed(p, st, o);
      var incoming := if o.Pop? then s.queues[o.queue] else [];
      State(s.stages[st := After(p, st, x, o, incoming)], Moved(p, o, x.env, s.queues))
  }

  ghost function Init<V(!new)>(p: Pipeline<V>): State<V> {
    State(seq(|p.runs|, (st: int) => Stage(0, 0, Env(p.body.init, p.body.init), false)),
        seq(|p.queues|, (q: int) => []))
  }

  ghost predicate NextState<V(!new)>(p: Pipeline<V>, s: State<V>, s': State<V>) {
    Shaped(p, s) && exists st: nat :: st < |p.runs| && Enabled(p, s, st) && s' == StepOf(p, s, st)
  }

  ghost predicate IsRun<V(!new)>(p: Pipeline<V>, run: seq<State<V>>) {
    && |run| > 0
    && run[0] == Init(p)
    && forall k :: 0 <= k < |run| - 1 ==> NextState(p, run[k], run[k + 1])
  }

  ghost predicate AllLeft<V(!new)>(p: Pipeline<V>, s: State<V>) {
    Shaped(p, s) && forall st: nat :: st < |p.runs| ==> s.stages[st].left
  }
}
