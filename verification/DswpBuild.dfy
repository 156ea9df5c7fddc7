/**
 From the compiler's data structures to a correct pipeline: the stages, clones and queues
 that DSWP derives from the dependence graph of a loop body give every stage all it needs,
 so the pipeline computes what the body computes.
 */
module DswpBuild {
  import opened Digraph
  import opened DswpBody
  import opened DswpStages
  import Pipe = DswpPipeline
  import Runs = DswpDeterminism

  /** A body, its dependence graph, and what was derived from it. */
  datatype Plan<!V(!new)> = Plan(
    body: Body<V>, dag: Dag, sccOf: map<nat, nat>, branches: map<nat, Branch>,
    where: map<nat, nat>, stages: seq<set<nat>>, clones: seq<set<nat>>, queues: seq<Queue>)

  // ---------------------------------------------------------------- what the dependence graph says of the body

  /** The graph has a data dependence of SCC `scc` on this instruction. */
  ghost predicate HasDep(dag: Dag, scc: nat, src: nat, producer: nat)
    requires dag.Valid() && scc in dag.nodes
  {
    exists k: nat, d: nat ::
      && k < |dag.incoming[scc]| && d < |dag.incoming[scc][k].deps| && dag.incoming[scc][k].src == src
      && dag.incoming[scc][k].deps[d].producer == producer && !dag.incoming[scc][k].deps[d].control
  }

  /** c is in a's SCC or in one that depends on it. */
  ghost predicate Feeds(dag: Dag, sccOf: map<nat, nat>, a: nat, c: nat)
    requires dag.Valid()
  {
    a in sccOf && c in sccOf && sccOf[a] in dag.nodes && (sccOf[a] == sccOf[c] || dag.Source(sccOf[a], sccOf[c]))
  }

  ghost predicate Located<V(!new)>(b: Body<V>, dag: Dag, sccOf: map<nat, nat>) {
    forall j: nat :: j < b.size ==> j in sccOf && sccOf[j] in dag.nodes
  }

  /** Operands from other SCCs are data dependences, those carried around the loop included. */
  ghost predicate OperandsDescribed<V(!new)>(b: Body<V>, dag: Dag, sccOf: map<nat, nat>, j: nat)
    requires Sized(b) && j < b.size && dag.Valid() && Located(b, dag, sccOf)
  {
    forall k: nat :: k < |b.operands[j]| ==>
      var r := b.operands[j][k].src;
      r < b.size && (sccOf[r] == sccOf[j] || HasDep(dag, sccOf[j], sccOf[r], r))
  }

  /** A condition around j belongs to a branch on which j's SCC depends. */
  ghost predicate ControlsDescribed<V(!new)>(
    b: Body<V>, dag: Dag, sccOf: map<nat, nat>, branches: map<nat, Branch>, j: nat)
    requires Sized(b) && j < b.size && dag.Valid()
  {
    forall k: nat :: k < |b.controls[j]| ==> Controlled(dag, sccOf, branches, b.controls[j][k], j)
  }

  ghost predicate Controlled(dag: Dag, sccOf: map<nat, nat>, branches: map<nat, Branch>, condition: nat, j: nat)
    requires dag.Valid()
  {
    exists x :: x in branches && branches[x].condition == condition && Feeds(dag, sccOf, x, j)
  }

  /** A branch reads its condition. */
  ghost predicate BranchDescribed<V(!new)>(b: Body<V>, branches: map<nat, Branch>, x: nat)
    requires Sized(b) && x in branches
  {
    x < b.size && exists k: nat :: k < |b.operands[x]| && b.operands[x][k].src == branches[x].condition
  }

  ghost predicate DepsDescribed<V(!new)>(b: Body<V>, dag: Dag, sccOf: map<nat, nat>, scc: nat)
    requires dag.Valid() && scc in dag.nodes
  {
    forall k: nat, d: nat ::
      k < |dag.incoming[scc]| && d < |dag.incoming[scc][k].deps| && !dag.incoming[scc][k].deps[d].control ==>
      var x := dag.incoming[scc][k].deps[d].producer;
      x < b.size && x in sccOf && sccOf[x] == dag.incoming[scc][k].src
  }

  /** The graph and the branches are those of the body. */
  ghost predicate Describes<V(!new)>(b: Body<V>, dag: Dag, sccOf: map<nat, nat>, branches: map<nat, Branch>) {
    && Valid(b) && dag.Valid() && BranchesOk(dag, sccOf, branches) && Located(b, dag, sccOf)
    && (forall j: nat
          {:trigger OperandsDescribed(b, dag, sccOf, j)} {:trigger ControlsDescribed(b, dag, sccOf, branches, j)} ::
          j < b.size ==> OperandsDescribed(b, dag, sccOf, j) && ControlsDescribed(b, dag, sccOf, branches, j))
    && (forall x {:trigger BranchDescribed(b, branches, x)} :: x in branches ==> BranchDescribed(b, branches, x))
    && (forall scc {:trigger DepsDescribed(b, dag, sccOf, scc)} :: scc in dag.nodes ==>
        DepsDescribed(b, dag, sccOf, scc))
    && (forall x {:trigger x in b.exits} :: x in b.exits ==>
          x in branches && branches[x].condition == b.exits[x] && branches[x].leaves)
  }

  /** s is in the stage, or something there depends on it. */
  ghost predicate Serves(dag: Dag, stage: set<nat>, s: nat)
    requires dag.Valid()
  {
    s in stage || dag.Ancestor(s, stage)
  }

  /** Every stage depends on every branch that can leave the loop. */
  ghost predicate LeavesControlAll(dag: Dag, stages: seq<set<nat>>, sccOf: map<nat, nat>, branches: map<nat, Branch>)
    requires dag.Valid() && BranchesOk(dag, sccOf, branches)
  {
    forall x, t: nat {:trigger Serves(dag, stages[t], sccOf[x])} ::
      x in branches && branches[x].leaves && t < |stages| ==>
      Serves(dag, stages[t], sccOf[x])
  }

  ghost predicate Sound<V(!new)>(n: Plan<V>) {
    && Describes(n.body, n.dag, n.sccOf, n.branches) && n.stages != []
    && StagesFit(n.dag, n.where, n.stages, n.clones) && Topological(n.dag, n.where)
    && QueuesFit(n.dag, n.where, n.stages, n.clones, n.sccOf, n.branches, n.queues)
    && LeavesControlAll(n.dag, n.stages, n.sccOf, n.branches)
  }

  // ---------------------------------------------------------------- the pipeline of a plan

  /** Each stage runs the instructions of its own and of its cloned SCCs. */
  ghost function RunsOf(
    size: nat, sccOf: map<nat, nat>, stages: seq<set<nat>>, clones: seq<set<nat>>): (r: seq<set<nat>>)
    requires |clones| == |stages|
    ensures |r| == |stages|
    ensures forall t: nat, j: nat {:trigger j in r[t]} :: t < |r| ==>
              (j in r[t] <==> j < size && j in sccOf && sccOf[j] in stages[t] + clones[t])
  {
    seq(|stages|, t requires 0 <= t < |stages| =>
      set j: nat | j < size && j in sccOf && sccOf[j] in stages[t] + clones[t])
  }

  ghost function Wires<V(!new)>(n: Plan<V>): (p: Pipe.Pipeline<V>)
    requires |n.clones| == |n.stages|
  {
    Pipe.Pipeline(n.body, RunsOf(n.body.size, n.sccOf, n.stages, n.clones), n.queues, [])
  }

  lemma RunsServe<V(!new)>(n: Plan<V>, t: nat, j: nat)
    requires Sound(n) && t < |n.stages| && j in Wires(n).runs[t]
    ensures j < n.body.size && Serves(n.dag, n.stages[t], n.sccOf[j])
  {
    assert StageOk(n.dag, n.where, n.stages[t], n.clones[t], t);
  }

  lemma FeedsServes(dag: Dag, sccOf: map<nat, nat>, stage: set<nat>, a: nat, c: nat)
    requires dag.Valid() && Feeds(dag, sccOf, a, c) && Serves(dag, stage, sccOf[c])
    ensures Serves(dag, stage, sccOf[a])
  {
    if sccOf[a] != sccOf[c] {
      if sccOf[c] in stage { DirectAncestor(dag, sccOf[a], sccOf[c], stage); }
      else { FurtherAncestor(dag, sccOf[a], sccOf[c], stage); }
    }
  }

  lemma ServedIsKnown<V(!new)>(n: Plan<V>, t: nat, x: nat, from: nat, consumer: nat)
    requires Sound(n) && t < |n.stages| && Served(n.queues, Key(x, from, t), consumer)
    ensures x in Pipe.Knows(Wires(n), t)
  {
    var q: nat :| q < |n.queues| && KeyOf(n.queues[q]) == Key(x, from, t) && consumer in n.queues[q].consumers;
  }

  /** What a stage runs there or clones it knows, and so it does with what comes through a queue. */
  lemma OperandKnown<V(!new)>(n: Plan<V>, t: nat, j: nat, k: nat)
    requires Sound(n) && t < |n.stages| && j in Wires(n).runs[t] && j < n.body.size && k < |n.body.operands[j]|
    ensures n.body.operands[j][k].src in Pipe.Knows(Wires(n), t)
  {
    assert OperandsDescribed(n.body, n.dag, n.sccOf, j);
    var r := n.body.operands[j][k].src;
    if n.sccOf[r] != n.sccOf[j] {
      var e: nat, d: nat :|
        e < |n.dag.incoming[n.sccOf[j]]| && d < |n.dag.incoming[n.sccOf[j]][e].deps|
        && n.dag.incoming[n.sccOf[j]][e].src == n.sccOf[r]
        && n.dag.incoming[n.sccOf[j]][e].deps[d].producer == r && !n.dag.incoming[n.sccOf[j]][e].deps[d].control;
      DependenceKnown(n, t, n.sccOf[j], e, d);
    }
  }

  lemma DependenceKnown<V(!new)>(n: Plan<V>, t: nat, scc: nat, e: nat, d: nat)
    requires Sound(n) && t < |n.stages| && scc in n.stages[t] + n.clones[t] && scc in n.dag.nodes
    requires e < |n.dag.incoming[scc]| && d < |n.dag.incoming[scc][e].deps| && !n.dag.incoming[scc][e].deps[d].control
    ensures n.dag.incoming[scc][e].deps[d].producer in Pipe.Knows(Wires(n), t)
  {
    assert StageOk(n.dag, n.where, n.stages[t], n.clones[t], t);
    assert DepsDescribed(n.body, n.dag, n.sccOf, scc);
    var x := n.dag.incoming[scc][e];
    forall y | y in n.stages[t] + n.clones[t] ensures AllServed(n.dag, n.where, y, t, n.queues) {}
    StagesAreSelfContained(n.dag, n.where, n.stages[t], n.clones[t], t, n.queues, scc, e, d);
    if x.src !in n.dag.clonable && n.where[x.src] != t {
      ServedIsKnown(n, t, x.deps[d].producer, n.where[x.src], x.deps[d].consumer);
    }
  }

  /** A stage that depends on a branch knows the branch's condition. */
  lemma ConditionKnown<V(!new)>(n: Plan<V>, t: nat, x: nat)
    requires Sound(n) && t < |n.stages| && x in n.branches && Serves(n.dag, n.stages[t], n.sccOf[x])
    ensures n.branches[x].condition in Pipe.Knows(Wires(n), t)
  {
    assert StageOk(n.dag, n.where, n.stages[t], n.clones[t], t);
    assert BranchDescribed(n.body, n.branches, x);
    var s := n.sccOf[x];
    if s in n.dag.clonable || n.where[s] == t {
      assert x in Wires(n).runs[t];
      var k: nat :| k < |n.body.operands[x]| && n.body.operands[x][k].src == n.branches[x].condition;
      OperandKnown(n, t, x, k);
    } else {
      AncestorIsDependence(n, s, t);
      assert ConditionServed(n.dag, n.where, n.sccOf, n.branches, |n.stages|, n.queues, x);
      assert NeedsCondition(n.dag, n.where, n.sccOf, n.branches, x, t);
      ServedIsKnown(n, t, n.branches[x].condition, n.where[s], x);
    }
  }

  lemma AncestorIsDependence<V(!new)>(n: Plan<V>, s: nat, t: nat)
    requires Sound(n) && t < |n.stages|
    ensures n.dag.Ancestor(s, n.stages[t]) <==> Depends(n.dag, n.where, s, t)
  {
    assert StageOk(n.dag, n.where, n.stages[t], n.clones[t], t);
    if n.dag.Ancestor(s, n.stages[t]) {
      var p: seq<nat> :| n.dag.LeadsTo(p, n.stages[t]) && p[0] == s;
      PathReaches(n.dag.Edges(), p, 0, |p| - 1);
    }
    if Depends(n.dag, n.where, s, t) {
      var r :| r in n.dag.nodes && r !in n.dag.clonable && n.where[r] == t && Reach(n.dag.Edges(), s, r);
      var p: seq<nat> :| Path(n.dag.Edges(), p) && |p| >= 2 && p[0] == s && p[|p| - 1] == r;
      assert n.dag.LeadsTo(p, n.stages[t]);
    }
  }

  /** A stage that depends on j's SCC knows when j executes. */
  lemma ControlsKnown<V(!new)>(n: Plan<V>, t: nat, j: nat)
    requires Sound(n) && t < |n.stages| && j < n.body.size && Serves(n.dag, n.stages[t], n.sccOf[j])
    ensures Pipe.KnowsAll(Wires(n), t, n.body.controls[j])
  {
    assert ControlsDescribed(n.body, n.dag, n.sccOf, n.branches, j);
    forall k: nat | k < |n.body.controls[j]| ensures n.body.controls[j][k] in Pipe.Knows(Wires(n), t) {
      assert Controlled(n.dag, n.sccOf, n.branches, n.body.controls[j][k], j);
      var x :| x in n.branches && n.branches[x].condition == n.body.controls[j][k] && Feeds(n.dag, n.sccOf, x, j);
      FeedsServes(n.dag, n.sccOf, n.stages[t], x, j);
      ConditionKnown(n, t, x);
    }
  }

  lemma StageRuns<V(!new)>(n: Plan<V>, t: nat, j: nat)
    requires Sound(n) && t < |n.stages| && j in Wires(n).runs[t]
    ensures Pipe.RunOk(Wires(n), t, j)
  {
    RunsServe(n, t, j);
    ControlsKnown(n, t, j);
    forall k: nat | k < |n.body.operands[j]| ensures n.body.operands[j][k].src in Pipe.Knows(Wires(n), t) {
      OperandKnown(n, t, j, k);
    }
  }

  /** Both ends of a queue that carries a dependence. */
  lemma DataQueueOk<V(!new)>(n: Plan<V>, q: nat)
    requires Sound(n) && q < |n.queues| && n.queues[q].from < n.queues[q].to
    requires NeededSomewhere(n.dag, n.where, n.stages, n.clones, KeyOf(n.queues[q]))
    ensures Pipe.QueueOk(Wires(n), q)
  {
    var key := KeyOf(n.queues[q]);
    var t: nat, scc :| t < |n.stages| && scc in n.stages[t] + n.clones[t] && NeededFor(n.dag, n.where, scc, t, key);
    var e: nat, d: nat :| NeedsQueue(n.dag, n.where, scc, t, e, d)
      && key == Key(n.dag.incoming[scc][e].deps[d].producer, n.where[n.dag.incoming[scc][e].src], t);
    assert StageOk(n.dag, n.where, n.stages[t], n.clones[t], t) && DepsDescribed(n.body, n.dag, n.sccOf, scc);
    var src := n.dag.incoming[scc][e].src;
    assert n.dag.Source(src, scc);
    if scc in n.stages[t] { DirectAncestor(n.dag, src, scc, n.stages[t]); }
    else { FurtherAncestor(n.dag, src, scc, n.stages[t]); }
    ControlsKnown(n, t, key.producer);
    ControlsKnown(n, key.from, key.producer);
  }

  /** Both ends of a queue that carries a condition: the sender may itself have received it. */
  lemma ConditionQueueOk<V(!new)>(n: Plan<V>, q: nat)
    requires Sound(n) && q < |n.queues| && n.queues[q].from < n.queues[q].to
    requires ConditionFor(n.dag, n.where, n.sccOf, n.branches, |n.stages|, KeyOf(n.queues[q]))
    ensures Pipe.QueueOk(Wires(n), q)
  {
    var key := KeyOf(n.queues[q]);
    var x :| NeedsCondition(n.dag, n.where, n.sccOf, n.branches, x, key.to)
             && key == Key(n.branches[x].condition, n.where[n.sccOf[x]], key.to);
    AncestorIsDependence(n, n.sccOf[x], key.to);
    assert Serves(n.dag, n.stages[key.to], n.sccOf[x]) && Serves(n.dag, n.stages[key.from], n.sccOf[x]);
    ConditionKnown(n, key.from, x);
    ConditionFeeds(n, x);
    FeedsServes(n.dag, n.sccOf, n.stages[key.from], key.producer, x);
    FeedsServes(n.dag, n.sccOf, n.stages[key.to], key.producer, x);
    ControlsKnown(n, key.from, key.producer);
    ControlsKnown(n, key.to, key.producer);
  }

  lemma ConditionFeeds<V(!new)>(n: Plan<V>, x: nat)
    requires Sound(n) && x in n.branches
    ensures n.branches[x].condition < n.body.size && Feeds(n.dag, n.sccOf, n.branches[x].condition, x)
  {
    assert BranchDescribed(n.body, n.branches, x);
    assert OperandsDescribed(n.body, n.dag, n.sccOf, x);
    var k: nat :| k < |n.body.operands[x]| && n.body.operands[x][k].src == n.branches[x].condition;
    var c := n.branches[x].condition;
    if n.sccOf[c] != n.sccOf[x] {
      assert HasDep(n.dag, n.sccOf[x], n.sccOf[c], c);
      assert n.dag.Source(n.sccOf[c], n.sccOf[x]);
    }
  }

  lemma ExitIsKnown<V(!new)>(n: Plan<V>, t: nat, x: nat)
    requires Sound(n) && t < |n.stages| && x in n.body.exits
    ensures Pipe.ExitKnown(Wires(n), t, x)
  {
    assert ExitOk(n.body, x);
    assert Serves(n.dag, n.stages[t], n.sccOf[x]);
    ConditionKnown(n, t, x);
    ControlsKnown(n, t, x);
  }

  /** As every stage depends on the branches that leave the loop, those are decided in the first stage. */
  lemma DecidedFirst<V(!new)>(n: Plan<V>)
    requires Sound(n)
    ensures ExitsDecidedFirst(n.dag, n.where, n.sccOf, n.branches) && Forward(n.queues)
  {
    forall x | x in n.branches && n.branches[x].leaves && n.sccOf[x] !in n.dag.clonable
      ensures n.where[n.sccOf[x]] == 0 {
      assert Serves(n.dag, n.stages[0], n.sccOf[x]);
      assert StageOk(n.dag, n.where, n.stages[0], n.clones[0], 0);
      AncestorIsDependence(n, n.sccOf[x], 0);
      if n.sccOf[x] !in n.stages[0] { ConditionGoesForward(n.dag, n.where, n.sccOf[x], 0); }
    }
    AllQueuesForwardIff(n.dag, n.where, n.stages, n.clones, n.sccOf, n.branches, n.queues);
  }

  /** Every stage of the plan gets all it needs, from itself or from earlier stages. */
  lemma PlanIsWired<V(!new)>(n: Plan<V>)
    requires Sound(n)
    ensures Pipe.Wired(Wires(n))
  {
    var p := Wires(n);
    DecidedFirst(n);
    forall t: nat, j: nat | t < |p.runs| && j in p.runs[t] ensures Pipe.RunOk(p, t, j) { StageRuns(n, t, j); }
    forall q: nat | q < |p.queues| ensures Pipe.QueueOk(p, q) {
      assert n.queues[q] in n.queues && KeyOf(n.queues[q]) in Keys(n.queues);
      if NeededSomewhere(n.dag, n.where, n.stages, n.clones, KeyOf(n.queues[q])) { DataQueueOk(n, q); }
      else { ConditionQueueOk(n, q); }
    }
    forall t: nat, x: nat | t < |p.runs| && x in p.body.exits ensures Pipe.ExitKnown(p, t, x) { ExitIsKnown(n, t, x); }
  }

  /** The pipeline that DSWP generates for a plan. */
  ghost function PipelineOf<V(!new)>(n: Plan<V>): (p: Pipe.Pipeline<V>)
    requires Sound(n)
    ensures p.body == n.body && p.queues == n.queues && p.runs == RunsOf(n.body.size, n.sccOf, n.stages, n.clones)
  {
    PlanIsWired(n);
    Pipe.Generate(n.body, RunsOf(n.body.size, n.sccOf, n.stages, n.clones), n.queues)
  }

  /** Whatever the schedule, the pipeline runs on until all stages have left; if the loop ends, within a bound. */
  lemma PipelineRunsOn<V(!new)>(n: Plan<V>, run: seq<Pipe.State<V>>)
    requires Sound(n) && Pipe.IsRun(PipelineOf(n), run)
    ensures var p, s := PipelineOf(n), run[|run| - 1];
            && Pipe.Connected(p) && Pipe.Shaped(p, s)
            && (Pipe.AllLeft(p, s) || exists r :: Pipe.NextState(p, s, r))
            && forall last: nat, exit: nat :: EndsAt(n.body, last, exit) ==>
                 |run| - 1 <= Runs.Limit(Runs.Sizes(p), last)
  {
    var p, k := PipelineOf(n), |run| - 1;
    PlanIsWired(n);
    Pipe.GeneratedIsConnected(n.body, p.runs, n.queues);
    Runs.NoDeadlock(p, run, k);
    Runs.RunKeepsInv(p, run, k);
    forall last: nat, exit: nat | EndsAt(n.body, last, exit) ensures k <= Runs.Limit(Runs.Sizes(p), last) {
      Runs.RunsAreBounded(p, last, exit, run, k);
    }
  }

  /**
   When all stages have left, every instruction that is not cloned has, in the stage it was
   given to, the value with which the loop ends, and the queues are empty.
   */
  lemma PipelineComputesLoop<V(!new)>(n: Plan<V>, run: seq<Pipe.State<V>>) returns (last: nat, exit: nat)
    requires Sound(n) && Pipe.IsRun(PipelineOf(n), run) && Pipe.AllLeft(PipelineOf(n), run[|run| - 1])
    ensures EndsAt(n.body, last, exit) && exit < n.body.size
    ensures var s := run[|run| - 1];
            && (forall j: nat :: j < n.body.size && n.sccOf[j] !in n.dag.clonable ==>
                  s.stages[n.where[n.sccOf[j]]].env.cur[j] == Orig(n.body, last, exit + 1).cur[j])
            && (forall q: nat :: q < |n.queues| ==> s.queues[q] == [])
  {
    var p, k := PipelineOf(n), |run| - 1;
    last, exit := Runs.EndsSequentially(p, run, k);
    forall j: nat | j < n.body.size && n.sccOf[j] !in n.dag.clonable
      ensures run[k].stages[n.where[n.sccOf[j]]].env.cur[j] == Orig(n.body, last, exit + 1).cur[j]
    {
      assert j in p.runs[n.where[n.sccOf[j]]];
      assert j in Pipe.Knows(p, n.where[n.sccOf[j]]);
    }
  }

  /** The compiler's steps end in a sound plan, and so in a pipeline that computes the loop. */
  method Parallelize<V(!new)>(
    body: Body<V>, dag: Dag, depthOrdered: seq<set<nat>>, sccOf: map<nat, nat>, branches: map<nat, Branch>)
    returns (d: Dswp, ghost plan: Plan<V>)
    requires Describes(body, dag, sccOf, branches)
    requires depthOrdered != [] && Partitioned(dag, depthOrdered) && InStageOrder(dag, depthOrdered)
    requires LeavesControlAll(dag, depthOrdered, sccOf, branches)
    ensures plan == Plan(body, dag, sccOf, branches, d.sccToStage, d.stageSCCs, d.clonableSCCs, d.queues)
    ensures d.Valid() && d.stageSCCs == depthOrdered && Sound(plan) && Forward(d.queues)
  {
    d := Assemble(dag, depthOrdered, sccOf, branches);
    plan := Plan(body, dag, sccOf, branches, d.sccToStage, d.stageSCCs, d.clonableSCCs, d.queues);
    DecidedFirst(plan);
  }
}
