/**
 How DSWP builds its pipeline: stages from the partition of the SCCDAG, the clonable SCCs
 each stage replicates, and the registry of the queues that connect stages.
 */
module DswpStages {
  import opened Digraph

  /** A dependence between two instructions; control dependences do not get data queues. */
  datatype Dep = Dep(producer: nat, consumer: nat, control: bool)

  datatype Edge = Edge(src: nat, deps: seq<Dep>)

  /** The SCCDAG, with the edges that come into each SCC. */
  datatype Dag = Dag(nodes: set<nat>, incoming: map<nat, seq<Edge>>, clonable: set<nat>) {
    ghost predicate Valid() {
      && incoming.Keys == nodes
      && clonable <= nodes
      && forall n, k: nat :: n in nodes && k < |incoming[n]| ==> incoming[n][k].src in nodes
    }

    /** The dependences between SCCs, from the one depended on. */
    ghost function Edges(): (e: set<(nat, nat)>)
      requires Valid()
      ensures forall a, n ::
                (a, n) in e <==> n in nodes && exists k: nat :: k < |incoming[n]| && incoming[n][k].src == a
    {
      set n, k: nat | n in nodes && k < |incoming[n]| :: (incoming[n][k].src, n)
    }

    ghost predicate Source(a: nat, n: nat)
      requires Valid()
    {
      (a, n) in Edges()
    }

    /** p leads from its first SCC, along dependences, to an SCC of `stage`. */
    ghost predicate LeadsTo(p: seq<nat>, stage: set<nat>)
      requires Valid()
    {
      Path(Edges(), p) && |p| >= 2 && p[|p| - 1] in stage
    }

    /** Something in `stage` depends, directly or not, on a. */
    ghost predicate Ancestor(a: nat, stage: set<nat>)
      requires Valid()
    {
      exists p: seq<nat> :: LeadsTo(p, stage) && p[0] == a
    }
  }

  /** A queue carries `producer` from one stage to another; `consumers` read it there. */
  datatype Queue = Queue(producer: nat, consumers: set<nat>, from: nat, to: nat)

  datatype Key = Key(producer: nat, from: nat, to: nat)

  /** A conditional branch: its condition, and whether it can leave the loop. */
  datatype Branch = Branch(condition: nat, leaves: bool)

  lemma DirectAncestor(dag: Dag, a: nat, n: nat, stage: set<nat>)
    requires dag.Valid() && dag.Source(a, n) && n in stage
    ensures dag.Ancestor(a, stage)
  {
    assert dag.LeadsTo([a, n], stage);
  }

  lemma FurtherAncestor(dag: Dag, a: nat, n: nat, stage: set<nat>)
    requires dag.Valid() && dag.Source(a, n) && dag.Ancestor(n, stage)
    ensures dag.Ancestor(a, stage)
  {
    var p: seq<nat> :| dag.LeadsTo(p, stage) && p[0] == n;
    PrependSource(dag, a, p);
    assert dag.LeadsTo([a] + p, stage);
  }

  lemma PrependSource(dag: Dag, a: nat, p: seq<nat>)
    requires dag.Valid() && |p| > 0 && dag.Source(a, p[0]) && Path(dag.Edges(), p)
    ensures Path(dag.Edges(), [a] + p)
  {
    assert Path(dag.Edges(), [a, p[0]]);
    Join(dag.Edges(), [a, p[0]], p);
    assert [a, p[0]] + p[1..] == [a] + p;
  }

  /** A set closed under sources holds every ancestor. */
  lemma {:induction false} ClosedHoldsAncestors(dag: Dag, stage: set<nat>, closed: set<nat>, p: seq<nat>)
    requires dag.Valid() && dag.LeadsTo(p, stage)
    requires forall a, n :: n in stage + closed && dag.Source(a, n) ==> a in closed
    ensures p[0] in closed
    decreases |p|
  {
    assert (p[0], p[0 + 1]) in dag.Edges() && dag.Source(p[0], p[1]);
    if |p| > 2 {
      SubPath(dag.Edges(), p, 1, |p|);
      ClosedHoldsAncestors(dag, stage, closed, p[1..]);
    }
  }

  ghost function KeyOf(q: Queue): Key {
    Key(q.producer, q.from, q.to)
  }

  ghost function Keys(queues: seq<Queue>): set<Key> {
    set q | q in queues :: KeyOf(q)
  }

  /** No two queues carry the same value between the same stages. */
  ghost predicate UniqueQueues(queues: seq<Queue>) {
    forall q: nat, r: nat :: q < r < |queues| ==> KeyOf(queues[q]) != KeyOf(queues[r])
  }

  /** Queues are only added to, and their consumers only grow. */
  ghost predicate Extends(before: seq<Queue>, after: seq<Queue>) {
    && |before| <= |after|
    && forall q: nat :: q < |before| ==>
         KeyOf(after[q]) == KeyOf(before[q]) && before[q].consumers <= after[q].consumers
  }

  /** Where each SCC that cannot be cloned runs. */
  ghost predicate Placed(dag: Dag, where: map<nat, nat>)
    requires dag.Valid()
  {
    forall scc :: scc in dag.nodes && scc !in dag.clonable ==> scc in where
  }

  /** Dependence d of edge k into scc needs a queue into stage t. */
  ghost predicate NeedsQueue(dag: Dag, where: map<nat, nat>, scc: nat, t: nat, k: nat, d: nat)
    requires dag.Valid() && Placed(dag, where) && scc in dag.nodes
  {
    && k < |dag.incoming[scc]| && d < |dag.incoming[scc][k].deps|
    && !dag.incoming[scc][k].deps[d].control
    && dag.incoming[scc][k].src !in dag.clonable
    && where[dag.incoming[scc][k].src] != t
  }

  ghost predicate NeededFor(dag: Dag, where: map<nat, nat>, scc: nat, t: nat, key: Key)
    requires dag.Valid() && Placed(dag, where) && scc in dag.nodes
  {
    exists k: nat, d: nat ::
      NeedsQueue(dag, where, scc, t, k, d)
      && key == Key(dag.incoming[scc][k].deps[d].producer, where[dag.incoming[scc][k].src], t)
  }

  /** The same for one consumer: it is the target of a dependence that needs this queue. */
  ghost predicate NeededBy(dag: Dag, where: map<nat, nat>, scc: nat, t: nat, key: Key, consumer: nat)
    requires dag.Valid() && Placed(dag, where) && scc in dag.nodes
  {
    exists k: nat, d: nat ::
      NeedsQueue(dag, where, scc, t, k, d)
      && key == Key(dag.incoming[scc][k].deps[d].producer, where[dag.incoming[scc][k].src], t)
      && consumer == dag.incoming[scc][k].deps[d].consumer
  }

  /** Some queue with this key has this consumer. */
  ghost predicate Served(queues: seq<Queue>, key: Key, consumer: nat) {
    exists q: nat :: q < |queues| && KeyOf(queues[q]) == key && consumer in queues[q].consumers
  }

  /** The queue for key is as it was with one more consumer, or new with just this one; all others are as they were. */
  ghost predicate Registered(before: seq<Queue>, after: seq<Queue>, key: Key, consumer: nat) {
    exists index: nat :: index <= |before| && RegisteredAt(before, after, key, consumer, index)
  }

  ghost predicate RegisteredAt(before: seq<Queue>, after: seq<Queue>, key: Key, consumer: nat, index: nat)
    requires index <= |before|
  {
    if index == |before| then
      key !in Keys(before) && after == before + [Queue(key.producer, {consumer}, key.from, key.to)]
    else
      && KeyOf(before[index]) == key
      && after == before[index := Queue(key.producer, before[index].consumers + {consumer}, key.from, key.to)]
  }

  /** One more consumer for one key, and nothing else. */
  lemma RegisteredServes(before: seq<Queue>, after: seq<Queue>, key: Key, consumer: nat)
    requires Registered(before, after, key, consumer)
    ensures forall k, x :: Served(after, k, x) <==> Served(before, k, x) || (k == key && x == consumer)
  {
    var index: nat :| index <= |before| && RegisteredAt(before, after, key, consumer, index);
    assert KeyOf(after[index]) == key && consumer in after[index].consumers;
    forall k, x ensures Served(after, k, x) <==> Served(before, k, x) || (k == key && x == consumer) {
      if Served(before, k, x) {
        var q: nat :| q < |before| && KeyOf(before[q]) == k && x in before[q].consumers;
        assert KeyOf(after[q]) == k && x in after[q].consumers;
      }
      if Served(after, k, x) {
        var q: nat :| q < |after| && KeyOf(after[q]) == k && x in after[q].consumers;
        if q != index { assert KeyOf(before[q]) == k && x in before[q].consumers; }
      }
    }
  }

  lemma ServedStays(before: seq<Queue>, after: seq<Queue>, key: Key, consumer: nat)
    requires Extends(before, after) && Served(before, key, consumer)
    ensures Served(after, key, consumer)
  {
    var q: nat :| q < |before| && KeyOf(before[q]) == key && consumer in before[q].consumers;
    assert KeyOf(after[q]) == key;
  }

  /** Every dependence into scc that needs a queue into stage t has one that knows its consumer. */
  ghost predicate AllServed(dag: Dag, where: map<nat, nat>, scc: nat, t: nat, queues: seq<Queue>)
    requires dag.Valid() && Placed(dag, where) && scc in dag.nodes
  {
    forall k: nat, d: nat :: NeedsQueue(dag, where, scc, t, k, d) ==>
      var e := dag.incoming[scc][k];
      Served(queues, Key(e.deps[d].producer, where[e.src], t), e.deps[d].consumer)
  }

  lemma AllServedStays(dag: Dag, where: map<nat, nat>, scc: nat, t: nat, before: seq<Queue>, after: seq<Queue>)
    requires dag.Valid() && Placed(dag, where) && scc in dag.nodes
    requires AllServed(dag, where, scc, t, before) && Extends(before, after)
    ensures AllServed(dag, where, scc, t, after)
  {
    forall k: nat, d: nat | NeedsQueue(dag, where, scc, t, k, d)
      ensures var e := dag.incoming[scc][k];
              Served(after, Key(e.deps[d].producer, where[e.src], t), e.deps[d].consumer)
    {
      var e := dag.incoming[scc][k];
      ServedStays(before, after, Key(e.deps[d].producer, where[e.src], t), e.deps[d].consumer);
    }
  }

  /** Something that runs in stage t depends, directly or not, on scc. */
  ghost predicate Depends(dag: Dag, where: map<nat, nat>, scc: nat, t: nat)
    requires dag.Valid() && Placed(dag, where)
  {
    exists s :: s in dag.nodes && s !in dag.clonable && where[s] == t && Reach(dag.Edges(), scc, s)
  }

  ghost predicate BranchesOk(dag: Dag, sccOf: map<nat, nat>, branches: map<nat, Branch>)
    requires dag.Valid()
  {
    forall b :: b in branches ==>
      && b in sccOf && sccOf[b] in dag.nodes
      && (sccOf[b] !in dag.clonable ==> branches[b].condition in sccOf && sccOf[branches[b].condition] !in dag.clonable)
  }

  /** Stage t must be told the condition of branch b. */
  ghost predicate NeedsCondition(
    dag: Dag, where: map<nat, nat>, sccOf: map<nat, nat>, branches: map<nat, Branch>, b: nat, t: nat)
    requires dag.Valid() && Placed(dag, where) && BranchesOk(dag, sccOf, branches)
  {
    && b in branches && sccOf[b] !in dag.clonable && t != where[sccOf[b]]
    && (branches[b].leaves || Depends(dag, where, sccOf[b], t))
  }

  ghost predicate ConditionFor(
    dag: Dag, where: map<nat, nat>, sccOf: map<nat, nat>, branches: map<nat, Branch>, stages: nat, key: Key)
    requires dag.Valid() && Placed(dag, where) && BranchesOk(dag, sccOf, branches)
  {
    && key.to < stages
    && exists b :: NeedsCondition(dag, where, sccOf, branches, b, key.to)
                   && key == Key(branches[b].condition, where[sccOf[b]], key.to)
  }

  /** consumer is a branch whose condition stage key.to must be told. */
  ghost predicate ConditionConsumer(
    dag: Dag, where: map<nat, nat>, sccOf: map<nat, nat>, branches: map<nat, Branch>, stages: nat, key: Key,
    consumer: nat)
    requires dag.Valid() && Placed(dag, where) && BranchesOk(dag, sccOf, branches)
  {
    && key.to < stages && NeedsCondition(dag, where, sccOf, branches, consumer, key.to)
    && key == Key(branches[consumer].condition, where[sccOf[consumer]], key.to)
  }

  /** The condition of branch b is sent to every stage that needs it. */
  ghost predicate ConditionServed(
    dag: Dag, where: map<nat, nat>, sccOf: map<nat, nat>, branches: map<nat, Branch>, stages: nat,
    queues: seq<Queue>, b: nat)
    requires dag.Valid() && Placed(dag, where) && BranchesOk(dag, sccOf, branches)
  {
    forall t: nat :: t < stages && NeedsCondition(dag, where, sccOf, branches, b, t) ==>
      Served(queues, Key(branches[b].condition, where[sccOf[b]], t), b)
  }

  lemma ConditionServedStays(
    dag: Dag, where: map<nat, nat>, sccOf: map<nat, nat>, branches: map<nat, Branch>, stages: nat,
    before: seq<Queue>, after: seq<Queue>, b: nat)
    requires dag.Valid() && Placed(dag, where) && BranchesOk(dag, sccOf, branches)
    requires ConditionServed(dag, where, sccOf, branches, stages, before, b) && Extends(before, after)
    ensures ConditionServed(dag, where, sccOf, branches, stages, after, b)
  {
    forall t: nat | t < stages && NeedsCondition(dag, where, sccOf, branches, b, t)
      ensures Served(after, Key(branches[b].condition, where[sccOf[b]], t), b)
    {
      ServedStays(before, after, Key(branches[b].condition, where[sccOf[b]], t), b);
    }
  }

  ghost predicate Forward(queues: seq<Queue>) {
    forall q: nat :: q < |queues| ==> queues[q].from < queues[q].to
  }

  /** The clonable SCCs a stage replicates are those its own SCCs depend on. */
  ghost predicate Clones(dag: Dag, stage: set<nat>, clones: set<nat>)
    requires dag.Valid()
  {
    forall scc {:trigger scc in clones} {:trigger dag.Ancestor(scc, stage)} ::
      scc in clones <==> scc in dag.clonable && dag.Ancestor(scc, stage)
  }

  class Dswp {
    const dag: Dag
    var stageSCCs: seq<set<nat>>
    var clonableSCCs: seq<set<nat>>
    var sccToStage: map<nat, nat>
    var queues: seq<Queue>
    var producerToQueues: seq<map<nat, set<nat>>>
    var pushQueues: seq<set<nat>>
    var popQueues: seq<set<nat>>
    var producedPopQueue: seq<map<nat, nat>>

    /** Every queue is filed with the stages it connects. */
    static ghost predicate Filed(
      stages: nat, queues: seq<Queue>, ofProducer: seq<map<nat, set<nat>>>,
      push: seq<set<nat>>, pop: seq<set<nat>>, popOf: seq<map<nat, nat>>)
    {
      && |ofProducer| == |push| == |pop| == |popOf| == stages
      && (forall q: nat :: q < |queues| ==> queues[q].from < stages && queues[q].to < stages)
      && (forall t: nat :: t < stages ==> push[t] == Pushes(queues, t) && pop[t] == Pops(queues, t))
      && (forall t: nat, i: nat :: t < stages ==> Listed(ofProducer[t], i) == Producing(queues, t, i))
      && (forall t: nat, i: nat :: t < stages ==> PopFiled(queues, popOf[t], t, i))
    }

    static ghost function Pushes(queues: seq<Queue>, t: nat): set<nat> {
      set q: nat | q < |queues| && queues[q].from == t
    }

    static ghost function Pops(queues: seq<Queue>, t: nat): set<nat> {
      set q: nat | q < |queues| && queues[q].to == t
    }

    static ghost function Producing(queues: seq<Queue>, t: nat, i: nat): set<nat> {
      set q: nat | q < |queues| && queues[q].from == t && queues[q].producer == i
    }

    static function Listed(files: map<nat, set<nat>>, i: nat): set<nat> {
      if i in files then files[i] else {}
    }

    /** The values that arrive in stage t are found in the queue that brings them. */
    static ghost predicate PopFiled(queues: seq<Queue>, popOf: map<nat, nat>, t: nat, i: nat) {
      && (i in popOf ==> popOf[i] < |queues| && queues[popOf[i]].to == t && queues[popOf[i]].producer == i)
      && (forall q: nat :: q < |queues| && queues[q].to == t && queues[q].producer == i ==> i in popOf)
    }

    ghost predicate Valid()
      reads this
    {
      && dag.Valid() && |clonableSCCs| == |stageSCCs|
      && (forall scc :: scc in sccToStage ==> sccToStage[scc] < |stageSCCs| && scc in stageSCCs[sccToStage[scc]])
      && Filed(|stageSCCs|, queues, producerToQueues, pushQueues, popQueues, producedPopQueue)
      && UniqueQueues(queues)
    }

    /** One stage per set of the partition, in the partitioner's order. */
    constructor (dag: Dag, depthOrdered: seq<set<nat>>)
      requires dag.Valid()
      ensures Valid() && this.dag == dag && stageSCCs == depthOrdered && queues == []
      ensures forall t: nat :: t < |depthOrdered| ==> clonableSCCs[t] == {}
      ensures (forall t: nat, u: nat :: t < u < |depthOrdered| ==> depthOrdered[t] !! depthOrdered[u]) ==>
                forall t: nat, scc :: t < |depthOrdered| && scc in depthOrdered[t] ==>
                  scc in sccToStage && sccToStage[scc] == t
      ensures sccToStage.Keys == set t: nat, scc | t < |depthOrdered| && scc in depthOrdered[t] :: scc
    {
      this.dag := dag;
      this.queues := [];
      var n := |depthOrdered|;
      this.stageSCCs := depthOrdered;
      this.clonableSCCs := seq(n, _ => {});
      this.producerToQueues := seq(n, _ => map[]);
      this.pushQueues := seq(n, _ => {});
      this.popQueues := seq(n, _ => {});
      this.producedPopQueue := seq(n, _ => map[]);
      var where: map<nat, nat> := map[];
      for t := 0 to n
        invariant where.Keys == set u: nat, scc | u < t && scc in depthOrdered[u] :: scc
        invariant forall scc :: scc in where ==> where[scc] < t && scc in depthOrdered[where[scc]]
      {
        where := where + map scc | scc in depthOrdered[t] :: t;
      }
      this.sccToStage := where;
    }

    /** Breadth-first walk over the dependences of each stage, against their direction. */
    method AddClonableSCCsToStages()
      requires Valid() && forall t: nat :: t < |stageSCCs| ==> stageSCCs[t] <= dag.nodes && clonableSCCs[t] == {}
      modifies this`clonableSCCs
      ensures Valid()
      ensures forall t: nat :: t < |stageSCCs| ==> Clones(dag, stageSCCs[t], clonableSCCs[t])
    {
      for t := 0 to |stageSCCs|
        invariant |clonableSCCs| == |stageSCCs|
        invariant forall u: nat :: u < t ==> Clones(dag, stageSCCs[u], clonableSCCs[u])
        invariant forall u: nat :: t <= u < |stageSCCs| ==> clonableSCCs[u] == {}
      {
        var clones := CloneAncestors(stageSCCs[t]);
        clonableSCCs := clonableSCCs[t := clones];
      }
    }

    method CloneAncestors(stage: set<nat>) returns (clones: set<nat>)
      requires dag.Valid() && stage <= dag.nodes
      ensures Clones(dag, stage, clones)
    {
      clones := {};
      var visited: set<nat> := {};
      var queue: seq<nat> := [];
      var toPush := stage;
      while toPush != {}
        invariant toPush <= stage
        invariant forall n :: n in queue ==> n in stage
        invariant forall n :: n in stage ==> n in toPush || n in queue
      {
        var scc :| scc in toPush;
        toPush := toPush - {scc};
        queue := queue + [scc];
      }
      ghost var expanded: set<nat> := {};
      while queue != []
        invariant visited <= dag.nodes && clones == visited * dag.clonable
        invariant Frontier(stage, visited, expanded, queue)
        invariant forall n :: n in visited ==> dag.Ancestor(n, stage)
        invariant forall a, n :: n in expanded && dag.Source(a, n) ==> a in visited
        decreases dag.nodes - visited, |queue|
      {
        var n := queue[0];
        ghost var before := visited;
        assert n in stage + visited;
        ghost var waiting := queue;
        assert forall m :: m in waiting <==> m == n || m in queue[1..];
        visited, queue, clones := VisitSources(n, stage, visited, queue[1..], clones);
        expanded := expanded + {n};
        if visited != before { assert dag.nodes - visited < dag.nodes - before; }
      }
      forall scc | scc in dag.clonable && dag.Ancestor(scc, stage) ensures scc in clones {
        var p: seq<nat> :| dag.LeadsTo(p, stage) && p[0] == scc;
        ClosedHoldsAncestors(dag, stage, visited, p);
      }
    }

    /** What is known of the walk: the nodes met are those expanded and those still queued. */
    static ghost predicate Frontier(stage: set<nat>, visited: set<nat>, expanded: set<nat>, queue: seq<nat>) {
      forall n :: n in stage + visited <==> n in queue || n in expanded
    }

    /** Visit the sources of n that were not met before; enqueue them and note the clonable ones. */
    method VisitSources(n: nat, stage: set<nat>, visited: set<nat>, queue: seq<nat>, clones: set<nat>)
      returns (visited': set<nat>, queue': seq<nat>, clones': set<nat>)
      requires dag.Valid() && n in dag.nodes && visited <= dag.nodes && clones == visited * dag.clonable
      requires n in stage || dag.Ancestor(n, stage)
      requires forall m :: m in visited ==> dag.Ancestor(m, stage)
      ensures visited <= visited' <= dag.nodes && clones' == visited' * dag.clonable
      ensures forall m :: m in visited' ==> dag.Ancestor(m, stage)
      ensures forall a :: dag.Source(a, n) ==> a in visited'
      ensures visited' == visited ==> queue' == queue
      ensures forall m :: m in queue' <==> m in queue || m in visited' - visited
    {
      visited', queue', clones' := visited, queue, clones;
      var edges := dag.incoming[n];
      for k := 0 to |edges|
        invariant visited <= visited' <= dag.nodes && clones' == visited' * dag.clonable
        invariant forall m :: m in visited' ==> dag.Ancestor(m, stage)
        invariant forall j: nat :: j < k ==> edges[j].src in visited'
        invariant visited' == visited ==> queue' == queue
        invariant forall m :: m in queue' <==> m in queue || m in visited' - visited
      {
        var src := edges[k].src;
        if src !in visited' {
          assert dag.Source(src, n);
          if n in stage { DirectAncestor(dag, src, n, stage); } else { FurtherAncestor(dag, src, n, stage); }
          if src in dag.clonable {
            clones' := clones' + {src};
          }
          queue' := queue' + [src];
          visited' := visited' + {src};
        }
      }
    }

    /** The index of the queue that carries `producer` between these stages, or one past the last queue. */
    method FindQueue(from: nat, to: nat, producer: nat) returns (index: nat)
      requires Valid() && from < |stageSCCs| && to < |stageSCCs|
      ensures index <= |queues|
      ensures index < |queues| ==> KeyOf(queues[index]) == Key(producer, from, to)
      ensures index == |queues| ==> Key(producer, from, to) !in Keys(queues)
    {
      var known := Listed(producerToQueues[from], producer);
      assert known == Producing(queues, from, producer);
      index := |queues|;
      var todo := known;
      while todo != {} && index == |queues|
        invariant todo <= known
        invariant index == |queues| ==> forall q :: q in known - todo ==> queues[q].to != to
        invariant index < |queues| ==> index in known && queues[index].to == to
        invariant index <= |queues|
      {
        var q: nat :| q in todo;
        todo := todo - {q};
        if queues[q].to == to {
          index := q;
        }
      }
    }

    /** A new queue, filed with both its stages. */
    static lemma FiledNew(
      stages: nat, queues: seq<Queue>, ofProducer: seq<map<nat, set<nat>>>,
      push: seq<set<nat>>, pop: seq<set<nat>>, popOf: seq<map<nat, nat>>, x: Queue, files: map<nat, set<nat>>,
      pops: map<nat, nat>)
      requires Filed(stages, queues, ofProducer, push, pop, popOf) && x.from < stages && x.to < stages
      requires files == ofProducer[x.from][x.producer := Listed(ofProducer[x.from], x.producer) + {|queues|}]
      requires pops == popOf[x.to][x.producer := |queues|]
      ensures Filed(stages, queues + [x], ofProducer[x.from := files],
                    push[x.from := push[x.from] + {|queues|}], pop[x.to := pop[x.to] + {|queues|}], popOf[x.to := pops])
    {
      var qs, of', po := queues + [x], ofProducer[x.from := files], popOf[x.to := pops];
      forall t: nat | t < stages
        ensures Pushes(qs, t) == Pushes(queues, t) + if t == x.from then {|queues|} else {}
        ensures Pops(qs, t) == Pops(queues, t) + if t == x.to then {|queues|} else {}
      {}
      forall t: nat, i: nat | t < stages
        ensures Listed(of'[t], i) == Producing(qs, t, i) && PopFiled(qs, po[t], t, i)
      {
        assert Listed(ofProducer[t], i) == Producing(queues, t, i) && PopFiled(queues, popOf[t], t, i);
      }
    }

    /** A known queue with another consumer. */
    static lemma FiledAgain(
      stages: nat, queues: seq<Queue>, ofProducer: seq<map<nat, set<nat>>>,
      push: seq<set<nat>>, pop: seq<set<nat>>, popOf: seq<map<nat, nat>>, q: nat, x: Queue, pops: map<nat, nat>)
      requires Filed(stages, queues, ofProducer, push, pop, popOf) && q < |queues| && KeyOf(queues[q]) == KeyOf(x)
      requires pops == popOf[x.to][x.producer := q]
      ensures Filed(stages, queues[q := x], ofProducer,
                    push[x.from := push[x.from] + {q}], pop[x.to := pop[x.to] + {q}], popOf[x.to := pops])
    {
      var qs, po := queues[q := x], popOf[x.to := pops];
      forall t: nat | t < stages
        ensures Pushes(qs, t) == Pushes(queues, t) && Pops(qs, t) == Pops(queues, t)
      {}
      assert q in Pushes(queues, x.from) && q in Pops(queues, x.to);
      forall t: nat, i: nat | t < stages
        ensures Listed(ofProducer[t], i) == Producing(qs, t, i) && PopFiled(qs, po[t], t, i)
      {
        assert Listed(ofProducer[t], i) == Producing(queues, t, i) && PopFiled(queues, popOf[t], t, i);
        assert Producing(qs, t, i) == Producing(queues, t, i);
      }
    }

    /** Stage key.to finds the value in the queue for key; nothing else has changed. */
    static ghost predicate PoppedFrom(
      before: seq<map<nat, nat>>, after: seq<map<nat, nat>>, queues: seq<Queue>, key: Key)
    {
      exists index: nat :: index < |queues| && KeyOf(queues[index]) == key && PoppedAt(before, after, key, index)
    }

    static ghost predicate PoppedAt(before: seq<map<nat, nat>>, after: seq<map<nat, nat>>, key: Key, index: nat) {
      && key.to < |before| == |after| && after[key.to] == before[key.to][key.producer := index]
      && forall t: nat :: t < |before| && t != key.to ==> after[t] == before[t]
    }

    /**
     Find the queue that already carries `producer` between these stages, or create it, and
     file it with both stages.
     */
    method RegisterQueue(from: nat, to: nat, producer: nat, consumer: nat)
      requires Valid() && from < |stageSCCs| && to < |stageSCCs|
      modifies this`queues, this`producerToQueues, this`pushQueues, this`popQueues, this`producedPopQueue
      ensures Valid() && Extends(old(queues), queues)
      ensures Keys(queues) == Keys(old(queues)) + {Key(producer, from, to)}
      ensures Served(queues, Key(producer, from, to), consumer)
      ensures Registered(old(queues), queues, Key(producer, from, to), consumer)
      // in stage `to` the value is now found in this queue
      ensures PoppedFrom(old(producedPopQueue), producedPopQueue, queues, Key(producer, from, to))
    {
      var index := FindQueue(from, to, producer);
      ghost var before := queues;
      var popOf: map<nat, nat> := producedPopQueue[to][producer := index];
      if index == |queues| {
        var x := Queue(producer, {consumer}, from, to);
        var filed := Listed(producerToQueues[from], producer) + {index};
        var files: map<nat, set<nat>> := producerToQueues[from][producer := filed];
        FiledNew(|stageSCCs|, queues, producerToQueues, pushQueues, popQueues, producedPopQueue, x, files, popOf);
        queues := queues + [x];
        producerToQueues := producerToQueues[from := files];
      } else {
        var x := Queue(producer, queues[index].consumers + {consumer}, from, to);
        FiledAgain(|stageSCCs|, queues, producerToQueues, pushQueues, popQueues, producedPopQueue, index, x, popOf);
        queues := queues[index := x];
      }
      pushQueues := pushQueues[from := pushQueues[from] + {index}];
      popQueues := popQueues[to := popQueues[to] + {index}];
      producedPopQueue := producedPopQueue[to := popOf];
      assert RegisteredAt(before, queues, Key(producer, from, to), consumer, index);
      assert PoppedAt(old(producedPopQueue), producedPopQueue, Key(producer, from, to), index);
      KeysAfter(before, queues, index, Key(producer, from, to));
      UniqueAfter(before, queues, index, Key(producer, from, to));
    }

    static lemma UniqueAfter(before: seq<Queue>, after: seq<Queue>, index: nat, key: Key)
      requires Extends(before, after) && UniqueQueues(before) && index < |after| && KeyOf(after[index]) == key
      requires |after| == |before| || (|after| == |before| + 1 && index == |before| && key !in Keys(before))
      ensures UniqueQueues(after)
    {
      forall q: nat, r: nat | q < r < |after| ensures KeyOf(after[q]) != KeyOf(after[r]) {
        if r < |before| { assert KeyOf(before[q]) != KeyOf(before[r]); } else { assert before[q] in before; }
      }
    }

    static lemma KeysAfter(before: seq<Queue>, after: seq<Queue>, index: nat, key: Key)
      requires Extends(before, after) && index < |after| && KeyOf(after[index]) == key
      requires |after| == |before| || (|after| == |before| + 1 && index == |before|)
      ensures Keys(after) == Keys(before) + {key}
    {
      forall k | k in Keys(before) ensures k in Keys(after) {
        var x :| x in before && KeyOf(x) == k;
        var q: nat :| q < |before| && before[q] == x;
        assert after[q] in after;
      }
      forall k | k in Keys(after) ensures k in Keys(before) || k == key {
        var x :| x in after && KeyOf(x) == k;
        var q: nat :| q < |after| && after[q] == x;
        if q < |before| { assert before[q] in before; }
      }
      assert after[index] in after;
    }

    /** Queues for the dependences of one edge into stage t. */
    method CollectQueuesOfEdge(scc: nat, t: nat, k: nat)
      requires Valid() && Placed(dag, sccToStage) && scc in dag.nodes && t < |stageSCCs|
      requires k < |dag.incoming[scc]|
      modifies this`queues, this`producerToQueues, this`pushQueues, this`popQueues, this`producedPopQueue
      ensures Valid() && Extends(old(queues), queues)
      ensures forall d: nat :: NeedsQueue(dag, sccToStage, scc, t, k, d) ==>
                var e := dag.incoming[scc][k];
                Served(queues, Key(e.deps[d].producer, sccToStage[e.src], t), e.deps[d].consumer)
      ensures forall key :: key in Keys(queues) ==> key in Keys(old(queues)) || NeededFor(dag, sccToStage, scc, t, key)
      ensures forall key, x :: Served(queues, key, x) ==>
                Served(old(queues), key, x) || NeededBy(dag, sccToStage, scc, t, key, x)
    {
      var e := dag.incoming[scc][k];
      if e.src in dag.clonable {
        return;
      }
      var from := sccToStage[e.src];
      if from == t {
        return;
      }
      for d := 0 to |e.deps|
        invariant Valid() && Extends(old(queues), queues)
        invariant forall j: nat :: j < d && NeedsQueue(dag, sccToStage, scc, t, k, j) ==>
                    Served(queues, Key(e.deps[j].producer, from, t), e.deps[j].consumer)
        invariant forall key :: key in Keys(queues) ==>
                  key in Keys(old(queues)) || NeededFor(dag, sccToStage, scc, t, key)
        invariant forall key, x :: Served(queues, key, x) ==>
                    Served(old(queues), key, x) || NeededBy(dag, sccToStage, scc, t, key, x)
      {
        if !e.deps[d].control {
          ghost var before := queues;
          RegisterQueue(from, t, e.deps[d].producer, e.deps[d].consumer);
          assert NeedsQueue(dag, sccToStage, scc, t, k, d);
          assert NeededBy(dag, sccToStage, scc, t, Key(e.deps[d].producer, from, t), e.deps[d].consumer);
          RegisteredServes(before, queues, Key(e.deps[d].producer, from, t), e.deps[d].consumer);
          forall j: nat | j < d && NeedsQueue(dag, sccToStage, scc, t, k, j)
            ensures Served(queues, Key(e.deps[j].producer, from, t), e.deps[j].consumer)
          {
            ServedStays(before, queues, Key(e.deps[j].producer, from, t), e.deps[j].consumer);
          }
        }
      }
    }

    /** Queues for all dependences of scc into stage t. */
    method CollectQueuesOfSCC(scc: nat, t: nat)
      requires Valid() && Placed(dag, sccToStage) && scc in dag.nodes && t < |stageSCCs|
      modifies this`queues, this`producerToQueues, this`pushQueues, this`popQueues, this`producedPopQueue
      ensures Valid() && Extends(old(queues), queues)
      ensures AllServed(dag, sccToStage, scc, t, queues)
      ensures forall key :: key in Keys(queues) ==> key in Keys(old(queues)) || NeededFor(dag, sccToStage, scc, t, key)
      ensures forall key, x :: Served(queues, key, x) ==>
                Served(old(queues), key, x) || NeededBy(dag, sccToStage, scc, t, key, x)
    {
      for k := 0 to |dag.incoming[scc]|
        invariant Valid() && Extends(old(queues), queues)
        invariant forall j: nat, d: nat :: j < k && NeedsQueue(dag, sccToStage, scc, t, j, d) ==>
                    var e := dag.incoming[scc][j];
                    Served(queues, Key(e.deps[d].producer, sccToStage[e.src], t), e.deps[d].consumer)
        invariant forall key :: key in Keys(queues) ==>
                  key in Keys(old(queues)) || NeededFor(dag, sccToStage, scc, t, key)
        invariant forall key, x :: Served(queues, key, x) ==>
                    Served(old(queues), key, x) || NeededBy(dag, sccToStage, scc, t, key, x)
      {
        ghost var before := queues;
        CollectQueuesOfEdge(scc, t, k);
        forall j: nat, d: nat | j < k && NeedsQueue(dag, sccToStage, scc, t, j, d)
          ensures var e := dag.incoming[scc][j];
                  Served(queues, Key(e.deps[d].producer, sccToStage[e.src], t), e.deps[d].consumer)
        {
          var e := dag.incoming[scc][j];
          ServedStays(before, queues, Key(e.deps[d].producer, sccToStage[e.src], t), e.deps[d].consumer);
        }
      }
    }

    /** Queues for all dependences into the SCCs of stage t and the SCCs cloned into it. */
    method CollectQueuesOfStage(t: nat)
      requires Valid() && Placed(dag, sccToStage) && t < |stageSCCs| && stageSCCs[t] + clonableSCCs[t] <= dag.nodes
      modifies this`queues, this`producerToQueues, this`pushQueues, this`popQueues, this`producedPopQueue
      ensures Valid() && Extends(old(queues), queues)
      ensures forall scc :: scc in stageSCCs[t] + clonableSCCs[t] ==> AllServed(dag, sccToStage, scc, t, queues)
      ensures forall key :: key in Keys(queues) ==>
                || key in Keys(old(queues))
                || exists scc :: scc in stageSCCs[t] + clonableSCCs[t] && NeededFor(dag, sccToStage, scc, t, key)
      ensures forall key, x :: Served(queues, key, x) ==>
                || Served(old(queues), key, x)
                || exists scc :: scc in stageSCCs[t] + clonableSCCs[t] && NeededBy(dag, sccToStage, scc, t, key, x)
    {
      var all := stageSCCs[t] + clonableSCCs[t];
      var todo := all;
      while todo != {}
        invariant todo <= all && Valid() && Extends(old(queues), queues)
        invariant forall scc :: scc in all - todo ==> AllServed(dag, sccToStage, scc, t, queues)
        invariant forall key :: key in Keys(queues) ==>
                    key in Keys(old(queues)) || exists scc :: scc in all && NeededFor(dag, sccToStage, scc, t, key)
        invariant forall key, x :: Served(queues, key, x) ==>
                    || Served(old(queues), key, x)
                    || exists scc :: scc in all && NeededBy(dag, sccToStage, scc, t, key, x)
      {
        var scc: nat :| scc in todo;
        ghost var before := queues;
        CollectQueuesOfSCC(scc, t);
        forall x | x in all - todo ensures AllServed(dag, sccToStage, x, t, queues) {
          AllServedStays(dag, sccToStage, x, t, before, queues);
        }
        todo := todo - {scc};
      }
    }

    /**
     Register a queue for every data dependence that crosses into a stage, into its own
     SCCs or into those cloned there, and for nothing else.  The consumers of a queue are
     exactly the targets of such dependences.
     */
    method CollectDataAndMemoryQueueInfo()
      requires Valid() && Placed(dag, sccToStage)
      requires forall t: nat :: t < |stageSCCs| ==> stageSCCs[t] + clonableSCCs[t] <= dag.nodes
      modifies this`queues, this`producerToQueues, this`pushQueues, this`popQueues, this`producedPopQueue
      ensures Valid() && Extends(old(queues), queues)
      ensures forall t: nat, scc :: t < |stageSCCs| && scc in stageSCCs[t] + clonableSCCs[t] ==>
                AllServed(dag, sccToStage, scc, t, queues)
      ensures forall key :: key in Keys(queues) ==>
                key in Keys(old(queues)) || NeededSomewhere(dag, sccToStage, stageSCCs, clonableSCCs, key)
      ensures forall key, x ::
                Served(queues, key, x)
                <==> Served(old(queues), key, x) || DataConsumer(dag, sccToStage, stageSCCs, clonableSCCs, key, x)
    {
      for t := 0 to |stageSCCs|
        invariant Valid() && Extends(old(queues), queues)
        invariant forall u: nat, scc :: u < t && scc in stageSCCs[u] + clonableSCCs[u] ==>
                    AllServed(dag, sccToStage, scc, u, queues)
        invariant forall key :: key in Keys(queues) ==>
                    key in Keys(old(queues)) || NeededSomewhere(dag, sccToStage, stageSCCs, clonableSCCs, key)
        invariant forall key, x :: Served(queues, key, x) ==>
                    Served(old(queues), key, x) || DataConsumer(dag, sccToStage, stageSCCs, clonableSCCs, key, x)
      {
        ghost var before := queues;
        CollectQueuesOfStage(t);
        forall u: nat, scc | u < t && scc in stageSCCs[u] + clonableSCCs[u]
          ensures AllServed(dag, sccToStage, scc, u, queues)
        {
          AllServedStays(dag, sccToStage, scc, u, before, queues);
        }
      }
      ConsumersServed(dag, sccToStage, stageSCCs, clonableSCCs, old(queues), queues);
    }

    /** The SCCs that depend directly on n. */
    function Dependents(n: nat): (r: set<nat>)
      requires dag.Valid()
      ensures r == set m | m in dag.nodes && dag.Source(n, m)
    {
      set m, k: nat | m in dag.nodes && k < |dag.incoming[m]| && dag.incoming[m][k].src == n :: m
    }

    /** What the walk from scc knows: it has noted the stages of everything that depends on what it visited. */
    ghost predicate Walked(scc: nat, visited: set<nat>, queue: seq<nat>, tasks: set<nat>)
      requires dag.Valid() && Placed(dag, sccToStage)
      reads this`sccToStage
    {
      && visited <= dag.nodes && (scc in visited || scc in queue)
      && (forall n :: n in queue ==> n in dag.nodes && (n == scc || Reach(dag.Edges(), scc, n)))
      && (forall n :: n in visited ==> n == scc || Reach(dag.Edges(), scc, n))
      && (forall u, m {:trigger dag.Source(u, m)} :: u in visited && dag.Source(u, m) ==>
            (m in visited || m in queue) && (m !in dag.clonable ==> sccToStage[m] in tasks))
      && (forall t :: t in tasks ==> Depends(dag, sccToStage, scc, t))
    }

    /** Breadth-first walk from the branch's SCC to all that depends on it. */
    method CollectTransitivelyControlledTasks(scc: nat) returns (tasks: set<nat>)
      requires Valid() && Placed(dag, sccToStage) && scc in dag.nodes && scc !in dag.clonable
      ensures forall t :: t in tasks <==> t != sccToStage[scc] && Depends(dag, sccToStage, scc, t)
    {
      tasks := {};
      var visited: set<nat> := {};
      var queue: seq<nat> := [scc];
      while queue != []
        invariant Walked(scc, visited, queue, tasks)
        decreases dag.nodes - visited, |queue|
      {
        var n := queue[0];
        assert n in queue;
        ghost var waiting := queue;
        queue := queue[1..];
        assert forall m :: m in waiting <==> m == n || m in queue;
        if n in visited {
          continue;
        }
        ghost var before := visited;
        visited := visited + {n};
        assert dag.nodes - visited < dag.nodes - before;
        queue, tasks := NoteDependents(scc, n, queue, tasks);
      }
      WalkIsComplete(scc, visited, tasks);
      tasks := tasks - {sccToStage[scc]};
    }

    lemma WalkIsComplete(scc: nat, visited: set<nat>, tasks: set<nat>)
      requires Valid() && Placed(dag, sccToStage) && scc in dag.nodes && Walked(scc, visited, [], tasks)
      ensures forall t :: Depends(dag, sccToStage, scc, t) ==> t in tasks
    {
      forall t | Depends(dag, sccToStage, scc, t) ensures t in tasks {
        var s :| s in dag.nodes && s !in dag.clonable && sccToStage[s] == t && Reach(dag.Edges(), scc, s);
        var u := LastStep(dag.Edges(), scc, s);
        assert dag.Source(u, s);
        if u != scc {
          assert forall x, y :: x in visited && (x, y) in dag.Edges() ==> dag.Source(x, y);
          ClosedHolds(dag.Edges(), visited, scc, u);
        }
      }
    }

    method NoteDependents(ghost scc: nat, n: nat, queue: seq<nat>, tasks: set<nat>)
      returns (queue': seq<nat>, tasks': set<nat>)
      requires dag.Valid() && Placed(dag, sccToStage) && (n == scc || Reach(dag.Edges(), scc, n))
      requires forall t :: t in tasks ==> Depends(dag, sccToStage, scc, t)
      ensures forall m :: m in queue' <==> m in queue || (m in dag.nodes && dag.Source(n, m))
      ensures tasks <= tasks' && forall t :: t in tasks' ==> Depends(dag, sccToStage, scc, t)
      ensures forall m :: dag.Source(n, m) && m !in dag.clonable ==> sccToStage[m] in tasks'
      ensures forall m :: dag.Source(n, m) ==> m in dag.nodes && Reach(dag.Edges(), scc, m)
    {
      queue', tasks' := queue, tasks;
      var all := Dependents(n);
      forall m | dag.Source(n, m) ensures m in dag.nodes && Reach(dag.Edges(), scc, m) {
        EdgeReaches(dag.Edges(), n, m);
        if n != scc { ReachTransitive(dag.Edges(), scc, n, m); }
      }
      var todo := all;
      while todo != {}
        invariant todo <= all
        invariant forall m :: m in queue' <==> m in queue || m in all - todo
        invariant tasks <= tasks' && forall t :: t in tasks' ==> Depends(dag, sccToStage, scc, t)
        invariant forall m :: m in all - todo && m !in dag.clonable ==> sccToStage[m] in tasks'
      {
        var m :| m in todo;
        todo := todo - {m};
        queue' := queue' + [m];
        if m !in dag.clonable {
          assert Depends(dag, sccToStage, scc, sccToStage[m]);
          tasks' := tasks' + {sccToStage[m]};
        }
      }
    }

    /** The condition of a branch is sent from the branch's stage to the given ones. */
    method RegisterCondition(condition: nat, branch: nat, decider: nat, tasks: set<nat>)
      requires Valid() && decider < |stageSCCs| && forall t :: t in tasks ==> t < |stageSCCs|
      modifies this`queues, this`producerToQueues, this`pushQueues, this`popQueues, this`producedPopQueue
      ensures Valid() && Extends(old(queues), queues)
      ensures forall t: nat :: t in tasks && t != decider ==> Served(queues, Key(condition, decider, t), branch)
      ensures forall key :: key in Keys(queues) ==>
                key in Keys(old(queues))
                    || (key.to in tasks && key.to != decider && key == Key(condition, decider, key.to))
      ensures forall key, x ::
                Served(queues, key, x)
                <==> Served(old(queues), key, x) || IsCondition(condition, branch, decider, tasks, key, x)
    {
      var todo := tasks;
      while todo != {}
        invariant todo <= tasks && Valid() && Extends(old(queues), queues)
        invariant forall t: nat :: t in tasks - todo && t != decider ==>
                  Served(queues, Key(condition, decider, t), branch)
        invariant forall key :: key in Keys(queues) ==>
                    key in Keys(old(queues))
                        || (key.to in tasks && key.to != decider && key == Key(condition, decider, key.to))
        invariant forall key, x ::
                    Served(queues, key, x)
                    <==> Served(old(queues), key, x) || IsCondition(condition, branch, decider, tasks - todo, key, x)
      {
        var t: nat :| t in todo;
        if t != decider {
          ghost var before := queues;
          RegisterQueue(decider, t, condition, branch);
          RegisteredServes(before, queues, Key(condition, decider, t), branch);
          forall u: nat | u in tasks - todo && u != decider ensures Served(queues, Key(condition, decider, u), branch) {
            ServedStays(before, queues, Key(condition, decider, u), branch);
          }
        }
        todo := todo - {t};
      }
    }

    static ghost predicate IsCondition(
      condition: nat, branch: nat, decider: nat, tasks: set<nat>, key: Key, consumer: nat)
    {
      key.to in tasks && key.to != decider && key == Key(condition, decider, key.to) && consumer == branch
    }

    static function FirstStages(n: nat): (r: set<nat>)
      ensures forall t: nat :: t in r <==> t < n
    {
      if n == 0 then {} else FirstStages(n - 1) + {n - 1}
    }

    /** The stages that are told the condition of branch b. */
    method ControlledTasks(sccOf: map<nat, nat>, branches: map<nat, Branch>, b: nat) returns (tasks: set<nat>)
      requires Valid() && Placed(dag, sccToStage) && BranchesOk(dag, sccOf, branches)
      requires b in branches && sccOf[b] !in dag.clonable
      ensures forall t: nat :: t in tasks ==> t < |stageSCCs|
      ensures forall t: nat :: t < |stageSCCs| && t != sccToStage[sccOf[b]] ==>
                (t in tasks <==> NeedsCondition(dag, sccToStage, sccOf, branches, b, t))
    {
      if branches[b].leaves {
        tasks := FirstStages(|stageSCCs|);
      } else {
        tasks := CollectTransitivelyControlledTasks(sccOf[b]);
      }
    }

    /**
     Queues for the condition of every branch that is not cloned, to all stages that need
     it; the branches are their consumers.
     */
    method CollectControlQueueInfo(sccOf: map<nat, nat>, branches: map<nat, Branch>)
      requires Valid() && Placed(dag, sccToStage) && BranchesOk(dag, sccOf, branches)
      modifies this`queues, this`producerToQueues, this`pushQueues, this`popQueues, this`producedPopQueue
      ensures Valid() && Extends(old(queues), queues)
      ensures forall b :: b in branches ==>
                ConditionServed(dag, sccToStage, sccOf, branches, |stageSCCs|, queues, b)
      ensures forall key :: key in Keys(queues) ==>
                key in Keys(old(queues)) || ConditionFor(dag, sccToStage, sccOf, branches, |stageSCCs|, key)
      ensures forall key, x ::
                Served(queues, key, x)
                <==> || Served(old(queues), key, x)
                     || ConditionConsumer(dag, sccToStage, sccOf, branches, |stageSCCs|, key, x)
    {
      var todo := branches.Keys;
      while todo != {}
        invariant todo <= branches.Keys && Valid() && Extends(old(queues), queues)
        invariant forall b :: b in branches.Keys - todo ==>
                    ConditionServed(dag, sccToStage, sccOf, branches, |stageSCCs|, queues, b)
        invariant forall key :: key in Keys(queues) ==>
                    key in Keys(old(queues)) || ConditionFor(dag, sccToStage, sccOf, branches, |stageSCCs|, key)
        invariant forall key, x ::
                    Served(queues, key, x)
                    <==> || Served(old(queues), key, x)
                         || (x !in todo && ConditionConsumer(dag, sccToStage, sccOf, branches, |stageSCCs|, key, x))
      {
        var b: nat :| b in todo;
        ghost var before := queues;
        if sccOf[b] !in dag.clonable {
          var tasks := ControlledTasks(sccOf, branches, b);
          RegisterCondition(branches[b].condition, b, sccToStage[sccOf[b]], tasks);
        }
        forall x | x in branches.Keys - todo
          ensures ConditionServed(dag, sccToStage, sccOf, branches, |stageSCCs|, queues, x)
        {
          ConditionServedStays(dag, sccToStage, sccOf, branches, |stageSCCs|, before, queues, x);
        }
        todo := todo - {b};
      }
    }

    /** Do all queues lead to a later stage? */
    method AreQueuesAcyclical() returns (ok: bool)
      requires Valid()
      ensures ok <==> Forward(queues)
    {
      for i := 0 to |stageSCCs|
        invariant forall q: nat :: q < |queues| && queues[q].from < i ==> queues[q].to > queues[q].from
      {
        var todo := pushQueues[i];
        assert todo == Pushes(queues, i);
        while todo != {}
          invariant todo <= pushQueues[i]
          invariant forall q: nat :: q in pushQueues[i] - todo ==> queues[q].to > i
        {
          var q: nat :| q in todo;
          if queues[q].to <= i {
            return false;
          }
          todo := todo - {q};
        }
        todo := popQueues[i];
        assert todo == Pops(queues, i);
        while todo != {}
          invariant todo <= popQueues[i]
        {
          var q: nat :| q in todo;
          if queues[q].from >= i {
            return false;
          }
          todo := todo - {q};
        }
      }
      return true;
    }

    /** Look for the SCCs of a stage among those already seen. */
    static method IsDisjoint(stage: set<nat>, all: set<nat>) returns (ok: bool)
      ensures ok <==> stage !! all
    {
      var todo := stage;
      while todo != {}
        invariant todo <= stage && stage - todo !! all
      {
        var scc: nat :| scc in todo;
        if scc in all {
          return false;
        }
        todo := todo - {scc};
      }
      return true;
    }

    /** scc is in one of the first n stages, or cloned there. */
    ghost predicate Seen(n: nat, scc: nat)
      requires n <= |stageSCCs| == |clonableSCCs|
      reads this
    {
      exists u: nat :: u < n && scc in stageSCCs[u] + clonableSCCs[u]
    }

    /** No SCC of a stage is in an earlier one, or cloned there. */
    ghost predicate NoneTwice(n: nat)
      requires n <= |stageSCCs| == |clonableSCCs|
      reads this
    {
      forall u: nat, t: nat :: u < t < n ==> stageSCCs[t] !! stageSCCs[u] + clonableSCCs[u]
    }

    lemma OneMoreSeen(t: nat, all: set<nat>)
      requires t < |stageSCCs| == |clonableSCCs| && forall scc :: scc in all <==> Seen(t, scc)
      requires NoneTwice(t) && stageSCCs[t] !! all
      ensures NoneTwice(t + 1) && forall scc :: scc in all + stageSCCs[t] + clonableSCCs[t] <==> Seen(t + 1, scc)
    {
      forall u: nat | u < t ensures stageSCCs[t] !! stageSCCs[u] + clonableSCCs[u] {
        forall scc | scc in stageSCCs[u] + clonableSCCs[u] ensures scc !in stageSCCs[t] { assert Seen(t, scc); }
      }
      forall scc ensures scc in all + stageSCCs[t] + clonableSCCs[t] <==> Seen(t + 1, scc) {
        assert scc in all <==> Seen(t, scc);
      }
    }

    method SeenInStages() returns (ok: bool, all: set<nat>)
      requires |clonableSCCs| == |stageSCCs|
      ensures ok <==> NoneTwice(|stageSCCs|)
      ensures ok ==> forall scc :: scc in all <==> Seen(|stageSCCs|, scc)
    {
      ok, all := true, {};
      for t := 0 to |stageSCCs|
        invariant forall scc :: scc in all <==> Seen(t, scc)
        invariant NoneTwice(t)
      {
        ok := IsDisjoint(stageSCCs[t], all);
        if !ok {
          ghost var scc :| scc in stageSCCs[t] && Seen(t, scc);
          return;
        }
        OneMoreSeen(t, all);
        all := all + stageSCCs[t] + clonableSCCs[t];
      }
      ok := true;
    }

    /** Is every SCC that cannot be cloned in a stage, and no SCC of a stage in an earlier one? */
    method IsCompleteAndValidStageStructure() returns (ok: bool)
      requires Valid()
      ensures ok <==> NoneTwice(|stageSCCs|)
                      && forall scc :: scc in dag.nodes && scc !in dag.clonable ==> Seen(|stageSCCs|, scc)
    {
      var all;
      ok, all := SeenInStages();
      if !ok {
        return;
      }
      var nodes := dag.nodes;
      while nodes != {}
        invariant nodes <= dag.nodes
        invariant forall scc :: scc in dag.nodes - nodes && scc !in dag.clonable ==> scc in all
      {
        var scc: nat :| scc in nodes;
        if scc !in dag.clonable && scc !in all {
          return false;
        }
        nodes := nodes - {scc};
      }
    }
  }

  ghost predicate NeededSomewhere(
    dag: Dag, where: map<nat, nat>, stages: seq<set<nat>>, clones: seq<set<nat>>, key: Key)
    requires dag.Valid() && Placed(dag, where) && |clones| == |stages|
    requires forall t: nat :: t < |stages| ==> stages[t] + clones[t] <= dag.nodes
  {
    exists t: nat, scc :: t < |stages| && scc in stages[t] + clones[t] && NeededFor(dag, where, scc, t, key)
  }

  /** consumer is the target of a dependence that crosses into a stage and is carried by the queue for key. */
  ghost predicate DataConsumer(
    dag: Dag, where: map<nat, nat>, stages: seq<set<nat>>, clones: seq<set<nat>>, key: Key, consumer: nat)
    requires dag.Valid() && Placed(dag, where) && |clones| == |stages|
    requires forall t: nat :: t < |stages| ==> stages[t] + clones[t] <= dag.nodes
  {
    exists t: nat, scc :: t < |stages| && scc in stages[t] + clones[t] && NeededBy(dag, where, scc, t, key, consumer)
  }

  lemma ConsumersServed(
    dag: Dag, where: map<nat, nat>, stages: seq<set<nat>>, clones: seq<set<nat>>, before: seq<Queue>, after: seq<Queue>)
    requires dag.Valid() && Placed(dag, where) && |clones| == |stages| && Extends(before, after)
    requires forall t: nat :: t < |stages| ==> stages[t] + clones[t] <= dag.nodes
    requires forall t: nat, scc :: t < |stages| && scc in stages[t] + clones[t] ==> AllServed(dag, where, scc, t, after)
    ensures forall key, x :: Served(before, key, x) || DataConsumer(dag, where, stages, clones, key, x) ==>
              Served(after, key, x)
  {
    forall key, x | Served(before, key, x) ensures Served(after, key, x) { ServedStays(before, after, key, x); }
    forall key, x | DataConsumer(dag, where, stages, clones, key, x) ensures Served(after, key, x) {
      var t: nat, scc :| t < |stages| && scc in stages[t] + clones[t] && NeededBy(dag, where, scc, t, key, x);
      assert AllServed(dag, where, scc, t, after);
      var k: nat, d: nat :| NeedsQueue(dag, where, scc, t, k, d)
        && key == Key(dag.incoming[scc][k].deps[d].producer, where[dag.incoming[scc][k].src], t)
        && x == dag.incoming[scc][k].deps[d].consumer;
    }
  }

  // ---------------------------------------------------------------- what the stages get

  /**
   Every data input of every SCC that runs in a stage is produced there, cloned there, or
   comes through a queue that knows its consumer.
   */
  lemma StagesAreSelfContained(
    dag: Dag, where: map<nat, nat>, stage: set<nat>, clones: set<nat>, t: nat, queues: seq<Queue>, scc: nat, k: nat,
    d: nat)
    requires dag.Valid() && Placed(dag, where) && stage + clones <= dag.nodes && Clones(dag, stage, clones)
    requires forall x :: x in stage + clones ==> AllServed(dag, where, x, t, queues)
    requires scc in stage + clones && k < |dag.incoming[scc]| && d < |dag.incoming[scc][k].deps|
    requires !dag.incoming[scc][k].deps[d].control
    ensures var e := dag.incoming[scc][k];
            if e.src in dag.clonable then e.src in clones
            else where[e.src] == t || Served(queues, Key(e.deps[d].producer, where[e.src], t), e.deps[d].consumer)
  {
    var e := dag.incoming[scc][k];
    assert dag.Source(e.src, scc);
    if e.src in dag.clonable {
      if scc in stage { DirectAncestor(dag, e.src, scc, stage); } else { FurtherAncestor(dag, e.src, scc, stage); }
    } else if where[e.src] != t {
      assert NeedsQueue(dag, where, scc, t, k, d);
    }
  }

  /** The stage order respects dependences, including those that pass through clonable SCCs. */
  ghost predicate Topological(dag: Dag, where: map<nat, nat>)
    requires dag.Valid() && Placed(dag, where)
  {
    forall p: seq<nat> {:trigger Direct(dag, p)} :: Direct(dag, p) ==> where[p[0]] <= where[p[|p| - 1]]
  }

  /** A chain between SCCs that run in one stage each, through clonable SCCs only. */
  ghost predicate Direct(dag: Dag, p: seq<nat>)
    requires dag.Valid()
  {
    && |p| >= 2 && Path(dag.Edges(), p)
    && p[0] in dag.nodes - dag.clonable && p[|p| - 1] in dag.nodes - dag.clonable
    && forall k: nat :: 0 < k < |p| - 1 ==> p[k] in dag.clonable
  }

  /** Along any chain between SCCs with a stage, the stage does not go down. */
  lemma {:induction false} StagesAscend(dag: Dag, where: map<nat, nat>, p: seq<nat>, m: nat)
    requires dag.Valid() && Placed(dag, where) && Topological(dag, where)
    requires Path(dag.Edges(), p) && |p| >= 2 && 0 < m < |p|
    requires p[0] in dag.nodes - dag.clonable && p[|p| - 1] in dag.nodes - dag.clonable
    requires forall k: nat :: 0 < k < m ==> p[k] in dag.clonable
    ensures where[p[0]] <= where[p[|p| - 1]]
    decreases |p|, |p| - m
  {
    if m == |p| - 1 {
      assert Direct(dag, p);
    } else if p[m] in dag.clonable {
      StagesAscend(dag, where, p, m + 1);
    } else {
      assert (p[m], p[m + 1]) in dag.Edges() && dag.Source(p[m], p[m + 1]);
      SourceIsNode(dag, p[m], p[m + 1]);
      SubPath(dag.Edges(), p, 0, m + 1);
      SubPath(dag.Edges(), p, m, |p|);
      assert Direct(dag, p[0..m + 1]);
      StagesAscend(dag, where, p[m..], 1);
    }
  }

  lemma SourceIsNode(dag: Dag, a: nat, n: nat)
    requires dag.Valid() && dag.Source(a, n)
    ensures a in dag.nodes
  {
    var k: nat :| k < |dag.incoming[n]| && dag.incoming[n][k].src == a;
  }

  /** The SCCs of stage t are placed there, and its clones are their clonable ancestors. */
  ghost predicate StageOk(dag: Dag, where: map<nat, nat>, stage: set<nat>, clones: set<nat>, t: nat)
    requires dag.Valid()
  {
    && stage + clones <= dag.nodes && Clones(dag, stage, clones)
    && forall x :: x in stage ==> x !in dag.clonable && x in where && where[x] == t
  }

  /** With a topological stage order every data queue leads to a strictly later stage. */
  lemma DataQueuesGoForward(
    dag: Dag, where: map<nat, nat>, stages: seq<set<nat>>, clones: seq<set<nat>>, queues: seq<Queue>)
    requires dag.Valid() && Placed(dag, where) && Topological(dag, where) && |clones| == |stages|
    requires forall t: nat :: t < |stages| ==> stages[t] + clones[t] <= dag.nodes
    requires forall t: nat {:trigger StageOk(dag, where, stages[t], clones[t], t)} :: t < |stages| ==>
               StageOk(dag, where, stages[t], clones[t], t)
    requires forall key :: key in Keys(queues) ==> NeededSomewhere(dag, where, stages, clones, key)
    ensures Forward(queues)
  {
    forall q: nat | q < |queues| ensures queues[q].from < queues[q].to {
      var key := KeyOf(queues[q]);
      assert queues[q] in queues && key in Keys(queues);
      assert NeededSomewhere(dag, where, stages, clones, key);
      var t: nat, scc :| t < |stages| && scc in stages[t] + clones[t] && NeededFor(dag, where, scc, t, key);
      NeededGoesForward(dag, where, stages[t], clones[t], t, scc, key);
    }
  }

  lemma NeededGoesForward(dag: Dag, where: map<nat, nat>, stage: set<nat>, clones: set<nat>, t: nat, scc: nat, key: Key)
    requires dag.Valid() && Placed(dag, where) && Topological(dag, where)
    requires StageOk(dag, where, stage, clones, t)
    requires scc in stage + clones && NeededFor(dag, where, scc, t, key)
    ensures key.from < key.to
  {
    var k: nat, d: nat :| NeedsQueue(dag, where, scc, t, k, d)
      && key == Key(dag.incoming[scc][k].deps[d].producer, where[dag.incoming[scc][k].src], t);
    InputsComeFromEarlier(dag, where, stage, clones, t, scc, k);
  }

  lemma InputsComeFromEarlier(
    dag: Dag, where: map<nat, nat>, stage: set<nat>, clones: set<nat>, t: nat, scc: nat, k: nat)
    requires dag.Valid() && Placed(dag, where) && Topological(dag, where)
    requires StageOk(dag, where, stage, clones, t)
    requires scc in stage + clones && k < |dag.incoming[scc]| && dag.incoming[scc][k].src !in dag.clonable
    ensures where[dag.incoming[scc][k].src] <= t
  {
    var src := dag.incoming[scc][k].src;
    assert dag.Source(src, scc);
    if scc in stage {
      assert Path(dag.Edges(), [src, scc]);
      StagesAscend(dag, where, [src, scc], 1);
    } else {
      var p: seq<nat> :| dag.LeadsTo(p, stage) && p[0] == scc;
      PrependSource(dag, src, p);
      StagesAscend(dag, where, [src] + p, 1);
    }
  }

  /**
   If the exit condition is sent to all other stages and all queues lead forward, the
   condition is computed in the first stage.
   */
  lemma DeciderIsFirst(queues: seq<Queue>, stages: nat, condition: nat, branch: nat, decider: nat)
    requires decider < stages && Forward(queues)
    requires forall t: nat :: t < stages && t != decider ==> Served(queues, Key(condition, decider, t), branch)
    ensures decider == 0
  {
    var toFirst := Served(queues, Key(condition, decider, 0), branch);
  }

  // ---------------------------------------------------------------- the whole pipeline

  /** A condition sent to a stage that depends on its branch goes to a later stage. */
  lemma ConditionGoesForward(dag: Dag, where: map<nat, nat>, scc: nat, t: nat)
    requires dag.Valid() && Placed(dag, where) && Topological(dag, where)
    requires scc in dag.nodes && scc !in dag.clonable && Depends(dag, where, scc, t)
    ensures where[scc] <= t
  {
    var s :| s in dag.nodes && s !in dag.clonable && where[s] == t && Reach(dag.Edges(), scc, s);
    var p: seq<nat> :| Path(dag.Edges(), p) && |p| >= 2 && p[0] == scc && p[|p| - 1] == s;
    StagesAscend(dag, where, p, 1);
  }

  /** The branches that can leave the loop are decided in the first stage. */
  ghost predicate ExitsDecidedFirst(dag: Dag, where: map<nat, nat>, sccOf: map<nat, nat>, branches: map<nat, Branch>)
    requires dag.Valid() && Placed(dag, where) && BranchesOk(dag, sccOf, branches)
  {
    forall b :: b in branches && branches[b].leaves && sccOf[b] !in dag.clonable ==> where[sccOf[b]] == 0
  }

  /** Queues exist where values or conditions are needed, and only there, with the consumers that need them. */
  ghost predicate QueuesFit(
    dag: Dag, where: map<nat, nat>, stages: seq<set<nat>>, clones: seq<set<nat>>,
    sccOf: map<nat, nat>, branches: map<nat, Branch>, queues: seq<Queue>)
    requires dag.Valid() && Placed(dag, where) && |clones| == |stages| && BranchesOk(dag, sccOf, branches)
    requires forall t: nat :: t < |stages| ==> stages[t] + clones[t] <= dag.nodes
  {
    && (forall t: nat, scc {:trigger AllServed(dag, where, scc, t, queues)} ::
          t < |stages| && scc in stages[t] + clones[t] ==> AllServed(dag, where, scc, t, queues))
    && (forall b {:trigger ConditionServed(dag, where, sccOf, branches, |stages|, queues, b)} ::
          b in branches ==> ConditionServed(dag, where, sccOf, branches, |stages|, queues, b))
    && (forall key :: key in Keys(queues) ==>
          || NeededSomewhere(dag, where, stages, clones, key)
          || ConditionFor(dag, where, sccOf, branches, |stages|, key))
    && (forall key, x ::
          Served(queues, key, x)
          <==> || DataConsumer(dag, where, stages, clones, key, x)
               || ConditionConsumer(dag, where, sccOf, branches, |stages|, key, x))
  }

  /** Where every SCC that cannot be cloned runs in one stage, and its clones where they are needed. */
  ghost predicate StagesFit(dag: Dag, where: map<nat, nat>, stages: seq<set<nat>>, clones: seq<set<nat>>)
    requires dag.Valid()
  {
    && Placed(dag, where) && |clones| == |stages|
    && (forall scc :: scc in dag.nodes && scc !in dag.clonable ==> where[scc] < |stages| && scc in stages[where[scc]])
    && (forall t: nat {:trigger StageOk(dag, where, stages[t], clones[t], t)} :: t < |stages| ==>
          StageOk(dag, where, stages[t], clones[t], t))
    && (forall t: nat :: t < |stages| ==> stages[t] + clones[t] <= dag.nodes)
  }

  /** All queues lead forward exactly if the loop is left by decisions of the first stage. */
  lemma AllQueuesForwardIff(
    dag: Dag, where: map<nat, nat>, stages: seq<set<nat>>, clones: seq<set<nat>>,
    sccOf: map<nat, nat>, branches: map<nat, Branch>, queues: seq<Queue>)
    requires dag.Valid() && StagesFit(dag, where, stages, clones) && Topological(dag, where) && stages != []
    requires BranchesOk(dag, sccOf, branches) && QueuesFit(dag, where, stages, clones, sccOf, branches, queues)
    ensures Forward(queues) <==> ExitsDecidedFirst(dag, where, sccOf, branches)
  {
    if ExitsDecidedFirst(dag, where, sccOf, branches) {
      forall q: nat | q < |queues| ensures queues[q].from < queues[q].to {
        var key := KeyOf(queues[q]);
        assert queues[q] in queues && key in Keys(queues);
        KeyGoesForward(dag, where, stages, clones, sccOf, branches, key);
      }
    }
    if Forward(queues) {
      forall b | b in branches && branches[b].leaves && sccOf[b] !in dag.clonable ensures where[sccOf[b]] == 0 {
        assert ConditionServed(dag, where, sccOf, branches, |stages|, queues, b);
        DeciderIsFirst(queues, |stages|, branches[b].condition, b, where[sccOf[b]]);
      }
    }
  }

  lemma KeyGoesForward(
    dag: Dag, where: map<nat, nat>, stages: seq<set<nat>>, clones: seq<set<nat>>,
    sccOf: map<nat, nat>, branches: map<nat, Branch>, key: Key)
    requires dag.Valid() && StagesFit(dag, where, stages, clones) && Topological(dag, where)
    requires BranchesOk(dag, sccOf, branches) && ExitsDecidedFirst(dag, where, sccOf, branches)
    requires NeededSomewhere(dag, where, stages, clones, key)
             || ConditionFor(dag, where, sccOf, branches, |stages|, key)
    ensures key.from < key.to
  {
    if NeededSomewhere(dag, where, stages, clones, key) {
      var t: nat, scc :| t < |stages| && scc in stages[t] + clones[t] && NeededFor(dag, where, scc, t, key);
      assert StageOk(dag, where, stages[t], clones[t], t);
      NeededGoesForward(dag, where, stages[t], clones[t], t, scc, key);
    } else {
      var b :| NeedsCondition(dag, where, sccOf, branches, b, key.to)
               && key == Key(branches[b].condition, where[sccOf[b]], key.to);
      if !branches[b].leaves { ConditionGoesForward(dag, where, sccOf[b], key.to); }
    }
  }

  /** The partition into stages: every SCC that cannot be cloned is in one of them. */
  ghost predicate Partitioned(dag: Dag, stages: seq<set<nat>>) {
    && (forall t: nat, u: nat :: t < u < |stages| ==> stages[t] !! stages[u])
    && (forall t: nat :: t < |stages| ==> stages[t] <= dag.nodes - dag.clonable)
    && (forall scc :: scc in dag.nodes && scc !in dag.clonable ==> exists t: nat :: t < |stages| && scc in stages[t])
  }

  /** No stage depends on a later one, not even through clonable SCCs. */
  ghost predicate InStageOrder(dag: Dag, stages: seq<set<nat>>)
    requires dag.Valid()
  {
    forall p: seq<nat>, t: nat, u: nat {:trigger Direct(dag, p), stages[t], stages[u]} ::
      t < |stages| && u < |stages| && Direct(dag, p) && p[0] in stages[t] && p[|p| - 1] in stages[u] ==> t <= u
  }

  /**
   From the partition to the queues: stages, clones, queues for data, queues for conditions.
   All queues lead forward exactly if the first stage decides when the loop is left.
   */
  method Assemble(dag: Dag, depthOrdered: seq<set<nat>>, sccOf: map<nat, nat>, branches: map<nat, Branch>)
    returns (d: Dswp)
    requires dag.Valid() && depthOrdered != [] && Partitioned(dag, depthOrdered) && InStageOrder(dag, depthOrdered)
    requires BranchesOk(dag, sccOf, branches)
    ensures d.Valid() && d.dag == dag && d.stageSCCs == depthOrdered
    ensures StagesFit(dag, d.sccToStage, depthOrdered, d.clonableSCCs) && Topological(dag, d.sccToStage)
    ensures QueuesFit(dag, d.sccToStage, depthOrdered, d.clonableSCCs, sccOf, branches, d.queues)
    ensures Forward(d.queues) <==> ExitsDecidedFirst(dag, d.sccToStage, sccOf, branches)
  {
    d := new Dswp(dag, depthOrdered);
    d.AddClonableSCCsToStages();
    FitsPartition(dag, d.sccToStage, depthOrdered, d.clonableSCCs);
    d.CollectDataAndMemoryQueueInfo();
    ghost var data := d.queues;
    d.CollectControlQueueInfo(sccOf, branches);
    StillFits(dag, d.sccToStage, depthOrdered, d.clonableSCCs, sccOf, branches, data, d.queues);
    AllQueuesForwardIff(dag, d.sccToStage, depthOrdered, d.clonableSCCs, sccOf, branches, d.queues);
  }

  lemma FitsPartition(dag: Dag, where: map<nat, nat>, stages: seq<set<nat>>, clones: seq<set<nat>>)
    requires dag.Valid() && Partitioned(dag, stages) && InStageOrder(dag, stages) && |clones| == |stages|
    requires forall t: nat, scc :: t < |stages| && scc in stages[t] ==> scc in where && where[scc] == t
    requires forall t: nat :: t < |stages| ==> Clones(dag, stages[t], clones[t])
    ensures StagesFit(dag, where, stages, clones) && Topological(dag, where)
  {
    forall t: nat | t < |stages| ensures StageOk(dag, where, stages[t], clones[t], t) {
      forall x | x in clones[t] ensures x in dag.nodes {}
    }
    forall scc | scc in dag.nodes && scc !in dag.clonable
      ensures scc in where && where[scc] < |stages| && scc in stages[where[scc]]
    {
      var t: nat :| t < |stages| && scc in stages[t];
    }
    forall p: seq<nat> | Direct(dag, p) ensures where[p[0]] <= where[p[|p| - 1]] {
      var t, u := where[p[0]], where[p[|p| - 1]];
      assert p[0] in stages[t] && p[|p| - 1] in stages[u];
    }
  }

  lemma StillFits(
    dag: Dag, where: map<nat, nat>, stages: seq<set<nat>>, clones: seq<set<nat>>,
    sccOf: map<nat, nat>, branches: map<nat, Branch>, data: seq<Queue>, queues: seq<Queue>)
    requires dag.Valid() && StagesFit(dag, where, stages, clones) && BranchesOk(dag, sccOf, branches)
              && Extends(data, queues)
    requires forall t: nat, scc :: t < |stages| && scc in stages[t] + clones[t] ==> AllServed(dag, where, scc, t, data)
    requires forall b :: b in branches ==> ConditionServed(dag, where, sccOf, branches, |stages|, queues, b)
    requires forall key :: key in Keys(data) ==> NeededSomewhere(dag, where, stages, clones, key)
    requires forall key :: key in Keys(queues) ==>
               key in Keys(data) || ConditionFor(dag, where, sccOf, branches, |stages|, key)
    requires forall key, x :: Served(data, key, x) <==> DataConsumer(dag, where, stages, clones, key, x)
    requires forall key, x ::
               Served(queues, key, x)
               <==> || Served(data, key, x)
                    || ConditionConsumer(dag, where, sccOf, branches, |stages|, key, x)
    ensures QueuesFit(dag, where, stages, clones, sccOf, branches, queues)
  {
    forall t: nat, scc | t < |stages| && scc in stages[t] + clones[t] ensures AllServed(dag, where, scc, t, queues) {
      AllServedStays(dag, where, scc, t, data, queues);
    }
  }
}
