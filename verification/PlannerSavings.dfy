/**
 The planner's estimate of the time that parallelizing the loops of a nest can save, and
 what it means: the best total over all choices of loops of which none contains another.
 */
module PlannerSavings {

  datatype LoopTree = Node(loop: nat, children: seq<LoopTree>)

  const Two64: nat := 0x1_0000_0000_0000_0000

  function Loops(t: LoopTree): set<nat> {
    {t.loop} + LoopsOf(t.children)
  }

  function LoopsOf(ts: seq<LoopTree>): set<nat> {
    if ts == [] then {} else LoopsOf(ts[..|ts| - 1]) + Loops(ts[|ts| - 1])
  }

  /** Every loop occurs once. */
  ghost predicate Distinct(t: LoopTree) {
    t.loop !in LoopsOf(t.children) && DistinctAll(t.children)
  }

  ghost predicate DistinctAll(ts: seq<LoopTree>) {
    ts == [] ||
    (DistinctAll(ts[..|ts| - 1]) && Distinct(ts[|ts| - 1]) && LoopsOf(ts[..|ts| - 1]) !! Loops(ts[|ts| - 1]))
  }

  /** Loop b is nested in loop a. */
  ghost predicate Inside(t: LoopTree, a: nat, b: nat) {
    (t.loop == a && b in LoopsOf(t.children)) || InsideAny(t.children, a, b)
  }

  ghost predicate InsideAny(ts: seq<LoopTree>, a: nat, b: nat) {
    ts != [] && (InsideAny(ts[..|ts| - 1], a, b) || Inside(ts[|ts| - 1], a, b))
  }

  /** No chosen loop contains another. */
  ghost predicate Independent(t: LoopTree, s: set<nat>) {
    forall a, b :: a in s && b in s ==> !Inside(t, a, b)
  }

  ghost predicate IndependentAll(ts: seq<LoopTree>, s: set<nat>) {
    forall a, b :: a in s && b in s ==> !InsideAny(ts, a, b)
  }

  /** The time saved by parallelizing the loops of s. */
  ghost function Gain(t: LoopTree, saved: nat -> nat, s: set<nat>): nat {
    (if t.loop in s then saved(t.loop) else 0) + GainOf(t.children, saved, s)
  }

  ghost function GainOf(ts: seq<LoopTree>, saved: nat -> nat, s: set<nat>): nat {
    if ts == [] then 0 else GainOf(ts[..|ts| - 1], saved, s) + Gain(ts[|ts| - 1], saved, s)
  }

  /** The loops the evaluation looks at: considered, with all loops around them considered. */
  ghost function Visible(t: LoopTree, considered: set<nat>): (v: set<nat>)
    ensures v <= Loops(t) * considered
  {
    if t.loop in considered then {t.loop} + VisibleOf(t.children, considered) else {}
  }

  ghost function VisibleOf(ts: seq<LoopTree>, considered: set<nat>): (v: set<nat>)
    ensures v <= LoopsOf(ts) * considered
  {
    if ts == [] then {} else VisibleOf(ts[..|ts| - 1], considered) + Visible(ts[|ts| - 1], considered)
  }

  // ---------------------------------------------------------------- the evaluation

  function Max(a: nat, b: nat): nat {
    if a >= b then a else b
  }

  /** The value of a node, without the limit of 64 bits. */
  function Value(t: LoopTree, saved: nat -> nat, considered: set<nat>): nat {
    if t.loop in considered then Max(ValueOf(t.children, saved, considered), saved(t.loop)) else 0
  }

  function ValueOf(ts: seq<LoopTree>, saved: nat -> nat, considered: set<nat>): nat {
    if ts == [] then 0 else ValueOf(ts[..|ts| - 1], saved, considered) + Value(ts[|ts| - 1], saved, considered)
  }

  /** The value as the planner computes it, in 64 bits. */
  function Wrapped(t: LoopTree, saved: nat -> nat, considered: set<nat>): nat {
    if t.loop in considered then Max(WrappedOf(t.children, saved, considered), saved(t.loop)) else 0
  }

  function WrappedOf(ts: seq<LoopTree>, saved: nat -> nat, considered: set<nat>): nat {
    if ts == [] then 0
    else (WrappedOf(ts[..|ts| - 1], saved, considered) + Wrapped(ts[|ts| - 1], saved, considered)) % Two64
  }

  lemma {:induction false} ChildLoops(ts: seq<LoopTree>, i: nat)
    requires i < |ts| && DistinctAll(ts)
    ensures Distinct(ts[i]) && Loops(ts[i]) <= LoopsOf(ts) && LoopsOf(ts[..i]) !! Loops(ts[i])
    ensures LoopsOf(ts[..i + 1]) == LoopsOf(ts[..i]) + Loops(ts[i])
    decreases |ts|
  {
    var n := |ts| - 1;
    assert ts[..i + 1][..i] == ts[..i];
    if i < n {
      ChildLoops(ts[..n], i);
      assert ts[..n][..i] == ts[..i] && ts[..n][..i + 1] == ts[..i + 1];
    } else {
      assert ts[..i + 1] == ts;
    }
  }

  class Planner {
    var maxTimeSaved: map<nat, nat>

    /** Post-order visit: it gives every considered loop of the tree its value. */
    method Visit(n: LoopTree, saved: nat -> nat, considered: set<nat>)
      requires Distinct(n) && maxTimeSaved.Keys !! Loops(n)
      modifies this
      ensures maxTimeSaved.Keys == old(maxTimeSaved.Keys) + Loops(n) * considered
      ensures forall l :: l in old(maxTimeSaved) ==> maxTimeSaved[l] == old(maxTimeSaved)[l]
      ensures n.loop in considered ==> maxTimeSaved[n.loop] == Wrapped(n, saved, considered)
      decreases n
    {
      ghost var before := maxTimeSaved;
      var i := 0;
      while i < |n.children|
        invariant 0 <= i <= |n.children|
        invariant maxTimeSaved.Keys == before.Keys + LoopsOf(n.children[..i]) * considered
        invariant forall l :: l in before ==> maxTimeSaved[l] == before[l]
        invariant forall k: nat :: k < i && n.children[k].loop in considered ==>
                    n.children[k].loop in maxTimeSaved
                        && maxTimeSaved[n.children[k].loop] == Wrapped(n.children[k], saved, considered)
      {
        ChildLoops(n.children, i);
        Visit(n.children[i], saved, considered);
        i := i + 1;
      }
      assert n.children[..i] == n.children;
      if n.loop in considered {
        EvaluateNode(n, saved, considered);
      }
    }

    /** The value of a loop whose children have theirs. */
    method EvaluateNode(n: LoopTree, saved: nat -> nat, considered: set<nat>)
      requires n.loop in considered
      requires forall k: nat :: k < |n.children| && n.children[k].loop in considered ==>
                 n.children[k].loop in maxTimeSaved
                     && maxTimeSaved[n.children[k].loop] == Wrapped(n.children[k], saved, considered)
      modifies this
      ensures maxTimeSaved == old(maxTimeSaved)[n.loop := Wrapped(n, saved, considered)]
    {
      var loopSaved := saved(n.loop);
      var maxChildrenSaved := 0;
      var i := 0;
      while i < |n.children|
        invariant 0 <= i <= |n.children|
        invariant maxChildrenSaved == WrappedOf(n.children[..i], saved, considered)
      {
        var nestedLoop := n.children[i].loop;
        assert n.children[..i + 1][..i] == n.children[..i];
        var nestedLoopMaxSave := if nestedLoop in considered then maxTimeSaved[nestedLoop] else 0;
        maxChildrenSaved := (maxChildrenSaved + nestedLoopMaxSave) % Two64;
        i := i + 1;
      }
      assert n.children[..i] == n.children;
      maxTimeSaved := maxTimeSaved[n.loop := Max(maxChildrenSaved, loopSaved)];
    }

    /** The entry of the root after the visit, or zero if the root was not considered. */
    method EvaluateSavings(tree: LoopTree, saved: nat -> nat, considered: set<nat>) returns (rootLoopMaxTimeSaved: nat)
      requires Distinct(tree)
      modifies this
      ensures rootLoopMaxTimeSaved == Wrapped(tree, saved, considered)
    {
      maxTimeSaved := map[];
      Visit(tree, saved, considered);
      rootLoopMaxTimeSaved := if tree.loop in maxTimeSaved then maxTimeSaved[tree.loop] else 0;
    }
  }

  /** The 64-bit sum is right exactly when the true value fits. */
  lemma {:induction false} WrappedIsValueIff(t: LoopTree, saved: nat -> nat, considered: set<nat>)
    requires forall l :: saved(l) < Two64
    ensures Wrapped(t, saved, considered) == Value(t, saved, considered) <==> Value(t, saved, considered) < Two64
    ensures Wrapped(t, saved, considered) < Two64
    decreases t
  {
    if t.loop in considered { WrappedOfIsValueIff(t.children, saved, considered); }
  }

  lemma {:induction false} WrappedOfIsValueIff(ts: seq<LoopTree>, saved: nat -> nat, considered: set<nat>)
    requires forall l :: saved(l) < Two64
    ensures ValueOf(ts, saved, considered) < Two64 ==>
            WrappedOf(ts, saved, considered) == ValueOf(ts, saved, considered)
    ensures WrappedOf(ts, saved, considered) < Two64
    decreases ts
  {
    if ts != [] {
      WrappedOfIsValueIff(ts[..|ts| - 1], saved, considered);
      WrappedIsValueIff(ts[|ts| - 1], saved, considered);
    }
  }

  // ---------------------------------------------------------------- the best choice

  lemma {:induction false} GainOnlyOfOwn(t: LoopTree, saved: nat -> nat, s: set<nat>, r: set<nat>)
    requires s * Loops(t) == r * Loops(t)
    ensures Gain(t, saved, s) == Gain(t, saved, r)
    decreases t
  {
    assert t.loop in Loops(t) && LoopsOf(t.children) <= Loops(t);
    assert t.loop in s * Loops(t) <==> t.loop in r * Loops(t);
    assert s * LoopsOf(t.children) == (s * Loops(t)) * LoopsOf(t.children);
    assert r * LoopsOf(t.children) == (r * Loops(t)) * LoopsOf(t.children);
    GainOfOnlyOwn(t.children, saved, s, r);
  }

  lemma {:induction false} GainOfOnlyOwn(ts: seq<LoopTree>, saved: nat -> nat, s: set<nat>, r: set<nat>)
    requires s * LoopsOf(ts) == r * LoopsOf(ts)
    ensures GainOf(ts, saved, s) == GainOf(ts, saved, r)
    decreases ts
  {
    if ts != [] {
      var a, b := LoopsOf(ts[..|ts| - 1]), Loops(ts[|ts| - 1]);
      assert s * a == (s * LoopsOf(ts)) * a && r * a == (r * LoopsOf(ts)) * a;
      assert s * b == (s * LoopsOf(ts)) * b && r * b == (r * LoopsOf(ts)) * b;
      GainOfOnlyOwn(ts[..|ts| - 1], saved, s, r);
      GainOnlyOfOwn(ts[|ts| - 1], saved, s, r);
    }
  }

  lemma {:induction false} NoGainOutside(ts: seq<LoopTree>, saved: nat -> nat, s: set<nat>)
    requires forall l :: l in s && l in LoopsOf(ts) ==> saved(l) == 0
    ensures GainOf(ts, saved, s) == 0
    decreases ts
  {
    if ts != [] {
      var last := ts[|ts| - 1];
      assert last.loop in Loops(last) && LoopsOf(last.children) <= Loops(last) <= LoopsOf(ts);
      NoGainOutside(ts[..|ts| - 1], saved, s);
      NoGainOutside(last.children, saved, s);
    }
  }

  /** No choice of loops that the evaluation looks at saves more than the value. */
  lemma {:induction false} ValueIsUpperBound(t: LoopTree, saved: nat -> nat, considered: set<nat>, s: set<nat>)
    requires Distinct(t) && Independent(t, s) && s * Loops(t) <= Visible(t, considered)
    ensures Gain(t, saved, s) <= Value(t, saved, considered)
    decreases t
  {
    if t.loop !in considered {
      NoGainOutside([t], saved, s);
      assert GainOf([t], saved, s) == GainOf([t][..0], saved, s) + Gain(t, saved, s);
    } else if t.loop in s {
      forall l | l in LoopsOf(t.children) ensures l !in s {
        assert Inside(t, t.loop, l);
      }
      NoGainOutside(t.children, saved, s);
    } else {
      forall a, b | a in s && b in s ensures !InsideAny(t.children, a, b) {
        assert !Inside(t, a, b);
      }
      forall l | l in s * LoopsOf(t.children) ensures l in VisibleOf(t.children, considered) {
        assert l in s * Loops(t);
      }
      ValueOfIsUpperBound(t.children, saved, considered, s);
    }
  }

  lemma {:induction false} ValueOfIsUpperBound(ts: seq<LoopTree>, saved: nat -> nat, considered: set<nat>, s: set<nat>)
    requires DistinctAll(ts) && IndependentAll(ts, s) && s * LoopsOf(ts) <= VisibleOf(ts, considered)
    ensures GainOf(ts, saved, s) <= ValueOf(ts, saved, considered)
    decreases ts
  {
    if ts != [] {
      var front, last := ts[..|ts| - 1], ts[|ts| - 1];
      forall a, b | a in s && b in s ensures !InsideAny(front, a, b) && !Inside(last, a, b) {
        assert !InsideAny(ts, a, b);
      }
      forall l | l in s * LoopsOf(front) ensures l in VisibleOf(front, considered) {
        assert l in s * LoopsOf(ts);
      }
      forall l | l in s * Loops(last) ensures l in Visible(last, considered) {
        assert l in s * LoopsOf(ts);
      }
      ValueOfIsUpperBound(front, saved, considered, s);
      ValueIsUpperBound(last, saved, considered, s);
    }
  }

  /** Only loops of the tree are nested in each other. */
  lemma {:induction false} InsideIsWithin(t: LoopTree, a: nat, b: nat)
    requires Inside(t, a, b)
    ensures a in Loops(t) && b in Loops(t)
    decreases t
  {
    if InsideAny(t.children, a, b) { InsideAnyIsWithin(t.children, a, b); }
  }

  lemma {:induction false} InsideAnyIsWithin(ts: seq<LoopTree>, a: nat, b: nat)
    requires InsideAny(ts, a, b)
    ensures a in LoopsOf(ts) && b in LoopsOf(ts)
    decreases ts
  {
    if InsideAny(ts[..|ts| - 1], a, b) { InsideAnyIsWithin(ts[..|ts| - 1], a, b); }
    else { InsideIsWithin(ts[|ts| - 1], a, b); }
  }

  lemma {:induction false} NotInsideItself(t: LoopTree, a: nat)
    requires Distinct(t)
    ensures !Inside(t, a, a)
    decreases t
  {
    if InsideAny(t.children, a, a) { NotInsideAnyItself(t.children, a); }
  }

  lemma {:induction false} NotInsideAnyItself(ts: seq<LoopTree>, a: nat)
    requires DistinctAll(ts)
    ensures !InsideAny(ts, a, a)
    decreases ts
  {
    if ts != [] {
      NotInsideAnyItself(ts[..|ts| - 1], a);
      NotInsideItself(ts[|ts| - 1], a);
    }
  }

  /** Some choice of loops that the evaluation looks at saves exactly the value. */
  lemma {:induction false} ValueIsAttained(t: LoopTree, saved: nat -> nat, considered: set<nat>) returns (s: set<nat>)
    requires Distinct(t)
    ensures s <= Visible(t, considered) && Independent(t, s) && Gain(t, saved, s) == Value(t, saved, considered)
    decreases t
  {
    if t.loop !in considered {
      s := {};
      NoGainOutside(t.children, saved, s);
    } else if ValueOf(t.children, saved, considered) >= saved(t.loop) {
      s := ValueOfIsAttained(t.children, saved, considered);
    } else {
      s := {t.loop};
      NoGainOutside(t.children, saved, s);
      NotInsideItself(t, t.loop);
    }
  }

  lemma {:induction false} ValueOfIsAttained(ts: seq<LoopTree>, saved: nat -> nat, considered: set<nat>)
    returns (s: set<nat>)
    requires DistinctAll(ts)
    ensures s <= VisibleOf(ts, considered) && IndependentAll(ts, s)
            && GainOf(ts, saved, s) == ValueOf(ts, saved, considered)
    decreases ts
  {
    if ts == [] {
      s := {};
    } else {
      var front, last := ts[..|ts| - 1], ts[|ts| - 1];
      var a := ValueOfIsAttained(front, saved, considered);
      var b := ValueIsAttained(last, saved, considered);
      s := a + b;
      assert s * LoopsOf(front) == a * LoopsOf(front);
      GainOfOnlyOwn(front, saved, s, a);
      assert s * Loops(last) == b * Loops(last);
      GainOnlyOfOwn(last, saved, s, b);
      forall x, y | x in s && y in s ensures !InsideAny(ts, x, y) {
        if InsideAny(front, x, y) { InsideAnyIsWithin(front, x, y); }
        if Inside(last, x, y) { InsideIsWithin(last, x, y); }
      }
    }
  }

  /** With all loops considered the value is the best total over all choices of non-nested loops. */
  lemma AllConsideredIsOptimal(t: LoopTree, saved: nat -> nat, considered: set<nat>) returns (best: set<nat>)
    requires Distinct(t) && Loops(t) <= considered
    ensures best <= Loops(t) && Independent(t, best) && Gain(t, saved, best) == Value(t, saved, considered)
    ensures forall s :: Independent(t, s) ==> Gain(t, saved, s) <= Value(t, saved, considered)
  {
    best := ValueIsAttained(t, saved, considered);
    AllVisible(t, considered);
    forall s | Independent(t, s) ensures Gain(t, saved, s) <= Value(t, saved, considered) {
      ValueIsUpperBound(t, saved, considered, s);
    }
  }

  lemma {:induction false} AllVisible(t: LoopTree, considered: set<nat>)
    requires Loops(t) <= considered
    ensures Visible(t, considered) == Loops(t)
    decreases t
  {
    AllVisibleOf(t.children, considered);
  }

  lemma {:induction false} AllVisibleOf(ts: seq<LoopTree>, considered: set<nat>)
    requires LoopsOf(ts) <= considered
    ensures VisibleOf(ts, considered) == LoopsOf(ts)
    decreases ts
  {
    if ts != [] {
      AllVisibleOf(ts[..|ts| - 1], considered);
      AllVisible(ts[|ts| - 1], considered);
    }
  }

  // ---------------------------------------------------------------- the estimate with a filter

  /** The value bounds every choice of considered loops, whatever they save. */
  ghost predicate IsBoundFor(t: LoopTree, considered: set<nat>) {
    forall saved: nat -> nat, s: set<nat> :: s <= considered && Independent(t, s) ==>
      Gain(t, saved, s) <= Value(t, saved, considered)
  }

  /**
   With a filter, as in the estimate for DOALL loops only, a considered loop inside one
   that is not is overlooked: the value is the best total for every saving exactly when all
   considered loops are visible.
   */
  lemma FilteredIsOptimalIff(t: LoopTree, considered: set<nat>)
    requires Distinct(t)
    ensures IsBoundFor(t, considered) <==> considered * Loops(t) <= Visible(t, considered)
  {
    if considered * Loops(t) <= Visible(t, considered) {
      forall saved: nat -> nat, s: set<nat> | s <= considered && Independent(t, s)
        ensures Gain(t, saved, s) <= Value(t, saved, considered)
      {
        ValueIsUpperBound(t, saved, considered, s);
      }
    } else {
      var l :| l in considered * Loops(t) && l !in Visible(t, considered);
      var saved := (x: nat) => if x == l then 1 else 0;
      OneLoopGains(t, saved, l);
      NotInsideItself(t, l);
      assert Independent(t, {l});
      ValueOfInvisible(t, saved, considered, l);
      assert Gain(t, saved, {l}) > Value(t, saved, considered);
    }
  }

  lemma {:induction false} OneLoopGains(t: LoopTree, saved: nat -> nat, l: nat)
    requires l in Loops(t) && saved(l) == 1
    ensures Gain(t, saved, {l}) >= 1
    decreases t
  {
    if l != t.loop { OneLoopGainsIn(t.children, saved, l); }
  }

  lemma {:induction false} OneLoopGainsIn(ts: seq<LoopTree>, saved: nat -> nat, l: nat)
    requires l in LoopsOf(ts) && saved(l) == 1
    ensures GainOf(ts, saved, {l}) >= 1
    decreases ts
  {
    if l in LoopsOf(ts[..|ts| - 1]) { OneLoopGainsIn(ts[..|ts| - 1], saved, l); }
    else { OneLoopGains(ts[|ts| - 1], saved, l); }
  }

  lemma {:induction false} ValueOfInvisible(t: LoopTree, saved: nat -> nat, considered: set<nat>, l: nat)
    requires l !in Visible(t, considered) && forall x :: x != l ==> saved(x) == 0
    ensures Value(t, saved, considered) == 0
    decreases t
  {
    if t.loop in considered { ValueOfNoneVisible(t.children, saved, considered, l); }
  }

  lemma {:induction false} ValueOfNoneVisible(ts: seq<LoopTree>, saved: nat -> nat, considered: set<nat>, l: nat)
    requires l !in VisibleOf(ts, considered) && forall x :: x != l ==> saved(x) == 0
    ensures ValueOf(ts, saved, considered) == 0
    decreases ts
  {
    if ts != [] {
      ValueOfNoneVisible(ts[..|ts| - 1], saved, considered, l);
      ValueOfInvisible(ts[|ts| - 1], saved, considered, l);
    }
  }

  // ---------------------------------------------------------------- the greedy parallelizer

  /** Loops share basic blocks exactly when they are the same or one is nested in the other. */
  ghost predicate BlocksMatch(t: LoopTree, blocks: map<nat, set<nat>>) {
    && Loops(t) <= blocks.Keys
    && forall a, b :: a in Loops(t) && b in Loops(t) ==>
         (blocks[a] !! blocks[b] <==> a != b && !Inside(t, a, b) && !Inside(t, b, a))
  }

  ghost predicate Conflict(blocks: map<nat, set<nat>>, chosen: set<nat>, l: nat)
    requires chosen <= blocks.Keys && l in blocks
  {
    exists c :: c in chosen && !(blocks[c] !! blocks[l])
  }

  /** The i-th loop shares a block with one that comes before it and is taken. */
  ghost predicate Blocked(order: seq<nat>, blocks: map<nat, set<nat>>, chosen: set<nat>, i: nat)
    requires i < |order| && forall l :: l in order ==> l in blocks
  {
    exists k: nat :: k < i && order[k] in chosen && !(blocks[order[k]] !! blocks[order[i]])
  }

  ghost predicate NoRepetitions(order: seq<nat>) {
    forall i: nat, k: nat :: k < i < |order| ==> order[k] != order[i]
  }

  /**
   Try the loops in the given order; `works` are those whose parallelization succeeds.  A
   loop is skipped exactly when it shares a block with one parallelized before it.
   */
  method ParallelizeLoops(order: seq<nat>, blocks: map<nat, set<nat>>, works: set<nat>) returns (chosen: set<nat>)
    requires forall l :: l in order ==> l in blocks
    ensures forall l :: l in chosen ==> l in order && l in works
    ensures chosen <= blocks.Keys && forall a, b :: a in chosen && b in chosen && a != b ==> blocks[a] !! blocks[b]
    ensures forall l :: l in order && l in works ==> l in chosen || Conflict(blocks, chosen, l)
    ensures NoRepetitions(order) ==>
              forall i: nat :: i < |order| && order[i] in works ==>
                (order[i] !in chosen <==> Blocked(order, blocks, chosen, i))
  {
    chosen := {};
    var modifiedBBs: set<nat> := {};
    var i := 0;
    while i < |order|
      invariant 0 <= i <= |order|
      invariant forall l :: l in chosen ==> l in order && l in works
      invariant chosen <= blocks.Keys && forall a, b :: a in chosen && b in chosen && a != b ==> blocks[a] !! blocks[b]
      invariant forall k: nat :: k < i && order[k] in works ==> order[k] in chosen || Conflict(blocks, chosen, order[k])
      invariant forall x :: x in modifiedBBs <==> exists c :: c in chosen && x in blocks[c]
      invariant NoRepetitions(order) ==> GreedyUpTo(order, blocks, works, chosen, i)
    {
      var l := order[i];
      ghost var taken := chosen;
      var safe := blocks[l] !! modifiedBBs;
      if !safe {
        var x :| x in blocks[l] && x in modifiedBBs;
        assert Conflict(blocks, chosen, l);
      } else if l in works {
        ghost var before, mod := chosen, modifiedBBs;
        chosen := chosen + {l};
        modifiedBBs := modifiedBBs + blocks[l];
        forall a | a in before ensures blocks[a] !! blocks[l] {
          forall x | x in blocks[a] ensures x in mod {}
        }
        forall k: nat | k < i && order[k] in works ensures order[k] in chosen || Conflict(blocks, chosen, order[k]) {
          if order[k] !in before {
            var c :| c in before && !(blocks[c] !! blocks[order[k]]);
            assert c in chosen;
          }
        }
      }
      if NoRepetitions(order) { GreedyStep(order, blocks, works, taken, chosen, i); }
      i := i + 1;
    }
  }

  /** Of the first n loops those are taken that work and are not blocked by earlier ones. */
  ghost predicate GreedyUpTo(
    order: seq<nat>, blocks: map<nat, set<nat>>, works: set<nat>, chosen: set<nat>, n: nat)
    requires forall l :: l in order ==> l in blocks
  {
    && (forall l :: l in chosen ==> exists k: nat :: k < n && k < |order| && order[k] == l)
    && forall k: nat :: k < n && k < |order| && order[k] in works ==>
         (order[k] !in chosen <==> Blocked(order, blocks, chosen, k))
  }

  /** Taking the i-th loop blocks nothing that comes before it. */
  lemma BlockedStays(
    order: seq<nat>, blocks: map<nat, set<nat>>, before: set<nat>, after: set<nat>, i: nat, k: nat)
    requires k <= i < |order| && NoRepetitions(order) && forall l :: l in order ==> l in blocks
    requires after == before || after == before + {order[i]}
    ensures Blocked(order, blocks, after, k) <==> Blocked(order, blocks, before, k)
  {
    if Blocked(order, blocks, after, k) {
      var m: nat :| m < k && order[m] in after && !(blocks[order[m]] !! blocks[order[k]]);
      assert order[m] != order[i];
    }
    if Blocked(order, blocks, before, k) {
      var m: nat :| m < k && order[m] in before && !(blocks[order[m]] !! blocks[order[k]]);
      assert order[m] in after;
    }
  }

  lemma ConflictIsBlocked(
    order: seq<nat>, blocks: map<nat, set<nat>>, works: set<nat>, chosen: set<nat>, i: nat)
    requires i < |order| && forall l :: l in order ==> l in blocks
    requires GreedyUpTo(order, blocks, works, chosen, i) && chosen <= blocks.Keys
    ensures Conflict(blocks, chosen, order[i]) <==> Blocked(order, blocks, chosen, i)
  {
    if c :| c in chosen && !(blocks[c] !! blocks[order[i]]) {
      var k: nat :| k < i && k < |order| && order[k] == c;
    }
  }

  lemma GreedyStep(
    order: seq<nat>, blocks: map<nat, set<nat>>, works: set<nat>, before: set<nat>, after: set<nat>, i: nat)
    requires i < |order| && NoRepetitions(order) && forall l :: l in order ==> l in blocks
    requires GreedyUpTo(order, blocks, works, before, i) && before <= blocks.Keys
    requires after == if order[i] in works && !Conflict(blocks, before, order[i]) then before + {order[i]} else before
    ensures GreedyUpTo(order, blocks, works, after, i + 1)
  {
    ConflictIsBlocked(order, blocks, works, before, i);
    forall k: nat | k <= i ensures Blocked(order, blocks, after, k) <==> Blocked(order, blocks, before, k) {
      BlockedStays(order, blocks, before, after, i, k);
    }
    forall l | l in after ensures exists k: nat :: k < i + 1 && k < |order| && order[k] == l {
      if l in before { var k: nat :| k < i && k < |order| && order[k] == l; }
    }
    assert order[i] !in before;
  }

  /** Whatever the order, the loops the parallelizer takes never save more than the planner's value. */
  lemma GreedyWithinEstimate(
    t: LoopTree, saved: nat -> nat, considered: set<nat>, blocks: map<nat, set<nat>>, chosen: set<nat>)
    requires Distinct(t) && Loops(t) <= considered && BlocksMatch(t, blocks) && chosen <= Loops(t)
    requires forall a, b :: a in chosen && b in chosen && a != b ==> blocks[a] !! blocks[b]
    ensures Independent(t, chosen) && Gain(t, saved, chosen) <= Value(t, saved, considered)
  {
    forall a, b | a in chosen && b in chosen ensures !Inside(t, a, b) {
      if a == b { NotInsideItself(t, a); } else { assert blocks[a] !! blocks[b]; }
    }
    AllVisible(t, considered);
    ValueIsUpperBound(t, saved, considered, chosen);
  }
}
