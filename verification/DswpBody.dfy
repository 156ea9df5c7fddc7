/**
 The body of the loop that DSWP splits, as the program has it: instructions in program
 order, each defining one value.  An instruction executes in an iteration if the conditions
 of the branches around it say so.  PHI nodes at the header read what the previous iteration
 computed, everything else reads what this iteration has computed so far.
 */
module DswpBody {

  /** An operand: the value that src has in this iteration, or had at the end of the previous one. */
  datatype Read = Read(src: nat, carried: bool)

  /**
   `controls[j]` are the conditions that decide whether j executes, `head[j]` is the first
   instruction of j's block that is no PHI node, and `exits` holds the branches that can
   leave the loop with their conditions.  `compute` is also told whether this is the first
   iteration, in which PHI nodes take their initial values.
   */
  datatype Body<!V(!new)> = Body(
    size: nat,
    operands: seq<seq<Read>>,
    controls: seq<seq<nat>>,
    head: seq<nat>,
    exits: map<nat, nat>,
    init: seq<V>,
    compute: (nat, bool, seq<V>) -> V,
    taken: (nat, seq<V>) -> bool,
    leaves: (nat, V) -> bool
  )

  ghost predicate Sized<V(!new)>(b: Body<V>) {
    |b.operands| == |b.controls| == |b.head| == |b.init| == b.size
  }

  /** Operands come from before, and a block's PHI nodes precede what uses them in it. */
  ghost predicate ReadsOk<V(!new)>(b: Body<V>, j: nat)
    requires Sized(b) && j < b.size
  {
    forall k: nat :: k < |b.operands[j]| ==>
      var r := b.operands[j][k];
      r.src < b.size && (!r.carried ==> r.src < j && b.head[r.src] <= j)
  }

  /** The conditions around j belong to blocks before its own. */
  ghost predicate ControlsOk<V(!new)>(b: Body<V>, j: nat)
    requires Sized(b) && j < b.size
  {
    b.head[j] < b.size && forall k: nat :: k < |b.controls[j]| ==> Precedes(b, b.controls[j][k], j)
  }

  ghost predicate Precedes<V(!new)>(b: Body<V>, c: nat, j: nat)
    requires Sized(b) && j < b.size
  {
    c < j && c < b.head[j] && b.head[c] <= j && b.head[c] < b.head[j]
  }

  /** The PHI nodes of a block stand together before its head. */
  ghost predicate HeadOk<V(!new)>(b: Body<V>, j: nat)
    requires Sized(b) && j < b.size
  {
    b.head[j] < b.size && forall k: nat :: j < k < b.head[j] ==> b.head[k] == b.head[j]
  }

  /** A branch that can leave the loop ends its block. */
  ghost predicate ExitOk<V(!new)>(b: Body<V>, x: nat)
    requires Sized(b) && x in b.exits
  {
    && x < b.size && b.exits[x] < x && b.head[b.exits[x]] <= x
    && forall j: nat :: j < b.size ==> if j <= x then b.head[j] <= x else x < b.head[j]
  }

  ghost predicate Valid<V(!new)>(b: Body<V>) {
    && Sized(b)
    && (forall j: nat {:trigger ReadsOk(b, j)} {:trigger ControlsOk(b, j)} ::
          j < b.size ==> ReadsOk(b, j) && ControlsOk(b, j))
    && (forall j: nat {:trigger HeadOk(b, j)} :: j < b.size ==> HeadOk(b, j))
    && (forall x: nat {:trigger ExitOk(b, x)} :: x in b.exits ==> ExitOk(b, x))
  }

  // ---------------------------------------------------------------- the sequential loop

  /** The values at the end of the previous iteration, and those now. */
  datatype Env<V> = Env(prev: seq<V>, cur: seq<V>)

  ghost predicate Fits<V(!new)>(b: Body<V>, e: Env<V>) {
    Sized(b) && |e.prev| == |e.cur| == b.size
  }

  function Arg<V(!new)>(e: Env<V>, r: Read): V
    requires r.src < |e.prev| == |e.cur|
  {
    if r.carried then e.prev[r.src] else e.cur[r.src]
  }

  ghost function Args<V(!new)>(b: Body<V>, j: nat, e: Env<V>): (a: seq<V>)
    requires Fits(b, e) && j < b.size && ReadsOk(b, j)
    ensures |a| == |b.operands[j]| && forall k: nat :: k < |a| ==> a[k] == Arg(e, b.operands[j][k])
  {
    seq(|b.operands[j]|, k requires 0 <= k < |b.operands[j]| => Arg(e, b.operands[j][k]))
  }

  ghost function Conditions<V(!new)>(b: Body<V>, j: nat, e: Env<V>): (a: seq<V>)
    requires Fits(b, e) && j < b.size && ControlsOk(b, j)
    ensures |a| == |b.controls[j]| && forall k: nat :: k < |a| ==>
            b.controls[j][k] < j && a[k] == e.cur[b.controls[j][k]]
  {
    assert forall k: nat :: k < |b.controls[j]| ==> Precedes(b, b.controls[j][k], j);
    seq(|b.controls[j]|, k requires 0 <= k < |b.controls[j]| => e.cur[b.controls[j][k]])
  }

  /** Does control reach instruction j? */
  ghost predicate Reached<V(!new)>(b: Body<V>, j: nat, e: Env<V>)
    requires Fits(b, e) && j < b.size && ControlsOk(b, j)
  {
    b.taken(j, Conditions(b, j, e))
  }

  ghost function Exec<V(!new)>(b: Body<V>, j: nat, first: bool, e: Env<V>): (r: Env<V>)
    requires Valid(b) && Fits(b, e) && j < b.size
    ensures Fits(b, r) && r.prev == e.prev && forall x: nat :: x < b.size && x != j ==> r.cur[x] == e.cur[x]
  {
    assert ReadsOk(b, j) && ControlsOk(b, j);
    if Reached(b, j, e) then e.(cur := e.cur[j := b.compute(j, first, Args(b, j, e))]) else e
  }

  /** The values after j instructions of iteration i. */
  ghost function Orig<V(!new)>(b: Body<V>, i: nat, j: nat): (e: Env<V>)
    requires Valid(b) && j <= b.size
    ensures Fits(b, e)
    decreases i, j
  {
    if j > 0 then Exec(b, j - 1, i == 0, Orig(b, i, j - 1))
    else if i > 0 then var e := Orig(b, i - 1, b.size); Env(e.cur, e.cur)
    else Env(b.init, b.init)
  }

  /** Does iteration i leave the loop at branch x? */
  ghost predicate LeavesAt<V(!new)>(b: Body<V>, i: nat, x: nat)
    requires Valid(b)
  {
    x in b.exits && Leaves(b, x, Orig(b, i, if x < b.size then x else 0))
  }

  ghost predicate Leaves<V(!new)>(b: Body<V>, x: nat, e: Env<V>)
    requires Valid(b) && x in b.exits && Fits(b, e)
  {
    assert ExitOk(b, x) && ControlsOk(b, x);
    Reached(b, x, e) && b.leaves(x, e.cur[b.exits[x]])
  }

  /** The loop ends in iteration `last` at branch x, and not before. */
  ghost predicate EndsAt<V(!new)>(b: Body<V>, last: nat, x: nat)
    requires Valid(b)
  {
    && LeavesAt(b, last, x)
    && forall i: nat, y: nat {:trigger LeavesAt(b, i, y)} :: i < last || (i == last && y < x) ==> !LeavesAt(b, i, y)
  }

  // ---------------------------------------------------------------- value by value

  /** The value of x after k iterations. */
  ghost function Val<V(!new)>(b: Body<V>, x: nat, k: nat): V
    requires Valid(b) && x < b.size
  {
    if k == 0 then b.init[x] else Orig(b, k - 1, x + 1).cur[x]
  }

  /** Before its own turn an instruction has the value of the previous iteration, afterwards that of this one. */
  lemma {:induction false} OrigIs<V(!new)>(b: Body<V>, i: nat, j: nat, x: nat)
    requires Valid(b) && j <= b.size && x < b.size
    ensures Orig(b, i, j).prev[x] == Val(b, x, i)
    ensures Orig(b, i, j).cur[x] == Val(b, x, if x < j then i + 1 else i)
    decreases i, j
  {
    if j > 0 {
      OrigIs(b, i, j - 1, x);
    } else if i > 0 {
      OrigIs(b, i - 1, b.size, x);
    }
  }

  /** Does instruction j execute in iteration i? */
  ghost predicate Ran<V(!new)>(b: Body<V>, j: nat, i: nat)
    requires Valid(b) && j < b.size
  {
    assert ControlsOk(b, j);
    Reached(b, j, Orig(b, i, j))
  }

  /** An instruction that does not execute keeps its value. */
  lemma KeepsValue<V(!new)>(b: Body<V>, j: nat, i: nat)
    requires Valid(b) && j < b.size && !Ran(b, j, i)
    ensures Val(b, j, i + 1) == Val(b, j, i)
  {
    OrigIs(b, i, j, j);
  }

  lemma KeptValue<V(!new)>(b: Body<V>, j: nat, i: nat, v: V, done: bool)
    requires Valid(b) && j < b.size && !Ran(b, j, i) && v == Val(b, j, if done then i + 1 else i)
    ensures v == Val(b, j, i + 1)
  {
    KeepsValue(b, j, i);
  }

  /** e has the conditions of j as the loop has them in iteration i. */
  ghost predicate KnowsControls<V(!new)>(b: Body<V>, j: nat, i: nat, e: Env<V>)
    requires Valid(b) && Fits(b, e) && j < b.size
  {
    forall k: nat :: k < |b.controls[j]| ==>
      b.controls[j][k] < b.size && e.cur[b.controls[j][k]] == Val(b, b.controls[j][k], i + 1)
  }

  ghost predicate KnowsOperands<V(!new)>(b: Body<V>, j: nat, i: nat, e: Env<V>)
    requires Valid(b) && Fits(b, e) && j < b.size
  {
    forall k: nat :: k < |b.operands[j]| ==>
      var r := b.operands[j][k];
      r.src < b.size && Arg(e, r) == Val(b, r.src, if r.carried then i else i + 1)
  }

  /** Whoever knows the conditions knows whether j executes. */
  lemma SameControl<V(!new)>(b: Body<V>, j: nat, i: nat, e: Env<V>)
    requires Valid(b) && Fits(b, e) && j < b.size && KnowsControls(b, j, i, e)
    ensures ControlsOk(b, j) && (Reached(b, j, e) <==> Ran(b, j, i))
  {
    assert ControlsOk(b, j);
    var o := Orig(b, i, j);
    forall k: nat | k < |b.controls[j]| ensures e.cur[b.controls[j][k]] == o.cur[b.controls[j][k]] {
      OrigIs(b, i, j, b.controls[j][k]);
    }
    assert Conditions(b, j, e) == Conditions(b, j, o);
  }

  lemma SameOperands<V(!new)>(b: Body<V>, j: nat, i: nat, e: Env<V>)
    requires Valid(b) && Fits(b, e) && j < b.size && KnowsOperands(b, j, i, e)
    ensures ReadsOk(b, j) && Args(b, j, e) == Args(b, j, Orig(b, i, j))
  {
    assert ReadsOk(b, j);
    var o := Orig(b, i, j);
    forall k: nat | k < |b.operands[j]| ensures Arg(e, b.operands[j][k]) == Arg(o, b.operands[j][k]) {
      OrigIs(b, i, j, b.operands[j][k].src);
    }
  }

  /** Whoever knows operands and conditions computes what the loop computes. */
  lemma SameValue<V(!new)>(b: Body<V>, j: nat, i: nat, e: Env<V>, done: bool)
    requires Valid(b) && Fits(b, e) && j < b.size && KnowsControls(b, j, i, e) && KnowsOperands(b, j, i, e)
    requires e.cur[j] == Val(b, j, if done then i + 1 else i)
    ensures Exec(b, j, i == 0, e).cur[j] == Val(b, j, i + 1)
  {
    SameControl(b, j, i, e);
    SameOperands(b, j, i, e);
    if !Ran(b, j, i) { KeepsValue(b, j, i); }
  }

  /** Whoever knows the condition and what is around it leaves as the loop does. */
  lemma SameExit<V(!new)>(b: Body<V>, x: nat, i: nat, e: Env<V>)
    requires Valid(b) && Fits(b, e) && x in b.exits && x < b.size && KnowsControls(b, x, i, e)
    requires b.exits[x] < b.size && e.cur[b.exits[x]] == Val(b, b.exits[x], i + 1)
    ensures Leaves(b, x, e) <==> LeavesAt(b, i, x)
  {
    assert ExitOk(b, x);
    SameControl(b, x, i, e);
    OrigIs(b, i, x, b.exits[x]);
  }

  // ---------------------------------------------------------------- what j computes, iteration after iteration

  /** The values that j computes in the first k iterations. */
  ghost function Sent<V(!new)>(b: Body<V>, j: nat, k: nat): seq<V>
    requires Valid(b) && j < b.size
  {
    if k == 0 then [] else Sent(b, j, k - 1) + if Ran(b, j, k - 1) then [Val(b, j, k)] else []
  }

  lemma {:induction false} SentGrows<V(!new)>(b: Body<V>, j: nat, k: nat, m: nat)
    requires Valid(b) && j < b.size && k <= m
    ensures |Sent(b, j, k)| <= |Sent(b, j, m)| && Sent(b, j, m)[..|Sent(b, j, k)|] == Sent(b, j, k)
    decreases m
  {
    if k < m { SentGrows(b, j, k, m - 1); }
  }

  /** What was sent in m iterations is what was received in k iterations and then `rest`. */
  ghost predicate Balanced<V(!new)>(b: Body<V>, j: nat, m: nat, k: nat, rest: seq<V>)
    requires Valid(b) && j < b.size
  {
    Sent(b, j, m) == Sent(b, j, k) + rest
  }

  /** If j executes in iteration k, its value there comes next; if not, nothing is received. */
  lemma BalancedPop<V(!new)>(b: Body<V>, j: nat, m: nat, k: nat, rest: seq<V>)
    requires Valid(b) && j < b.size && Balanced(b, j, m, k, rest)
    ensures Ran(b, j, k) ==> (m > k <==> rest != [])
    ensures Ran(b, j, k) && rest != [] ==> rest[0] == Val(b, j, k + 1) && Balanced(b, j, m, k + 1, rest[1..])
    ensures !Ran(b, j, k) ==> Balanced(b, j, m, k + 1, rest)
  {
    if m <= k {
      SentGrows(b, j, m, k);
    } else if Ran(b, j, k) {
      SentGrows(b, j, k + 1, m);
      var n := |Sent(b, j, k)|;
      assert Sent(b, j, m)[..n + 1][n] == rest[0];
      assert Sent(b, j, m) == Sent(b, j, m)[..n + 1] + Sent(b, j, m)[n + 1..];
    }
  }

  lemma BalancedPush<V(!new)>(b: Body<V>, j: nat, m: nat, k: nat, rest: seq<V>)
    requires Valid(b) && j < b.size && Balanced(b, j, m, k, rest)
    ensures Balanced(b, j, m + 1, k, if Ran(b, j, m) then rest + [Val(b, j, m + 1)] else rest)
  {}
}
