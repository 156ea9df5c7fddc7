/**
 Where the waits of a segment are put.  The backward search goes from the segment's
 instructions to the nearest instructions that lie outside sub-loops and that nothing of the
 segment precedes, and enters each of them unless an entry found before dominates it.
 */
module HelixEntries {
  import opened Digraph
  import opened HelixCfg
  import opened HelixRegions

  /** v lies outside sub-loops and no other instruction of the segment can execute before it. */
  ghost predicate Candidate(g: Cfg, ss: set<nat>, v: nat) {
    v in g.nodes && v !in g.inner && forall s :: s in ss && Reach(Edges(g), s, v) ==> s == v
  }

  /** p leads to the segment, and behind its start there are no candidates. */
  ghost predicate LeadsBack(g: Cfg, ss: set<nat>, p: seq<nat>) {
    Path(Edges(g), p) && p[|p| - 1] in ss && forall k: nat :: 0 < k < |p| ==> !Candidate(g, ss, p[k])
  }

  ghost predicate Near(g: Cfg, ss: set<nat>, v: nat) {
    exists p: seq<nat> :: LeadsBack(g, ss, p) && p[0] == v
  }

  /** The candidates nearest to the segment. */
  ghost function Front(g: Cfg, ss: set<nat>): set<nat> {
    set v | v in g.nodes && Candidate(g, ss, v) && Near(g, ss, v)
  }

  /** v's place becomes an entry unless another entry dominates it. */
  ghost function EnterOne(g: Cfg, entries: set<nat>, v: nat): set<nat>
    requires Valid(g) && v in g.nodes
  {
    if exists e :: e in entries && Dominates(g, e, Anchor(g, v)) then entries else entries + {Anchor(g, v)}
  }

  /** The entries after looking at the given instructions in this order. */
  ghost function EnterAll(g: Cfg, entries: set<nat>, order: seq<nat>): set<nat>
    requires Valid(g) && forall v :: v in order ==> v in g.nodes
  {
    if order == [] then entries
    else EnterOne(g, EnterAll(g, entries, order[..|order| - 1]), order[|order| - 1])
  }

  /** What the entries can be: one walk over the front, then one over the untouched blocks. */
  ghost predicate EntriesOutcome(g: Cfg, ss: set<nat>, near: seq<nat>, order: seq<nat>, entries: set<nat>)
    requires Valid(g)
  {
    && Lists(near, Front(g, ss)) && Lists(order, Untouched(g, ss))
    && entries == EnterAll(g, EnterAll(g, {}, near), order)
  }

  lemma OneMoreEntered(g: Cfg, entries: set<nat>, order: seq<nat>, v: nat)
    requires Valid(g) && v in g.nodes && forall x :: x in order ==> x in g.nodes
    ensures forall x :: x in order + [v] ==> x in g.nodes
    ensures EnterAll(g, entries, order + [v]) == EnterOne(g, EnterAll(g, entries, order), v)
  {
    assert (order + [v])[..|order|] == order;
  }

  // ---------------------------------------------------------------- dominance

  /** If e dominates v, it is or dominates what comes right before v. */
  lemma DominatesBefore(g: Cfg, e: nat, u: nat, v: nat)
    requires Dominates(g, e, v) && (u, v) in Edges(g)
    ensures e == u || Dominates(g, e, u)
  {
    forall p | FromHeader(g, p) && p[|p| - 1] == u ensures e in p {
      Extend(Edges(g), p, v);
      assert FromHeader(g, p + [v]) && (p + [v])[|p + [v]| - 1] == v;
    }
  }

  /** An instruction that is no PHI node and dominates the place of v dominates v. */
  lemma {:induction false} DominatesFromAnchor(g: Cfg, e: nat, v: nat)
    requires Valid(g) && v in g.nodes && e !in g.phis && Dominates(g, e, Anchor(g, v))
    ensures Dominates(g, e, v)
    decreases g.phiRank[v]
  {
    if v in g.phis {
      assert v in g.phis * g.nodes && PhiFollowed(g, v);
      DominatesFromAnchor(g, e, g.phiNext[v]);
      DominatesBefore(g, e, v, g.phiNext[v]);
    }
  }

  /** What dominates v dominates v's place, or is that place. */
  lemma DominatesAnchor(g: Cfg, e: nat, v: nat)
    requires Valid(g) && v in g.nodes && Dominates(g, e, v)
    ensures e == Anchor(g, v) || Dominates(g, e, Anchor(g, v))
  {
    forall p | FromHeader(g, p) && p[|p| - 1] == Anchor(g, v) ensures e in p {
      var k := WayToAnchor(g, v, p);
      Prefix(g, p, k);
      assert e in p[..k + 1];
    }
  }

  lemma AnchorIsCandidate(g: Cfg, ss: set<nat>, v: nat)
    requires Valid(g) && ss !! g.phis && Candidate(g, ss, v)
    ensures Candidate(g, ss, Anchor(g, v))
  {
    NothingBefore(g, ss, v);
    AnchorIsFirst(g, ss, v);
    AnchorReached(g, v);
    var a := Anchor(g, v);
    if a != v && Reach(Edges(g), a, a) {
      ReachesAnchor(g, a, v);
      ReachTransitive(Edges(g), v, a, v);
    }
  }

  /** A candidate does not follow itself either. */
  lemma NothingBefore(g: Cfg, ss: set<nat>, v: nat)
    requires Valid(g) && Candidate(g, ss, v)
    ensures forall s :: s in ss ==> !Reach(Edges(g), s, v)
  {
    assert v in g.inner <==> Reach(Edges(g), v, v);
  }

  // ---------------------------------------------------------------- one instruction of the search

  /** An entry is n or dominates it. */
  ghost predicate Shadowed(g: Cfg, entries: set<nat>, n: nat) {
    exists e :: e in entries && (e == n || Dominates(g, e, n))
  }

  ghost predicate Dominated(g: Cfg, entries: set<nat>, n: nat) {
    exists e :: e in entries && Dominates(g, e, n)
  }

  /** The backward search meets only what is near the segment or behind an entry. */
  ghost predicate Met(g: Cfg, ss: set<nat>, entries: set<nat>, n: nat) {
    Near(g, ss, n) || Shadowed(g, entries, n)
  }

  ghost predicate EntriesProper(g: Cfg, ss: set<nat>, entries: set<nat>) {
    forall e :: e in entries ==> e !in g.phis && Candidate(g, ss, e)
  }

  /** Accepting a candidate that no entry dominates enters it if it is in the front, and changes nothing otherwise. */
  lemma Accepted(g: Cfg, ss: set<nat>, entries: set<nat>, v: nat)
    requires Valid(g) && ss !! g.phis && EntriesProper(g, ss, entries) && Met(g, ss, entries, v)
    requires Candidate(g, ss, v) && !Dominated(g, entries, v)
    ensures entries + {Anchor(g, v)} == if v in Front(g, ss) then EnterOne(g, entries, v) else entries
    ensures EntriesProper(g, ss, entries + {Anchor(g, v)})
  {
    AnchorIsCandidate(g, ss, v);
    if e :| e in entries && Dominates(g, e, Anchor(g, v)) { DominatesFromAnchor(g, e, v); }
  }

  /** Passing over what is no candidate or is dominated changes nothing. */
  lemma PassedOver(g: Cfg, ss: set<nat>, entries: set<nat>, v: nat)
    requires Valid(g) && v in g.nodes && EntriesProper(g, ss, entries)
    requires !Candidate(g, ss, v) || Dominated(g, entries, v)
    ensures v in Front(g, ss) ==> EnterOne(g, entries, v) == entries
  {
    if v in Front(g, ss) {
      var e :| e in entries && Dominates(g, e, v);
      DominatesAnchor(g, e, v);
    }
  }

  /** What comes before an instruction that is passed over is met as well. */
  lemma MetBefore(g: Cfg, ss: set<nat>, entries: set<nat>, u: nat, v: nat)
    requires EntriesProper(g, ss, entries) && Met(g, ss, entries, v) && (u, v) in Edges(g)
    requires !Candidate(g, ss, v) || Dominated(g, entries, v)
    ensures Met(g, ss, entries, u)
  {
    if e :| e in entries && Dominates(g, e, v) {
      DominatesBefore(g, e, u, v);
    } else {
      var p: seq<nat> :| LeadsBack(g, ss, p) && p[0] == v;
      var q := [u] + p;
      Join(Edges(g), [u, v], p);
      assert [u, v] + p[1..] == q;
      forall k: nat | 0 < k < |q| ensures !Candidate(g, ss, q[k]) { assert q[k] == p[k - 1]; }
      assert LeadsBack(g, ss, q) && q[0] == u;
    }
  }

  lemma SegmentIsNear(g: Cfg, ss: set<nat>, s: nat)
    requires s in ss
    ensures Near(g, ss, s)
  {
    assert LeadsBack(g, ss, [s]);
  }

  /** A search that holds the segment, and goes on from everything that is no candidate, meets all that is near. */
  lemma {:induction false} NearIsVisited(g: Cfg, ss: set<nat>, visited: set<nat>, p: seq<nat>)
    requires ss <= visited && LeadsBack(g, ss, p)
    requires forall u, v {:trigger (u, v) in Edges(g)} ::
               v in visited && !Candidate(g, ss, v) && (u, v) in Edges(g) ==> u in visited
    ensures p[0] in visited
    decreases |p|
  {
    if |p| > 1 {
      SubPath(Edges(g), p, 1, |p|);
      var q := p[1..];
      forall k: nat | 0 < k < |q| ensures !Candidate(g, ss, q[k]) { assert q[k] == p[k + 1]; }
      NearIsVisited(g, ss, visited, q);
      assert (p[0], p[0 + 1]) in Edges(g);
    }
  }

  // ---------------------------------------------------------------- what the entries of the search are

  lemma {:induction false} EnterGrows(g: Cfg, entries: set<nat>, order: seq<nat>, k: nat)
    requires Valid(g) && k <= |order| && forall v :: v in order ==> v in g.nodes
    ensures EnterAll(g, entries, order[..k]) <= EnterAll(g, entries, order)
    decreases |order|
  {
    if k < |order| {
      var n := |order| - 1;
      EnterGrows(g, entries, order[..n], k);
      assert order[..n][..k] == order[..k];
    } else {
      assert order[..k] == order;
    }
  }

  /** Entries are places of the given instructions. */
  lemma {:induction false} EnteredIsGiven(g: Cfg, entries: set<nat>, order: seq<nat>, e: nat)
    requires Valid(g) && (forall v :: v in order ==> v in g.nodes) && e in EnterAll(g, entries, order)
    ensures e in entries || exists v :: v in order && e == Anchor(g, v)
    decreases |order|
  {
    if order != [] {
      var n := |order| - 1;
      if e in EnterAll(g, entries, order[..n]) {
        EnteredIsGiven(g, entries, order[..n], e);
      } else {
        assert order[n] in order;
      }
    }
  }

  /** The place of each of them is an entry or is dominated by one. */
  lemma {:induction false} GivenIsEntered(g: Cfg, entries: set<nat>, order: seq<nat>, k: nat)
    requires Valid(g) && k < |order| && forall v :: v in order ==> v in g.nodes
    ensures var all := EnterAll(g, entries, order);
            Anchor(g, order[k]) in all || Dominated(g, all, Anchor(g, order[k]))
  {
    EnterGrows(g, entries, order, k + 1);
    assert order[..k + 1][..k] == order[..k] && order[..k + 1][k] == order[k];
    var before := EnterAll(g, entries, order[..k]);
    assert EnterAll(g, entries, order[..k + 1]) == EnterOne(g, before, order[k]);
  }

  /**
   Whatever the order, every entry of the search is the place of an instruction of the
   front, and the place of every instruction of the front is an entry or dominated by one.
   */
  lemma EntriesAreFront(g: Cfg, ss: set<nat>, near: seq<nat>)
    requires Valid(g) && Lists(near, Front(g, ss))
    ensures var entries := EnterAll(g, {}, near);
            && (forall e :: e in entries ==> exists v :: v in Front(g, ss) && e == Anchor(g, v))
            && (forall v :: v in Front(g, ss) ==> Anchor(g, v) in entries || Dominated(g, entries, Anchor(g, v)))
  {
    var entries := EnterAll(g, {}, near);
    forall e | e in entries ensures exists v :: v in Front(g, ss) && e == Anchor(g, v) {
      EnteredIsGiven(g, {}, near, e);
    }
    forall v | v in Front(g, ss) ensures Anchor(g, v) in entries || Dominated(g, entries, Anchor(g, v)) {
      var k: nat :| k < |near| && near[k] == v;
      GivenIsEntered(g, {}, near, k);
    }
  }

  /**
   An instruction of the segment that is a candidate is entered itself, unless another one of the
   front dominates it.
   */
  lemma OwnEntry(g: Cfg, ss: set<nat>, near: seq<nat>, s: nat)
    requires Valid(g) && ss <= g.nodes - g.phis && Lists(near, Front(g, ss)) && s in ss && Candidate(g, ss, s)
    requires forall v :: v in Front(g, ss) ==> !Dominates(g, Anchor(g, v), s)
    ensures s in EnterAll(g, {}, near)
  {
    SegmentIsNear(g, ss, s);
    EntriesAreFront(g, ss, near);
    assert s in Front(g, ss) && Anchor(g, s) == s;
    forall e | e in EnterAll(g, {}, near) ensures !Dominates(g, e, s) {
      var v :| v in Front(g, ss) && e == Anchor(g, v);
    }
  }

  /** A segment of one instruction outside sub-loops is entered there and nowhere else. */
  lemma SingleEntry(g: Cfg, s: nat, near: seq<nat>)
    requires Valid(g) && s in g.nodes - g.phis && s !in g.inner && Lists(near, Front(g, {s}))
    ensures Front(g, {s}) == {s} && EnterAll(g, {}, near) == {s}
  {
    assert Candidate(g, {s}, s);
    SegmentIsNear(g, {s}, s);
    forall v | v in Front(g, {s}) ensures v == s {
      var p: seq<nat> :| LeadsBack(g, {s}, p) && p[0] == v;
      if |p| > 1 { assert !Candidate(g, {s}, p[|p| - 1]); }
    }
    EntriesAreFront(g, {s}, near);
    assert !Dominates(g, s, s);
  }

  /** All places of the front. */
  ghost function Places(g: Cfg, ss: set<nat>): set<nat>
    requires Valid(g)
  {
    set v | v in Front(g, ss) :: Anchor(g, v)
  }

  /**
   The entries of the search do not depend on its order exactly if no place of the front
   dominates another; they are then all those places.
   */
  lemma EveryOrderEntersAllIff(g: Cfg, ss: set<nat>)
    requires Valid(g)
    ensures (forall near :: Lists(near, Front(g, ss)) ==> EnterAll(g, {}, near) == Places(g, ss))
            <==> forall a, b :: a in Places(g, ss) && b in Places(g, ss) ==> !Dominates(g, a, b)
  {
    if forall a, b :: a in Places(g, ss) && b in Places(g, ss) ==> !Dominates(g, a, b) {
      forall near | Lists(near, Front(g, ss)) ensures EnterAll(g, {}, near) == Places(g, ss) {
        EntriesAreFront(g, ss, near);
      }
    }
    if a, b :| a in Places(g, ss) && b in Places(g, ss) && Dominates(g, a, b) {
      DominatorFirst(g, ss, a, b);
    }
  }

  /** If the dominating place comes first, the dominated one is not entered. */
  lemma DominatorFirst(g: Cfg, ss: set<nat>, a: nat, b: nat)
    requires Valid(g) && a in Places(g, ss) && b in Places(g, ss) && Dominates(g, a, b)
    ensures exists near :: Lists(near, Front(g, ss)) && EnterAll(g, {}, near) != Places(g, ss)
  {
    var va :| va in Front(g, ss) && a == Anchor(g, va);
    var near := StartWith(Front(g, ss), va, va);
    assert near[..1] == [va] && [va][..0] == [];
    assert EnterAll(g, {}, near[..1]) == EnterOne(g, {}, va) == {a};
    NeverEntered(g, near, a, b, |near|);
    assert near[..|near|] == near;
  }

  lemma {:induction false} NeverEntered(g: Cfg, near: seq<nat>, a: nat, b: nat, k: nat)
    requires Valid(g) && 1 <= k <= |near| && (forall v :: v in near ==> v in g.nodes) && Dominates(g, a, b)
    requires EnterAll(g, {}, near[..1]) == {a}
    ensures a in EnterAll(g, {}, near[..k]) && b !in EnterAll(g, {}, near[..k])
  {
    if k > 1 {
      NeverEntered(g, near, a, b, k - 1);
      assert near[..k][..k - 1] == near[..k - 1];
    }
  }
}
