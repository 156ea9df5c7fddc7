/**
 How the iterations of a loop are dealt to tasks.  DOALL deals chunks: task t of T runs
 the indices i with (i / chunk) mod T == t.  The emitted loop keeps only the value of the
 governing induction variable and a chunk counter, jumps over the chunks of the other
 tasks at the end of each of its own, and must notice that it iterated past the bound.
 HELIX deals single iterations, i mod n, which is the case of chunks of one.
 */
module DoallChunks {
  import opened Arith

  // ---------------------------------------------------------------- lists of indices by owner

  /** The indices below n that `owner` gives to t, in increasing order. */
  ghost function Owned(owner: nat -> nat, t: nat, n: nat): seq<nat> {
    if n == 0 then []
    else Owned(owner, t, n - 1) + if owner(n - 1) == t then [n - 1] else []
  }

  lemma {:induction false} OwnedIsFilter(owner: nat -> nat, t: nat, n: nat)
    ensures forall i: nat :: i in Owned(owner, t, n) <==> i < n && owner(i) == t
    ensures forall j, k :: 0 <= j < k < |Owned(owner, t, n)| ==> Owned(owner, t, n)[j] < Owned(owner, t, n)[k]
  {
    if n > 0 {
      OwnedIsFilter(owner, t, n - 1);
      var p := Owned(owner, t, n - 1);
      assert forall k :: 0 <= k < |p| ==> p[k] in p;
    }
  }

  /** A task that owns nothing in [a, b) has the same list for a and for b. */
  lemma {:induction false} OwnedSkips(owner: nat -> nat, t: nat, a: nat, b: nat)
    requires a <= b && forall i: nat :: a <= i < b ==> owner(i) != t
    ensures Owned(owner, t, b) == Owned(owner, t, a)
    decreases b
  {
    if a < b { OwnedSkips(owner, t, a, b - 1); }
  }

  lemma {:induction false} OwnedGrows(owner: nat -> nat, t: nat, a: nat, b: nat)
    requires a <= b
    ensures Owned(owner, t, a) <= Owned(owner, t, b)
    decreases b
  {
    if a < b { OwnedGrows(owner, t, a, b - 1); }
  }

  /** A list up to b without elements from a on is the list up to a. */
  lemma OwnedBelow(owner: nat -> nat, t: nat, a: nat, b: nat)
    requires a <= b && forall i: nat :: i in Owned(owner, t, b) ==> i < a
    ensures Owned(owner, t, b) == Owned(owner, t, a)
  {
    OwnedIsFilter(owner, t, b);
    OwnedSkips(owner, t, a, b);
  }

  ghost function Together(share: nat -> multiset<nat>, k: nat): multiset<nat> {
    if k == 0 then multiset{} else Together(share, k - 1) + share(k - 1)
  }

  ghost function Shares(owner: nat -> nat, n: nat): nat -> multiset<nat> {
    (t: nat) => multiset(Owned(owner, t, n))
  }

  /** The indices that the first k tasks run together. */
  ghost function AllOwned(owner: nat -> nat, n: nat, k: nat): multiset<nat> {
    Together(Shares(owner, n), k)
  }

  ghost function Below(n: nat): (s: seq<nat>)
    ensures |s| == n && forall i :: 0 <= i < n ==> s[i] == i
  {
    seq(n, i requires 0 <= i => i)
  }

  lemma OneMoreOwned(owner: nat -> nat, n: nat, t: nat)
    ensures multiset(Owned(owner, t, n + 1)) == multiset(Owned(owner, t, n)) + if owner(n) == t then multiset{n}
            else multiset{}
  {
    assert Owned(owner, t, n + 1) == Owned(owner, t, n) + if owner(n) == t then [n] else [];
  }

  lemma OneMoreBelow(n: nat)
    ensures multiset(Below(n + 1)) == multiset(Below(n)) + multiset{n}
  {
    assert Below(n + 1) == Below(n) + [n];
  }

  /** If one share grows by x, so does the sum. */
  lemma {:induction false} OneShareGrows(
    f: nat -> multiset<nat>, g: nat -> multiset<nat>, who: nat, x: multiset<nat>, k: nat)
    requires forall t: nat :: g(t) == f(t) + if t == who then x else multiset{}
    ensures Together(g, k) == Together(f, k) + if who < k then x else multiset{}
  {
    if k > 0 { OneShareGrows(f, g, who, x, k - 1); }
  }

  lemma OneMoreIndex(owner: nat -> nat, n: nat, k: nat)
    ensures AllOwned(owner, n + 1, k) == AllOwned(owner, n, k) + if owner(n) < k then multiset{n} else multiset{}
  {
    forall t: nat
      ensures Shares(owner, n + 1)(t) == Shares(owner, n)(t) + if t == owner(n) then multiset{n} else multiset{} {
      OneMoreOwned(owner, n, t);
    }
    OneShareGrows(Shares(owner, n), Shares(owner, n + 1), owner(n), multiset{n}, k);
  }

  lemma {:induction false} NothingOwned(owner: nat -> nat, k: nat)
    ensures AllOwned(owner, 0, k) == multiset{}
  {
    if k > 0 { NothingOwned(owner, k - 1); }
  }

  /** When every index has an owner among the tasks, each index below n is run once, by one task. */
  lemma {:induction false} ExactCover(owner: nat -> nat, tasks: nat, n: nat)
    requires forall i: nat :: owner(i) < tasks
    ensures AllOwned(owner, n, tasks) == multiset(Below(n))
  {
    if n == 0 {
      NothingOwned(owner, tasks);
    } else {
      ExactCover(owner, tasks, n - 1);
      OneMoreIndex(owner, n - 1, tasks);
      OneMoreBelow(n - 1);
    }
  }

  // ---------------------------------------------------------------- chunks

  function Owner(i: nat, chunk: nat, tasks: nat): nat
    requires 0 < chunk && 0 < tasks
  {
    (i / chunk) % tasks
  }

  function OwnerOf(chunk: nat, tasks: nat): nat -> nat
    requires 0 < chunk && 0 < tasks
  {
    (i: nat) => Owner(i, chunk, tasks)
  }

  /** The next index of the same task: the next one, or the start of its next chunk. */
  function NextIndex(i: nat, chunk: nat, tasks: nat): nat
    requires 0 < chunk && 0 < tasks
  {
    if i % chunk + 1 == chunk then i + 1 + (tasks - 1) * chunk else i + 1
  }

  lemma SameChunk(i: nat, chunk: nat)
    requires 0 < chunk && i % chunk + 1 < chunk
    ensures (i + 1) / chunk == i / chunk && (i + 1) % chunk == i % chunk + 1
  {
    DivModUnique(chunk, i / chunk, i % chunk + 1);
    assert i + 1 == chunk * (i / chunk) + (i % chunk + 1);
  }

  /** Quotient and remainder r indices after the end of a chunk. */
  lemma AfterChunk(i: nat, chunk: nat, r: nat)
    requires 0 < chunk && i % chunk + 1 == chunk
    ensures (i + 1 + r) / chunk == i / chunk + 1 + r / chunk && (i + 1 + r) % chunk == r % chunk
  {
    var q := i / chunk + 1 + r / chunk;
    assert i == chunk * (i / chunk) + (chunk - 1);
    assert r == chunk * (r / chunk) + r % chunk;
    assert chunk * q == chunk * (i / chunk) + chunk + chunk * (r / chunk);
    DivModUnique(chunk, q, r % chunk);
  }

  lemma OtherTask(q: nat, x: nat, tasks: nat)
    requires 0 < tasks && x + 1 < tasks
    ensures (q + 1 + x) % tasks != q % tasks
  {
    if (q + 1 + x) % tasks == q % tasks { SameResidue(q + 1 + x, q, tasks); }
  }

  lemma SmallQuotient(r: nat, chunk: nat, m: nat)
    requires 0 < chunk && r < m * chunk
    ensures r / chunk < m
  {
    assert r == chunk * (r / chunk) + r % chunk;
    if r / chunk >= m { MulMonotone(chunk, m, r / chunk); }
  }

  /** The jump lands on the task's own next index, with the chunk counter the loop keeps, and skips only others'. */
  lemma NextIsOwn(i: nat, chunk: nat, tasks: nat)
    requires 0 < chunk && 0 < tasks
    ensures var j := NextIndex(i, chunk, tasks);
            && i < j
            && Owner(j, chunk, tasks) == Owner(i, chunk, tasks)
            && j % chunk == (if i % chunk + 1 == chunk then 0 else i % chunk + 1)
            && forall k: nat :: i < k < j ==> Owner(k, chunk, tasks) != Owner(i, chunk, tasks)
  {
    if i % chunk + 1 == chunk {
      var m := (tasks - 1) * chunk;
      assert m == chunk * (tasks - 1) + 0;
      DivModUnique(chunk, tasks - 1, 0);
      AfterChunk(i, chunk, m);
      assert i / chunk + 1 + (tasks - 1) == i / chunk + tasks;
      AddModulus(i / chunk, tasks);
      forall k: nat | i < k < i + 1 + m ensures Owner(k, chunk, tasks) != Owner(i, chunk, tasks) {
        var r := k - i - 1;
        AfterChunk(i, chunk, r);
        SmallQuotient(r, chunk, tasks - 1);
        OtherTask(i / chunk, r / chunk, tasks);
      }
    } else {
      SameChunk(i, chunk);
    }
  }

  lemma BeforeFirst(t: nat, chunk: nat, tasks: nat, i: nat)
    requires 0 < chunk && t < tasks && i < t * chunk
    ensures Owner(i, chunk, tasks) != t
  {
    SmallQuotient(i, chunk, t);
    SmallMod(i / chunk, tasks);
  }

  /** Task t starts at its first index. */
  lemma FirstIndex(t: nat, chunk: nat, tasks: nat)
    requires 0 < chunk && t < tasks
    ensures Owner(t * chunk, chunk, tasks) == t && (t * chunk) % chunk == 0
    ensures Owned(OwnerOf(chunk, tasks), t, t * chunk) == []
  {
    var owner, first := OwnerOf(chunk, tasks), t * chunk;
    assert first == chunk * t + 0;
    DivModUnique(chunk, t, 0);
    SmallMod(t, tasks);
    forall i: nat | i < first ensures owner(i) != t { BeforeFirst(t, chunk, tasks, i); }
    OwnedSkips(owner, t, 0, first);
  }

  /** The list up to the next index adds exactly the current one. */
  lemma OwnedStep(i: nat, chunk: nat, tasks: nat, t: nat)
    requires 0 < chunk && 0 < tasks && Owner(i, chunk, tasks) == t
    ensures Owned(OwnerOf(chunk, tasks), t, NextIndex(i, chunk, tasks)) == Owned(OwnerOf(chunk, tasks), t, i) + [i]
  {
    var owner, j := OwnerOf(chunk, tasks), NextIndex(i, chunk, tasks);
    NextIsOwn(i, chunk, tasks);
    forall k: nat | i + 1 <= k < j ensures owner(k) != t { assert Owner(k, chunk, tasks) != Owner(i, chunk, tasks); }
    OwnedSkips(owner, t, i + 1, j);
    assert owner(i) == t;
  }

  /** Chunks of one deal iteration i to task i mod n. */
  lemma ChunksOfOne(i: nat, tasks: nat)
    requires 0 < tasks
    ensures Owner(i, 1, tasks) == i % tasks && NextIndex(i, 1, tasks) == i + tasks
  {
  }

  // ---------------------------------------------------------------- the exit test

  /** The exit test after it was made to catch iterating past the bound. */
  predicate Past(iv: int, step: int, bound: int) {
    if step > 0 then iv >= bound else iv <= bound
  }

  /** n is the trip count: the first index at which the exit test holds. */
  ghost predicate TripCount(n: nat, start: int, step: int, bound: int) {
    && Past(start + step * n, step, bound)
    && forall i: nat :: i < n ==> !Past(start + step * i, step, bound)
  }

  /** With a rising or a falling induction variable the test holds exactly from the trip count on. */
  lemma PastIff(i: nat, n: nat, start: int, step: int, bound: int)
    requires step != 0 && TripCount(n, start, step, bound)
    ensures Past(start + step * i, step, bound) <==> i >= n
  {
    if i >= n {
      if step > 0 { ScaleUp(step, n, i); } else { ScaleUp(-step, n, i); }
    }
  }

  lemma ScaleUp(step: int, n: nat, i: nat)
    requires 0 <= step && n <= i
    ensures step * n <= step * i && (-step) * i <= (-step) * n
  {
    MulMonotone(step, n, i);
    assert (-step) * i == -(step * i) && (-step) * n == -(step * n);
  }
}
