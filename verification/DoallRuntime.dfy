/**
 The run-time's bookkeeping: how many cores are idle, and the pool of argument blocks that
 DOALL dispatches take and give back.
 */
module DoallRuntime {
  import opened Arith

  // ---------------------------------------------------------------- machine integers

  const Two32: nat := 0x1_0000_0000

  predicate IsI32(x: int) { -0x8000_0000 <= x < 0x8000_0000 }
  predicate IsU32(x: int) { 0 <= x < Two32 }

  /** Conversions between int32_t and uint32_t. */
  function ToU32(x: int): (u: nat)
    ensures IsU32(u)
  {
    x % Two32
  }

  function ToI32(u: int): (x: int)
    ensures IsI32(x)
  {
    var m := u % Two32;
    if m < 0x8000_0000 then m else m - Two32
  }

  /** Both conversions keep the value modulo 2^32. */
  lemma SameModulo(x: int)
    ensures ToU32(ToI32(x)) == ToU32(x)
    ensures IsI32(x) ==> ToI32(x) == x
  {
    var m := x % Two32;
    if m >= 0x8000_0000 { AddModulus(m - Two32, Two32); }
    if IsI32(x) && x < 0 { AddModulus(x, Two32); }
  }

  // ---------------------------------------------------------------- cores

  /** How many cores a request gets: the comparison converts the signed counter to unsigned. */
  function Granted(idle: int, requested: nat): (n: nat)
    requires IsI32(idle) && IsU32(requested)
  {
    var n := if ToU32(idle) >= requested then requested else ToU32(idle);
    if n < 1 then 1 else n
  }

  /** A request is met as far as cores are idle; a negative counter reads as a huge number of them. */
  lemma GrantIs(idle: int, requested: nat)
    requires IsI32(idle) && IsU32(requested)
    ensures var available := if idle < 0 then Two32 + idle else idle;
            Granted(idle, requested) ==
            if requested == 0 || available == 0 then 1 else if requested <= available then requested else available
  {
    if idle < 0 { AddModulus(idle, Two32); }
  }

  /** At least one core, and never more than asked for unless nothing was. */
  lemma GrantIsInRange(idle: int, requested: nat)
    requires IsI32(idle) && IsU32(requested)
    ensures 1 <= Granted(idle, requested) && IsU32(Granted(idle, requested))
    ensures Granted(idle, requested) <= if requested > 1 then requested else 1
  {}

  /**
   A grant stays within the idle cores (or is the one core everybody gets) exactly when
   the counter is not negative or at most one core is asked for: a negative counter
   compares as a huge unsigned number, so everything that is asked for is granted.
   */
  lemma GrantRespectsIdleCores(idle: int, requested: nat)
    requires IsI32(idle) && IsU32(requested) && requested <= 0x8000_0000
    ensures Granted(idle, requested) <= (if idle > 1 then idle else 1) <==> idle >= 0 || requested <= 1
    ensures idle < 0 && requested > 0 ==> Granted(idle, requested) == requested
  {
    if idle < 0 { AddModulus(idle, Two32); }
  }

  // ---------------------------------------------------------------- argument blocks

  /** The arguments of one task.  `held` is the end lock, `live` says that the task has not returned. */
  datatype Slot = Slot(coreID: nat, held: bool, live: bool, job: nat, numCores: nat)

  function FreshBlock(cores: nat): (s: seq<Slot>)
    ensures |s| == cores && Quiet(s)
  {
    seq(cores, i requires i >= 0 => Slot(i, true, false, 0, 0))
  }

  /** Nothing runs on the block and every end lock is held, as a dispatch expects to find it. */
  predicate Quiet(s: seq<Slot>) {
    forall i: nat :: i < |s| ==> s[i].held && !s[i].live && s[i].coreID == i
  }

  /** Sizes, availability flags and blocks, index by index. */
  datatype Pool = Pool(sizes: seq<nat>, avail: seq<bool>, blocks: seq<seq<Slot>>)

  predicate PoolOk(p: Pool) {
    && |p.sizes| == |p.avail| == |p.blocks|
    && (forall b: nat :: b < |p.blocks| ==> |p.blocks[b]| == p.sizes[b])
    && (forall b: nat :: b < |p.blocks| && p.avail[b] ==> Quiet(p.blocks[b]))
  }

  /** The block a request for `cores` slots gets: the first available one that is large enough, or a new one. */
  predicate Chosen(p: Pool, cores: nat, b: nat)
    requires |p.sizes| == |p.avail|
  {
    && b <= |p.sizes|
    && (b < |p.sizes| ==> p.avail[b] && p.sizes[b] >= cores)
    && (forall x: nat :: x < b && x < |p.sizes| ==> !(p.avail[x] && p.sizes[x] >= cores))
  }

  function Taken(p: Pool, cores: nat, b: nat): (r: Pool)
    requires |p.sizes| == |p.avail| == |p.blocks| && b <= |p.sizes|
  {
    if b < |p.sizes| then p.(avail := p.avail[b := false])
    else Pool(p.sizes + [cores], p.avail + [false], p.blocks + [FreshBlock(cores)])
  }

  class NoelleRuntime {
    const maxCores: nat
    var idleCores: int
    var doallMemorySizes: seq<nat>
    var doallMemoryAvailability: seq<bool>
    var doallMemory: seq<array<Slot>>

    ghost predicate Distinct()
      reads this
    {
      forall i, j :: 0 <= i < j < |doallMemory| ==> doallMemory[i] != doallMemory[j]
    }

    ghost function Blocks(): (s: seq<seq<Slot>>)
      reads this, doallMemory
      ensures |s| == |doallMemory| && forall i :: 0 <= i < |s| ==> s[i] == doallMemory[i][..]
    {
      seq(|doallMemory|, i requires 0 <= i < |doallMemory| reads this, doallMemory => doallMemory[i][..])
    }

    ghost function Contents(): Pool
      reads this, doallMemory
    {
      Pool(doallMemorySizes, doallMemoryAvailability, Blocks())
    }

    ghost predicate Valid()
      reads this, doallMemory
    {
      IsI32(idleCores) && Distinct() && PoolOk(Contents())
    }

    constructor (maxCores: nat)
      requires maxCores < 0x8000_0000
      ensures Valid() && this.maxCores == maxCores && idleCores == maxCores && doallMemory == []
    {
      this.maxCores, idleCores := maxCores, maxCores;
      doallMemorySizes, doallMemoryAvailability, doallMemory := [], [], [];
    }

    method ReserveCores(coresRequested: nat) returns (numCores: nat)
      requires Valid() && IsU32(coresRequested)
      modifies this`idleCores
      ensures Valid() && numCores == Granted(old(idleCores), coresRequested)
      // what is asked for if that many are idle, all that are idle if they are fewer, but at least one
      ensures 1 <= coresRequested <= old(idleCores) ==> numCores == coresRequested
      ensures 1 <= old(idleCores) < coresRequested ==> numCores == old(idleCores)
      ensures old(idleCores) == 0 || coresRequested == 0 ==> numCores == 1
      // a negative counter reads as a huge number of idle cores
      ensures old(idleCores) < 0 && 1 <= coresRequested <= Two32 + old(idleCores) ==> numCores == coresRequested
      ensures old(idleCores) < 0 && Two32 + old(idleCores) < coresRequested ==> numCores == Two32 + old(idleCores)
      ensures idleCores == ToI32(old(idleCores) - numCores)
    {
      GrantIs(idleCores, coresRequested);
      numCores := if ToU32(idleCores) >= coresRequested then coresRequested else ToU32(idleCores);
      if numCores < 1 {
        numCores := 1;
      }
      idleCores := ToI32(ToU32(idleCores) - numCores);
      AddMod(old(idleCores), 0 - numCores, Two32);
    }

    method ReleaseCores(coresReleased: nat)
      requires Valid() && 0 < coresReleased && IsU32(coresReleased)
      modifies this`idleCores
      ensures Valid() && idleCores == ToI32(old(idleCores) + coresReleased)
    {
      idleCores := ToI32(ToU32(idleCores) + coresReleased);
      AddMod(old(idleCores), coresReleased, Two32);
    }

    method GetDOALLArgs(cores: nat) returns (args: array<Slot>, index: nat)
      requires Valid()
      modifies this`doallMemorySizes, this`doallMemoryAvailability, this`doallMemory
      ensures Valid() && Chosen(old(Contents()), cores, index)
      ensures Contents() == Taken(old(Contents()), cores, index)
      ensures index < |doallMemory| && args == doallMemory[index] && args.Length >= cores && Quiet(args[..])
      ensures index == old(|doallMemory|) ==> fresh(args)
    {
      ghost var before := Contents();
      var i := 0;
      while i < |doallMemorySizes|
        invariant 0 <= i <= |doallMemorySizes| && Contents() == before
        invariant forall x: nat :: x < i ==> !(before.avail[x] && before.sizes[x] >= cores)
      {
        if doallMemoryAvailability[i] && doallMemorySizes[i] >= cores {
          args, index := doallMemory[i], i;
          assert Blocks()[i] == args[..] && Quiet(Blocks()[i]);
          doallMemoryAvailability := doallMemoryAvailability[i := false];
          return;
        }
        i := i + 1;
      }
      index := |doallMemorySizes|;
      args := new Slot[cores](k => Slot(0, false, false, 0, 0));
      doallMemorySizes := doallMemorySizes + [cores];
      doallMemoryAvailability := doallMemoryAvailability + [false];
      doallMemory := doallMemory + [args];
      i := 0;
      while i < cores
        modifies args
        invariant 0 <= i <= cores
        invariant forall k :: 0 <= k < i ==> args[k] == Slot(k, true, false, 0, 0)
      {
        args[i] := Slot(i, false, false, 0, 0);
        args[i] := args[i].(held := true);
        i := i + 1;
      }
      assert args[..] == FreshBlock(cores);
      assert Blocks() == before.blocks + [FreshBlock(cores)];
    }

    /** The pool stays in order if the dispatch gives the block back as it found it. */
    method ReleaseDOALLArgs(index: nat)
      requires Valid() && index < |doallMemory|
      modifies this`doallMemoryAvailability
      ensures Contents() == old(Contents()).(avail := old(Contents()).avail[index := true])
      ensures Valid() <==> Quiet(doallMemory[index][..])
    {
      assert Blocks()[index] == doallMemory[index][..];
      doallMemoryAvailability := doallMemoryAvailability[index := true];
      assert Contents().avail[index] && Contents().blocks[index] == doallMemory[index][..];
    }
  }
}
