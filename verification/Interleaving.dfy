/** Many hashers over one growing memory: any interleaving behaves like hashers with private state. */
module Interleaving {
  import opened Prelude
  import opened TrustRoots
  import opened WasmHasher

  type Chunk = v: View | v.InBounds() witness View([], 0, 0)

  /** Instances are numbered in the order they are constructed. */
  datatype Op = Construct | Update(i: nat, chunk: Chunk) | Finalize(i: nat) | Dispose(i: nat)

  datatype Output = Created | Fed | DigestOf(hex: string) | Threw | Disposed | NoInstance

  /** An instance with a private message and no memory at all. */
  datatype Instance = Live(message: Bytes) | Dead

  type Hash = Bytes -> Digest

  function StepOf(sha256: Hash, insts: seq<Instance>, op: Op): (seq<Instance>, Output) {
    match op
    case Construct => (insts + [Live([])], Created)
    case Update(i, chunk) =>
      if i >= |insts| then (insts, NoInstance)
      else if insts[i].Dead? then (insts, Threw)
      else (insts[i := Live(insts[i].message + chunk.Bytes())], Fed)
    case Finalize(i) =>
      if i >= |insts| then (insts, NoInstance)
      else if insts[i].Dead? then (insts, Threw)
      else (insts[i := Dead], DigestOf(Hex(sha256(insts[i].message))))
    case Dispose(i) =>
      if i >= |insts| then (insts, NoInstance) else (insts[i := Dead], Disposed)
  }

  function After(sha256: Hash, insts: seq<Instance>, ops: seq<Op>): seq<Instance>
    decreases |ops|
  {
    if ops == [] then insts else After(sha256, StepOf(sha256, insts, ops[0]).0, ops[1..])
  }

  function Outputs(sha256: Hash, insts: seq<Instance>, ops: seq<Op>): seq<Output>
    decreases |ops|
  {
    if ops == [] then []
    else
      var (next, out) := StepOf(sha256, insts, ops[0]);
      [out] + Outputs(sha256, next, ops[1..])
  }

  function LiveCount(insts: seq<Instance>): nat {
    if insts == [] then 0 else (if insts[|insts| - 1].Live? then 1 else 0) + LiveCount(insts[..|insts| - 1])
  }

  function Higher(n: nat, peak: nat): nat { if n > peak then n else peak }

  /** The most instances alive at one time. */
  function Peak(sha256: Hash, insts: seq<Instance>, ops: seq<Op>, peak: nat): nat
    decreases |ops|
  {
    if ops == [] then peak
    else
      var next := StepOf(sha256, insts, ops[0]).0;
      Peak(sha256, next, ops[1..], Higher(LiveCount(next), peak))
  }

  lemma {:induction false} LiveCountUpdate(insts: seq<Instance>, i: nat, x: Instance)
    requires i < |insts|
    ensures LiveCount(insts[i := x]) ==
      LiveCount(insts) - (if insts[i].Live? then 1 else 0) + (if x.Live? then 1 else 0)
  {
    var n := |insts|;
    if i == n - 1 {
      assert insts[i := x][..n - 1] == insts[..n - 1];
    } else {
      assert insts[i := x][..n - 1] == insts[..n - 1][i := x];
      LiveCountUpdate(insts[..n - 1], i, x);
    }
  }

  lemma LiveCountAppend(insts: seq<Instance>, x: Instance)
    ensures LiveCount(insts + [x]) == LiveCount(insts) + (if x.Live? then 1 else 0)
  {
    assert (insts + [x])[..|insts|] == insts;
  }

  // ---------------------------------------------------------------- the objects against the private instances

  /** This object stands for this instance. */
  ghost predicate Matches(alloc: SlotAllocator, h: WasmSha256Hasher, x: Instance)
    reads alloc, h
  {
    && h.alloc == alloc && h.Valid()
    && (h.done <==> x.Dead?)
    && (x.Live? ==> h.slot in alloc.message && alloc.message[h.slot] == x.message)
  }

  /** Object `i` stands for instance `i`; live objects own their slots, so no two share one. */
  ghost predicate Stands(alloc: SlotAllocator, hs: seq<WasmSha256Hasher>, insts: seq<Instance>)
    reads alloc, hs
  {
    && |hs| == |insts|
    && (forall i, j :: 0 <= i < j < |hs| ==> hs[i] != hs[j])
    && (forall i :: 0 <= i < |hs| ==> Matches(alloc, hs[i], insts[i]))
    && |alloc.owner| == LiveCount(insts)
  }

  method DoConstruct(alloc: SlotAllocator, hs: seq<WasmSha256Hasher>, ghost insts: seq<Instance>, ghost sha256: Hash)
    returns (h: WasmSha256Hasher)
    requires alloc.Valid() && Lawful(alloc.ex.abi, sha256) && Stands(alloc, hs, insts)
    modifies alloc, alloc.ex.memory, alloc.ex.memory.buffer
    ensures alloc.Valid() && fresh(h) && Stands(alloc, hs + [h], insts + [Live([])])
    ensures alloc.ex.memory.buffer == old(alloc.ex.memory.buffer) || fresh(alloc.ex.memory.buffer)
    ensures alloc.peak == Higher(LiveCount(insts + [Live([])]), old(alloc.peak))
  {
    hide Partition, AllHold, SlotStart, Lawful;
    h := new WasmSha256Hasher(alloc, sha256);
    LiveCountAppend(insts, Live([]));
    forall i | 0 <= i < |hs| + 1 ensures Matches(alloc, (hs + [h])[i], (insts + [Live([])])[i]) {
      if i < |hs| { assert old(Matches(alloc, hs[i], insts[i])); }
    }
  }

  method DoUpdate(alloc: SlotAllocator, hs: seq<WasmSha256Hasher>, i: nat, chunk: Chunk,
                  ghost insts: seq<Instance>, ghost sha256: Hash)
    returns (ok: bool)
    requires alloc.Valid() && Lawful(alloc.ex.abi, sha256) && Stands(alloc, hs, insts) && i < |hs|
    modifies alloc`message, alloc.ex.memory.buffer
    ensures alloc.Valid() && ok == insts[i].Live?
    ensures Stands(alloc, hs, if ok then insts[i := Live(insts[i].message + chunk.Bytes())] else insts)
  {
    hide Partition, AllHold, SlotStart, Lawful;
    assert Matches(alloc, hs[i], insts[i]);
    ok := hs[i].Update(chunk, sha256);
    ghost var insts' := if ok then insts[i := Live(insts[i].message + chunk.Bytes())] else insts;
    if ok { LiveCountUpdate(insts, i, Live(insts[i].message + chunk.Bytes())); }
    forall j | 0 <= j < |hs| ensures Matches(alloc, hs[j], insts'[j]) {
      assert old(Matches(alloc, hs[j], insts[j]));
      assert j != i ==> hs[j] != hs[i];
    }
  }

  method DoFinalize(alloc: SlotAllocator, hs: seq<WasmSha256Hasher>, i: nat, ghost insts: seq<Instance>,
                    ghost sha256: Hash)
    returns (digest: Option<string>)
    requires alloc.Valid() && Lawful(alloc.ex.abi, sha256) && Stands(alloc, hs, insts) && i < |hs|
    modifies {hs[i]}, alloc, alloc.ex.memory.buffer
    ensures alloc.Valid() && Stands(alloc, hs, insts[i := Dead]) && alloc.peak == old(alloc.peak)
    ensures digest == if insts[i].Live? then Some(Hex(sha256(insts[i].message))) else None
  {
    hide Partition, AllHold, SlotStart, Lawful, Hex;
    assert Matches(alloc, hs[i], insts[i]);
    var h := hs[i];
    digest := h.Finalize(sha256);
    LiveCountUpdate(insts, i, Dead);
  }

  method DoDispose(alloc: SlotAllocator, hs: seq<WasmSha256Hasher>, i: nat, ghost insts: seq<Instance>)
    requires alloc.Valid() && Stands(alloc, hs, insts) && i < |hs|
    modifies hs[i], alloc
    ensures alloc.Valid() && Stands(alloc, hs, insts[i := Dead]) && alloc.peak == old(alloc.peak)
  {
    hide Partition, AllHold, SlotStart;
    assert Matches(alloc, hs[i], insts[i]);
    hs[i].Dispose();
    LiveCountUpdate(insts, i, Dead);
  }

  lemma LiveWithinPeak(alloc: SlotAllocator)
    requires alloc.Indices()
    ensures |alloc.owner| <= alloc.peak
  {
    assert |alloc.owner.Keys| == |alloc.owner|;
  }

  lemma AllocatedIsPeak(alloc: SlotAllocator)
    requires alloc.Indices()
    ensures alloc.next == alloc.peak
  {
  }

  /** One operation on the objects is one operation on the private instances. */
  method Perform(alloc: SlotAllocator, hs: seq<WasmSha256Hasher>, op: Op, ghost insts: seq<Instance>,
                 ghost sha256: Hash)
    returns (hs': seq<WasmSha256Hasher>, out: Output)
    requires alloc.Valid() && Lawful(alloc.ex.abi, sha256) && Stands(alloc, hs, insts)
    modifies alloc, alloc.ex.memory, alloc.ex.memory.buffer, hs
    ensures alloc.Valid() && Stands(alloc, hs', StepOf(sha256, insts, op).0)
    ensures out == StepOf(sha256, insts, op).1
    ensures alloc.peak == Higher(LiveCount(StepOf(sha256, insts, op).0), old(alloc.peak))
    ensures alloc.ex.memory.buffer == old(alloc.ex.memory.buffer) || fresh(alloc.ex.memory.buffer)
    ensures forall i :: 0 <= i < |hs'| ==> (i < |hs| && hs'[i] == hs[i]) || fresh(hs'[i])
  {
    hide Partition, AllHold, SlotStart, Lawful, Hex, Matches;
    LiveWithinPeak(alloc);
    hs' := hs;
    match op {
      case Construct =>
        var h := DoConstruct(alloc, hs, insts, sha256);
        hs', out := hs + [h], Created;
      case Update(i, chunk) =>
        if i >= |hs| { return hs, NoInstance; }
        var ok := DoUpdate(alloc, hs, i, chunk, insts, sha256);
        LiveWithinPeak(alloc);
        out := if ok then Fed else Threw;
      case Finalize(i) =>
        if i >= |hs| { return hs, NoInstance; }
        assert insts[i].Dead? ==> insts[i := Dead] == insts;
        var digest := DoFinalize(alloc, hs, i, insts, sha256);
        LiveWithinPeak(alloc);
        out := if digest.Some? then DigestOf(digest.value) else Threw;
      case Dispose(i) =>
        if i >= |hs| { return hs, NoInstance; }
        DoDispose(alloc, hs, i, insts);
        LiveWithinPeak(alloc);
        out := Disposed;
    }
  }

  lemma ScriptStep(sha256: Hash, insts: seq<Instance>, ops: seq<Op>, k: nat, peak: nat)
    requires k < |ops|
    ensures
      var (next, out) := StepOf(sha256, insts, ops[k]);
      && Outputs(sha256, insts, ops[k..]) == [out] + Outputs(sha256, next, ops[k + 1..])
      && Peak(sha256, insts, ops[k..], peak) == Peak(sha256, next, ops[k + 1..], Higher(LiveCount(next), peak))
  {
    assert ops[k..][0] == ops[k] && ops[k..][1..] == ops[k + 1..];
  }

  lemma ScriptEnd(sha256: Hash, insts: seq<Instance>, ops: seq<Op>, peak: nat)
    ensures Outputs(sha256, insts, ops[|ops|..]) == [] && Peak(sha256, insts, ops[|ops|..], peak) == peak
  {
  }

  /** The script, over an allocator nobody uses yet. */
  method RunOn(alloc: SlotAllocator, ops: seq<Op>, ghost sha256: Hash) returns (outputs: seq<Output>)
    requires alloc.Valid() && Lawful(alloc.ex.abi, sha256) && alloc.owner == map[]
    modifies alloc, alloc.ex.memory, alloc.ex.memory.buffer
    ensures alloc.Valid() && outputs == Outputs(sha256, [], ops)
    ensures alloc.peak == Peak(sha256, [], ops, old(alloc.peak))
  {
    hide Partition, AllHold, SlotStart, Lawful, Matches, StepOf, Outputs, Peak, Higher;
    var hs: seq<WasmSha256Hasher> := [];
    outputs := [];
    ghost var insts: seq<Instance> := [];
    assert ops[0..] == ops;
    for k := 0 to |ops|
      invariant alloc.Valid() && Stands(alloc, hs, insts)
      invariant forall i :: 0 <= i < |hs| ==> fresh(hs[i])
      invariant alloc.ex.memory.buffer == old(alloc.ex.memory.buffer) || fresh(alloc.ex.memory.buffer)
      invariant Outputs(sha256, [], ops) == outputs + Outputs(sha256, insts, ops[k..])
      invariant Peak(sha256, [], ops, old(alloc.peak)) == Peak(sha256, insts, ops[k..], alloc.peak)
    {
      ScriptStep(sha256, insts, ops, k, alloc.peak);
      var out: Output;
      hs, out := Perform(alloc, hs, ops[k], insts, sha256);
      insts := StepOf(sha256, insts, ops[k]).0;
      outputs := outputs + [out];
    }
    ScriptEnd(sha256, insts, ops, alloc.peak);
  }

  /** Any script of constructions, updates, finalizations and disposals, interleaved at will over one
      memory that grows as it must: each operation answers as it would on instances that share
      nothing, and the slots ever allocated are as many as were alive at once. */
  method RunScript(abi: Abi, initial: nat, ops: seq<Op>, ghost sha256: Hash) returns (outputs: seq<Output>, slots: nat)
    requires Lawful(abi, sha256) && abi.heapBase <= initial
    ensures outputs == Outputs(sha256, [], ops)
    ensures slots == Peak(sha256, [], ops, 0)
  {
    hide Partition, AllHold, SlotStart, Lawful;
    var memory := new WasmMemory(initial);
    var ex := new HasherExports(memory, abi);
    var alloc := new SlotAllocator(ex);
    outputs := RunOn(alloc, ops, sha256);
    AllocatedIsPeak(alloc);
    slots := alloc.next;
  }

  // ---------------------------------------------------------------- what an instance's message is

  /** The chunks a script addresses to instance `i` once `created` instances exist, concatenated. */
  function AddressedTo(ops: seq<Op>, i: nat, created: nat): Bytes
    decreases |ops|
  {
    if ops == [] then []
    else
      match ops[0]
      case Construct => AddressedTo(ops[1..], i, created + 1)
      case Update(j, chunk) =>
        (if j == i && i < created then chunk.Bytes() else []) + AddressedTo(ops[1..], i, created)
      case _ => AddressedTo(ops[1..], i, created)
  }

  /** While an instance lives, its message is its own chunks, whatever else the script does. */
  lemma {:induction false} OwnChunksOnly(sha256: Hash, insts: seq<Instance>, ops: seq<Op>, i: nat)
    requires i < |After(sha256, insts, ops)| && After(sha256, insts, ops)[i].Live?
    ensures i < |insts| ==> insts[i].Live?
    ensures After(sha256, insts, ops)[i].message
         == (if i < |insts| then insts[i].message else []) + AddressedTo(ops, i, |insts|)
    decreases |ops|
  {
    if ops != [] {
      var next := StepOf(sha256, insts, ops[0]).0;
      OwnChunksOnly(sha256, next, ops[1..], i);
      hide Hex;
    }
  }

  lemma {:induction false} OutputsConcat(sha256: Hash, insts: seq<Instance>, a: seq<Op>, b: seq<Op>)
    ensures Outputs(sha256, insts, a + b) == Outputs(sha256, insts, a) + Outputs(sha256, After(sha256, insts, a), b)
    decreases |a|
  {
    if a == [] {
      assert a + b == b;
    } else {
      assert (a + b)[1..] == a[1..] + b;
      OutputsConcat(sha256, StepOf(sha256, insts, a[0]).0, a[1..], b);
    }
  }

  /** Whatever came before and between, finalizing a live instance yields the hash of exactly the
      chunks addressed to it. */
  lemma FinalizeHashesOwnChunks(sha256: Hash, ops: seq<Op>, i: nat)
    requires i < |After(sha256, [], ops)| && After(sha256, [], ops)[i].Live?
    ensures Outputs(sha256, [], ops + [Finalize(i)])
         == Outputs(sha256, [], ops) + [DigestOf(Hex(sha256(AddressedTo(ops, i, 0))))]
  {
    OwnChunksOnly(sha256, [], ops, i);
    OutputsConcat(sha256, [], ops, [Finalize(i)]);
    var insts := After(sha256, [], ops);
    assert [] + AddressedTo(ops, i, 0) == AddressedTo(ops, i, 0);
    assert Outputs(sha256, insts, [Finalize(i)]) == [StepOf(sha256, insts, Finalize(i)).1] + Outputs(sha256, insts[i := Dead], []);
  }
}
