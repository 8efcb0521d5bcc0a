/** The streaming SHA-256 hasher over shared Wasm memory (runtime/veilguard-verify.mjs, wasm-hasher/src/lib.rs). */
module WasmHasher {
  import opened Prelude
  import opened TrustRoots

  const COPY_WINDOW := 65536
  const PAGE := 65536

  /** What the module does to a state slot, as its ABI states it: `init`, `absorb` and `digest` work on the
      bytes of the slot as they are, and `stands` says which bytes stand for which message. Many may:
      the module's buffer and padding can hold leftovers that no later call looks at. */
  datatype Abi = Abi(
    stateSize: nat,
    heapBase: nat,
    init: Bytes -> Bytes,
    absorb: (Bytes, Bytes) -> Bytes,
    digest: Bytes -> Digest,
    stands: (Bytes, Bytes) -> bool)

  /** The law of incremental hashing: a slot just initialised stands for the empty message, feeding `b`
      to one that stands for `m` makes it stand for `m + b`, and the digest of a slot is the hash of
      what it stands for. */
  ghost predicate Lawful(abi: Abi, sha256: Bytes -> Digest) {
    && (forall s :: |s| == abi.stateSize ==> |abi.init(s)| == abi.stateSize && abi.stands(abi.init(s), []))
    && (forall s, m, b :: |s| == abi.stateSize && abi.stands(s, m) ==>
          |abi.absorb(s, b)| == abi.stateSize && abi.stands(abi.absorb(s, b), m + b))
    && (forall s, m :: |s| == abi.stateSize && abi.stands(s, m) ==> abi.digest(s) == sha256(m))
  }

  function Align8(n: nat): (r: nat)
    ensures n <= r < n + 8 && r % 8 == 0
  {
    (n + 7) / 8 * 8
  }

  // ---------------------------------------------------------------- slots, as stretches of bytes

  function SlotSize(abi: Abi): (r: nat)
    ensures r >= abi.stateSize + 32 + COPY_WINDOW
  {
    Align8(abi.stateSize) + 32 + COPY_WINDOW
  }

  function SlotStart(abi: Abi, index: nat): nat {
    abi.heapBase + index * SlotSize(abi)
  }

  /** A slot is: state, digest, copy window. */
  function OutAt(abi: Abi, index: nat): nat { SlotStart(abi, index) + Align8(abi.stateSize) }

  function CopyAt(abi: Abi, index: nat): nat { OutAt(abi, index) + 32 }

  /** Memory of this length was grown for something that ends at `need`: not at all if that fits, and otherwise by
      the fewest pages of 64 KiB that make it fit. */
  predicate GrownTo(length: nat, need: nat, grown: nat) {
    if need <= length then grown == length
    else (grown - length) % 65536 == 0 && need <= grown < need + 65536
  }

  lemma FewestPages(length: nat, need: nat, pages: nat)
    requires need > length && pages == (need - length + PAGE - 1) / PAGE
    ensures GrownTo(length, need, length + pages * PAGE)
  {
  }

  /** Different slots occupy disjoint stretches above the heap base. */
  lemma SlotsDisjoint(abi: Abi, i: nat, j: nat)
    requires i < j
    ensures abi.heapBase <= SlotStart(abi, i)
    ensures SlotStart(abi, i) + SlotSize(abi) == SlotStart(abi, i + 1) <= SlotStart(abi, j)
  {
    var size := SlotSize(abi);
    assert (i + 1) * size == i * size + size;
    assert (i + 1) * size <= j * size;
  }

  /** Memory that changed, above the heap base, only between `lo` and `hi`. */
  ghost predicate KeptOutside(abi: Abi, before: Bytes, after: Bytes, lo: nat, hi: nat) {
    && |before| <= |after|
    && forall i :: abi.heapBase <= i < |before| && !(lo <= i < hi) ==> after[i] == before[i]
  }

  /** Above the heap base, exactly these bytes were written at `at`. */
  ghost predicate Wrote(abi: Abi, before: Bytes, after: Bytes, at: nat, bytes: Bytes) {
    && KeptOutside(abi, before, after, at, at + |bytes|)
    && |after| == |before| && at + |bytes| <= |after| && after[at..at + |bytes|] == bytes
  }

  /** The state part of slot `k`. */
  function StateIn(abi: Abi, memory: Bytes, k: nat): (r: Bytes)
    requires SlotStart(abi, k) + abi.stateSize <= |memory|
    ensures |r| == abi.stateSize
  {
    memory[SlotStart(abi, k)..SlotStart(abi, k) + abi.stateSize]
  }

  /** Slot `k` stands for this message. */
  ghost predicate HoldsIn(abi: Abi, memory: Bytes, k: nat, message: Bytes) {
    SlotStart(abi, k) + abi.stateSize <= |memory| && abi.stands(StateIn(abi, memory, k), message)
  }

  ghost predicate AllHold(abi: Abi, memory: Bytes, messages: map<nat, Bytes>) {
    forall k :: k in messages ==> HoldsIn(abi, memory, k, messages[k])
  }

  lemma KeptHolds(abi: Abi, before: Bytes, after: Bytes, lo: nat, hi: nat, k: nat, message: Bytes)
    requires abi.heapBase <= lo <= hi && KeptOutside(abi, before, after, lo, hi) && HoldsIn(abi, before, k, message)
    requires SlotStart(abi, k) + abi.stateSize <= lo || hi <= SlotStart(abi, k)
    ensures HoldsIn(abi, after, k, message)
  {
    var s, n := SlotStart(abi, k), abi.stateSize;
    assert s >= abi.heapBase by { SlotsDisjoint(abi, k, k + 1); }
    assert forall i :: s <= i < s + n ==> after[i] == before[i];
    assert after[s..s + n] == before[s..s + n];
  }

  /** Separation: work inside one slot disturbs no other slot's state. */
  lemma OthersUndisturbed(abi: Abi, before: Bytes, after: Bytes, index: nat, messages: map<nat, Bytes>)
    requires KeptOutside(abi, before, after, SlotStart(abi, index), SlotStart(abi, index) + SlotSize(abi))
    requires AllHold(abi, before, messages) && index !in messages
    ensures AllHold(abi, after, messages)
  {
    forall k | k in messages ensures HoldsIn(abi, after, k, messages[k]) {
      if k < index { SlotsDisjoint(abi, k, index); } else { SlotsDisjoint(abi, index, k); }
      assert HoldsIn(abi, before, k, messages[k]);
      SlotsDisjoint(abi, index, index + 1);
      KeptHolds(abi, before, after, SlotStart(abi, index), SlotStart(abi, index) + SlotSize(abi), k, messages[k]);
    }
  }

  // ---------------------------------------------------------------- linear memory

  /** Linear memory; growing it detaches the old buffer. */
  class WasmMemory {
    var buffer: array<byte>

    constructor (length: nat)
      ensures fresh(buffer) && buffer.Length == length
    {
      buffer := new byte[length];
    }

    method Grow(pages: nat)
      modifies this
      ensures fresh(buffer) && buffer.Length == old(buffer.Length) + pages * PAGE
      ensures old(buffer[..]) <= buffer[..]
    {
      var grown := new byte[buffer.Length + pages * PAGE];
      forall i | 0 <= i < buffer.Length {
        grown[i] := buffer[i];
      }
      buffer := grown;
    }

    /** `new Uint8Array(memory.buffer).set(piece, at)` */
    method Put(at: nat, piece: Bytes)
      requires at + |piece| <= buffer.Length
      modifies buffer
      ensures buffer[..] == old(buffer[..at]) + piece + old(buffer[at + |piece|..])
    {
      forall i | 0 <= i < |piece| {
        buffer[at + i] := piece[i];
      }
    }
  }

  /** The instantiated module. Every call may also overwrite anything below the heap base, where its
      shadow stack lives, so nothing is promised about those bytes. */
  class HasherExports {
    const memory: WasmMemory
    const abi: Abi

    constructor (memory: WasmMemory, abi: Abi)
      ensures this.memory == memory && this.abi == abi
    {
      this.memory := memory;
      this.abi := abi;
    }

    /** The frame a call pushes below the heap base. */
    method PushFrame()
      requires abi.heapBase <= memory.buffer.Length
      modifies memory.buffer
      ensures memory.buffer[..][abi.heapBase..] == old(memory.buffer[..][abi.heapBase..])
    {
      for i := 0 to abi.heapBase
        invariant memory.buffer[..][abi.heapBase..] == old(memory.buffer[..][abi.heapBase..])
      {
        memory.buffer[i] := *;
      }
    }

    method HasherInit(state: nat)
      requires abi.heapBase <= state && state + abi.stateSize <= memory.buffer.Length
      requires |abi.init(memory.buffer[..][state..state + abi.stateSize])| == abi.stateSize
      modifies memory.buffer
      ensures Wrote(abi, old(memory.buffer[..]), memory.buffer[..], state,
        old(abi.init(memory.buffer[..][state..state + abi.stateSize])))
    {
      var empty := abi.init(memory.buffer[..][state..state + abi.stateSize]);
      PushFrame();
      FrameKeeps(abi, old(memory.buffer[..]), memory.buffer[..], state);
      ghost var pushed := memory.buffer[..];
      memory.Put(state, empty);
      PutWrites(abi, old(memory.buffer[..]), pushed, memory.buffer[..], state, empty);
    }

    method HasherUpdate(state: nat, data: nat, len: nat)
      requires abi.heapBase <= state && state + abi.stateSize <= memory.buffer.Length
      requires abi.heapBase <= data && data + len <= memory.buffer.Length
      requires |abi.absorb(memory.buffer[..][state..state + abi.stateSize], memory.buffer[..][data..data + len])| == abi.stateSize
      modifies memory.buffer
      ensures Wrote(abi, old(memory.buffer[..]), memory.buffer[..], state,
        old(abi.absorb(memory.buffer[..][state..state + abi.stateSize], memory.buffer[..][data..data + len])))
    {
      var after := abi.absorb(memory.buffer[..][state..state + abi.stateSize], memory.buffer[..][data..data + len]);
      PushFrame();
      FrameKeeps(abi, old(memory.buffer[..]), memory.buffer[..], state);
      ghost var pushed := memory.buffer[..];
      memory.Put(state, after);
      PutWrites(abi, old(memory.buffer[..]), pushed, memory.buffer[..], state, after);
    }

    /** Writes the digest, then zeroes the state. */
    method HasherFinalize(state: nat, out: nat)
      requires abi.heapBase <= state && state + abi.stateSize <= out && out + 32 <= memory.buffer.Length
      modifies memory.buffer
      ensures KeptOutside(abi, old(memory.buffer[..]), memory.buffer[..], state, out + 32)
      ensures memory.buffer.Length == old(memory.buffer.Length)
      ensures memory.buffer[..][out..out + 32] == old(abi.digest(memory.buffer[..][state..state + abi.stateSize]))
      ensures memory.buffer[..][state..state + abi.stateSize] == seq(abi.stateSize, _ => 0)
    {
      var digest := abi.digest(memory.buffer[..][state..state + abi.stateSize]);
      PushFrame();
      FrameKeeps(abi, old(memory.buffer[..]), memory.buffer[..], state);
      ghost var pushed := memory.buffer[..];
      memory.Put(out, digest);
      ghost var mid := memory.buffer[..];
      var zeros: Bytes := seq(abi.stateSize, _ => 0);
      memory.Put(state, zeros);
      hide KeptOutside;
      BothWritten(abi, old(memory.buffer[..]), pushed, mid, memory.buffer[..], state, zeros, out, digest);
    }
  }

  /** Two writes, the lower one last. */
  lemma BothWritten(abi: Abi, before: Bytes, pushed: Bytes, mid: Bytes, after: Bytes, lo: nat, low: Bytes, hi: nat, high: Bytes)
    requires KeptOutside(abi, before, pushed, lo, lo) && |pushed| == |before|
    requires lo + |low| <= hi && hi + |high| <= |pushed|
    requires mid == pushed[..hi] + high + pushed[hi + |high|..]
    requires after == mid[..lo] + low + mid[lo + |low|..]
    ensures KeptOutside(abi, before, after, lo, hi + |high|)
    ensures after[hi..hi + |high|] == high && after[lo..lo + |low|] == low
  {
    assert mid[hi..hi + |high|] == high;
    assert forall i :: hi <= i < hi + |high| ==> after[i] == mid[i];
    assert after[hi..hi + |high|] == mid[hi..hi + |high|];
    forall i | abi.heapBase <= i < |before| && !(lo <= i < hi + |high|) ensures after[i] == before[i] {
      assert pushed[i] == before[i];
      assert mid[i] == pushed[i];
    }
  }

  lemma PutWrites(abi: Abi, before: Bytes, pushed: Bytes, after: Bytes, at: nat, bytes: Bytes)
    requires KeptOutside(abi, before, pushed, at, at) && |pushed| == |before|
    requires at + |bytes| <= |pushed| && after == pushed[..at] + bytes + pushed[at + |bytes|..]
    ensures Wrote(abi, before, after, at, bytes)
  {
  }

  lemma FrameKeeps(abi: Abi, before: Bytes, after: Bytes, at: nat)
    requires |before| == |after| && abi.heapBase <= |before| && before[abi.heapBase..] == after[abi.heapBase..]
    ensures KeptOutside(abi, before, after, at, at)
  {
    forall i | abi.heapBase <= i < |before| ensures after[i] == before[i] {
      assert before[abi.heapBase..][i - abi.heapBase] == after[abi.heapBase..][i - abi.heapBase];
    }
  }

  /** A slot taken from before `next` lies inside memory. */
  lemma SlotInside(abi: Abi, k: nat, next: nat, length: nat)
    requires k < next && SlotStart(abi, next) <= length
    ensures abi.heapBase <= SlotStart(abi, k) && SlotStart(abi, k) + SlotSize(abi) <= length
    ensures SlotStart(abi, k) + abi.stateSize <= OutAt(abi, k) && OutAt(abi, k) + 32 == CopyAt(abi, k)
    ensures CopyAt(abi, k) + COPY_WINDOW == SlotStart(abi, k) + SlotSize(abi)
  {
    SlotsDisjoint(abi, k, next);
  }

  lemma EmptyState(abi: Abi, sha256: Bytes -> Digest, s: Bytes)
    requires Lawful(abi, sha256) && |s| == abi.stateSize
    ensures |abi.init(s)| == abi.stateSize && abi.stands(abi.init(s), [])
  {
  }

  lemma PrefixHolds(abi: Abi, before: Bytes, after: Bytes, messages: map<nat, Bytes>)
    requires before <= after && AllHold(abi, before, messages)
    ensures AllHold(abi, after, messages)
  {
    forall k | k in messages ensures HoldsIn(abi, after, k, messages[k]) {
      assert HoldsIn(abi, before, k, messages[k]);
      var s := SlotStart(abi, k);
      assert after[s..s + abi.stateSize] == before[s..s + abi.stateSize];
    }
  }

  /** Writing a hash state into its slot changes what that slot holds, and nothing else. */
  lemma StateWritten(abi: Abi, before: Bytes, after: Bytes, index: nat, messages: map<nat, Bytes>,
                     state: Bytes, message: Bytes)
    requires Wrote(abi, before, after, SlotStart(abi, index), state) && |state| == abi.stateSize && abi.stands(state, message)
    requires AllHold(abi, before, messages - {index})
    ensures AllHold(abi, after, messages[index := message])
  {
    var all := messages[index := message];
    OthersUndisturbed(abi, before, after, index, messages - {index});
    forall k | k in all ensures HoldsIn(abi, after, k, all[k]) {
      if k != index {
        assert k in messages - {index};
        assert HoldsIn(abi, after, k, (messages - {index})[k]);
      }
    }
  }

  /** A slot's copy window, as a stretch of its own. */
  lemma PutKeeps(abi: Abi, before: Bytes, after: Bytes, at: nat, piece: Bytes)
    requires at + |piece| <= |before| && after == before[..at] + piece + before[at + |piece|..]
    ensures KeptOutside(abi, before, after, at, at + |piece|)
    ensures |after| == |before| && after[at..at + |piece|] == piece
  {
  }

  /** Filling a slot's copy window leaves every state alone, its own included. */
  lemma WindowFilled(abi: Abi, before: Bytes, after: Bytes, index: nat, next: nat, n: nat, messages: map<nat, Bytes>)
    requires index < next && SlotStart(abi, next) <= |before| && n <= COPY_WINDOW
    requires AllHold(abi, before, messages)
    requires KeptOutside(abi, before, after, CopyAt(abi, index), CopyAt(abi, index) + n)
    ensures AllHold(abi, after, messages)
  {
    hide SlotSize, OutAt, CopyAt;
    SlotInside(abi, index, next, |before|);
    var lo := CopyAt(abi, index);
    Widen(abi, before, after, lo, lo + n, index);
    hide KeptOutside, SlotStart;
    DropMessage(abi, before, messages, index);
    OthersUndisturbed(abi, before, after, index, messages - {index});
    if index in messages {
      KeptHolds(abi, before, after, lo, lo + n, index, messages[index]);
    }
    forall k | k in messages ensures HoldsIn(abi, after, k, messages[k]) {
      if k != index {
        assert k in messages - {index};
        assert HoldsIn(abi, after, k, (messages - {index})[k]);
      }
    }
  }

  /** Work in a part of a slot is work in the slot. */
  lemma Widen(abi: Abi, before: Bytes, after: Bytes, lo: nat, hi: nat, k: nat)
    requires KeptOutside(abi, before, after, lo, hi)
    requires SlotStart(abi, k) <= lo && hi <= SlotStart(abi, k) + SlotSize(abi)
    ensures KeptOutside(abi, before, after, SlotStart(abi, k), SlotStart(abi, k) + SlotSize(abi))
  {
  }

  lemma AbsorbAppends(abi: Abi, sha256: Bytes -> Digest, s: Bytes, m: Bytes, b: Bytes)
    requires Lawful(abi, sha256) && |s| == abi.stateSize && abi.stands(s, m)
    ensures |abi.absorb(s, b)| == abi.stateSize && abi.stands(abi.absorb(s, b), m + b)
    ensures abi.digest(s) == sha256(m)
  {
  }

  lemma AllHoldAt(abi: Abi, memory: Bytes, messages: map<nat, Bytes>, k: nat)
    requires AllHold(abi, memory, messages) && k in messages
    ensures SlotStart(abi, k) + abi.stateSize <= |memory|
    ensures abi.stands(memory[SlotStart(abi, k)..SlotStart(abi, k) + abi.stateSize], messages[k])
  {
  }

  lemma DropMessage(abi: Abi, memory: Bytes, messages: map<nat, Bytes>, index: nat)
    requires AllHold(abi, memory, messages)
    ensures AllHold(abi, memory, messages - {index})
  {
    forall k | k in messages - {index} ensures HoldsIn(abi, memory, k, (messages - {index})[k]) {
      assert HoldsIn(abi, memory, k, messages[k]);
    }
  }

  /** Finalizing works inside one slot. */
  lemma SlotFinalized(abi: Abi, before: Bytes, after: Bytes, index: nat, next: nat, messages: map<nat, Bytes>)
    requires index < next && SlotStart(abi, next) <= |before|
    requires KeptOutside(abi, before, after, SlotStart(abi, index), OutAt(abi, index) + 32)
    requires AllHold(abi, before, messages)
    ensures AllHold(abi, after, messages - {index})
  {
    SlotInside(abi, index, next, |before|);
    assert KeptOutside(abi, before, after, SlotStart(abi, index), SlotStart(abi, index) + SlotSize(abi));
    DropMessage(abi, before, messages, index);
    OthersUndisturbed(abi, before, after, index, messages - {index});
  }

  // ---------------------------------------------------------------- allocator

  /** Live and free slots partition the indices handed out so far, and no more were ever handed out
      than were live at one time. */
  ghost predicate Partition(live: set<nat>, free: seq<nat>, next: nat, peak: nat) {
    && (forall k :: k in live ==> k < next && k !in free)
    && (forall k :: k in free ==> k < next)
    && (forall i, j :: 0 <= i < j < |free| ==> free[i] != free[j])
    && (forall k :: 0 <= k < next ==> k in live || k in free)
    && |live| + |free| == next == peak
  }

  /** The slot taken - the last one freed, else a new one - joins the live ones. */
  lemma TakenKeepsPartition(live: set<nat>, free: seq<nat>, next: nat, peak: nat)
    requires Partition(live, free, next, peak)
    ensures free != [] ==>
      var index := free[|free| - 1];
      index !in live && index < next && |live + {index}| <= peak && Partition(live + {index}, free[..|free| - 1], next, peak)
    ensures free == [] ==> next !in live && |live + {next}| == peak + 1 && Partition(live + {next}, [], next + 1, peak + 1)
  {
    if free != [] {
      var index, rest := free[|free| - 1], free[..|free| - 1];
      assert index in free && free == rest + [index];
      forall k | k in rest ensures k != index && k in free {
        var i :| 0 <= i < |rest| && rest[i] == k;
        assert free[i] == k && free[|free| - 1] == index;
      }
    }
  }

  lemma LiveBelowNext(live: set<nat>, free: seq<nat>, next: nat, peak: nat, index: nat)
    requires Partition(live, free, next, peak) && index in live
    ensures index < next
  {
  }

  lemma PushKeepsPartition(live: set<nat>, free: seq<nat>, next: nat, peak: nat, index: nat)
    requires Partition(live, free, next, peak) && index in live
    ensures Partition(live - {index}, free + [index], next, peak)
  {
  }

  lemma KeysWith<V>(m: map<nat, V>, k: nat, v: V)
    ensures m[k := v].Keys == m.Keys + {k} && |m[k := v]| == |m.Keys + {k}|
  {
    assert m[k := v].Keys == m.Keys + {k};
  }

  lemma IndicesAre(alloc: SlotAllocator)
    ensures alloc.Indices() <==>
      alloc.message.Keys == alloc.owner.Keys && Partition(alloc.owner.Keys, alloc.free, alloc.next, alloc.peak)
  {
    hide Partition;
  }

  class SlotAllocator {
    const ex: HasherExports
    var next: nat
    var free: seq<nat>
    /** who holds a live slot, and what it has been fed so far */
    ghost var owner: map<nat, WasmSha256Hasher>
    ghost var message: map<nat, Bytes>
    /** the largest number of slots ever live at once */
    ghost var peak: nat

    ghost predicate Indices()
      reads this
    {
      message.Keys == owner.Keys && Partition(owner.Keys, free, next, peak)
    }

    ghost function Memory(): Bytes
      reads ex.memory, ex.memory.buffer
    {
      ex.memory.buffer[..]
    }

    /** Every slot handed out lies inside memory, and every live one holds its message's hash state. */
    ghost predicate Valid()
      reads this, ex.memory, ex.memory.buffer
    {
      Indices() && SlotStart(ex.abi, next) <= |Memory()| && AllHold(ex.abi, Memory(), message)
    }

    constructor (ex: HasherExports)
      requires ex.abi.heapBase <= ex.memory.buffer.Length
      ensures this.ex == ex && Valid() && next == 0 && owner == map[] && message == map[] && peak == 0
    {
      this.ex := ex;
      next, free := 0, [];
      owner, message, peak := map[], map[], 0;
    }

    /** `this._free.pop() ?? this._next++` */
    method TakeIndex(ghost h: WasmSha256Hasher) returns (index: nat)
      requires Indices()
      modifies this
      ensures Indices() && index < next && (next == old(next) || next == index + 1)
      ensures index !in old(owner) && owner == old(owner)[index := h] && message == old(message)[index := []]
      ensures peak == if |owner| > old(peak) then |owner| else old(peak)
    {
      hide *;
      IndicesAre(this);
      ghost var live, most := owner.Keys, peak;
      TakenKeepsPartition(live, free, next, peak);
      if |free| > 0 {
        index := free[|free| - 1];
        free := free[..|free| - 1];
      } else {
        index := next;
        next := next + 1;
      }
      assert Partition(live + {index}, free, next, if |live + {index}| > most then |live + {index}| else most);
      Record(index, h);
      assert Partition(owner.Keys, free, next, peak);
      IndicesAre(this);
    }

    /** Who holds the slot, for the proof. */
    ghost method Record(index: nat, h: WasmSha256Hasher)
      requires index !in owner
      modifies this`owner, this`message, this`peak
      ensures owner == old(owner)[index := h] && message == old(message)[index := []]
      ensures owner.Keys == old(owner.Keys) + {index} && message.Keys == old(message.Keys) + {index}
      ensures peak == if |owner.Keys| > old(peak) then |owner.Keys| else old(peak)
      ensures |owner.Keys| == |owner|
    {
      KeysWith(owner, index, h);
      KeysWith(message, index, []);
      owner, message := owner[index := h], message[index := []];
      peak := if |owner| > peak then |owner| else peak;
    }

    /** Takes a slot, growing memory when a new one does not fit. */
    method Take(ghost h: WasmSha256Hasher) returns (index: nat)
      requires Valid()
      modifies this, ex.memory
      ensures Indices() && index < next && SlotStart(ex.abi, next) <= |Memory()|
      ensures index !in old(owner) && owner == old(owner)[index := h] && message == old(message)[index := []]
      ensures peak == if |owner| > old(peak) then |owner| else old(peak)
      ensures AllHold(ex.abi, Memory(), old(message))
      ensures ex.memory.buffer == old(ex.memory.buffer) || fresh(ex.memory.buffer)
      ensures GrownTo(old(ex.memory.buffer.Length), SlotStart(ex.abi, index + 1), ex.memory.buffer.Length)
    {
      ghost var mem := Memory();
      index := TakeIndex(h);
      var end := SlotStart(ex.abi, index) + SlotSize(ex.abi);
      assert end == SlotStart(ex.abi, index + 1) by { SlotsDisjoint(ex.abi, index, index + 1); }
      if end > ex.memory.buffer.Length {
        var pages := (end - ex.memory.buffer.Length + PAGE - 1) / PAGE;
        FewestPages(ex.memory.buffer.Length, end, pages);
        ex.memory.Grow(pages);
      }
      PrefixHolds(ex.abi, mem, Memory(), old(message));
    }

    /** A slot for `h`, initialised: the two allocation steps of the hasher's constructor. */
    method Open(ghost h: WasmSha256Hasher, ghost sha256: Bytes -> Digest) returns (index: nat)
      requires Valid() && Lawful(ex.abi, sha256)
      modifies this, ex.memory, ex.memory.buffer
      ensures Valid()
      ensures index !in old(owner) && owner == old(owner)[index := h] && message == old(message)[index := []]
      ensures peak == if |owner| > old(peak) then |owner| else old(peak)
      ensures ex.memory.buffer == old(ex.memory.buffer) || fresh(ex.memory.buffer)
    {
      hide Partition, AllHold, KeptOutside, SlotStart, SlotSize, OutAt, CopyAt, Lawful, Wrote, StateIn, HoldsIn;
      ghost var others := message;
      index := Take(h);
      ghost var before := Memory();
      SlotInside(ex.abi, index, next, |before|);
      DropMessage(ex.abi, before, others, index);
      ghost var slot := before[SlotStart(ex.abi, index)..SlotStart(ex.abi, index) + ex.abi.stateSize];
      ghost var empty := ex.abi.init(slot);
      EmptyState(ex.abi, sha256, slot);
      ex.HasherInit(SlotStart(ex.abi, index));
      StateWritten(ex.abi, before, Memory(), index, others, empty, []);
    }

    /** One pass of the copy loop: a piece into the window, then one call of the module. */
    method Feed(index: nat, piece: Bytes, ghost sha256: Bytes -> Digest)
      requires Valid() && Lawful(ex.abi, sha256) && index in message && |piece| <= COPY_WINDOW
      modifies this`message, ex.memory.buffer
      ensures Valid() && message == old(message)[index := old(message)[index] + piece]
    {
      hide Partition, KeptOutside, SlotStart, SlotSize, OutAt, CopyAt, Lawful, StateIn, AllHold, Wrote;
      ghost var m := message[index];
      ghost var before := Memory();
      LiveBelowNext(owner.Keys, free, next, peak, index);
      SlotInside(ex.abi, index, next, |before|);
      ex.memory.Put(CopyAt(ex.abi, index), piece);
      ghost var mid := Memory();
      PutKeeps(ex.abi, before, mid, CopyAt(ex.abi, index), piece);
      WindowFilled(ex.abi, before, mid, index, next, |piece|, message);
      AllHoldAt(ex.abi, mid, message, index);
      ghost var state := mid[SlotStart(ex.abi, index)..SlotStart(ex.abi, index) + ex.abi.stateSize];
      AbsorbAppends(ex.abi, sha256, state, m, piece);
      ex.HasherUpdate(SlotStart(ex.abi, index), CopyAt(ex.abi, index), |piece|);
      DropMessage(ex.abi, mid, message, index);
      StateWritten(ex.abi, mid, Memory(), index, message, ex.abi.absorb(state, piece), m + piece);
      message := message[index := m + piece];
    }

    /** The module's digest of a slot, read back as hex; the slot is dead afterwards. */
    method Finish(index: nat, ghost sha256: Bytes -> Digest) returns (hex: string)
      requires Valid() && Lawful(ex.abi, sha256) && index in message
      modifies this, ex.memory.buffer
      ensures Valid() && hex == Hex(sha256(old(message)[index]))
      ensures owner == old(owner) - {index} && message == old(message) - {index}
      ensures next == old(next) && peak == old(peak)
    {
      hide Partition, KeptOutside, SlotStart, SlotSize, OutAt, Lawful, StateIn, Hex, AllHold;
      ghost var before := Memory();
      LiveBelowNext(owner.Keys, free, next, peak, index);
      SlotInside(ex.abi, index, next, |before|);
      AllHoldAt(ex.abi, before, message, index);
      AbsorbAppends(ex.abi, sha256, before[SlotStart(ex.abi, index)..SlotStart(ex.abi, index) + ex.abi.stateSize], message[index], []);
      ex.HasherFinalize(SlotStart(ex.abi, index), OutAt(ex.abi, index));
      hex := Hex(ex.memory.buffer[..][OutAt(ex.abi, index)..OutAt(ex.abi, index) + 32]);
      SlotFinalized(ex.abi, before, Memory(), index, next, message);
      Release(index);
    }

    method Release(index: nat)
      requires Indices() && index in owner
      modifies this
      ensures Indices() && owner == old(owner) - {index} && message == old(message) - {index}
      ensures next == old(next) && peak == old(peak) && free == old(free) + [index]
    {
      PushKeepsPartition(owner.Keys, free, next, peak, index);
      free := free + [index];
      owner, message := owner - {index}, message - {index};
      assert owner.Keys == old(owner.Keys) - {index};
    }
  }

  // ---------------------------------------------------------------- hasher

  /** A chunk as a stream hands it out: a stretch of a larger buffer. */
  datatype View = View(backing: Bytes, byteOffset: nat, byteLength: nat) {
    predicate InBounds() { byteOffset + byteLength <= |backing| }

    function Bytes(): Bytes
      requires InBounds()
    {
      backing[byteOffset..byteOffset + byteLength]
    }
  }

  lemma HoldsItsSlot(h: WasmSha256Hasher)
    requires h.slot in h.alloc.owner && h.alloc.owner[h.slot] == h && h.slot in h.alloc.message
    ensures h.Valid()
  {
  }

  class WasmSha256Hasher {
    const alloc: SlotAllocator
    var slot: nat
    var done: bool

    /** A live instance holds its slot, and holds it alone. */
    ghost predicate Valid()
      reads this, alloc
    {
      !done ==> slot in alloc.owner && alloc.owner[slot] == this && slot in alloc.message
    }

    constructor (alloc: SlotAllocator, ghost sha256: Bytes -> Digest)
      requires alloc.Valid() && Lawful(alloc.ex.abi, sha256)
      modifies alloc, alloc.ex.memory, alloc.ex.memory.buffer
      ensures this.alloc == alloc && alloc.Valid() && Valid() && !done
      ensures slot !in old(alloc.owner) && slot !in old(alloc.message) && alloc.owner == old(alloc.owner)[slot := this]
      ensures alloc.message == old(alloc.message)[slot := []]
      ensures alloc.peak == if |alloc.owner| > old(alloc.peak) then |alloc.owner| else old(alloc.peak)
      ensures alloc.ex.memory.buffer == old(alloc.ex.memory.buffer) || fresh(alloc.ex.memory.buffer)
    {
      this.alloc := alloc;
      slot, done := 0, false;
      new;
      hide *;
      slot := alloc.Open(this, sha256);
      HoldsItsSlot(this);
    }

    /** Feeds a chunk; refused after finalize or dispose. */
    method Update(chunk: View, ghost sha256: Bytes -> Digest) returns (ok: bool)
      requires Valid() && alloc.Valid() && Lawful(alloc.ex.abi, sha256) && chunk.InBounds()
      modifies alloc`message, alloc.ex.memory.buffer
      ensures ok == !done && alloc.Valid() && Valid()
      ensures alloc.message == if ok then old(alloc.message)[slot := old(alloc.message)[slot] + chunk.Bytes()] else old(alloc.message)
    {
      hide Partition, AllHold, SlotStart, Lawful;
      if done { return false; }
      var view := chunk.Bytes();
      ghost var m := alloc.message[slot];
      var off := 0;
      assert view[..0] == [] && m + [] == m;
      while off < |view|
        invariant 0 <= off && alloc.Valid()
        invariant alloc.message == old(alloc.message)[slot := m + view[..if off < |view| then off else |view|]]
      {
        var end := if off + COPY_WINDOW < |view| then off + COPY_WINDOW else |view|;
        alloc.Feed(slot, view[off..end], sha256);
        assert m + view[..off] + view[off..end] == m + view[..end];
        off := off + COPY_WINDOW;
      }
      assert view[..|view|] == view;
      return true;
    }

    /** The hex digest, once; afterwards the slot is back in the pool. */
    method Finalize(ghost sha256: Bytes -> Digest) returns (digest: Option<string>)
      requires Valid() && alloc.Valid() && Lawful(alloc.ex.abi, sha256)
      modifies this`done, alloc, alloc.ex.memory.buffer
      ensures alloc.Valid() && Valid() && done
      ensures digest == if old(done) then None else Some(Hex(sha256(old(alloc.message)[slot])))
      ensures alloc.owner == if old(done) then old(alloc.owner) else old(alloc.owner) - {slot}
      ensures alloc.message == if old(done) then old(alloc.message) else old(alloc.message) - {slot}
      ensures alloc.next == old(alloc.next) && alloc.peak == old(alloc.peak)
    {
      hide Partition, AllHold, SlotStart, Lawful, Hex;
      if done { return None; }
      done := true;
      var hex := alloc.Finish(slot, sha256);
      return Some(hex);
    }

    /** Gives the slot back without a digest, for an aborted stream; harmless when repeated. */
    method Dispose()
      requires Valid() && alloc.Valid()
      modifies this`done, alloc
      ensures alloc.Valid() && Valid() && done
      ensures alloc.owner == if old(done) then old(alloc.owner) else old(alloc.owner) - {slot}
      ensures alloc.message == if old(done) then old(alloc.message) else old(alloc.message) - {slot}
      ensures alloc.next == old(alloc.next) && alloc.peak == old(alloc.peak)
    {
      hide Partition, AllHold, SlotStart;
      if done { return; }
      done := true;
      DropMessage(alloc.ex.abi, alloc.Memory(), alloc.message, slot);
      alloc.Release(slot);
    }
  }
}
