/** Verifying a body as it streams past (runtime/veil-guard-sw.js, streamVerify). */
module Streaming {
  import opened Prelude
  import opened TrustRoots
  import opened Manifests
  import opened Policy
  import opened Worker
  import opened WasmHasher
  import opened Interleaving

  /** The body a stream delivers, however it was cut. */
  function Joined(chunks: seq<Chunk>): Bytes {
    if chunks == [] then [] else chunks[0].Bytes() + Joined(chunks[1..])
  }

  lemma {:induction false} JoinedAppend(chunks: seq<Chunk>, chunk: Chunk)
    ensures Joined(chunks + [chunk]) == Joined(chunks) + chunk.Bytes()
  {
    if chunks == [] {
      assert [chunk][1..] == [];
    } else {
      assert (chunks + [chunk])[1..] == chunks[1..] + [chunk];
      JoinedAppend(chunks[1..], chunk);
    }
  }

  /** The head decides, or leaves exactly the two questions the end of the stream settles. */
  lemma HeadThenEnd(h: Host, entry: AssetEntry, r: Response)
    ensures HeadVerdict(h, entry, r) != ReadBody ==> HeadVerdict(h, entry, r) == BufferedVerdict(h, entry, r)
    ensures HeadVerdict(h, entry, r) == ReadBody ==>
      DecideStreamedBody(entry, Hex(h.prims.sha256(r.body)), |r.body|) == BufferedVerdict(h, entry, r)
  {
  }

  /** The chunks as they pass: each is hashed and counted before it is forwarded. */
  method Pump(hasher: WasmSha256Hasher, chunks: seq<Chunk>, ghost sha256: Hash) returns (seen: nat)
    requires hasher.alloc.Valid() && hasher.Valid() && !hasher.done && Lawful(hasher.alloc.ex.abi, sha256)
    modifies hasher.alloc`message, hasher.alloc.ex.memory.buffer
    ensures hasher.alloc.Valid() && hasher.Valid()
    ensures hasher.alloc.message == old(hasher.alloc.message)[hasher.slot := old(hasher.alloc.message)[hasher.slot] + Joined(chunks)]
    ensures seen == |Joined(chunks)|
  {
    hide Partition, AllHold, SlotStart, Lawful;
    var alloc := hasher.alloc;
    ghost var m := alloc.message[hasher.slot];
    assert m + Joined(chunks[..0]) == m;
    seen := 0;
    for i := 0 to |chunks|
      invariant alloc.Valid() && hasher.Valid()
      invariant alloc.message == old(alloc.message)[hasher.slot := m + Joined(chunks[..i])]
      invariant seen == |Joined(chunks[..i])|
    {
      var ok := hasher.Update(chunks[i], sha256);
      JoinedAppend(chunks[..i], chunks[i]);
      assert chunks[..i + 1] == chunks[..i] + [chunks[i]];
      assert (m + Joined(chunks[..i])) + chunks[i].Bytes() == m + Joined(chunks[..i + 1]);
      seen := seen + chunks[i].byteLength;
    }
    assert chunks[..|chunks|] == chunks;
  }

  lemma AddThenRemove<V>(m: map<nat, V>, k: nat, v: V)
    requires k !in m
    ensures m[k := v] - {k} == m
  {
  }

  /** A hasher's whole life on one stream. Its slot is its own, so what other streams have fed so far
      is where it was, and afterwards the slot is free again. */
  method HashStream(alloc: SlotAllocator, chunks: seq<Chunk>, ghost sha256: Hash) returns (digest: string, seen: nat)
    requires alloc.Valid() && Lawful(alloc.ex.abi, sha256)
    modifies alloc, alloc.ex.memory, alloc.ex.memory.buffer
    ensures digest == Hex(sha256(Joined(chunks))) && seen == |Joined(chunks)|
    ensures alloc.Valid() && alloc.owner == old(alloc.owner) && alloc.message == old(alloc.message)
  {
    hide *;
    var hasher := new WasmSha256Hasher(alloc, sha256);
    seen := Pump(hasher, chunks, sha256);
    assert [] + Joined(chunks) == Joined(chunks);
    var hex := hasher.Finalize(sha256);
    digest := hex.value;
    AddThenRemove(old(alloc.owner), hasher.slot, hasher);
    AddThenRemove(old(alloc.message), hasher.slot, Joined(chunks));
  }

  /** The transform stream: every chunk hashed and counted and passed on, the verdict at flush. For
      any body and any way of cutting it the verdict is the buffered one on the whole body, and
      other streams on the same memory are left where they were. */
  method StreamVerify(h: Host, alloc: SlotAllocator, entry: AssetEntry, head: Response, chunks: seq<Chunk>)
    returns (verdict: BodyVerdict)
    requires alloc.Valid() && Lawful(alloc.ex.abi, h.prims.sha256)
    requires HeadVerdict(h, entry, head) == ReadBody
    modifies alloc, alloc.ex.memory, alloc.ex.memory.buffer
    ensures verdict == BufferedVerdict(h, entry, head.(body := Joined(chunks)))
    ensures alloc.Valid() && alloc.owner == old(alloc.owner) && alloc.message == old(alloc.message)
  {
    var digest, seen := HashStream(alloc, chunks, h.prims.sha256);
    verdict := DecideStreamedBody(entry, digest, seen);
    SameHead(h, entry, head, Joined(chunks));
    HeadThenEnd(h, entry, head.(body := Joined(chunks)));
    hide *;
  }

  lemma SameHead(h: Host, entry: AssetEntry, r: Response, body: Bytes)
    ensures HeadVerdict(h, entry, r.(body := body)) == HeadVerdict(h, entry, r)
  {
  }

  /** What the page ends up with: a clean body, an error, or a response handed over unjudged. */
  datatype Outcome = Clean | Broken(reason: Reason) | Unjudged

  /** The outcome of a response, with a streamed body settled at its end. */
  function Settled(h: Host, entry: AssetEntry, r: Response, wasm: bool): Outcome {
    match Judge(h, entry, r, wasm)
    case Blocked(reason) => Broken(reason)
    case Verified(_, _) => Clean
    case Streaming(_, _) =>
      (match DecideStreamedBody(entry, Hex(h.prims.sha256(r.body)), |r.body|)
       case ServeVerified => Clean
       case TamperedBody(reason) => Broken(reason)
       case _ => Unjudged)
    case _ => Unjudged
  }

  /** Whether the incremental hasher is available makes no difference to the outcome or its reason:
      a stream finishes cleanly exactly when the buffered path would serve. */
  lemma StreamedEqualsBuffered(h: Host, entry: AssetEntry, r: Response)
    ensures Settled(h, entry, r, true) == Settled(h, entry, r, false)
    ensures Settled(h, entry, r, true) == Clean <==>
      && r.status == 200 && !r.redirected
      && (r.contentType.Some? && r.contentType.value != "" ==> h.contentTypeMatches(entry.contentType, r.contentType.value))
      && Hex(h.prims.sha256(r.body)) == entry.sha256 && |r.body| == entry.size
  {
    HeadThenEnd(h, entry, r);
    hide Hex;
  }
}
