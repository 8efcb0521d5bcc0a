/** Walking a rotation chain (runtime/veilguard-policy.mjs, applyRotationChain). */
module RotationChain {
  import opened Prelude
  import opened Bundle
  import opened TrustRoots
  import opened Manifests
  import opened JsVerify
  import opened Policy

  const MAX_ROTATION_CHAIN := 8

  /** A statement file and its signature bundle, as served. */
  datatype SignedFile = SignedFile(payload: Bytes, bundle: Bytes)

  /** The server's answer for each index: any function at all. */
  type Statements = nat -> Option<SignedFile>

  datatype WalkEnd = ChainEnded | RotationRejected | RotationCycle

  datatype Walked = Walked(end: WalkEnd, root: TrustRoot, pin: Pin, applied: seq<string>, fetches: nat)

  /** `f` moves the pin from one root and rotation version to the next. */
  ghost predicate Link(h: Host, supported: set<SigAlg>, f: SignedFile, root: TrustRoot, version: nat, hop: Hop) {
    && JsRotationVerdict(h, f.payload, f.bundle, root, version, supported) == Accept
    && h.parseRotation(f.payload).value.toTrustRoot == hop.root
    && h.parseRotation(f.payload).value.version == hop.version
  }

  /** One accepted step: the statement and where it leads. */
  datatype Hop = Hop(file: SignedFile, root: TrustRoot, version: nat)

  /** The hops lead from one root and version to another, every one of them a link. */
  ghost predicate Leads(h: Host, supported: set<SigAlg>, root: TrustRoot, version: nat, hops: seq<Hop>,
                        root': TrustRoot, version': nat)
    decreases |hops|
  {
    if hops == [] then
      root' == root && version' == version
    else
      && Link(h, supported, hops[0].file, root, version, hops[0])
      && Leads(h, supported, hops[0].root, hops[0].version, hops[1..], root', version')
  }

  /** What a link certifies: the previous root's own threshold signed it, it names that root, its
      version is higher, and the root it leads to passes validation. */
  lemma LinkMeans(h: Host, supported: set<SigAlg>, f: SignedFile, root: TrustRoot, version: nat, hop: Hop)
    requires Link(h, supported, f, root, version, hop)
    ensures JsQuorum(h, PREFIX_ROTATION + f.payload, f.bundle, root, supported).None?
    ensures h.parseRotation(f.payload).value.fromTrustRootId == JsRootId(h, root)
    ensures hop.version > version
    ensures JsValidRoot(h, root) && JsValidRoot(h, hop.root)
  {
  }

  lemma {:induction false} LeadsConcat(h: Host, supported: set<SigAlg>, r0: TrustRoot, v0: nat, a: seq<Hop>,
                                       r1: TrustRoot, v1: nat, b: seq<Hop>, r2: TrustRoot, v2: nat)
    requires Leads(h, supported, r0, v0, a, r1, v1) && Leads(h, supported, r1, v1, b, r2, v2)
    ensures Leads(h, supported, r0, v0, a + b, r2, v2)
    decreases |a|
  {
    hide Link;
    if a == [] {
      assert a + b == b;
    } else {
      LeadsConcat(h, supported, a[0].root, a[0].version, a[1..], r1, v1, b, r2, v2);
      assert (a + b)[1..] == a[1..] + b;
    }
  }

  /** Rotation versions climb by at least one a hop, and the last root is valid. */
  lemma {:induction false} LeadsClimbs(h: Host, supported: set<SigAlg>, root: TrustRoot, version: nat,
                                       hops: seq<Hop>, root': TrustRoot, version': nat)
    requires Leads(h, supported, root, version, hops, root', version')
    ensures version' >= version + |hops|
    ensures hops != [] ==> JsValidRoot(h, root) && JsValidRoot(h, root')
    decreases |hops|
  {
    hide Link, JsValidRoot;
    if hops != [] {
      LinkMeans(h, supported, hops[0].file, root, version, hops[0]);
      LeadsClimbs(h, supported, hops[0].root, hops[0].version, hops[1..], root', version');
    }
  }

  /** The loop of the source from iteration `i` on. */
  ghost function Walk(h: Host, supported: set<SigAlg>, server: Statements, i: nat, root: TrustRoot, pin: Pin,
                      applied: seq<string>): Walked
    decreases MAX_ROTATION_CHAIN - i
  {
    if i >= MAX_ROTATION_CHAIN then Walked(ChainEnded, root, pin, applied, i)
    else
      match server(i)
      case None => Walked(ChainEnded, root, pin, applied, i + 1)
      case Some(f) =>
        if JsRotationVerdict(h, f.payload, f.bundle, root, pin.rotationVersion, supported) != Accept then
          Walked(RotationRejected, root, pin, applied, i + 1)
        else
          var r := h.parseRotation(f.payload).value;
          var newId := JsRootId(h, r.toTrustRoot);
          if newId in applied then Walked(RotationCycle, root, pin, applied, i + 1)
          else
            Walk(h, supported, server, i + 1, r.toTrustRoot,
                 pin.(trustRootId := newId, rotationVersion := r.version), applied + [newId])
  }

  method ApplyRotationChain(h: Host, supported: set<SigAlg>, server: Statements, pinnedRoot: TrustRoot, pin: Pin)
    returns (w: Walked)
    ensures w == Walk(h, supported, server, 0, pinnedRoot, pin, [])
  {
    var currentRoot, currentPin, applied := pinnedRoot, pin, [];
    var i := 0;
    while i < MAX_ROTATION_CHAIN
      invariant 0 <= i <= MAX_ROTATION_CHAIN
      invariant Walk(h, supported, server, 0, pinnedRoot, pin, []) == Walk(h, supported, server, i, currentRoot, currentPin, applied)
    {
      var next := server(i);
      if next.None? { return Walked(ChainEnded, currentRoot, currentPin, applied, i + 1); }
      var verdict := VerifyRotationJs(h, next.value.payload, next.value.bundle, currentRoot, currentPin.rotationVersion, supported);
      if verdict != Accept { return Walked(RotationRejected, currentRoot, currentPin, applied, i + 1); }
      var statement := h.parseRotation(next.value.payload).value;
      var newId := JsRootId(h, statement.toTrustRoot);
      if newId in applied { return Walked(RotationCycle, currentRoot, currentPin, applied, i + 1); }
      currentRoot := statement.toTrustRoot;
      currentPin := currentPin.(trustRootId := newId, rotationVersion := statement.version);
      applied := applied + [newId];
      i := i + 1;
    }
    return Walked(ChainEnded, currentRoot, currentPin, applied, i);
  }

  predicate Distinct(ids: seq<string>) {
    forall i, j :: 0 <= i < j < |ids| ==> ids[i] != ids[j]
  }

  /** The statement at `n` does not extend the chain that stands at this root and version. */
  ghost predicate Stuck(h: Host, supported: set<SigAlg>, server: Statements, n: nat, root: TrustRoot,
                        version: nat, applied: seq<string>, end: WalkEnd) {
    match end
    case ChainEnded => n == MAX_ROTATION_CHAIN || server(n).None?
    case RotationRejected =>
      n < MAX_ROTATION_CHAIN && server(n).Some?
      && JsRotationVerdict(h, server(n).value.payload, server(n).value.bundle, root, version, supported) == Reject
    case RotationCycle =>
      n < MAX_ROTATION_CHAIN && server(n).Some?
      && JsRotationVerdict(h, server(n).value.payload, server(n).value.bundle, root, version, supported) == Accept
      && JsRootId(h, h.parseRotation(server(n).value.payload).value.toTrustRoot) in applied
  }

  /** `w` stands at the end of the longest acceptable prefix of the statements from `i` on, and
      `hops` is that prefix. */
  ghost predicate LongestPrefix(h: Host, supported: set<SigAlg>, server: Statements, i: nat, root: TrustRoot, pin: Pin,
                                applied: seq<string>, hops: seq<Hop>, w: Walked)
  {
    && Leads(h, supported, root, pin.rotationVersion, hops, w.root, w.pin.rotationVersion)
    && (forall j :: 0 <= j < |hops| ==> server(i + j) == Some(hops[j].file))
    && Stuck(h, supported, server, i + |hops|, w.root, w.pin.rotationVersion, w.applied, w.end)
    && w.applied == applied + Ids(h, hops) && Distinct(w.applied)
    && i + |hops| <= 8 && w.fetches == (if i + |hops| < 8 then i + |hops| + 1 else 8)
    && w.pin.version == pin.version && w.pin.trustRoot == pin.trustRoot
    && w.pin.trustRootId == if hops == [] then pin.trustRootId else JsRootId(h, w.root)
  }

  ghost function Ids(h: Host, hops: seq<Hop>): (r: seq<string>)
    ensures |r| == |hops|
  {
    if hops == [] then [] else [JsRootId(h, hops[0].root)] + Ids(h, hops[1..])
  }

  lemma ExtendPrefix(h: Host, supported: set<SigAlg>, server: Statements, i: nat, root: TrustRoot, pin: Pin,
                     applied: seq<string>, hop: Hop, rest: seq<Hop>, w: Walked)
    requires server(i) == Some(hop.file) && Link(h, supported, hop.file, root, pin.rotationVersion, hop)
    requires LongestPrefix(h, supported, server, i + 1, hop.root,
                           pin.(trustRootId := JsRootId(h, hop.root), rotationVersion := hop.version),
                           applied + [JsRootId(h, hop.root)], rest, w)
    ensures LongestPrefix(h, supported, server, i, root, pin, applied, [hop] + rest, w)
  {
    hide Link, Stuck, JsRootId;
    var hops := [hop] + rest;
    assert hops[1..] == rest;
    forall j | 0 <= j < |hops| ensures server(i + j) == Some(hops[j].file) {
      if j > 0 { assert server(i + 1 + (j - 1)) == Some(rest[j - 1].file); }
    }
    if rest == [] {
      assert w.root == hop.root;
    }
  }

  /** Whatever the server returns, the walk stops at the end of the longest acceptable prefix of its
      statements: the hops are the server's first files in order, each link signed under the root
      before it, the pin carries the last root's identifier and version, no identifier is applied
      twice, and at most eight statements are fetched. */
  lemma {:induction false} WalkFindsLongestPrefix(h: Host, supported: set<SigAlg>, server: Statements, i: nat,
                                                  root: TrustRoot, pin: Pin, applied: seq<string>) returns (hops: seq<Hop>)
    requires i == |applied| <= MAX_ROTATION_CHAIN && Distinct(applied)
    ensures LongestPrefix(h, supported, server, i, root, pin, applied, hops, Walk(h, supported, server, i, root, pin, applied))
    decreases MAX_ROTATION_CHAIN - i
  {
    hops := [];
    if i < MAX_ROTATION_CHAIN && server(i).Some? {
      var f := server(i).value;
      if JsRotationVerdict(h, f.payload, f.bundle, root, pin.rotationVersion, supported) == Accept {
        hops := Onward(h, supported, server, i, root, pin, applied, f);
      }
    }
    hide JsRotationVerdict, JsRootId;
  }

  lemma AcceptedParses(h: Host, supported: set<SigAlg>, f: SignedFile, root: TrustRoot, version: nat)
    requires JsRotationVerdict(h, f.payload, f.bundle, root, version, supported) == Accept
    ensures h.parseRotation(f.payload).Some?
  {
    hide JsValidRoot, JsQuorum, JsRootId;
  }

  /** The step after an accepted statement. */
  lemma {:induction false} Onward(h: Host, supported: set<SigAlg>, server: Statements, i: nat,
                                  root: TrustRoot, pin: Pin, applied: seq<string>, f: SignedFile) returns (hops: seq<Hop>)
    requires i == |applied| < MAX_ROTATION_CHAIN && Distinct(applied) && server(i) == Some(f)
    requires JsRotationVerdict(h, f.payload, f.bundle, root, pin.rotationVersion, supported) == Accept
    ensures LongestPrefix(h, supported, server, i, root, pin, applied, hops, Walk(h, supported, server, i, root, pin, applied))
    decreases MAX_ROTATION_CHAIN - i, 0
  {
    assert i < 8;
    hide *;
    AcceptedParses(h, supported, f, root, pin.rotationVersion);
    hops := [];
    var r := h.parseRotation(f.payload).value;
    var newId := JsRootId(h, r.toTrustRoot);
    var hop := Hop(f, r.toTrustRoot, r.version);
    var pin' := pin.(trustRootId := newId, rotationVersion := r.version);
    if newId in applied {
      CycleStops(h, supported, server, i, root, pin, applied, f);
    } else {
      AcceptedLinks(h, supported, f, root, pin.rotationVersion, hop);
      DistinctMore(applied, newId);
      var rest := WalkFindsLongestPrefix(h, supported, server, i + 1, r.toTrustRoot, pin', applied + [newId]);
      hops := [hop] + rest;
      WalkStep(h, supported, server, i, root, pin, applied, f, r);
      ExtendPrefix(h, supported, server, i, root, pin, applied, hop, rest, Walk(h, supported, server, i, root, pin, applied));
    }
  }

  lemma AcceptedLinks(h: Host, supported: set<SigAlg>, f: SignedFile, root: TrustRoot, version: nat, hop: Hop)
    requires JsRotationVerdict(h, f.payload, f.bundle, root, version, supported) == Accept && h.parseRotation(f.payload).Some?
    requires var r := h.parseRotation(f.payload).value; hop == Hop(f, r.toTrustRoot, r.version)
    ensures Link(h, supported, f, root, version, hop)
  {
    hide JsRotationVerdict;
  }

  lemma DistinctMore(ids: seq<string>, id: string)
    requires Distinct(ids) && id !in ids
    ensures Distinct(ids + [id])
  {
  }

  lemma CycleStops(h: Host, supported: set<SigAlg>, server: Statements, i: nat, root: TrustRoot, pin: Pin,
                   applied: seq<string>, f: SignedFile)
    requires i < MAX_ROTATION_CHAIN && Distinct(applied) && server(i) == Some(f) && h.parseRotation(f.payload).Some?
    requires JsRotationVerdict(h, f.payload, f.bundle, root, pin.rotationVersion, supported) == Accept
    requires JsRootId(h, h.parseRotation(f.payload).value.toTrustRoot) in applied
    ensures LongestPrefix(h, supported, server, i, root, pin, applied, [], Walk(h, supported, server, i, root, pin, applied))
  {
    hide JsRotationVerdict, JsRootId, Distinct;
  }

  lemma WalkStep(h: Host, supported: set<SigAlg>, server: Statements, i: nat, root: TrustRoot, pin: Pin,
                 applied: seq<string>, f: SignedFile, r: Rotation)
    requires i < 8 && server(i) == Some(f) && h.parseRotation(f.payload) == Some(r)
    requires JsRotationVerdict(h, f.payload, f.bundle, root, pin.rotationVersion, supported) == Accept
    requires JsRootId(h, r.toTrustRoot) !in applied
    ensures Walk(h, supported, server, i, root, pin, applied) ==
      Walk(h, supported, server, i + 1, r.toTrustRoot,
           pin.(trustRootId := JsRootId(h, r.toTrustRoot), rotationVersion := r.version), applied + [JsRootId(h, r.toTrustRoot)])
  {
    hide JsRotationVerdict, JsRootId;
  }
}
