/** The Tier 1 Service Worker: pin, manifest, cache and control mirror (runtime/veil-guard-sw.js). */
module Worker {
  import opened Prelude
  import opened Bundle
  import opened TrustRoots
  import opened Threshold
  import opened Manifests
  import opened JsVerify
  import opened Policy
  import opened RotationChain

  /** What a build of the worker is made with. */
  datatype Config = Config(h: Host, baked: Option<TrustRoot>, supported: set<SigAlg>, origin: string)

  /** Everything the network answers during one refresh. */
  datatype Net = Net(control: Option<SignedFile>, statements: Statements, now: nat)

  datatype Response = Response(status: nat, redirected: bool, contentType: Option<string>, hasBody: bool, body: Bytes)

  /** Stored pin and Cache Storage survive a restart; the other fields are module variables. */
  datatype State = State(
    pinStore: Option<Pin>,
    cache: map<string, Bytes>,
    status: Status,
    manifest: Option<Manifest>,
    root: Option<TrustRoot>,
    pin: Option<Pin>)

  const CACHE_BASE := "https://veil-guard.invalid/"
  const CONTROL_MANIFEST := "https://veil-guard.invalid/control/manifest"
  const CONTROL_SIG := "https://veil-guard.invalid/control/sig"
  const STREAM_THRESHOLD_BYTES := 524288

  // ---------------------------------------------------------------- refresh

  /** The control mirror, when both halves are there. */
  function Mirror(h: Host, cache: map<string, Bytes>): Option<SignedFile> {
    var m, s := h.cacheUrl(CONTROL_MANIFEST), h.cacheUrl(CONTROL_SIG);
    if m in cache && s in cache then Some(SignedFile(cache[m], cache[s])) else None
  }

  /** The manifest and signature to judge: the network's, else the mirror's. */
  function Source(c: Config, s: State, net: Net): Option<SignedFile> {
    if net.control.Some? then net.control else Mirror(c.h, s.cache)
  }

  function StartRoot(c: Config, s: State): Option<TrustRoot> {
    if s.pinStore.Some? && s.pinStore.value.trustRoot.Some? then s.pinStore.value.trustRoot else c.baked
  }

  /** A pin that does not carry the baked root's identifier sends the worker down the chain. */
  predicate MustWalk(c: Config, s: State) {
    && s.pinStore.Some? && c.baked.Some? && s.pinStore.value.trustRoot.Some?
    && s.pinStore.value.trustRootId != JsRootId(c.h, c.baked.value)
  }

  ghost function WalkOf(c: Config, s: State, net: Net): Walked
    requires MustWalk(c, s)
  {
    Walk(c.h, c.supported, net.statements, 0, s.pinStore.value.trustRoot.value, s.pinStore.value, [])
  }

  ghost predicate Rotates(c: Config, s: State, net: Net) {
    MustWalk(c, s) && WalkOf(c, s, net).end == ChainEnded && WalkOf(c, s, net).applied != []
  }

  /** The stored pin after the rotation step. */
  ghost function RotatedPin(c: Config, s: State, net: Net): Option<Pin> {
    if Rotates(c, s, net) then
      var w := WalkOf(c, s, net);
      Some(w.pin.(trustRoot := Some(w.root)))
    else s.pinStore
  }

  ghost function RootInUse(c: Config, s: State, net: Net): TrustRoot
    requires StartRoot(c, s).Some?
  {
    if Rotates(c, s, net) then WalkOf(c, s, net).root else StartRoot(c, s).value
  }

  function PinnedVersion(pin: Option<Pin>): nat {
    if pin.Some? then pin.value.version else 0
  }

  ghost function RefreshVerdict(c: Config, s: State, net: Net): ManifestState
    requires StartRoot(c, s).Some? && Source(c, s, net).Some?
  {
    var src := Source(c, s, net).value;
    JsManifestVerdict(c.h, src.payload, src.bundle, RootInUse(c, s, net),
                      PinnedVersion(RotatedPin(c, s, net)), net.now, c.supported, [])
  }

  /** The verifier let the manifest through: the refresh reaches the pin decision. */
  ghost predicate Passes(c: Config, s: State, net: Net) {
    StartRoot(c, s).Some? && Source(c, s, net).Some? && !IsHardFailure(RefreshVerdict(c, s, net))
  }

  ghost function NewManifest(c: Config, s: State, net: Net): Manifest
    requires Passes(c, s, net)
  {
    c.h.parseManifest(Source(c, s, net).value.payload).value
  }

  ghost function PinDecision(c: Config, s: State, net: Net): PinAction
    requires Passes(c, s, net)
  {
    PinTransition(RotatedPin(c, s, net), NewManifest(c, s, net).version, NewManifest(c, s, net).trustRootId)
  }

  function Mirrored(h: Host, cache: map<string, Bytes>, net: Net): map<string, Bytes> {
    if net.control.None? then cache
    else cache[h.cacheUrl(CONTROL_MANIFEST) := net.control.value.payload][h.cacheUrl(CONTROL_SIG) := net.control.value.bundle]
  }

  /** One whole refresh, not overlapped by another, with storage that keeps what it is given. */
  ghost function Refreshed(c: Config, s: State, net: Net): State {
    if Source(c, s, net).None? then
      s.(status := if s.manifest.Some? then s.status else NetworkFail)
    else if StartRoot(c, s).None? then
      s.(status := Known(UntrustedRoot))
    else
      var s1 := s.(pinStore := RotatedPin(c, s, net));
      if !Passes(c, s, net) then
        s1.(status := Known(RefreshVerdict(c, s, net)), manifest := None)
      else
        var accepted := s1.(cache := Mirrored(c.h, s.cache, net), status := Known(RefreshVerdict(c, s, net)),
                            manifest := Some(NewManifest(c, s, net)), root := Some(RootInUse(c, s, net)));
        match PinDecision(c, s, net)
        case RejectRollback => s1.(status := Known(Rollback), manifest := None)
        case RejectRoot => s1.(status := Known(UntrustedRoot), manifest := None)
        case Adopt(p) => accepted.(pinStore := Some(p.(trustRoot := Some(RootInUse(c, s, net)))), pin := Some(p))
        case Advance(p) => accepted.(pinStore := Some(p.(trustRoot := Some(RootInUse(c, s, net)))), pin := Some(p))
        case Unchanged(p) => accepted.(pin := Some(p))
  }

  // ---------------------------------------------------------------- serving

  datatype Answer =
    | Forwarded                                  // passed to the network unchecked, out of remit
    | Blocked(reason: Reason)                    // status 526
    | Unavailable                                // status 523
    | AsIs(response: Response)                   // partial content, or an error page of the origin
    | Hit(entry: AssetEntry, body: Bytes)        // from Cache Storage
    | Verified(entry: AssetEntry, response: Response)
    | Streaming(entry: AssetEntry, response: Response)

  predicate NeedsRefresh(s: State) {
    s.manifest.None? || StatusIsHard(s.status)
  }

  ghost function Ready(c: Config, s: State, net: Net): State {
    if NeedsRefresh(s) then Refreshed(c, s, net) else s
  }

  function CacheKey(h: Host, entry: AssetEntry): string {
    h.cacheUrl(CACHE_BASE + entry.sha256)
  }

  function BufferedVerdict(h: Host, entry: AssetEntry, r: Response): BodyVerdict {
    DecideResponse(h, entry, r.status, r.redirected, r.contentType, Some(Hex(h.prims.sha256(r.body))), Some(|r.body|))
  }

  function HeadVerdict(h: Host, entry: AssetEntry, r: Response): BodyVerdict {
    DecideResponse(h, entry, r.status, r.redirected, r.contentType, None, None)
  }

  /** What a fetched response turns into; `wasm` says whether the incremental hasher is at hand. */
  function Judge(h: Host, entry: AssetEntry, r: Response, wasm: bool): Answer {
    if r.status == 206 then AsIs(r)
    else if entry.size > STREAM_THRESHOLD_BYTES && r.hasBody && wasm then
      match HeadVerdict(h, entry, r)
      case TamperedBody(reason) => Blocked(reason)
      case NetworkBody(_) => AsIs(r)
      case PassBody(_) => AsIs(r)
      case _ => Streaming(entry, r)
    else
      match BufferedVerdict(h, entry, r)
      case TamperedBody(reason) => Blocked(reason)
      case NetworkBody(_) => AsIs(r)
      case PassBody(_) => AsIs(r)
      case _ => Verified(entry, r)
  }

  function Decide(c: Config, s: State, request: Request): Decision {
    DecideRequest(c.h, request, c.origin, s.status, s.manifest)
  }

  /** The answer of a worker that is ready; `fetched` is None when the fetch threw. */
  function AnswerOf(c: Config, s: State, request: Request, fetched: Option<Response>, wasm: bool): Answer {
    match Decide(c, s, request)
    case Passthrough(_) => Forwarded
    case BlockNoManifest(_) => Unavailable
    case BlockUnmanifested(reason) => Blocked(reason)
    case BlockTamper(reason) => Blocked(reason)
    case Check(entry, _) =>
      if CacheKey(c.h, entry) in s.cache then Hit(entry, s.cache[CacheKey(c.h, entry)])
      else if fetched.None? then Unavailable
      else Judge(c.h, entry, fetched.value, wasm)
  }

  /** Only a buffered, verified body is put into the cache, under its entry's digest. */
  function Stored(c: Config, s: State, answer: Answer): State {
    match answer
    case Verified(entry, r) => s.(cache := s.cache[CacheKey(c.h, entry) := r.body])
    case _ => s
  }

  // ---------------------------------------------------------------- the worker

  class ServiceWorker {
    const c: Config
    var pinStore: Option<Pin>
    var cache: map<string, Bytes>
    var status: Status
    var manifest: Option<Manifest>
    var root: Option<TrustRoot>
    var pin: Option<Pin>

    function Abs(): State
      reads this
    {
      State(pinStore, cache, status, manifest, root, pin)
    }

    /** A worker the browser has just started, over whatever storage holds. */
    constructor (c: Config, pinStore: Option<Pin>, cache: map<string, Bytes>)
      ensures this.c == c
      ensures Abs() == State(pinStore, cache, NetworkFail, None, None, None)
    {
      this.c := c;
      this.pinStore := pinStore;
      this.cache := cache;
      status := NetworkFail;
      manifest := None;
      root := None;
      pin := None;
    }

    method Refresh(net: Net)
      modifies this
      ensures Abs() == Refreshed(c, old(Abs()), net)
    {
      hide JsManifestVerdict, IsHardFailure, PinTransition, PinnedVersion, MustWalk, RotatedPin, RootInUse, JsRootId, JsValidRoot;
      ghost var s := Abs();
      var source := net.control;
      if source.None? {
        source := Mirror(c.h, cache);
        if source.None? {
          status := if manifest.Some? then status else NetworkFail;
          return;
        }
      }
      var start := if pinStore.Some? && pinStore.value.trustRoot.Some? then pinStore.value.trustRoot else c.baked;
      if start.None? {
        status := Known(UntrustedRoot);
        return;
      }
      var using := WalkIfMoved(net, start.value);
      var verdict := VerifyManifestJs(c.h, source.value.payload, source.value.bundle, using,
                                      PinnedVersion(pinStore), net.now, c.supported, []);
      assert verdict == RefreshVerdict(c, s, net);
      if IsHardFailure(verdict) {
        status, manifest := Known(verdict), None;
        return;
      }
      SoftVerdictParsed(c.h, source.value.payload, source.value.bundle, using, PinnedVersion(pinStore), net.now, c.supported);
      var m := c.h.parseManifest(source.value.payload).value;
      var transition := PinTransition(pinStore, m.version, m.trustRootId);
      if transition.RejectRollback? || transition.RejectRoot? {
        status, manifest := Known(if transition.RejectRollback? then Rollback else UntrustedRoot), None;
        return;
      }
      if !transition.Unchanged? {
        pinStore := Some(transition.pin.(trustRoot := Some(using)));
      }
      if net.control.Some? {
        cache := cache[c.h.cacheUrl(CONTROL_MANIFEST) := source.value.payload];
        cache := cache[c.h.cacheUrl(CONTROL_SIG) := source.value.bundle];
      }
      status, manifest, root, pin := Known(verdict), Some(m), Some(using), Some(transition.pin);
    }

    /** The rotation step of a refresh: walks the chain when the baked root is not the pinned one. */
    method WalkIfMoved(net: Net, start: TrustRoot) returns (using: TrustRoot)
      requires StartRoot(c, Abs()) == Some(start)
      modifies this`pinStore
      ensures pinStore == RotatedPin(c, old(Abs()), net)
      ensures using == RootInUse(c, old(Abs()), net)
    {
      using := start;
      if MustWalk(c, Abs()) {
        var walked := ApplyRotationChain(c.h, c.supported, net.statements, pinStore.value.trustRoot.value, pinStore.value);
        if walked.end == ChainEnded && walked.applied != [] {
          using := walked.root;
          pinStore := Some(walked.pin.(trustRoot := Some(walked.root)));
        }
      }
    }

    method EnsureReady(net: Net)
      modifies this
      ensures Abs() == Ready(c, old(Abs()), net)
    {
      if manifest.Some? && !StatusIsHard(status) { return; }
      Refresh(net);
    }

    method Handle(request: Request, net: Net, fetched: Option<Response>, wasm: bool) returns (answer: Answer)
      modifies this
      ensures answer == AnswerOf(c, Ready(c, old(Abs()), net), request, fetched, wasm)
      ensures Abs() == Stored(c, Ready(c, old(Abs()), net), answer)
    {
      EnsureReady(net);
      var decision := DecideRequest(c.h, request, c.origin, status, manifest);
      match decision {
        case Passthrough(_) => return Forwarded;
        case BlockNoManifest(_) => return Unavailable;
        case BlockUnmanifested(reason) => return Blocked(reason);
        case BlockTamper(reason) => return Blocked(reason);
        case Check(entry, _) =>
          var key := CacheKey(c.h, entry);
          if key in cache { return Hit(entry, cache[key]); }
          if fetched.None? { return Unavailable; }
          answer := Judge(c.h, entry, fetched.value, wasm);
          if answer.Verified? {
            cache := cache[key := answer.response.body];
          }
      }
    }

    /** The browser drops cache entries under storage pressure. */
    method Evict(urls: set<string>)
      modifies this`cache
      ensures cache == old(cache) - urls
    {
      cache := cache - urls;
    }

    /** The browser stops the worker and later starts it again: storage stays, memory does not. */
    method Restart()
      modifies this
      ensures Abs() == State(old(pinStore), old(cache), NetworkFail, None, None, None)
    {
      status, manifest, root, pin := NetworkFail, None, None, None;
    }
  }

  /** A soft verdict means the payload parsed. */
  lemma SoftVerdictParsed(h: Host, payload: Bytes, bundle: Bytes, root: TrustRoot, version: nat, now: nat,
                          supported: set<SigAlg>)
    requires !IsHardFailure(JsManifestVerdict(h, payload, bundle, root, version, now, supported, []))
    ensures h.parseManifest(payload).Some?
    ensures
      var m := h.parseManifest(payload).value;
      && m.trustRootId == JsRootId(h, root) && m.version >= version && JsValidRoot(h, root)
      && JsManifestVerdict(h, payload, bundle, root, version, now, supported, []) in {Valid, Expired}
  {
    hide JsRootId, JsAssetOk, JsValidRoot, OutcomeOf, Parsed;
  }
}
