/** What every run of the Tier 1 worker keeps, whatever the network answers. */
module WorkerSafety {
  import opened Prelude
  import opened TrustRoots
  import opened Manifests
  import opened JsVerify
  import opened Policy
  import opened RotationChain
  import opened Worker

  datatype Event =
    | RefreshEvent(net: Net)
    | RequestEvent(request: Request, net: Net, fetched: Option<Response>, wasm: bool)
    | EvictEvent(urls: set<string>)
    | RestartEvent

  ghost function Step(c: Config, s: State, e: Event): State {
    match e
    case RefreshEvent(net) => Refreshed(c, s, net)
    case RequestEvent(request, net, fetched, wasm) =>
      var ready := Ready(c, s, net);
      Stored(c, ready, AnswerOf(c, ready, request, fetched, wasm))
    case EvictEvent(urls) => s.(cache := s.cache - urls)
    case RestartEvent => State(s.pinStore, s.cache, NetworkFail, None, None, None)
  }

  ghost function Run(c: Config, s: State, events: seq<Event>): State
    decreases |events|
  {
    if events == [] then s else Run(c, Step(c, s, events[0]), events[1..])
  }

  // ---------------------------------------------------------------- invariants

  /** The stored pin carries its root, its identifier is that root's, and the root is valid. */
  ghost predicate PinSound(c: Config, pin: Option<Pin>) {
    pin.Some? ==>
      && pin.value.trustRoot.Some?
      && pin.value.trustRootId == JsRootId(c.h, pin.value.trustRoot.value)
      && JsValidRoot(c.h, pin.value.trustRoot.value)
  }

  /** The verifier once let this manifest through, under this root. */
  ghost predicate OnceAccepted(c: Config, m: Manifest, root: TrustRoot) {
    exists payload, bundle, version, now ::
      && JsManifestVerdict(c.h, payload, bundle, root, version, now, c.supported, []) in {Valid, Expired}
      && c.h.parseManifest(payload) == Some(m)
  }

  /** A manifest in memory is an accepted one, it is the one the stored pin records, and the state
      shown with it is a soft one. */
  ghost predicate ManifestSound(c: Config, s: State) {
    s.manifest.Some? ==>
      && s.status in {Known(Valid), Known(Expired)}
      && s.root.Some? && OnceAccepted(c, s.manifest.value, s.root.value)
      && s.pinStore.Some?
      && s.pinStore.value.trustRoot == s.root
      && s.pinStore.value.trustRootId == s.manifest.value.trustRootId
      && s.pinStore.value.version == s.manifest.value.version
  }

  /** Every cache entry is one half of the control mirror or sits under its own digest. */
  ghost predicate CacheSound(c: Config, cache: map<string, Bytes>) {
    forall u :: u in cache ==>
      || u == c.h.cacheUrl(CONTROL_MANIFEST) || u == c.h.cacheUrl(CONTROL_SIG)
      || u == c.h.cacheUrl(CACHE_BASE + Hex(c.h.prims.sha256(cache[u])))
  }

  ghost predicate Sound(c: Config, s: State) {
    PinSound(c, s.pinStore) && ManifestSound(c, s) && CacheSound(c, s.cache)
  }

  // ---------------------------------------------------------------- one refresh

  /** From one stored pin to a later one: nothing runs backwards, and the root moved only along
      links, each signed by the threshold of the root before it. */
  ghost predicate PinAdvances(c: Config, p: Pin, p': Pin) {
    && p.version <= p'.version
    && p.rotationVersion <= p'.rotationVersion
    && p.trustRoot.Some? && p'.trustRoot.Some?
    && exists hops :: Leads(c.h, c.supported, p.trustRoot.value, p.rotationVersion, hops, p'.trustRoot.value, p'.rotationVersion)
  }

  lemma PinAdvancesSelf(c: Config, p: Pin, p': Pin)
    requires p.trustRoot.Some? && p'.trustRoot == p.trustRoot
    requires p.version <= p'.version && p.rotationVersion == p'.rotationVersion
    ensures PinAdvances(c, p, p')
  {
    assert Leads(c.h, c.supported, p.trustRoot.value, p.rotationVersion, [], p'.trustRoot.value, p'.rotationVersion);
  }

  lemma PinAdvancesOn(c: Config, p: Pin, q: Pin, r: Pin)
    requires PinAdvances(c, p, q) && PinAdvances(c, q, r)
    ensures PinAdvances(c, p, r)
  {
    hide Leads;
    var a :| Leads(c.h, c.supported, p.trustRoot.value, p.rotationVersion, a, q.trustRoot.value, q.rotationVersion);
    var b :| Leads(c.h, c.supported, q.trustRoot.value, q.rotationVersion, b, r.trustRoot.value, r.rotationVersion);
    LeadsConcat(c.h, c.supported, p.trustRoot.value, p.rotationVersion, a, q.trustRoot.value, q.rotationVersion,
                b, r.trustRoot.value, r.rotationVersion);
  }

  /** The rotation step alone. */
  lemma RotationAdvancesPin(c: Config, s: State, net: Net)
    requires PinSound(c, s.pinStore)
    ensures PinSound(c, RotatedPin(c, s, net))
    ensures s.pinStore.Some? <==> RotatedPin(c, s, net).Some?
    ensures s.pinStore.Some? ==> PinAdvances(c, s.pinStore.value, RotatedPin(c, s, net).value)
    ensures s.pinStore.Some? ==>
      StartRoot(c, s).Some? && RotatedPin(c, s, net).value.trustRoot == Some(RootInUse(c, s, net))
    ensures s.pinStore.None? && StartRoot(c, s).Some? ==> RootInUse(c, s, net) == c.baked.value
  {
    if Rotates(c, s, net) {
      var p := s.pinStore.value;
      var w := WalkOf(c, s, net);
      var hops := WalkFindsLongestPrefix(c.h, c.supported, net.statements, 0, p.trustRoot.value, p, []);
      LeadsClimbs(c.h, c.supported, p.trustRoot.value, p.rotationVersion, hops, w.root, w.pin.rotationVersion);
      hide JsRootId, JsValidRoot, Stuck, Walk;
      assert hops != [];
    } else if s.pinStore.Some? {
      hide JsRootId, JsValidRoot, Walk;
      PinAdvancesSelf(c, s.pinStore.value, s.pinStore.value);
    }
  }

  /** After a soft verdict the pin decision cannot be a refusal: the verifier has already compared
      root identifier and version with the very pin the decision looks at. */
  lemma RejectUnreachable(c: Config, s: State, net: Net)
    requires PinSound(c, s.pinStore) && Passes(c, s, net)
    ensures !PinDecision(c, s, net).RejectRoot? && !PinDecision(c, s, net).RejectRollback?
    ensures NewManifest(c, s, net).trustRootId == JsRootId(c.h, RootInUse(c, s, net))
    ensures JsValidRoot(c.h, RootInUse(c, s, net))
    ensures RefreshVerdict(c, s, net) in {Valid, Expired}
    ensures OnceAccepted(c, NewManifest(c, s, net), RootInUse(c, s, net))
  {
    var src := Source(c, s, net).value;
    RotationAdvancesPin(c, s, net);
    SoftVerdictParsed(c.h, src.payload, src.bundle, RootInUse(c, s, net),
                      PinnedVersion(RotatedPin(c, s, net)), net.now, c.supported);
    hide JsManifestVerdict, JsRootId, JsValidRoot, Walk, PinAdvances;
  }

  lemma RefreshKeeps(c: Config, s: State, net: Net)
    requires PinSound(c, s.pinStore) && ManifestSound(c, s)
    ensures PinSound(c, Refreshed(c, s, net).pinStore)
    ensures ManifestSound(c, Refreshed(c, s, net))
  {
    RotationAdvancesPin(c, s, net);
    if Passes(c, s, net) {
      RejectUnreachable(c, s, net);
    }
    hide JsManifestVerdict, JsRootId, JsValidRoot, Walk, PinAdvances, OnceAccepted, Mirrored;
  }

  lemma RefreshAdvances(c: Config, s: State, net: Net)
    requires PinSound(c, s.pinStore) && s.pinStore.Some?
    ensures Refreshed(c, s, net).pinStore.Some?
    ensures PinAdvances(c, s.pinStore.value, Refreshed(c, s, net).pinStore.value)
  {
    RotationAdvancesPin(c, s, net);
    PinAdvancesSelf(c, s.pinStore.value, s.pinStore.value);
    if Passes(c, s, net) {
      RejectUnreachable(c, s, net);
      var q := RotatedPin(c, s, net).value;
      var r := Refreshed(c, s, net).pinStore.value;
      hide JsManifestVerdict, JsRootId, JsValidRoot, Walk, PinAdvances, OnceAccepted, Mirrored;
      PinAdvancesSelf(c, q, r);
      PinAdvancesOn(c, s.pinStore.value, q, r);
    }
    hide JsManifestVerdict, JsRootId, JsValidRoot, Walk, PinAdvances, OnceAccepted, Mirrored;
  }

  lemma RefreshKeepsCache(c: Config, s: State, net: Net)
    requires CacheSound(c, s.cache)
    ensures CacheSound(c, Refreshed(c, s, net).cache)
  {
    hide JsManifestVerdict, JsRootId, JsValidRoot, Walk;
  }

  // ---------------------------------------------------------------- one step, any run

  lemma ReadyKeeps(c: Config, s: State, net: Net)
    requires Sound(c, s)
    ensures Sound(c, Ready(c, s, net))
  {
    RefreshKeeps(c, s, net);
    RefreshKeepsCache(c, s, net);
    hide PinSound, ManifestSound, CacheSound, Refreshed;
  }

  lemma StoredKeeps(c: Config, s: State, request: Request, fetched: Option<Response>, wasm: bool)
    requires Sound(c, s)
    ensures Sound(c, Stored(c, s, AnswerOf(c, s, request, fetched, wasm)))
  {
    hide PinSound, OnceAccepted, DecideRequest;
  }

  lemma StepKeeps(c: Config, s: State, e: Event)
    requires Sound(c, s)
    ensures Sound(c, Step(c, s, e))
  {
    match e
    case RefreshEvent(net) =>
      RefreshKeeps(c, s, net);
      RefreshKeepsCache(c, s, net);
      hide PinSound, ManifestSound, CacheSound, Refreshed;
    case RequestEvent(request, net, fetched, wasm) =>
      ReadyKeeps(c, s, net);
      StoredKeeps(c, Ready(c, s, net), request, fetched, wasm);
      hide Sound, Ready, Stored;
    case EvictEvent(urls) =>
    case RestartEvent =>
  }

  /** Over every run of refreshes, requests, evictions and restarts: the pin's identifier is always
      its root's, any held manifest was let through by the verifier and is the one the pin records,
      and every digest-keyed cache entry hashes to its key. */
  lemma {:induction false} RunKeeps(c: Config, s: State, events: seq<Event>)
    requires Sound(c, s)
    ensures Sound(c, Run(c, s, events))
    decreases |events|
  {
    if events != [] {
      StepKeeps(c, s, events[0]);
      hide Sound, Step;
      RunKeeps(c, Step(c, s, events[0]), events[1..]);
    }
  }

  /** A worker just installed, with nothing in storage. */
  function Installed(): State { State(None, map[], NetworkFail, None, None, None) }

  lemma FreshIsSound(c: Config)
    ensures Sound(c, Installed())
  {
  }

  lemma StepAdvances(c: Config, s: State, e: Event)
    requires Sound(c, s) && s.pinStore.Some?
    ensures Step(c, s, e).pinStore.Some?
    ensures PinAdvances(c, s.pinStore.value, Step(c, s, e).pinStore.value)
  {
    PinAdvancesSelf(c, s.pinStore.value, s.pinStore.value);
    match e
    case RefreshEvent(net) =>
      RefreshAdvances(c, s, net);
      hide PinAdvances, Refreshed;
    case RequestEvent(request, net, fetched, wasm) =>
      RefreshAdvances(c, s, net);
      hide PinAdvances, Refreshed, AnswerOf;
    case EvictEvent(urls) =>
    case RestartEvent =>
  }

  /** Over every run the pinned version and rotation version never decrease, and the root changes
      only through links signed by the threshold of the then-pinned root. */
  lemma {:induction false} RunAdvances(c: Config, s: State, events: seq<Event>)
    requires Sound(c, s) && s.pinStore.Some?
    ensures Run(c, s, events).pinStore.Some?
    ensures PinAdvances(c, s.pinStore.value, Run(c, s, events).pinStore.value)
    decreases |events|
  {
    if events == [] {
      PinAdvancesSelf(c, s.pinStore.value, s.pinStore.value);
    } else {
      StepKeeps(c, s, events[0]);
      StepAdvances(c, s, events[0]);
      hide Sound, Step, PinAdvances;
      RunAdvances(c, Step(c, s, events[0]), events[1..]);
      PinAdvancesOn(c, s.pinStore.value, Step(c, s, events[0]).pinStore.value, Run(c, s, events).pinStore.value);
    }
  }

  /** Where the root of a first pin comes from: the root the worker was built with. */
  ghost predicate Anchored(c: Config, pin: Option<Pin>) {
    pin.Some? ==>
      && c.baked.Some? && pin.value.trustRoot.Some?
      && exists hops :: Leads(c.h, c.supported, c.baked.value, 0, hops, pin.value.trustRoot.value, pin.value.rotationVersion)
  }

  lemma FirstPinIsBaked(c: Config, s: State, net: Net)
    requires s.pinStore.None?
    ensures Anchored(c, Refreshed(c, s, net).pinStore)
  {
    if c.baked.Some? {
      assert Leads(c.h, c.supported, c.baked.value, 0, [], c.baked.value, 0);
    }
    hide JsManifestVerdict, IsHardFailure, Mirror, Mirrored, Leads, JsRootId, JsValidRoot;
  }

  lemma AnchorAdvances(c: Config, p: Pin, p': Pin)
    requires Anchored(c, Some(p)) && PinAdvances(c, p, p')
    ensures Anchored(c, Some(p'))
  {
    hide Leads;
    var a :| Leads(c.h, c.supported, c.baked.value, 0, a, p.trustRoot.value, p.rotationVersion);
    var b :| Leads(c.h, c.supported, p.trustRoot.value, p.rotationVersion, b, p'.trustRoot.value, p'.rotationVersion);
    LeadsConcat(c.h, c.supported, c.baked.value, 0, a, p.trustRoot.value, p.rotationVersion,
                b, p'.trustRoot.value, p'.rotationVersion);
  }

  lemma RefreshAnchored(c: Config, s: State, net: Net)
    requires PinSound(c, s.pinStore) && Anchored(c, s.pinStore)
    ensures Anchored(c, Refreshed(c, s, net).pinStore)
  {
    hide *;
    if s.pinStore.Some? {
      RefreshAdvances(c, s, net);
      AnchorAdvances(c, s.pinStore.value, Refreshed(c, s, net).pinStore.value);
    } else {
      FirstPinIsBaked(c, s, net);
    }
  }

  /** Trust on first use is trust in the baked root: from an empty store, every pin any run can
      reach descends from the root the worker was built with by signed links. */
  lemma {:induction false} RunAnchored(c: Config, s: State, events: seq<Event>)
    requires Sound(c, s) && Anchored(c, s.pinStore)
    ensures Anchored(c, Run(c, s, events).pinStore)
    decreases |events|
  {
    if events != [] {
      var e := events[0];
      StepKeeps(c, s, e);
      match e {
        case RefreshEvent(net) => RefreshAnchored(c, s, net);
        case RequestEvent(_, net, _, _) => RefreshAnchored(c, s, net);
        case _ =>
      }
      hide Sound, Refreshed, Anchored, AnswerOf;
      assert Anchored(c, Step(c, s, e).pinStore);
      RunAnchored(c, Step(c, s, e), events[1..]);
    }
  }

  // ---------------------------------------------------------------- what reaches the page

  /** A sha256 field that a URL carries unchanged: 64 letters and digits. */
  predicate DigestShaped(x: string) {
    |x| == 64 && forall i :: 0 <= i < 64 ==> '0' <= x[i] <= '9' || 'a' <= x[i] <= 'z' || 'A' <= x[i] <= 'Z'
  }

  /** URL serialization leaves plain paths alone. */
  ghost predicate UrlsPlain(h: Host) {
    && h.cacheUrl(CONTROL_MANIFEST) == CONTROL_MANIFEST && h.cacheUrl(CONTROL_SIG) == CONTROL_SIG
    && forall x :: DigestShaped(x) ==> h.cacheUrl(CACHE_BASE + x) == CACHE_BASE + x
  }

  lemma {:induction false} HexChars(b: Bytes)
    ensures forall i :: 0 <= i < |Hex(b)| ==> '0' <= Hex(b)[i] <= '9' || 'a' <= Hex(b)[i] <= 'f'
  {
    if b != [] {
      HexChars(b[1..]);
      assert Hex(b) == [HexDigit(b[0] / 16), HexDigit(b[0] % 16)] + Hex(b[1..]);
    }
  }

  lemma DigestsAreShaped(d: Digest)
    ensures DigestShaped(Hex(d))
  {
    HexChars(d);
  }

  /** Nothing but the bytes of its own digest can sit under the entry's cache key: the key is neither
      half of the control mirror, nor the key of a body with another digest. */
  ghost predicate KeyIsOwn(c: Config, entry: AssetEntry) {
    var u := CacheKey(c.h, entry);
    && u != CONTROL_MANIFEST && u != CONTROL_SIG
    && forall b :: u == CACHE_BASE + Hex(c.h.prims.sha256(b)) ==> Hex(c.h.prims.sha256(b)) == entry.sha256
  }

  /** No sound cache answers the entry with bytes of another digest. */
  ghost predicate EveryHitMatches(c: Config, entry: AssetEntry) {
    forall cache :: CacheSound(c, cache) && CacheKey(c.h, entry) in cache ==>
      Hex(c.h.prims.sha256(cache[CacheKey(c.h, entry)])) == entry.sha256
  }

  /** What sits under a key of its own has the entry's digest. */
  lemma HitMatches(c: Config, cache: map<string, Bytes>, entry: AssetEntry)
    requires UrlsPlain(c.h) && CacheSound(c, cache) && KeyIsOwn(c, entry)
    requires CacheKey(c.h, entry) in cache
    ensures Hex(c.h.prims.sha256(cache[CacheKey(c.h, entry)])) == entry.sha256
  {
    DigestsAreShaped(c.h.prims.sha256(cache[CacheKey(c.h, entry)]));
  }

  lemma SingleIsSound(c: Config, u: string, b: Bytes)
    requires UrlsPlain(c.h)
    requires u == CONTROL_MANIFEST || u == CONTROL_SIG || u == CACHE_BASE + Hex(c.h.prims.sha256(b))
    ensures CacheSound(c, map[u := b])
  {
    DigestsAreShaped(c.h.prims.sha256(b));
    hide DigestShaped;
  }

  lemma DigestKeyIsNoMirror(x: string)
    requires |x| == 64
    ensures CACHE_BASE + x != CONTROL_MANIFEST && CACHE_BASE + x != CONTROL_SIG
  {
    assert |CONTROL_MANIFEST| == |CACHE_BASE| + 16 && |CONTROL_SIG| == |CACHE_BASE| + 11;
  }

  /** Cache hits for an entry have the entry's digest, in every sound cache, exactly when its key is
      its own. */
  lemma HitsMatchExactly(c: Config, entry: AssetEntry)
    requires UrlsPlain(c.h)
    ensures EveryHitMatches(c, entry) <==> KeyIsOwn(c, entry)
  {
    var u := CacheKey(c.h, entry);
    if KeyIsOwn(c, entry) {
      hide *;
      forall cache | CacheSound(c, cache) && u in cache ensures Hex(c.h.prims.sha256(cache[u])) == entry.sha256 {
        HitMatches(c, cache, entry);
      }
      AllHitsMatch(c, entry);
    } else if EveryHitMatches(c, entry) {
      forall b | u == CACHE_BASE + Hex(c.h.prims.sha256(b)) ensures Hex(c.h.prims.sha256(b)) == entry.sha256 {
        assert map[u := b][u] == b;
        SingleIsSound(c, u, b);
      }
      MatchedIsNoMirror(c, entry);
    }
  }

  lemma MatchedIsNoMirror(c: Config, entry: AssetEntry)
    requires UrlsPlain(c.h) && EveryHitMatches(c, entry)
    ensures CacheKey(c.h, entry) != CONTROL_MANIFEST && CacheKey(c.h, entry) != CONTROL_SIG
  {
    var u := CacheKey(c.h, entry);
    var empty: Bytes := [];
    var cache := map[u := empty];
    assert cache[u] == empty;
    DigestsAreShaped(c.h.prims.sha256(empty));
    DigestKeyIsNoMirror(Hex(c.h.prims.sha256(empty)));
    if u == CONTROL_MANIFEST || u == CONTROL_SIG { SingleIsSound(c, u, empty); }
  }

  lemma AllHitsMatch(c: Config, entry: AssetEntry)
    requires forall cache :: CacheSound(c, cache) && CacheKey(c.h, entry) in cache ==>
      Hex(c.h.prims.sha256(cache[CacheKey(c.h, entry)])) == entry.sha256
    ensures EveryHitMatches(c, entry)
  {
  }

  /** The key is no control URL and, if it spells a digest at all, spells the entry's field. */
  ghost predicate SpellsItself(c: Config, entry: AssetEntry) {
    var u := CacheKey(c.h, entry);
    u != CONTROL_MANIFEST && u != CONTROL_SIG && forall d: Digest :: u == CACHE_BASE + Hex(d) ==> Hex(d) == entry.sha256
  }

  ghost predicate Reached(p: Primitives, d: Digest) { exists b :: p.sha256(b) == d }

  /** The condition read off the key alone: its spelling is enough, and necessary too if the hash
      reaches every digest. A field of 64 letters and digits always meets it. */
  lemma KeyIsOwnBySpelling(c: Config, entry: AssetEntry)
    requires UrlsPlain(c.h)
    ensures SpellsItself(c, entry) ==> KeyIsOwn(c, entry)
    ensures KeyIsOwn(c, entry) && (forall d: Digest :: Reached(c.h.prims, d)) ==> SpellsItself(c, entry)
    ensures DigestShaped(entry.sha256) ==> SpellsItself(c, entry)
  {
    var u := CacheKey(c.h, entry);
    if DigestShaped(entry.sha256) {
      assert u == CACHE_BASE + entry.sha256 && u[|CACHE_BASE|..] == entry.sha256;
      DigestKeyIsNoMirror(entry.sha256);
      hide CacheKey;
      forall d: Digest | u == CACHE_BASE + Hex(d) ensures Hex(d) == entry.sha256 {
        assert (CACHE_BASE + Hex(d))[|CACHE_BASE|..] == Hex(d);
      }
    }
    hide CacheKey, DigestShaped;
    if SpellsItself(c, entry) {
      forall b | u == CACHE_BASE + Hex(c.h.prims.sha256(b)) ensures Hex(c.h.prims.sha256(b)) == entry.sha256 {
        var d: Digest := c.h.prims.sha256(b);
        assert u == CACHE_BASE + Hex(d);
      }
    }
    if KeyIsOwn(c, entry) && forall d: Digest :: Reached(c.h.prims, d) {
      forall d: Digest | u == CACHE_BASE + Hex(d) ensures Hex(d) == entry.sha256 {
        assert Reached(c.h.prims, d);
      }
    }
  }

  /** The answer hands over a body the manifest's digest vouches for. */
  ghost predicate Vouched(c: Config, answer: Answer) {
    match answer
    case Hit(entry, body) => Hex(c.h.prims.sha256(body)) == entry.sha256
    case Verified(entry, r) => Hex(c.h.prims.sha256(r.body)) == entry.sha256 && |r.body| == entry.size && r.status == 200 && !r.redirected
    case _ => true
  }

  /** What is handed over to a checked request, of a worker in this state. */
  ghost predicate AnsweredRight(c: Config, s: State, answer: Answer) {
    && (answer.Hit? || answer.Verified? || answer.Streaming? ==>
          && s.manifest.Some? && answer.entry in s.manifest.value.assets
          && s.root.Some? && OnceAccepted(c, s.manifest.value, s.root.value)
          && s.pinStore.Some? && s.pinStore.value.trustRoot == s.root
          && (answer.Hit? ==> KeyIsOwn(c, answer.entry) ==> Vouched(c, answer))
          && (answer.Verified? ==> Vouched(c, answer))
          && (answer.Streaming? ==> HeadVerdict(c.h, answer.entry, answer.response) == ReadBody))
    && (answer.AsIs? ==> answer.response.status != 200)
  }

  /** After any run, every 200 answer to a checked request is of an entry of a manifest the verifier
      accepted under the pinned root, and has that entry's digest: from the cache if the entry's key
      is its own, from the buffered path always, and on the streaming path as far as the end of the
      stream will tell. What is passed on as it came has another status. */
  lemma ServedIsSigned(c: Config, s: State, events: seq<Event>, request: Request, net: Net,
                       fetched: Option<Response>, wasm: bool)
    requires Sound(c, s) && UrlsPlain(c.h)
    ensures
      var ready := Ready(c, Run(c, s, events), net);
      AnsweredRight(c, ready, AnswerOf(c, ready, request, fetched, wasm))
  {
    RunKeeps(c, s, events);
    ReadyKeeps(c, Run(c, s, events), net);
    hide *;
    AnswerSigned(c, Ready(c, Run(c, s, events), net), request, fetched, wasm);
  }

  /** A checked request is checked against an entry of the manifest in memory. */
  lemma CheckedAgainstManifest(c: Config, s: State, request: Request)
    requires Decide(c, s, request).Check?
    ensures s.manifest.Some? && Decide(c, s, request).entry in s.manifest.value.assets
  {
    hide InScope;
  }

  lemma JudgedIsVouched(c: Config, entry: AssetEntry, r: Response, wasm: bool)
    ensures var answer := Judge(c.h, entry, r, wasm);
      && !answer.Hit?
      && (answer.Verified? || answer.Streaming? ==> answer.entry == entry)
      && (answer.Verified? ==> Vouched(c, answer))
      && (answer.Streaming? ==> HeadVerdict(c.h, answer.entry, answer.response) == ReadBody)
      && (answer.AsIs? ==> answer.response.status != 200)
  {
    hide Hex;
  }

  lemma AnswerSigned(c: Config, s: State, request: Request, fetched: Option<Response>, wasm: bool)
    requires Sound(c, s) && UrlsPlain(c.h)
    ensures AnsweredRight(c, s, AnswerOf(c, s, request, fetched, wasm))
  {
    hide *;
    var d, answer := Decide(c, s, request), AnswerOf(c, s, request, fetched, wasm);
    AnswerCases(c, s, request, fetched, wasm);
    if d.Check? && !answer.Unavailable? {
      CheckedAgainstManifest(c, s, request);
      ManifestHeld(c, s);
      if CacheKey(c.h, d.entry) in s.cache {
        if KeyIsOwn(c, d.entry) { HitMatches(c, s.cache, d.entry); }
        HitIsRight(c, s, d.entry, answer.body);
      } else {
        JudgedIsVouched(c, d.entry, fetched.value, wasm);
        JudgedIsRight(c, s, d.entry, answer);
      }
    } else {
      EmptyHanded(c, s, answer);
    }
  }

  lemma AnswerCases(c: Config, s: State, request: Request, fetched: Option<Response>, wasm: bool)
    ensures
      var d, answer := Decide(c, s, request), AnswerOf(c, s, request, fetched, wasm);
      if !d.Check? then answer.Forwarded? || answer.Blocked? || answer.Unavailable?
      else if CacheKey(c.h, d.entry) in s.cache then answer == Hit(d.entry, s.cache[CacheKey(c.h, d.entry)])
      else if fetched.None? then answer == Unavailable
      else answer == Judge(c.h, d.entry, fetched.value, wasm)
  {
    hide Decide, Judge, CacheKey;
  }

  lemma EmptyHanded(c: Config, s: State, answer: Answer)
    requires answer.Forwarded? || answer.Blocked? || answer.Unavailable?
    ensures AnsweredRight(c, s, answer)
  {
  }

  lemma HitIsRight(c: Config, s: State, entry: AssetEntry, body: Bytes)
    requires s.manifest.Some? && entry in s.manifest.value.assets
    requires s.root.Some? && OnceAccepted(c, s.manifest.value, s.root.value)
    requires s.pinStore.Some? && s.pinStore.value.trustRoot == s.root
    requires KeyIsOwn(c, entry) ==> Hex(c.h.prims.sha256(body)) == entry.sha256
    ensures AnsweredRight(c, s, Hit(entry, body))
  {
    hide OnceAccepted, KeyIsOwn, Hex;
  }

  lemma JudgedIsRight(c: Config, s: State, entry: AssetEntry, answer: Answer)
    requires s.manifest.Some? && entry in s.manifest.value.assets
    requires s.root.Some? && OnceAccepted(c, s.manifest.value, s.root.value)
    requires s.pinStore.Some? && s.pinStore.value.trustRoot == s.root
    requires !answer.Hit? && (answer.Verified? || answer.Streaming? ==> answer.entry == entry)
    requires answer.Verified? ==> Vouched(c, answer)
    requires answer.Streaming? ==> HeadVerdict(c.h, answer.entry, answer.response) == ReadBody
    requires answer.AsIs? ==> answer.response.status != 200
    ensures AnsweredRight(c, s, answer)
  {
    hide OnceAccepted, Vouched, HeadVerdict;
  }

  lemma ManifestHeld(c: Config, s: State)
    requires Sound(c, s) && s.manifest.Some?
    ensures CacheSound(c, s.cache)
    ensures s.root.Some? && OnceAccepted(c, s.manifest.value, s.root.value)
    ensures s.pinStore.Some? && s.pinStore.value.trustRoot == s.root
  {
    hide OnceAccepted, PinSound;
  }

  /** Without a key of its own that fails: an entry whose field spells the path of the control
      mirror is answered with the mirrored manifest, which does not have that digest. */
  lemma MisshapenDigestHitsMirror(c: Config, s: State, request: Request, entry: AssetEntry, isNavigation: bool,
                                  fetched: Option<Response>, wasm: bool)
    requires UrlsPlain(c.h) && CONTROL_MANIFEST in s.cache
    requires Decide(c, s, request) == Check(entry, isNavigation) && entry.sha256 == "control/manifest"
    ensures AnswerOf(c, s, request, fetched, wasm) == Hit(entry, s.cache[CONTROL_MANIFEST])
    ensures !Vouched(c, AnswerOf(c, s, request, fetched, wasm))
  {
    assert CACHE_BASE + entry.sha256 == CONTROL_MANIFEST;
    hide Decide;
  }

  /** Nor is the control mirror the only trap: a digest with a fragment behind it loses the fragment
      in the key, and is answered with the body of the bare digest. */
  lemma FragmentHitsAnother(c: Config, s: State, request: Request, entry: AssetEntry, isNavigation: bool,
                            fetched: Option<Response>, wasm: bool, b: Bytes)
    requires UrlsPlain(c.h)
    requires var x := Hex(c.h.prims.sha256(b));
      entry.sha256 == x + "#" && c.h.cacheUrl(CACHE_BASE + (x + "#")) == CACHE_BASE + x && CACHE_BASE + x in s.cache
    requires Decide(c, s, request) == Check(entry, isNavigation)
    ensures !KeyIsOwn(c, entry)
    ensures AnswerOf(c, s, request, fetched, wasm) == Hit(entry, s.cache[CACHE_BASE + Hex(c.h.prims.sha256(b))])
    ensures !Vouched(c, AnswerOf(c, s, request, fetched, wasm))
  {
    hide Decide;
    DigestsAreShaped(c.h.prims.sha256(b));
    assert |entry.sha256| == 65;
  }

  // ---------------------------------------------------------------- from the installation on

  lemma {:induction false} RunSplits(c: Config, s: State, events: seq<Event>, k: nat)
    requires k <= |events|
    ensures Run(c, s, events) == Run(c, Run(c, s, events[..k]), events[k..])
    decreases |events|
  {
    hide Step;
    if k == 0 {
      assert events[..0] == [] && events[0..] == events;
    } else {
      assert events[..k][1..] == events[1..][..k - 1] && events[k..] == events[1..][k - 1..];
      RunSplits(c, Step(c, s, events[0]), events[1..], k - 1);
    }
  }

  /** The worker's promise, from its installation on and with nothing assumed of the network: whatever
      happens, pin, manifest and cache are sound, the pinned root descends from the baked one by signed
      links, no pin ever held is above the present one, and what a request is answered is right. */
  lemma FromInstallation(c: Config, events: seq<Event>, k: nat, request: Request, net: Net, fetched: Option<Response>,
                         wasm: bool)
    requires k <= |events|
    ensures Sound(c, Run(c, Installed(), events)) && Anchored(c, Run(c, Installed(), events).pinStore)
    ensures
      var before, now := Run(c, Installed(), events[..k]), Run(c, Installed(), events);
      before.pinStore.Some? ==> now.pinStore.Some? && PinAdvances(c, before.pinStore.value, now.pinStore.value)
    ensures UrlsPlain(c.h) ==>
      var ready := Ready(c, Run(c, Installed(), events), net);
      AnsweredRight(c, ready, AnswerOf(c, ready, request, fetched, wasm))
  {
    FreshIsSound(c);
    assert Anchored(c, Installed().pinStore);
    hide *;
    RunKeeps(c, Installed(), events);
    RunAnchored(c, Installed(), events);
    RunKeeps(c, Installed(), events[..k]);
    RunSplits(c, Installed(), events, k);
    var before := Run(c, Installed(), events[..k]);
    if before.pinStore.Some? { RunAdvances(c, before, events[k..]); }
    if UrlsPlain(c.h) { ServedIsSigned(c, Installed(), events, request, net, fetched, wasm); }
  }
}
