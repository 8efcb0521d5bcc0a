/** When the worker gives which answer (runtime/veil-guard-sw.js, handle; runtime/veilguard-policy.mjs). */
module Answering {
  import opened Prelude
  import opened TrustRoots
  import opened Manifests
  import opened Policy
  import opened Worker
  import opened WorkerSafety

  // ---------------------------------------------------------------- what a request meets, spelled out

  ghost predicate Hard(s: State) {
    s.status in {Known(TamperedState), Known(Rollback), Known(UntrustedRoot), Known(UnsupportedState)}
  }

  /** The request is of the worker's own origin, and not for the manifest or its signature. */
  ghost predicate InRemit(c: Config, request: Request) {
    && request.url.Some? && request.url.value.origin == c.origin
    && request.url.value.pathname != "/veil-guard-manifest.json"
    && request.url.value.pathname != "/veil-guard-manifest.sig"
  }

  /** The request gets as far as being looked up in a manifest, under this key. */
  ghost predicate LookedUp(c: Config, s: State, request: Request, key: string) {
    InRemit(c, request) && !Hard(s) && s.manifest.Some? && c.h.requestKey(request.url.value.pathname) == Some(key)
  }

  /** `path` is `prefix` or lies under it as a directory; a slash at the end of the prefix adds nothing. */
  ghost predicate Under(path: string, prefix: string) {
    || prefix == "/"
    || path == prefix
    || (exists rest :: path == prefix + "/" + rest && (prefix == "" || prefix[|prefix| - 1] != '/'))
    || (exists rest :: path == prefix + rest && prefix != "" && prefix[|prefix| - 1] == '/')
  }

  ghost predicate Scoped(path: string, scope: Scope) {
    && (scope.included == [] || exists p :: p in scope.included && Under(path, p))
    && (forall p :: p in scope.excluded ==> !Under(path, p))
  }

  /** The first entry of this path. */
  ghost predicate EntryAt(m: Manifest, path: string, e: AssetEntry) {
    exists i :: 0 <= i < |m.assets| && m.assets[i] == e && e.path == path && forall j :: 0 <= j < i ==> m.assets[j].path != path
  }

  ghost predicate NoEntryAt(m: Manifest, path: string) { forall e :: e in m.assets ==> e.path != path }

  ghost predicate EndsInSlash(key: string) { key != "" && key[|key| - 1] == '/' }

  /** The entry a key stands for: its own, else that of its index page, else - for a navigation, if the
      scope says so - that of the page with the extension added. */
  ghost predicate StandsFor(m: Manifest, key: string, navigation: bool, e: AssetEntry) {
    || EntryAt(m, key, e)
    || (NoEntryAt(m, key) && EndsInSlash(key) && EntryAt(m, key + "index.html", e))
    || (NoEntryAt(m, key) && !EndsInSlash(key) && navigation && m.scope.htmlExtension && EntryAt(m, key + ".html", e))
  }

  ghost predicate StandsForNothing(m: Manifest, key: string, navigation: bool) {
    && NoEntryAt(m, key)
    && (EndsInSlash(key) ==> NoEntryAt(m, key + "index.html"))
    && (!EndsInSlash(key) && navigation && m.scope.htmlExtension ==> NoEntryAt(m, key + ".html"))
  }

  ghost predicate Navigation(request: Request) { request.destination == "document" }

  /** The request is checked against this entry. */
  ghost predicate CheckedAgainst(c: Config, s: State, request: Request, e: AssetEntry) {
    exists key :: LookedUp(c, s, request, key)
      && Scoped(key, s.manifest.value.scope) && StandsFor(s.manifest.value, key, Navigation(request), e)
  }

  /** The request is not for the worker to judge: it is out of its remit, out of the signed scope, or for a
      page no entry stands for. */
  ghost predicate OutOfRemit(c: Config, s: State, request: Request) {
    !InRemit(c, request)
    || exists key :: LookedUp(c, s, request, key)
         && (!Scoped(key, s.manifest.value.scope)
             || (Navigation(request) && StandsForNothing(s.manifest.value, key, true)))
  }

  /** The request is for something in scope, no page, that no entry stands for. */
  ghost predicate Unlisted(c: Config, s: State, request: Request) {
    !Navigation(request)
    && exists key :: LookedUp(c, s, request, key)
         && Scoped(key, s.manifest.value.scope) && StandsForNothing(s.manifest.value, key, false)
  }

  /** The request is refused before anything is looked up. */
  ghost predicate Barred(c: Config, s: State, request: Request, reason: Reason) {
    && InRemit(c, request)
    && (if Hard(s) then reason == ManifestHard(s.status.state)
        else reason == IllegalPath && s.manifest.Some? && c.h.requestKey(request.url.value.pathname).None?)
  }

  function UrlOf(c: Config, e: AssetEntry): string { c.h.cacheUrl("https://veil-guard.invalid/" + e.sha256) }

  ghost predicate TypeMatches(c: Config, e: AssetEntry, r: Response) {
    r.contentType.None? || r.contentType.value == "" || c.h.contentTypeMatches(e.contentType, r.contentType.value)
  }

  ghost predicate Streams(e: AssetEntry, r: Response, wasm: bool) { e.size > 512 * 1024 && r.hasBody && wasm }

  /** The head of the response gives no reason to refuse it. */
  ghost predicate GoodHead(c: Config, e: AssetEntry, r: Response) {
    r.status == 200 && !r.redirected && TypeMatches(c, e, r)
  }

  ghost predicate GoodDigest(c: Config, e: AssetEntry, r: Response) { Hex(c.h.prims.sha256(r.body)) == e.sha256 }

  /** Why this response is refused for this entry. */
  ghost predicate RefusedFor(c: Config, e: AssetEntry, r: Response, wasm: bool, reason: Reason) {
    match reason
    case Redirected => r.status != 206 && r.redirected
    case ContentTypeMismatch => r.status == 200 && !r.redirected && !TypeMatches(c, e, r)
    case HashMismatch => GoodHead(c, e, r) && !Streams(e, r, wasm) && !GoodDigest(c, e, r)
    case SizeMismatch => GoodHead(c, e, r) && !Streams(e, r, wasm) && GoodDigest(c, e, r) && |r.body| != e.size
    case _ => false
  }

  /** Everything about the response is as the entry says. */
  ghost predicate Accepted(c: Config, e: AssetEntry, r: Response, wasm: bool) {
    GoodHead(c, e, r) && !Streams(e, r, wasm) && GoodDigest(c, e, r) && |r.body| == e.size
  }

  /** Partial content, and any other answer that is no plain success, goes to the page as it came. */
  ghost predicate PassedAsIs(r: Response) { r.status == 206 || (r.status != 200 && !r.redirected) }

  /** Nothing is cached for the entry, and the network was asked. */
  ghost predicate Asked(c: Config, s: State, request: Request, e: AssetEntry) {
    CheckedAgainst(c, s, request, e) && UrlOf(c, e) !in s.cache
  }

  // ---------------------------------------------------------------- the functions say the same

  lemma UnderIs(path: string, prefix: string)
    ensures Covers(prefix, path) <==> Under(path, prefix)
  {
    var p := DropTrailingSlash(prefix) + "/";
    if prefix != "" && prefix[|prefix| - 1] == '/' {
      assert p == prefix;
      if p <= path { assert path == prefix + path[|prefix|..]; }
      forall rest | path == prefix + rest ensures p <= path {}
    } else {
      assert p == prefix + "/";
      if p <= path { assert path == prefix + "/" + path[|p|..]; }
      forall rest | path == prefix + "/" + rest ensures p <= path { assert path == p + rest; }
    }
  }

  lemma ScopedIs(path: string, scope: Scope)
    ensures InScope(path, scope) <==> Scoped(path, scope)
  {
    forall p ensures Covers(p, path) <==> Under(path, p) { UnderIs(path, p); }
    hide Covers;
    UnderIs(path, "/");
    assert Under(path, "/");
    assert "/" in ["/"];
    hide Under;
  }

  lemma {:induction false} FoundIs(assets: seq<AssetEntry>, path: string)
    ensures FindAsset(assets, path).None? ==> forall e :: e in assets ==> e.path != path
    ensures FindAsset(assets, path).Some? ==>
      exists i :: 0 <= i < |assets| && assets[i] == FindAsset(assets, path).value
                  && forall j :: 0 <= j < i ==> assets[j].path != path
  {
    if assets != [] && assets[0].path != path {
      FoundIs(assets[1..], path);
      assert assets == [assets[0]] + assets[1..];
      if FindAsset(assets, path).Some? {
        var i :| 0 <= i < |assets[1..]| && assets[1..][i] == FindAsset(assets, path).value
                 && forall j :: 0 <= j < i ==> assets[1..][j].path != path;
        forall j | 0 <= j < i + 1 ensures assets[j].path != path { if j > 0 { assert assets[j] == assets[1..][j - 1]; } }
        assert assets[i + 1] == FindAsset(assets, path).value;
      }
    } else if assets != [] {
      assert assets[0] == FindAsset(assets, path).value;
    }
  }

  lemma EntryIs(m: Manifest, path: string)
    ensures FindAsset(m.assets, path).None? <==> NoEntryAt(m, path)
    ensures forall e :: FindAsset(m.assets, path) == Some(e) <==> EntryAt(m, path, e)
  {
    FoundIs(m.assets, path);
    hide FindAsset;
    forall e | EntryAt(m, path, e) ensures FindAsset(m.assets, path) == Some(e) {
      var i :| 0 <= i < |m.assets| && m.assets[i] == e && e.path == path && forall j :: 0 <= j < i ==> m.assets[j].path != path;
      assert e in m.assets;
    }
  }

  lemma StandsIs(m: Manifest, key: string, navigation: bool)
    ensures ResolveEntry(m, key, navigation).None? <==> StandsForNothing(m, key, navigation)
    ensures forall e :: ResolveEntry(m, key, navigation) == Some(e) <==> StandsFor(m, key, navigation, e)
  {
    EntryIs(m, key);
    EntryIs(m, key + "index.html");
    EntryIs(m, key + ".html");
    hide FindAsset, EntryAt, NoEntryAt;
  }

  /** What the request is decided to be. */
  lemma DecidedIs(c: Config, s: State, request: Request)
    ensures Decide(c, s, request).Passthrough? <==> OutOfRemit(c, s, request)
    ensures Decide(c, s, request).BlockNoManifest? <==> InRemit(c, request) && !Hard(s) && s.manifest.None?
    ensures forall reason ::
      Decide(c, s, request) == BlockUnmanifested(reason) <==> reason == NotInManifest && Unlisted(c, s, request)
    ensures forall reason :: Decide(c, s, request) == BlockTamper(reason) <==> Barred(c, s, request, reason)
    ensures forall e :: (Decide(c, s, request).Check? && Decide(c, s, request).entry == e) <==> CheckedAgainst(c, s, request, e)
  {
    HardIs(s);
    if InRemit(c, request) && !Hard(s) && s.manifest.Some? && c.h.requestKey(request.url.value.pathname).Some? {
      var key := c.h.requestKey(request.url.value.pathname).value;
      assert LookedUp(c, s, request, key);
      ScopedIs(key, s.manifest.value.scope);
      StandsIs(s.manifest.value, key, Navigation(request));
    }
    hide InScope, Scoped, ResolveEntry, StandsFor, StandsForNothing, Hard, StatusIsHard;
  }

  lemma HardIs(s: State)
    ensures Hard(s) <==> StatusIsHard(s.status)
  {
  }

  /** What is decided about a response, with its body read or not, or only hashed, or only counted. */
  lemma ResponseDecided(h: Host, e: AssetEntry, status: nat, redirected: bool, contentType: Option<string>,
                        digestHex: Option<string>, byteLength: Option<nat>)
    ensures
      var v := DecideResponse(h, e, status, redirected, contentType, digestHex, byteLength);
      var typed := contentType.None? || contentType.value == "" || h.contentTypeMatches(e.contentType, contentType.value);
      var plain := status == 200 && !redirected && typed;
      var hashed := digestHex.None? || digestHex.value == e.sha256;
      var counted := byteLength.None? || byteLength.value == e.size;
      && (v == PassBody(PartialContent) <==> status == 206)
      && (v == NetworkBody(HttpStatus(status)) <==> status != 200 && status != 206 && !redirected)
      && (v == TamperedBody(Redirected) <==> status != 206 && redirected)
      && (v == TamperedBody(ContentTypeMismatch) <==> status == 200 && !redirected && !typed)
      && (v == TamperedBody(HashMismatch) <==> plain && !hashed)
      && (v == TamperedBody(SizeMismatch) <==> plain && hashed && !counted)
      && (v == ServeVerified <==> plain && hashed && counted && digestHex.Some? && byteLength.Some?)
      && (v == ReadBody <==> plain && hashed && counted && (digestHex.None? || byteLength.None?))
  {
  }

  /** What a fetched response is judged to be. */
  lemma JudgedAs(c: Config, e: AssetEntry, r: Response, wasm: bool)
    ensures
      var answer := Judge(c.h, e, r, wasm);
      && (forall reason :: answer == Blocked(reason) <==> RefusedFor(c, e, r, wasm, reason))
      && (answer.AsIs? <==> PassedAsIs(r))
      && (answer.Verified? <==> Accepted(c, e, r, wasm))
      && (answer.Streaming? <==> GoodHead(c, e, r) && Streams(e, r, wasm))
      && (answer.Blocked? || answer == AsIs(r) || answer == Verified(e, r) || answer == Streaming(e, r))
  {
    hide Hex;
  }

  // ---------------------------------------------------------------- every answer and its cause

  /** When this answer is given. */
  ghost predicate GivenFor(c: Config, s: State, request: Request, fetched: Option<Response>, wasm: bool, answer: Answer) {
    match answer
    case Forwarded => OutOfRemit(c, s, request)
    case Unavailable =>
      || (InRemit(c, request) && !Hard(s) && s.manifest.None?)
      || (fetched.None? && exists e :: Asked(c, s, request, e))
    case Blocked(reason) =>
      || Barred(c, s, request, reason)
      || (reason == NotInManifest && Unlisted(c, s, request))
      || (fetched.Some? && exists e :: Asked(c, s, request, e) && RefusedFor(c, e, fetched.value, wasm, reason))
    case Hit(e, body) => CheckedAgainst(c, s, request, e) && UrlOf(c, e) in s.cache && body == s.cache[UrlOf(c, e)]
    case Verified(e, r) => fetched == Some(r) && Asked(c, s, request, e) && Accepted(c, e, r, wasm)
    case Streaming(e, r) => fetched == Some(r) && Asked(c, s, request, e) && GoodHead(c, e, r) && Streams(e, r, wasm)
    case AsIs(r) => fetched == Some(r) && PassedAsIs(r) && exists e :: Asked(c, s, request, e)
  }

  lemma KeyIs(c: Config, e: AssetEntry)
    ensures CacheKey(c.h, e) == UrlOf(c, e)
  {
  }

  /** Without an entry to check against. */
  lemma UncheckedExplained(c: Config, s: State, request: Request, fetched: Option<Response>, wasm: bool, answer: Answer)
    requires !Decide(c, s, request).Check?
    ensures answer == AnswerOf(c, s, request, fetched, wasm) <==> GivenFor(c, s, request, fetched, wasm, answer)
  {
    DecidedIs(c, s, request);
    if answer.Blocked? {
      assert Barred(c, s, request, answer.reason) <==> Decide(c, s, request) == BlockTamper(answer.reason);
      assert answer.reason == NotInManifest && Unlisted(c, s, request)
        <==> Decide(c, s, request) == BlockUnmanifested(answer.reason);
    }
    hide Decide, Judge, CacheKey, UrlOf, InRemit, Hard, OutOfRemit, Unlisted, Barred, CheckedAgainst, GoodHead, Accepted,
         PassedAsIs, Streams, RefusedFor;
  }

  /** With one. */
  lemma CheckedExplained(c: Config, s: State, request: Request, fetched: Option<Response>, wasm: bool, answer: Answer)
    requires Decide(c, s, request).Check?
    ensures answer == AnswerOf(c, s, request, fetched, wasm) <==> GivenFor(c, s, request, fetched, wasm, answer)
  {
    var e := Decide(c, s, request).entry;
    DecidedIs(c, s, request);
    KeyIs(c, e);
    if fetched.Some? { JudgedAs(c, e, fetched.value, wasm); }
    AnswerCases(c, s, request, fetched, wasm);
    hide AnswerOf, Decide, Judge, CacheKey, UrlOf, InRemit, Hard, OutOfRemit, Unlisted, Barred, CheckedAgainst, GoodHead, Accepted,
         PassedAsIs, Streams, RefusedFor;
    assert forall e' :: CheckedAgainst(c, s, request, e') <==> e' == e;
    assert UrlOf(c, e) !in s.cache ==> Asked(c, s, request, e);
  }

  /** For every answer, exactly when it is given. */
  lemma AnswerExplained(c: Config, s: State, request: Request, fetched: Option<Response>, wasm: bool, answer: Answer)
    ensures answer == AnswerOf(c, s, request, fetched, wasm) <==> GivenFor(c, s, request, fetched, wasm, answer)
  {
    hide *;
    if Decide(c, s, request).Check? {
      CheckedExplained(c, s, request, fetched, wasm, answer);
    } else {
      UncheckedExplained(c, s, request, fetched, wasm, answer);
    }
  }

  /** After any run, every answer has its one cause: what is passed on unchecked is out of the worker's remit
      or of the signed scope, and what is refused is refused for the reason given. */
  lemma EveryAnswerExplained(c: Config, s: State, events: seq<Event>, request: Request, net: Net,
                             fetched: Option<Response>, wasm: bool, answer: Answer)
    ensures
      var ready := Ready(c, Run(c, s, events), net);
      answer == AnswerOf(c, ready, request, fetched, wasm) <==> GivenFor(c, ready, request, fetched, wasm, answer)
  {
    hide *;
    AnswerExplained(c, Ready(c, Run(c, s, events), net), request, fetched, wasm, answer);
  }

  /** Nothing unverified reaches a page under a hard state: whatever is in remit is blocked, with the state
      for a reason. */
  lemma HardBlocksAll(c: Config, s: State, request: Request, fetched: Option<Response>, wasm: bool)
    requires InRemit(c, request) && Hard(s)
    ensures AnswerOf(c, s, request, fetched, wasm) == Blocked(ManifestHard(s.status.state))
  {
    AnswerExplained(c, s, request, fetched, wasm, Blocked(ManifestHard(s.status.state)));
    hide InRemit, AnswerOf;
  }

  /** What was fetched and verified once is served from the cache the next time, whatever the network does. */
  lemma ServedAgain(c: Config, s: State, request: Request, r: Response, wasm: bool, fetched: Option<Response>, wasm': bool)
    requires AnswerOf(c, s, request, Some(r), wasm).Verified?
    ensures
      var answer := AnswerOf(c, s, request, Some(r), wasm);
      var s' := Stored(c, s, answer);
      && AnswerOf(c, s', request, fetched, wasm') == Hit(answer.entry, r.body)
      && forall u :: u in s'.cache <==> u in s.cache || u == UrlOf(c, answer.entry)
  {
    var answer := AnswerOf(c, s, request, Some(r), wasm);
    var e := answer.entry;
    var s' := Stored(c, s, answer);
    AnswerExplained(c, s, request, Some(r), wasm, answer);
    KeyIs(c, e);
    assert CheckedAgainst(c, s', request, e) by {
      hide Scoped, StandsFor, InRemit, AnswerOf, UrlOf, CacheKey, Accepted;
      var key :| LookedUp(c, s, request, key) && Scoped(key, s.manifest.value.scope)
        && StandsFor(s.manifest.value, key, Navigation(request), e);
      assert LookedUp(c, s', request, key);
    }
    AnswerExplained(c, s', request, fetched, wasm', Hit(e, r.body));
    hide AnswerOf, CheckedAgainst, UrlOf, CacheKey, Accepted;
  }

  /** Nothing else a worker does for a request leaves a trace: only what was fetched and verified is kept, and
      only a worker without a manifest, or in a hard state, turns to the control plane first. */
  lemma NothingElseKept(c: Config, s: State, request: Request, net: Net, fetched: Option<Response>, wasm: bool)
    ensures s.manifest.Some? && !Hard(s) ==> Ready(c, s, net) == s
    ensures s.manifest.None? || Hard(s) ==> Ready(c, s, net) == Step(c, s, RefreshEvent(net))
    ensures
      var answer := AnswerOf(c, s, request, fetched, wasm);
      if answer.Verified? then
        Stored(c, s, answer) == s.(cache := s.cache[UrlOf(c, answer.entry) := answer.response.body])
      else Stored(c, s, answer) == s
  {
    HardIs(s);
    hide AnswerOf, Hard, StatusIsHard, Refreshed;
  }
}
