/** The pure decisions of the Tier 1 worker (runtime/veilguard-policy.mjs). */
module Policy {
  import opened Prelude
  import opened TrustRoots
  import opened Manifests
  import opened Paths

  // ---------------------------------------------------------------- scope and lookup

  predicate StartsWith(s: string, prefix: string) {
    prefix <= s
  }

  function DropTrailingSlash(s: string): string {
    if s != [] && s[|s| - 1] == '/' then s[..|s| - 1] else s
  }

  predicate Covers(prefix: string, pathname: string) {
    prefix == "/" || pathname == prefix || StartsWith(pathname, DropTrailingSlash(prefix) + "/")
  }

  predicate InScope(pathname: string, scope: Scope) {
    var included := if scope.included == [] then ["/"] else scope.included;
    (exists p :: p in included && Covers(p, pathname)) && !(exists p :: p in scope.excluded && Covers(p, pathname))
  }

  /** First entry with this path. */
  function FindAsset(assets: seq<AssetEntry>, path: string): (r: Option<AssetEntry>)
    ensures r.Some? ==> r.value in assets && r.value.path == path
  {
    if assets == [] then None
    else if assets[0].path == path then Some(assets[0])
    else FindAsset(assets[1..], path)
  }

  function ResolveEntry(m: Manifest, key: string, isNavigation: bool): (r: Option<AssetEntry>)
    ensures r.Some? ==> r.value in m.assets
  {
    var direct := FindAsset(m.assets, key);
    if direct.Some? then direct
    else if key != [] && key[|key| - 1] == '/' then FindAsset(m.assets, key + "index.html")
    else if isNavigation && m.scope.htmlExtension then FindAsset(m.assets, key + ".html")
    else None
  }

  /** In a structurally valid manifest the paths ascend strictly, not only between neighbours. */
  lemma {:induction false} PathsAscend(h: Host, m: Manifest, i: nat, j: nat)
    requires StructurallyValid(h, m) && i < j < |m.assets|
    ensures RustLess(m.assets[i].path, m.assets[j].path)
    decreases j - i
  {
    assert AssetOk(h, m.assets, j);
    if i + 1 < j {
      PathsAscend(h, m, i, j - 1);
      CompareTransitive(Utf8(m.assets[i].path), Utf8(m.assets[j - 1].path), Utf8(m.assets[j].path));
    }
  }

  lemma {:induction false} FirstIsFound(assets: seq<AssetEntry>, i: nat)
    requires i < |assets| && forall j :: 0 <= j < i ==> assets[j].path != assets[i].path
    ensures FindAsset(assets, assets[i].path) == Some(assets[i])
  {
    if i > 0 {
      assert assets[0].path != assets[i].path && assets[i] == assets[1..][i - 1];
      FirstIsFound(assets[1..], i - 1);
    }
  }

  /** Every entry of a structurally valid manifest is the one found under its path: none is shadowed. */
  lemma EveryAssetIsFound(h: Host, m: Manifest, i: nat, isNavigation: bool)
    requires StructurallyValid(h, m) && i < |m.assets|
    ensures ResolveEntry(m, m.assets[i].path, isNavigation) == Some(m.assets[i])
  {
    forall j | 0 <= j < i ensures m.assets[j].path != m.assets[i].path {
      PathsAscend(h, m, j, i);
      CompareEqual(Utf8(m.assets[j].path), Utf8(m.assets[i].path));
    }
    FirstIsFound(m.assets, i);
  }

  // ---------------------------------------------------------------- per request

  datatype Url = Url(origin: string, pathname: string)

  /** `url` is None when it does not parse. */
  datatype Request = Request(url: Option<Url>, destination: string)

  /** What the worker believes about its manifest. */
  datatype Status = NetworkFail | Known(state: ManifestState)

  predicate StatusIsHard(s: Status) {
    s.Known? && IsHardFailure(s.state)
  }

  datatype Reason =
    | UnparseableUrl | CrossOrigin | ControlPlane | ManifestHard(state: ManifestState) | ManifestUnavailable
    | IllegalPath | OutOfScope | NotInManifest | NavigationNotManifested
    | PartialContent | Redirected | HttpStatus(code: nat) | ContentTypeMismatch | HashMismatch | SizeMismatch

  datatype Decision =
    | Passthrough(reason: Reason)
    | BlockTamper(reason: Reason)
    | BlockNoManifest(reason: Reason)
    | BlockUnmanifested(reason: Reason)
    | Check(entry: AssetEntry, isNavigation: bool)

  function DecideRequest(h: Host, request: Request, origin: string, status: Status,
                         manifest: Option<Manifest>): (d: Decision)
    ensures d.Check? ==> manifest.Some? && d.entry in manifest.value.assets && !StatusIsHard(status)
  {
    if request.url.None? then Passthrough(UnparseableUrl)
    else if request.url.value.origin != origin then Passthrough(CrossOrigin)
    else if request.url.value.pathname == "/veil-guard-manifest.json"
         || request.url.value.pathname == "/veil-guard-manifest.sig" then Passthrough(ControlPlane)
    else if StatusIsHard(status) then BlockTamper(ManifestHard(status.state))
    else if manifest.None? then BlockNoManifest(ManifestUnavailable)
    else
      var key := h.requestKey(request.url.value.pathname);
      if key.None? then BlockTamper(IllegalPath)
      else if !InScope(key.value, manifest.value.scope) then Passthrough(OutOfScope)
      else
        var isNavigation := request.destination == "document";
        var entry := ResolveEntry(manifest.value, key.value, isNavigation);
        if entry.Some? then Check(entry.value, isNavigation)
        else if !isNavigation then BlockUnmanifested(NotInManifest)
        else Passthrough(NavigationNotManifested)
  }

  // ---------------------------------------------------------------- per response

  datatype BodyVerdict =
    | PassBody(reason: Reason)
    | TamperedBody(reason: Reason)
    | NetworkBody(reason: Reason)
    | ReadBody
    | ServeVerified

  /** `digestHex` and `byteLength` are None while the body has not been read. */
  function DecideResponse(h: Host, entry: AssetEntry, status: nat, redirected: bool, contentType: Option<string>,
                          digestHex: Option<string>, byteLength: Option<nat>): BodyVerdict
  {
    if status == 206 then PassBody(PartialContent)
    else if redirected then TamperedBody(Redirected)
    else if status != 200 then NetworkBody(HttpStatus(status))
    else if contentType.Some? && contentType.value != "" && !h.contentTypeMatches(entry.contentType, contentType.value) then
      TamperedBody(ContentTypeMismatch)
    else if digestHex.Some? && digestHex.value != entry.sha256 then TamperedBody(HashMismatch)
    else if byteLength.Some? && byteLength.value != entry.size then TamperedBody(SizeMismatch)
    else if digestHex.None? || byteLength.None? then ReadBody
    else ServeVerified
  }

  function DecideStreamedBody(entry: AssetEntry, digestHex: string, byteLength: nat): BodyVerdict {
    if digestHex != entry.sha256 then TamperedBody(HashMismatch)
    else if byteLength != entry.size then TamperedBody(SizeMismatch)
    else ServeVerified
  }

  // ---------------------------------------------------------------- pinning

  /** `trustRoot` is None on a pin that was never written back with its root. */
  datatype Pin = Pin(trustRootId: string, version: nat, rotationVersion: nat, trustRoot: Option<TrustRoot>)

  datatype PinAction =
    | Adopt(pin: Pin)
    | Advance(pin: Pin)
    | Unchanged(pin: Pin)
    | RejectRoot
    | RejectRollback

  function PinTransition(pin: Option<Pin>, manifestVersion: nat, trustRootId: string): PinAction {
    match pin
    case None => Adopt(Pin(trustRootId, manifestVersion, 0, None))
    case Some(p) =>
      if p.trustRootId != trustRootId then RejectRoot
      else if manifestVersion < p.version then RejectRollback
      else if manifestVersion > p.version then Advance(p.(version := manifestVersion))
      else Unchanged(p)
  }

  /** A pin moves up under its own root and never otherwise: what it records is the highest version accepted, and
      every other manifest is refused, for its root before its version. */
  lemma PinMovesUp(p: Pin, version: nat, id: string)
    ensures PinTransition(Some(p), version, id) in {RejectRoot, RejectRollback, Unchanged(p), Advance(p.(version := version))}
    ensures PinTransition(Some(p), version, id) == RejectRoot <==> id != p.trustRootId
    ensures PinTransition(Some(p), version, id) == RejectRollback <==> id == p.trustRootId && version < p.version
    ensures PinTransition(Some(p), version, id) == Unchanged(p) <==> id == p.trustRootId && version == p.version
    ensures PinTransition(None, version, id) == Adopt(Pin(id, version, 0, None))
  {
  }
}
