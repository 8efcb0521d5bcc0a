/** Which tags of a page gain integrity, and what the report says of each (src/generators.rs). */
module Covering {
  import opened Prelude
  import opened Html
  import opened Splicing
  import opened Rescan
  import opened Reinjection
  import opened Injection
  import opened Printing
  import Base64
  import TrustRoots

  // ---------------------------------------------------------------- what counts, spelled out

  /** The first attribute of this name has this value. */
  ghost predicate FirstIs(attrs: seq<Attr>, name: string, v: Bytes) {
    exists i :: 0 <= i < |attrs| && attrs[i] == Attr(Text(name), v) && forall j :: 0 <= j < i ==> attrs[j].name != Text(name)
  }

  ghost predicate Lacks(attrs: seq<Attr>, name: string) {
    forall i :: 0 <= i < |attrs| ==> attrs[i].name != Text(name)
  }

  /** Between `i` and `j` stands a word: no white space in it, and nothing else around it. */
  predicate WordAt(s: Bytes, i: nat, j: nat) {
    && i < j <= |s| && (forall k :: i <= k < j ==> !White(s[k]))
    && (i == 0 || White(s[i - 1])) && (j == |s| || White(s[j]))
  }

  /** One of the words of the value is this one, in any case. */
  ghost predicate HasWord(v: Bytes, w: string) {
    exists i: nat, j: nat :: WordAt(v, i, j) && Alike(v[i..j], Text(w))
  }

  /** What a `rel` and an `as` make of a link. */
  ghost predicate Loads(attrs: seq<Attr>, rel: Bytes) {
    || HasWord(rel, "stylesheet") || HasWord(rel, "modulepreload")
    || (HasWord(rel, "preload")
        && exists kind :: FirstIs(attrs, "as", kind) && (Alike(kind, Text("script")) || Alike(kind, Text("style"))))
  }

  /** The tag loads a subresource that supports integrity, from this URL: a script with a source, or a link
      whose relations say that it loads style or script. */
  ghost predicate Reference(t: Tag, url: Bytes) {
    || (t.name == Text("script") && FirstIs(t.attrs, "src", url))
    || (t.name == Text("link") && FirstIs(t.attrs, "href", url) && exists rel :: FirstIs(t.attrs, "rel", rel) && Loads(t.attrs, rel))
  }

  predicate DigitOf(c: char, v: nat)
    requires v < 16
  {
    c == "0123456789abcdef"[v] || c == "0123456789ABCDEF"[v]
  }

  /** Two hex digits a byte, in either case. */
  predicate Digits(s: string, b: Bytes) {
    |s| == 2 * |b| && forall i :: 0 <= i < |b| ==> DigitOf(s[2 * i], b[i] / 16) && DigitOf(s[2 * i + 1], b[i] % 16)
  }

  /** The tag is to gain the digest of the asset under this key. */
  ghost predicate Gains(site: Site, t: Tag, key: Bytes, digest: Bytes) {
    && Lacks(t.attrs, "integrity") && (exists url :: Reference(t, url) && site.resolve(url) == Some(key))
    && key in site.digests && Digits(site.digests[key], digest)
  }

  /** What it loads comes from another origin. */
  ghost predicate Foreign(site: Site, t: Tag, url: Bytes) {
    Lacks(t.attrs, "integrity") && Reference(t, url) && site.resolve(url).None?
  }

  /** What it loads has no digest. */
  ghost predicate Missing(site: Site, t: Tag, key: Bytes) {
    && Lacks(t.attrs, "integrity") && (exists url :: Reference(t, url) && site.resolve(url) == Some(key))
    && (key !in site.digests || forall digest :: !Digits(site.digests[key], digest))
  }

  ghost predicate Already(t: Tag) {
    !Lacks(t.attrs, "integrity") && exists url :: Reference(t, url)
  }

  // ---------------------------------------------------------------- the functions say the same

  lemma Names()
    ensures Text("script") == SCRIPT && Text("style") == STYLE && Text("link") == LINK && Text("src") == SRC && Text("rel") == REL
    ensures Text("as") == AS && Text("href") == HREF && Text("integrity") == INTEGRITY && Text("sha384-") == SHA384_PREFIX
  {
  }

  lemma RelNames()
    ensures Text("stylesheet") == STYLESHEET && Text("modulepreload") == MODULEPRELOAD && Text("preload") == PRELOAD
  {
  }

  lemma {:induction false} FirstAttr(attrs: seq<Attr>, name: string)
    ensures AttrOf(attrs, Text(name)).None? <==> Lacks(attrs, name)
    ensures forall v :: AttrOf(attrs, Text(name)) == Some(v) <==> FirstIs(attrs, name, v)
  {
    hide Text;
    if attrs != [] {
      var rest := attrs[1..];
      FirstAttr(rest, name);
      assert forall i :: 0 < i < |attrs| ==> attrs[i] == rest[i - 1];
      if attrs[0].name == Text(name) {
        forall v ensures AttrOf(attrs, Text(name)) == Some(v) <==> FirstIs(attrs, name, v) {
          if attrs[0].value == v { assert attrs[0] == Attr(Text(name), v); }
        }
      } else {
        assert Lacks(attrs, name) <==> Lacks(rest, name) by {
          if Lacks(attrs, name) { assert forall i :: 0 <= i < |rest| ==> rest[i] == attrs[i + 1]; }
        }
        forall v ensures FirstIs(attrs, name, v) <==> FirstIs(rest, name, v) { FirstInRest(attrs, name, v); }
      }
    }
  }

  lemma FirstInRest(attrs: seq<Attr>, name: string, v: Bytes)
    requires attrs != [] && attrs[0].name != Text(name)
    ensures FirstIs(attrs, name, v) <==> FirstIs(attrs[1..], name, v)
  {
    hide Text;
    var rest := attrs[1..];
    if FirstIs(attrs, name, v) {
      var i :| 0 <= i < |attrs| && attrs[i] == Attr(Text(name), v) && forall j :: 0 <= j < i ==> attrs[j].name != Text(name);
      assert rest[i - 1] == Attr(Text(name), v);
      forall j | 0 <= j < i - 1 ensures rest[j].name != Text(name) { assert rest[j] == attrs[j + 1]; }
    }
    if FirstIs(rest, name, v) {
      var i :| 0 <= i < |rest| && rest[i] == Attr(Text(name), v) && forall j :: 0 <= j < i ==> rest[j].name != Text(name);
      assert attrs[i + 1] == Attr(Text(name), v);
      forall j | 0 <= j < i + 1 ensures attrs[j].name != Text(name) { if j > 0 { assert attrs[j] == rest[j - 1]; } }
    }
  }

  // words

  lemma {:induction false} WordEndIs(s: Bytes, i: nat)
    requires i < |s| && !IsSpace(s[i])
    ensures var j := WordEnd(s, i);
      (forall k :: i <= k < j ==> !White(s[k])) && (j == |s| || White(s[j]))
    decreases |s| - i
  {
    if i + 1 < |s| && !IsSpace(s[i + 1]) { WordEndIs(s, i + 1); }
  }

  lemma {:induction false} SkippedIsWhite(s: Bytes, i: nat)
    requires i <= |s|
    ensures var j := Skip(s, i, Space);
      (forall k :: i <= k < j ==> White(s[k])) && (j < |s| ==> !White(s[j]))
    decreases |s| - i
  {
    if i < |s| && IsSpace(s[i]) { SkippedIsWhite(s, i + 1); }
  }

  /** The words of a list are what stands between white space. */
  lemma {:induction false} WordsStand(s: Bytes, w: Bytes)
    ensures w in Words(s) <==> exists i: nat, j: nat :: WordAt(s, i, j) && s[i..j] == w
    decreases |s|
  {
    var a := Skip(s, 0, Space);
    SkippedIsWhite(s, 0);
    if a < |s| {
      var b := WordEnd(s, a);
      WordEndIs(s, a);
      WordsStand(s[b..], w);
      hide Words, Skip, WordEnd, White;
      WordsUnfold(s, w);
      assert WordAt(s, a, b);
      if i: nat, j: nat :| WordAt(s[b..], i, j) && s[b..][i..j] == w {
        LaterWord(s, b, i, j);
        assert WordAt(s, b + i, b + j) && s[b + i..b + j] == w;
      }
      if i: nat, j: nat :| WordAt(s, i, j) && s[i..j] == w && i != a {
        EarlierWord(s, a, b, i, j);
        assert WordAt(s[b..], i - b, j - b) && s[b..][i - b..j - b] == w;
      }
      if i: nat, j: nat :| WordAt(s, i, j) && s[i..j] == w && i == a {
        SameEnd(s, a, b, j);
      }
    } else {
      hide White, Skip;
      forall i: nat, j: nat ensures !WordAt(s, i, j) { var first := i < |s| && White(s[i]); }
    }
  }

  lemma WordsUnfold(s: Bytes, w: Bytes)
    requires Skip(s, 0, Space) < |s|
    ensures
      var a := Skip(s, 0, Space);
      var b := WordEnd(s, a);
      w in Words(s) <==> w == s[a..b] || w in Words(s[b..])
  {
    hide Skip, WordEnd;
  }

  lemma SameEnd(s: Bytes, i: nat, b: nat, j: nat)
    requires WordAt(s, i, b) && WordAt(s, i, j)
    ensures j == b
  {
    hide White;
  }

  lemma LaterWord(s: Bytes, b: nat, i: nat, j: nat)
    requires 0 < b <= |s| && (b == |s| || White(s[b])) && WordAt(s[b..], i, j)
    ensures WordAt(s, b + i, b + j) && s[b + i..b + j] == s[b..][i..j]
  {
    hide White;
    assert !White(s[b..][i]);
    assert i > 0;
    assert s[b..][i - 1] == s[b + i - 1];
    forall k | b + i <= k < b + j ensures !White(s[k]) { assert s[k] == s[b..][k - b]; }
  }

  lemma EarlierWord(s: Bytes, a: nat, b: nat, i: nat, j: nat)
    requires WordAt(s, a, b) && WordAt(s, i, j) && i != a && forall k :: 0 <= k < a ==> White(s[k])
    ensures b < i && WordAt(s[b..], i - b, j - b) && s[b..][i - b..j - b] == s[i..j]
  {
    hide White;
    assert !White(s[i]);
    assert i != b;
    assert s[b..][i - b - 1] == s[i - 1];
    forall k | i - b <= k < j - b ensures !White(s[b..][k]) { assert s[b..][k] == s[b + k]; }
  }

  lemma RelWord(rel: Bytes, w: string)
    requires LowerAll(Text(w)) == Text(w)
    ensures Text(w) in Words(LowerAll(rel)) <==> HasWord(rel, w)
  {
    var s := LowerAll(rel);
    WordsStand(s, Text(w));
    forall i: nat, j: nat | i <= j <= |s| ensures s[i..j] == LowerAll(rel[i..j]) && (s[i..j] == Text(w) <==> Alike(rel[i..j], Text(w))) {
      assert s[i..j] == LowerAll(rel[i..j]);
      LowerIsAlike(rel[i..j], Text(w));
    }
    forall i: nat, j: nat ensures WordAt(s, i, j) <==> WordAt(rel, i, j) { LowerKeepsWords(rel, i, j); }
    hide Words, LowerAll, Alike, WordAt, Text;
  }

  lemma LowerKeepsWords(rel: Bytes, i: nat, j: nat)
    ensures WordAt(LowerAll(rel), i, j) <==> WordAt(rel, i, j)
  {
    assert forall k :: 0 <= k < |rel| ==> (White(LowerAll(rel)[k]) <==> White(rel[k]));
    hide White, LowerAll;
  }

  // references and digests

  lemma LowerNames()
    ensures LowerAll(Text("stylesheet")) == Text("stylesheet") && LowerAll(Text("modulepreload")) == Text("modulepreload")
    ensures LowerAll(Text("preload")) == Text("preload") && LowerAll(Text("script")) == Text("script")
    ensures LowerAll(Text("style")) == Text("style")
  {
  }

  lemma LoadsIs(attrs: seq<Attr>, rel: Bytes)
    ensures Eligible(Words(LowerAll(rel)), AttrOf(attrs, AS)) <==> Loads(attrs, rel)
  {
    Names();
    RelNames();
    LowerNames();
    RelWord(rel, "stylesheet");
    RelWord(rel, "modulepreload");
    RelWord(rel, "preload");
    FirstAttr(attrs, "as");
    if AttrOf(attrs, AS).Some? {
      LowerIsAlike(AttrOf(attrs, AS).value, Text("script"));
      LowerIsAlike(AttrOf(attrs, AS).value, Text("style"));
    }
    hide Text, Words, LowerAll, AttrOf, FirstIs, HasWord, Alike;
  }

  lemma ReferenceIs(t: Tag)
    ensures TargetUrl(t.name, t.attrs).None? <==> forall url :: !Reference(t, url)
    ensures forall url :: TargetUrl(t.name, t.attrs) == Some(url) <==> Reference(t, url)
  {
    Names();
    FirstAttr(t.attrs, "src");
    FirstAttr(t.attrs, "href");
    FirstAttr(t.attrs, "rel");
    if AttrOf(t.attrs, REL).Some? { LoadsIs(t.attrs, AttrOf(t.attrs, REL).value); }
    assert Text("script") != Text("link");
    hide Text, Words, LowerAll, AttrOf, FirstIs, Loads, Eligible;
    forall url ensures TargetUrl(t.name, t.attrs) == Some(url) <==> Reference(t, url) {}
    if TargetUrl(t.name, t.attrs).Some? { assert Reference(t, TargetUrl(t.name, t.attrs).value); }
  }

  lemma DigitsAre(s: string, b: Bytes)
    ensures DecodeHex(s) == Some(b) <==> Digits(s, b)
  {
    TrustRoots.HexIsSpelling(LowerString(s), b);
    hide DecodeHex;
    assert TrustRoots.Spells(LowerString(s), b) <==> Digits(s, b) by {
      if |s| == 2 * |b| {
        forall i | 0 <= i < |b|
          ensures LowerString(s)[2 * i] == TrustRoots.HEX_DIGITS[b[i] / 16] <==> DigitOf(s[2 * i], b[i] / 16)
          ensures LowerString(s)[2 * i + 1] == TrustRoots.HEX_DIGITS[b[i] % 16] <==> DigitOf(s[2 * i + 1], b[i] % 16)
        {
          LowerDigit(s[2 * i], b[i] / 16);
          LowerDigit(s[2 * i + 1], b[i] % 16);
        }
        hide DigitOf, LowerString;
      }
    }
    DecodesTo(s);
  }

  lemma DecodesTo(s: string)
    ensures DecodeHex(s) == TrustRoots.Unhex(LowerString(s))
  {
    hide TrustRoots.Unhex, LowerString;
  }

  lemma LowerDigit(c: char, v: nat)
    requires v < 16
    ensures LowerChar(c) == TrustRoots.HEX_DIGITS[v] <==> DigitOf(c, v)
  {
  }

  lemma Decodes(s: string)
    ensures DecodeHex(s).None? <==> forall digest :: !Digits(s, digest)
    ensures forall digest :: DecodeHex(s) == Some(digest) <==> Digits(s, digest)
  {
    hide *;
    forall digest ensures DecodeHex(s) == Some(digest) <==> Digits(s, digest) { DigitsAre(s, digest); }
    if DecodeHex(s).Some? { assert Digits(s, DecodeHex(s).value); }
  }

  /** The verdict on a tag, spelled out. */
  ghost predicate Meets(site: Site, t: Tag, v: Verdict) {
    match v
    case NotCovered => forall url :: !Reference(t, url)
    case Preexisting => Already(t)
    case CrossOrigin(url) => Foreign(site, t, url)
    case Unresolved(key) => Missing(site, t, key)
    case Apply(key, digest) => Gains(site, t, key, digest)
  }

  lemma JudgedAs(site: Site, t: Tag, v: Verdict)
    ensures Judge(site, t.name, t.attrs) == v <==> Meets(site, t, v)
  {
    ReferenceIs(t);
    Names();
    FirstAttr(t.attrs, "integrity");
    PlanOf(site, t);
    forall key | key in site.digests
      ensures DecodeHex(site.digests[key]).None? <==> forall digest :: !Digits(site.digests[key], digest)
      ensures forall digest :: DecodeHex(site.digests[key]) == Some(digest) <==> Digits(site.digests[key], digest)
    {
      Decodes(site.digests[key]);
    }
    hide Text, Judge, TargetUrl, AttrOf, Reference, Lacks, DecodeHex, Digits, SriPlan, SriValue;
    var url := TargetUrl(t.name, t.attrs);
    if url.Some? {
      assert Reference(t, url.value);
      assert forall u :: Reference(t, u) ==> u == url.value;
    }
  }

  // ---------------------------------------------------------------- the report

  /** The list has one element for each position below `n` that has one, in order: `at` says where from. */
  ghost predicate Lists<X(!new)>(n: nat, list: seq<X>, at: seq<nat>, element: (nat, X) -> bool) {
    && |at| == |list|
    && (forall j, k :: 0 <= j < k < |at| ==> at[j] < at[k])
    && (forall j :: 0 <= j < |at| ==> at[j] < n && element(at[j], list[j]))
    && (forall i: nat, x :: i < n && element(i, x) ==> i in at)
  }

  ghost function AppliedAt(site: Site, tags: seq<Tag>): (nat, (Bytes, Bytes)) -> bool {
    (i: nat, x: (Bytes, Bytes)) => i < |tags| && x.0 == tags[i].name && exists digest :: Gains(site, tags[i], x.1, digest)
  }

  ghost function ForeignAt(site: Site, tags: seq<Tag>): (nat, Bytes) -> bool {
    (i: nat, url: Bytes) => i < |tags| && Foreign(site, tags[i], url)
  }

  ghost function MissingAt(site: Site, tags: seq<Tag>): (nat, Bytes) -> bool {
    (i: nat, key: Bytes) => i < |tags| && Missing(site, tags[i], key)
  }

  lemma ListMore<X(!new)>(n: nat, list: seq<X>, at: seq<nat>, element: (nat, X) -> bool, x: X)
    requires Lists(n, list, at, element) && element(n, x)
    ensures Lists(n + 1, list + [x], at + [n], element)
  {
    var list', at' := list + [x], at + [n];
    forall i: nat, y | i < n + 1 && element(i, y) ensures i in at' {
      if i < n { assert i in at; } else { assert at'[|at|] == n; }
    }
  }

  lemma ListSame<X(!new)>(n: nat, list: seq<X>, at: seq<nat>, element: (nat, X) -> bool)
    requires Lists(n, list, at, element) && forall x :: !element(n, x)
    ensures Lists(n + 1, list, at, element)
  {
    forall i: nat, y | i < n + 1 && element(i, y) ensures i in at { assert i != n; }
  }

  /** The list after one more tag: with an element of that tag's, or as it was. */
  lemma ListNext<X(!new)>(n: nat, list: seq<X>, at: seq<nat>, element: (nat, X) -> bool, more: Option<X>) returns (at': seq<nat>)
    requires Lists(n, list, at, element) && (forall x :: element(n, x) ==> more.Some?) && (more.Some? ==> element(n, more.value))
    ensures Lists(n + 1, if more.Some? then list + [more.value] else list, at', element)
  {
    hide Lists;
    at' := at;
    if more.Some? {
      ListMore(n, list, at, element, more.value);
      at' := at + [n];
    } else {
      ListSame(n, list, at, element);
    }
  }

  lemma NotedLists(r: Report, t: Tag, v: Verdict)
    ensures Noted(r, t, v).applied == if v.Apply? then r.applied + [(t.name, v.key)] else r.applied
    ensures Noted(r, t, v).crossOrigin == if v.CrossOrigin? then r.crossOrigin + [v.url] else r.crossOrigin
    ensures Noted(r, t, v).unresolved == if v.Unresolved? then r.unresolved + [v.key] else r.unresolved
    ensures Noted(r, t, v).preexisting == if v.Preexisting? then r.preexisting + 1 else r.preexisting
  {
  }

  /** What a verdict puts on which list. */
  lemma VerdictListed(site: Site, tags: seq<Tag>, n: nat, v: Verdict)
    requires n < |tags| && Judge(site, tags[n].name, tags[n].attrs) == v
    ensures forall x :: AppliedAt(site, tags)(n, x) <==> v.Apply? && x == (tags[n].name, v.key)
    ensures forall url :: ForeignAt(site, tags)(n, url) <==> v == CrossOrigin(url)
    ensures forall key :: MissingAt(site, tags)(n, key) <==> v == Unresolved(key)
    ensures Already(tags[n]) <==> v == Preexisting
  {
    forall v' ensures v == v' <==> Meets(site, tags[n], v') { JudgedAs(site, tags[n], v'); }
    hide Judge, Gains, Foreign, Missing, Already, Reference;
    forall x ensures AppliedAt(site, tags)(n, x) <==> v.Apply? && x == (tags[n].name, v.key) {
      if AppliedAt(site, tags)(n, x) {
        var digest :| Gains(site, tags[n], x.1, digest);
        assert Meets(site, tags[n], Apply(x.1, digest));
      }
      if v.Apply? && x == (tags[n].name, v.key) { assert Meets(site, tags[n], v); }
    }
    forall url ensures ForeignAt(site, tags)(n, url) <==> v == CrossOrigin(url) {
      assert Meets(site, tags[n], CrossOrigin(url)) <==> v == CrossOrigin(url);
    }
    forall key ensures MissingAt(site, tags)(n, key) <==> v == Unresolved(key) {
      assert Meets(site, tags[n], Unresolved(key)) <==> v == Unresolved(key);
    }
    assert Meets(site, tags[n], Preexisting) <==> v == Preexisting;
  }

  ghost function AlreadyAt(tags: seq<Tag>, n: nat): set<nat>
    requires n <= |tags|
  {
    set i: nat | i < n && Already(tags[i])
  }

  lemma OneMoreAlready(tags: seq<Tag>, n: nat)
    requires n < |tags|
    ensures |AlreadyAt(tags, n + 1)| == |AlreadyAt(tags, n)| + if Already(tags[n]) then 1 else 0
  {
    hide Already;
    assert AlreadyAt(tags, n + 1) == if Already(tags[n]) then AlreadyAt(tags, n) + {n} else AlreadyAt(tags, n);
  }

  /** Each list of the report, in the order of the tags and with nothing left out: applied are the tags that
      gain a digest, with their assets' keys; cross-origin the URLs that resolve to no key; unresolved the keys
      without a digest; and counted are those that carry `integrity` already. A tag that loads nothing that
      supports integrity is on none of them. */
  ghost predicate Reported(site: Site, tags: seq<Tag>, n: nat, r: Report, applied: seq<nat>, foreign: seq<nat>, missing: seq<nat>)
    requires n <= |tags|
  {
    && Lists(n, r.applied, applied, AppliedAt(site, tags))
    && Lists(n, r.crossOrigin, foreign, ForeignAt(site, tags))
    && Lists(n, r.unresolved, missing, MissingAt(site, tags))
    && r.preexisting == |AlreadyAt(tags, n)|
  }

  lemma ReportNext(site: Site, tags: seq<Tag>, n: nat, r: Report, a: seq<nat>, f: seq<nat>, m: seq<nat>, v: Verdict)
    returns (a': seq<nat>, f': seq<nat>, m': seq<nat>)
    requires n < |tags| && Reported(site, tags, n, r, a, f, m) && Judge(site, tags[n].name, tags[n].attrs) == v
    ensures Reported(site, tags, n + 1, Noted(r, tags[n], v), a', f', m')
  {
    hide Lists, AppliedAt, ForeignAt, MissingAt, Judge, Noted, AlreadyAt, Already;
    NotedLists(r, tags[n], v);
    VerdictListed(site, tags, n, v);
    OneMoreAlready(tags, n);
    a' := ListNext(n, r.applied, a, AppliedAt(site, tags), if v.Apply? then Some((tags[n].name, v.key)) else None);
    f' := ListNext(n, r.crossOrigin, f, ForeignAt(site, tags), if v.CrossOrigin? then Some(v.url) else None);
    m' := ListNext(n, r.unresolved, m, MissingAt(site, tags), if v.Unresolved? then Some(v.key) else None);
  }

  lemma NothingReported(site: Site, tags: seq<Tag>)
    ensures Reported(site, tags, 0, Report([], [], [], 0), [], [], [])
  {
    assert AlreadyAt(tags, 0) == {};
  }

  lemma {:induction false} ReportIs(site: Site, tags: seq<Tag>, n: nat)
    returns (applied: seq<nat>, foreign: seq<nat>, missing: seq<nat>)
    requires n <= |tags|
    ensures Reported(site, tags, n, ReportOf(site, tags[..n]), applied, foreign, missing)
    decreases n
  {
    hide *;
    applied, foreign, missing := [], [], [];
    if n == 0 {
      NothingReported(site, tags);
      EmptyReport(site, tags[..0]);
    } else {
      var t := tags[n - 1];
      applied, foreign, missing := ReportIs(site, tags, n - 1);
      assert tags[..n] == tags[..n - 1] + [t];
      ReportAppend(site, tags[..n - 1], t);
      applied, foreign, missing := ReportNext(site, tags, n - 1, ReportOf(site, tags[..n - 1]), applied, foreign, missing,
                                              Judge(site, t.name, t.attrs));
    }
  }

  ghost predicate Refers(t: Tag) { exists url :: Reference(t, url) }

  ghost function ReferringAt(tags: seq<Tag>, n: nat): set<nat>
    requires n <= |tags|
  {
    set i: nat | i < n && Refers(tags[i])
  }

  lemma CoveredMore(tags: seq<Tag>, t: Tag)
    ensures Covered(tags + [t]) == Covered(tags) + if Refers(t) then 1 else 0
  {
    ReferenceIs(t);
    hide TargetUrl, Reference;
    assert (tags + [t])[..|tags|] == tags;
    if TargetUrl(t.name, t.attrs).Some? { assert Reference(t, TargetUrl(t.name, t.attrs).value); }
  }

  lemma {:induction false} CoveredIs(tags: seq<Tag>, n: nat)
    requires n <= |tags|
    ensures Covered(tags[..n]) == |ReferringAt(tags, n)|
    decreases n
  {
    hide Covered, Refers;
    if n == 0 {
      assert ReferringAt(tags, 0) == {};
      NoneCovered(tags[..0]);
    } else {
      CoveredIs(tags, n - 1);
      assert tags[..n] == tags[..n - 1] + [tags[n - 1]];
      CoveredMore(tags[..n - 1], tags[n - 1]);
      assert ReferringAt(tags, n) == if Refers(tags[n - 1]) then ReferringAt(tags, n - 1) + {n - 1} else ReferringAt(tags, n - 1);
    }
  }

  lemma NoneCovered(tags: seq<Tag>)
    requires tags == []
    ensures Covered(tags) == 0
  {
  }

  /** The report accounts for every tag that loads a subresource that supports integrity, once, and there are as
      many insertions as it reports applied. */
  lemma EveryReferenceCounted(site: Site, tags: seq<Tag>)
    ensures
      var r := ReportOf(site, tags);
      && |r.applied| == |Planned(SriPlan(site), tags)|
      && |r.applied| + |r.crossOrigin| + |r.unresolved| + r.preexisting == |ReferringAt(tags, |tags|)|
  {
    hide *;
    assert tags[..|tags|] == tags;
    NothingUncounted(site, tags);
    CoveredIs(tags, |tags|);
  }

  // ---------------------------------------------------------------- the page

  ghost predicate GainsAny(site: Site, t: Tag) { exists key, digest :: Gains(site, t, key, digest) }

  /** A browser that reads the page the pass leaves finds the tags it would have found before, in the same
      places in order. One has an `integrity` attribute that was not there before exactly if it lacked one, what
      it loads resolves to an asset whose digest decodes, and its list did not end in a bare `=`; the attribute
      then comes last, and its value is `sha384-` and the digest in base64. All others have the attributes they
      had. */
  lemma TagGains(h: Bytes, site: Site, k: nat)
    requires Tags(h, 0).Success? && k < |Tags(h, 0).value|
    ensures Injected(h, SriPlan(site)).Success?
    ensures
      var g := Injected(h, SriPlan(site)).value;
      && Tags(g, 0).Success? && |Tags(g, 0).value| == |Tags(h, 0).value|
      && var t, u := Tags(h, 0).value[k], Tags(g, 0).value[k];
         && u.name == t.name
         && (Lacks(t.attrs, "integrity") && !Lacks(u.attrs, "integrity") <==> GainsAny(site, t) && !BareTag(h, t))
         && (forall key, digest :: Gains(site, t, key, digest) && !BareTag(h, t) ==>
               u.attrs == t.attrs + [Attr(Text("integrity"), Text("sha384-") + Base64.Encoded(digest))])
         && (!GainsAny(site, t) ==> u.attrs == t.attrs)
  {
    var plan, t := SriPlan(site), Tags(h, 0).value[k];
    hide *;
    SriPlanIsSound(site);
    InjectionCarries(h, plan, k);
    var g := Injected(h, plan).value;
    CarriedGains(site, h, g, t, Tags(g, 0).value[k]);
  }

  lemma CarriedGains(site: Site, h: Bytes, g: Bytes, t: Tag, u: Tag)
    requires Carried(h, g, SriPlan(site), t, u)
    ensures u.name == t.name
    ensures Lacks(t.attrs, "integrity") && !Lacks(u.attrs, "integrity") <==> GainsAny(site, t) && !BareTag(h, t)
    ensures forall key, digest :: Gains(site, t, key, digest) && !BareTag(h, t) ==>
      u.attrs == t.attrs + [Attr(Text("integrity"), Text("sha384-") + Base64.Encoded(digest))]
    ensures !GainsAny(site, t) ==> u.attrs == t.attrs
  {
    var v := Judge(site, t.name, t.attrs);
    PlanOf(site, t);
    Names();
    FirstAttr(t.attrs, "integrity");
    FirstAttr(u.attrs, "integrity");
    GainedIs(site, t, v);
    hide Judge, AttrOf, BareTag, SameText, TargetUrl, Text, Lacks, Gains, SriPlan, GainsAny, DecodeHex;
  }

  lemma GainedIs(site: Site, t: Tag, v: Verdict)
    requires v == Judge(site, t.name, t.attrs)
    ensures GainsAny(site, t) <==> v.Apply?
    ensures GainsAny(site, t) ==> Lacks(t.attrs, "integrity")
    ensures forall key, digest :: Gains(site, t, key, digest) ==> v == Apply(key, digest)
  {
    JudgedAs(site, t, v);
    hide Judge, Lacks, Reference;
    forall key, digest | Gains(site, t, key, digest) ensures v == Apply(key, digest) { JudgedAs(site, t, Apply(key, digest)); }
  }

  // ---------------------------------------------------------------- a stylesheet that is protected

  /** <link rel="stylesheet" href="/a.css">, byte by byte. */
  predicate IsStylesheetPage(h: Bytes) {
    && |h| == 37
    && h[0] == 0x3C && h[1] == 0x6C && h[2] == 0x69 && h[3] == 0x6E && h[4] == 0x6B && h[5] == 0x20
    && h[6] == 0x72 && h[7] == 0x65 && h[8] == 0x6C && h[9] == 0x3D && h[10] == 0x22 && h[11] == 0x73
    && h[12] == 0x74 && h[13] == 0x79 && h[14] == 0x6C && h[15] == 0x65 && h[16] == 0x73 && h[17] == 0x68
    && h[18] == 0x65 && h[19] == 0x65 && h[20] == 0x74 && h[21] == 0x22 && h[22] == 0x20 && h[23] == 0x68
    && h[24] == 0x72 && h[25] == 0x65 && h[26] == 0x66 && h[27] == 0x3D && h[28] == 0x22 && h[29] == 0x2F
    && h[30] == 0x61 && h[31] == 0x2E && h[32] == 0x63 && h[33] == 0x73 && h[34] == 0x73 && h[35] == 0x22
    && h[36] == 0x3E
  }

  /** The predicate says what its comment says. */
  lemma StylesheetPageIs(h: Bytes)
    ensures IsStylesheetPage(h) <==> h == Text("<link ") + Text("rel=\"stylesheet\"") + Text(" href=") + Text("\"/a.css\">")
  {
    var a, b, c, d := Text("<link "), Text("rel=\"stylesheet\""), Text(" href="), Text("\"/a.css\">");
    if |h| == 37 {
      LinkIs(h);
      RelIs(h);
      HrefIs(h);
      UrlIs(h);
      FourParts(h, a, b, c, d);
    }
    hide Text;
  }

  lemma LinkIs(h: Bytes)
    requires |h| == 37
    ensures h[0..6] == Text("<link ") <==>
      && h[0] == 0x3C && h[1] == 0x6C && h[2] == 0x69 && h[3] == 0x6E && h[4] == 0x6B && h[5] == 0x20
  {
    var s := h[0..6];
    assert s == [h[0], h[1], h[2], h[3], h[4], h[5]];
  }

  lemma RelIs(h: Bytes)
    requires |h| == 37
    ensures h[6..22] == Text("rel=\"stylesheet\"") <==>
      && h[6] == 0x72 && h[7] == 0x65 && h[8] == 0x6C && h[9] == 0x3D && h[10] == 0x22 && h[11] == 0x73
      && h[12] == 0x74 && h[13] == 0x79 && h[14] == 0x6C && h[15] == 0x65 && h[16] == 0x73 && h[17] == 0x68
      && h[18] == 0x65 && h[19] == 0x65 && h[20] == 0x74 && h[21] == 0x22
  {
    var s := h[6..22];
    assert s == [h[6], h[7], h[8], h[9], h[10], h[11], h[12], h[13], h[14], h[15], h[16], h[17], h[18], h[19], h[20], h[21]];
  }

  lemma HrefIs(h: Bytes)
    requires |h| == 37
    ensures h[22..28] == Text(" href=") <==>
      && h[22] == 0x20 && h[23] == 0x68 && h[24] == 0x72 && h[25] == 0x65 && h[26] == 0x66 && h[27] == 0x3D
  {
    var s := h[22..28];
    assert s == [h[22], h[23], h[24], h[25], h[26], h[27]];
  }

  lemma UrlIs(h: Bytes)
    requires |h| == 37
    ensures h[28..37] == Text("\"/a.css\">") <==>
      && h[28] == 0x22 && h[29] == 0x2F && h[30] == 0x61 && h[31] == 0x2E && h[32] == 0x63 && h[33] == 0x73
      && h[34] == 0x73 && h[35] == 0x22 && h[36] == 0x3E
  {
    var s := h[28..37];
    assert s == [h[28], h[29], h[30], h[31], h[32], h[33], h[34], h[35], h[36]];
  }

  const CSS: Bytes := [0x2F, 0x61, 0x2E, 0x63, 0x73, 0x73]

  const SHEET_ATTRS: seq<Attr> := [Attr(REL, STYLESHEET), Attr(HREF, CSS)]

  const SHEET: Tag := Tag(LINK, 0, 37, 36, SHEET_ATTRS, None)

  lemma SheetRuns(h: Bytes)
    requires IsStylesheetPage(h)
    ensures
      && Skip(h, 1, NameByte) == 5
      && Skip(h, 5, Space) == 6 && Skip(h, 6, AttrName) == 9 && Skip(h, 9, Space) == 9 && Skip(h, 10, Space) == 10
      && Skip(h, 22, Space) == 23 && Skip(h, 23, AttrName) == 27 && Skip(h, 27, Space) == 27 && Skip(h, 28, Space) == 28
      && IndexOf(h, 11, QUOTE) == Some(21) && IndexOf(h, 29, QUOTE) == Some(35)
  {
    SkipExact(h, 1, 5, NameByte);
    SkipExact(h, 5, 6, Space);
    SkipExact(h, 6, 9, AttrName);
    SkipExact(h, 9, 9, Space);
    SkipExact(h, 10, 10, Space);
    SkipExact(h, 22, 23, Space);
    SkipExact(h, 23, 27, AttrName);
    SkipExact(h, 27, 27, Space);
    SkipExact(h, 28, 28, Space);
    IndexExact(h, 11, 21, QUOTE);
    IndexExact(h, 29, 35, QUOTE);
  }

  /** A quoted attribute without references, between known positions. */
  lemma PlainAttribute(h: Bytes, j: nat, n: nat, e: nat, start: nat, a: Attr)
    requires j < n && n + 2 <= e < |h| && Skip(h, j, AttrName) == n && Skip(h, n, Space) == n && h[n] == EQUALS
    requires Skip(h, n + 1, Space) == n + 1 && h[n + 1] == QUOTE && IndexOf(h, n + 2, QUOTE) == Some(e)
    requires LowerAll(h[j..n]) == a.name && h[n + 2..e] == a.value && AMP !in a.value
    ensures OneAttribute(h, j, start) == Success((a, e + 1))
  {
    QuotedValue(h, n, start, n + 1, e);
    assert Decode(a.value) == a.value;
    hide Skip, IndexOf, Decode, LowerAll, ValueAt;
  }

  lemma SheetBytes(h: Bytes)
    requires IsStylesheetPage(h)
    ensures |h| == 37 && LowerAll(h[1..5]) == LINK && LowerAll(h[6..9]) == REL && LowerAll(h[23..27]) == HREF
    ensures h[11..21] == STYLESHEET && h[29..35] == CSS
    ensures h[0] == LT && !Markup(h, 0) && IsAlpha(h[1]) && h[6] == 0x72 && h[23] == 0x68 && h[36] == GT
    ensures h[9] == EQUALS && h[27] == EQUALS && h[10] == QUOTE && h[28] == QUOTE
  {
    assert h[1..5] == LINK && h[6..9] == REL && h[23..27] == HREF;
    assert LowerAll(LINK) == LINK && LowerAll(REL) == REL && LowerAll(HREF) == HREF;
  }

  lemma SheetList(h: Bytes)
    requires IsStylesheetPage(h)
    ensures |h| == 37 && Attributes(h, 5, 5) == Success(AttrList(SHEET_ATTRS, 36, false))
  {
    SheetRuns(h);
    SheetBytes(h);
    assert AMP !in STYLESHEET && AMP !in CSS;
    hide IsStylesheetPage, OneAttribute, Skip, IndexOf, BareAt, BareEnd, Attributes, LowerAll, Markup;
    PlainAttribute(h, 6, 9, 21, 5, SHEET_ATTRS[0]);
    PlainAttribute(h, 23, 27, 35, 5, SHEET_ATTRS[1]);
    ListUnfolds(h, 5, 6, 5);
    ListUnfolds(h, 22, 23, 5);
    EmptyList(h, 36, 5);
    assert SHEET_ATTRS == [SHEET_ATTRS[0]] + ([SHEET_ATTRS[1]] + []);
  }

  lemma LinkElement(h: Bytes, end: nat, list: AttrList)
    requires 0 < end <= |h| && LowerAll(h[1..end]) == LINK && Attributes(h, end, end) == Success(list)
    ensures Element(h, 0, end) == Success(Look(list.gt + 1, Some(Tag(LINK, 0, list.gt + 1, list.gt, list.attrs, None))))
  {
    hide Attributes, FindClose, LowerAll;
  }

  lemma SheetScans(h: Bytes)
    requires IsStylesheetPage(h)
    ensures Tags(h, 0) == Success([SHEET])
  {
    SheetRuns(h);
    SheetBytes(h);
    SheetList(h);
    hide IsStylesheetPage, Tags, Attributes, LowerAll, NameEnd, Markup, Skip, Element, LookAt, IsAlpha;
    NamedTo(h, 1, 5);
    LinkElement(h, 5, AttrList(SHEET_ATTRS, 36, false));
    ElementLook(h, 0);
    assert OneTag(Look(37, Some(SHEET))) == [SHEET];
    var none: seq<Tag> := [];
    assert [SHEET] + none == [SHEET];
    TagsOf(h, 37);
    TagsOf(h, 0);
  }

  lemma SheetReference()
    ensures Reference(SHEET, CSS) && (forall url :: Reference(SHEET, url) ==> url == CSS) && Lacks(SHEET_ATTRS, "integrity")
  {
    Names();
    RelNames();
    assert WordAt(STYLESHEET, 0, 10) && Alike(STYLESHEET[0..10], Text("stylesheet"));
    assert SHEET_ATTRS[0] == Attr(Text("rel"), STYLESHEET) && SHEET_ATTRS[1] == Attr(Text("href"), CSS);
    assert FirstIs(SHEET_ATTRS, "rel", STYLESHEET) && FirstIs(SHEET_ATTRS, "href", CSS);
    assert SHEET.name != Text("script") && Text("integrity") != Text("rel") && Text("integrity") != Text("href");
    hide Text, WordAt, Alike;
    assert Loads(SHEET_ATTRS, STYLESHEET);
  }

  /** ` integrity="value"` */
  lemma AttrTextIs(v: Bytes)
    ensures AttrText(v) == Text(" integrity=\"") + v + Text("\"")
  {
    Names();
    assert Text(" integrity=\"") == [SPACE] + INTEGRITY + [EQUALS, QUOTE] && Text("\"") == [QUOTE];
    hide Text;
  }

  lemma IntegrityText(digest: Bytes)
    ensures AttrText(SriValue(digest)) == Text(" integrity=\"sha384-") + Base64.Encoded(digest) + Text("\"")
  {
    AttrTextIs(SriValue(digest));
    Names();
    assert Text(" integrity=\"sha384-") == Text(" integrity=\"") + Text("sha384-");
    hide Text, AttrText, Base64.Encoded;
  }

  lemma OnePlanned(plan: Plan, t: Tag, v: Bytes)
    requires Wanted(plan, t) == Some(v)
    ensures Planned(plan, [t]) == [Insertion(t.gt, AttrText(v))]
  {
    hide Wanted, AttrText;
    assert [t][1..] == [];
    assert Planned(plan, []) == [];
  }

  lemma OneWoven(h: Bytes, x: Insertion)
    requires Ascending([x], 0, |h|) && x.at <= |h|
    ensures Woven(h, [x], 0) == h[..x.at] + x.text + h[x.at..]
  {
    assert [x][1..] == [];
    assert Woven(h, [], x.at) == h[x.at..];
  }

  /** A page of one tag that is wanted. */
  lemma OneInsertion(h: Bytes, plan: Plan, t: Tag, v: Bytes)
    requires Tags(h, 0) == Success([t]) && Wanted(plan, t) == Some(v) && t.gt <= |h|
    ensures Injected(h, plan) == Success(h[..t.gt] + AttrText(v) + h[t.gt..])
  {
    hide *;
    TagsSound(h, 0);
    PlannedAscends(h, plan, [t], 0);
    OnePlanned(plan, t, v);
    OneWoven(h, Insertion(t.gt, AttrText(v)));
    InjectedIs(h, plan);
  }

  /** On this page, with its stylesheet among the assets, the pass reports the link as covered, and inserts the
      attribute right before the last byte. */
  lemma StylesheetProtected(site: Site, key: Bytes, digest: Bytes, h: Bytes)
    requires IsStylesheetPage(h)
    requires site.resolve(Text("/a.css")) == Some(key) && key in site.digests && Digits(site.digests[key], digest)
    ensures Tags(h, 0).Success? && ReportOf(site, Tags(h, 0).value) == Report([(Text("link"), key)], [], [], 0)
    ensures Injected(h, SriPlan(site)) == Success(h[..36] + Text(" integrity=\"sha384-") + Base64.Encoded(digest) + Text("\"") + [GT])
  {
    hide *;
    SheetPage(h);
    SheetJudged(site, key, digest);
    SheetReported(site, key, digest);
    OneInsertion(h, SriPlan(site), SHEET, SriValue(digest));
    IntegrityText(digest);
    var a, b, z := Text(" integrity=\"sha384-"), Base64.Encoded(digest), Text("\"");
    assert h[..36] + (a + b + z) + [GT] == h[..36] + a + b + z + [GT];
  }

  lemma SheetPage(h: Bytes)
    requires IsStylesheetPage(h)
    ensures Tags(h, 0) == Success([SHEET]) && SHEET.gt == 36 < |h| && h[36..] == [GT]
  {
    assert h[36..] == [GT];
    hide *;
    SheetScans(h);
  }

  lemma SheetJudged(site: Site, key: Bytes, digest: Bytes)
    requires site.resolve(Text("/a.css")) == Some(key) && key in site.digests && Digits(site.digests[key], digest)
    ensures Judge(site, LINK, SHEET_ATTRS) == Apply(key, digest)
    ensures Wanted(SriPlan(site), SHEET) == Some(SriValue(digest))
  {
    SheetGains(site, key, digest);
    hide *;
    JudgedAs(site, SHEET, Apply(key, digest));
    AppliedIsMet(site, SHEET, key, digest);
    PlanOf(site, SHEET);
  }

  lemma SheetGains(site: Site, key: Bytes, digest: Bytes)
    requires site.resolve(Text("/a.css")) == Some(key) && key in site.digests && Digits(site.digests[key], digest)
    ensures Gains(site, SHEET, key, digest)
  {
    SheetReference();
    assert Text("/a.css") == CSS;
    hide Text, Digits, Reference, Lacks;
    assert Reference(SHEET, CSS);
  }

  lemma AppliedIsMet(site: Site, t: Tag, key: Bytes, digest: Bytes)
    ensures Meets(site, t, Apply(key, digest)) <==> Gains(site, t, key, digest)
  {
    hide Gains;
  }

  lemma SheetReported(site: Site, key: Bytes, digest: Bytes)
    requires Judge(site, LINK, SHEET_ATTRS) == Apply(key, digest)
    ensures ReportOf(site, [SHEET]) == Report([(Text("link"), key)], [], [], 0)
  {
    Names();
    assert [SHEET] == [] + [SHEET];
    assert [] + [(LINK, key)] == [(LINK, key)];
    hide ReportOf, Judge, Text;
    ReportAppend(site, [], SHEET);
    EmptyReport(site, []);
  }
}
