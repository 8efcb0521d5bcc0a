/** Subresource integrity for one page: which tags get it, and what a pass leaves (src/generators.rs). */
module Injection {
  import opened Prelude
  import opened Html
  import opened Splicing
  import opened Rescan
  import opened Reinjection
  import Base64
  import TrustRoots

  const SRC: Bytes := [0x73, 0x72, 0x63]
  const REL: Bytes := [0x72, 0x65, 0x6C]
  const AS: Bytes := [0x61, 0x73]
  const HREF: Bytes := [0x68, 0x72, 0x65, 0x66]
  const STYLESHEET: Bytes := [0x73, 0x74, 0x79, 0x6C, 0x65, 0x73, 0x68, 0x65, 0x65, 0x74]
  const MODULEPRELOAD: Bytes := [0x6D, 0x6F, 0x64, 0x75, 0x6C, 0x65, 0x70, 0x72, 0x65, 0x6C, 0x6F, 0x61, 0x64]
  const PRELOAD: Bytes := [0x70, 0x72, 0x65, 0x6C, 0x6F, 0x61, 0x64]
  const SHA384_PREFIX: Bytes := [0x73, 0x68, 0x61, 0x33, 0x38, 0x34, 0x2D]   // sha384-

  // ---------------------------------------------------------------- which tags

  /** `split_ascii_whitespace`. */
  function Words(s: Bytes): seq<Bytes>
    decreases |s|
  {
    var i := Skip(s, 0, Space);
    if i == |s| then []
    else
      var j := WordEnd(s, i);
      [s[i..j]] + Words(s[j..])
  }

  function WordEnd(s: Bytes, i: nat): (j: nat)
    requires i < |s| && !IsSpace(s[i])
    ensures i < j <= |s|
    decreases |s| - i
  {
    if i + 1 < |s| && !IsSpace(s[i + 1]) then WordEnd(s, i + 1) else i + 1
  }

  predicate Eligible(rels: seq<Bytes>, kind: Option<Bytes>) {
    || STYLESHEET in rels
    || MODULEPRELOAD in rels
    || (PRELOAD in rels && kind.Some? && (LowerAll(kind.value) == SCRIPT || LowerAll(kind.value) == STYLE))
  }

  /** The URL of a subresource that supports integrity. */
  function TargetUrl(name: Bytes, attrs: seq<Attr>): Option<Bytes> {
    if name == SCRIPT then AttrOf(attrs, SRC)
    else if name == LINK then
      match AttrOf(attrs, REL)
      case None => None
      case Some(rel) => if Eligible(Words(LowerAll(rel)), AttrOf(attrs, AS)) then AttrOf(attrs, HREF) else None
    else None
  }

  // ---------------------------------------------------------------- what each tag gets

  /** What the page is resolved against: the URL resolver of the page, and the digests of the assets. */
  datatype Site = Site(resolve: Bytes -> Option<Bytes>, digests: map<Bytes, string>)

  function LowerChar(c: char): char { if 'A' <= c <= 'Z' then (c as int + 32) as char else c }

  function LowerString(s: string): (r: string)
    ensures |r| == |s|
  {
    seq(|s|, i requires 0 <= i < |s| => LowerChar(s[i]))
  }

  /** `hex::decode` takes either case. */
  function DecodeHex(s: string): Option<Bytes> { TrustRoots.Unhex(LowerString(s)) }

  function SriValue(digest: Bytes): Bytes { SHA384_PREFIX + Base64.Encoded(digest) }

  datatype Verdict =
    | NotCovered
    | Preexisting
    | CrossOrigin(url: Bytes)
    | Unresolved(key: Bytes)
    | Apply(key: Bytes, digest: Bytes)

  function Judge(site: Site, name: Bytes, attrs: seq<Attr>): Verdict {
    match TargetUrl(name, attrs)
    case None => NotCovered
    case Some(url) =>
      if AttrOf(attrs, INTEGRITY).Some? then Preexisting
      else
        match site.resolve(url)
        case None => CrossOrigin(url)
        case Some(key) =>
          if key !in site.digests then Unresolved(key)
          else
            match DecodeHex(site.digests[key])
            case None => Unresolved(key)
            case Some(digest) => Apply(key, digest)
  }

  /** The plan of one pass. */
  function SriPlan(site: Site): Plan {
    (name, attrs) =>
      match Judge(site, name, attrs)
      case Apply(_, digest) => Some(SriValue(digest))
      case _ => None
  }

  datatype Report = Report(applied: seq<(Bytes, Bytes)>, crossOrigin: seq<Bytes>, unresolved: seq<Bytes>, preexisting: nat)

  function Noted(r: Report, t: Tag, v: Verdict): Report {
    match v
    case NotCovered => r
    case Preexisting => r.(preexisting := r.preexisting + 1)
    case CrossOrigin(url) => r.(crossOrigin := r.crossOrigin + [url])
    case Unresolved(key) => r.(unresolved := r.unresolved + [key])
    case Apply(key, _) => r.(applied := r.applied + [(t.name, key)])
  }

  /** The report over a list of tags, taken from the back. */
  function ReportOf(site: Site, tags: seq<Tag>): Report {
    if tags == [] then Report([], [], [], 0)
    else
      var t := tags[|tags| - 1];
      Noted(ReportOf(site, tags[..|tags| - 1]), t, Judge(site, t.name, t.attrs))
  }

  lemma {:induction false} PlannedAppend(plan: Plan, tags: seq<Tag>, t: Tag)
    ensures Planned(plan, tags + [t]) == Planned(plan, tags) +
      (if Wanted(plan, t).Some? then [Insertion(t.gt, AttrText(Wanted(plan, t).value))] else [])
  {
    hide AttrText;
    if tags == [] {
      assert [t][1..] == [] && ([] + [t])[1..] == [];
    } else {
      PlannedAppend(plan, tags[1..], t);
      assert (tags + [t])[1..] == tags[1..] + [t];
    }
  }

  lemma NothingPlanned(plan: Plan, tags: seq<Tag>)
    requires tags == []
    ensures Planned(plan, tags) == []
  {
  }

  /** `for tag in &tags`: the insertions and the report. */
  method PlanTags(tags: seq<Tag>, site: Site) returns (insertions: seq<Insertion>, report: Report)
    ensures insertions == Planned(SriPlan(site), tags) && report == ReportOf(site, tags)
  {
    hide *;
    report := Report([], [], [], 0);
    insertions := [];
    EmptyReport(site, tags[..0]);
    NothingPlanned(SriPlan(site), tags[..0]);
    for i := 0 to |tags|
      invariant insertions == Planned(SriPlan(site), tags[..i])
      invariant report == ReportOf(site, tags[..i])
    {
      var tag := tags[i];
      PlannedAppend(SriPlan(site), tags[..i], tag);
      ReportAppend(site, tags[..i], tag);
      PlanOf(site, tag);
      assert tags[..i + 1] == tags[..i] + [tag];
      var url := TargetUrl(tag.name, tag.attrs);
      if url.None? { continue; }
      if AttrOf(tag.attrs, INTEGRITY).Some? {
        report := report.(preexisting := report.preexisting + 1);
        continue;
      }
      var key := site.resolve(url.value);
      if key.None? {
        report := report.(crossOrigin := report.crossOrigin + [url.value]);
        continue;
      }
      if key.value !in site.digests {
        report := report.(unresolved := report.unresolved + [key.value]);
        continue;
      }
      var digest := DecodeHex(site.digests[key.value]);
      if digest.None? {
        report := report.(unresolved := report.unresolved + [key.value]);
        continue;
      }
      insertions := insertions + [Insertion(tag.gt, AttrText(SriValue(digest.value)))];
      report := report.(applied := report.applied + [(tag.name, key.value)]);
    }
    assert tags[..|tags|] == tags;
  }

  /** Scan, plan, splice. */
  method InjectSri(h: Bytes, site: Site) returns (r: Result<(Bytes, Report), HtmlError>)
    ensures r.Failure? <==> Tags(h, 0).Failure?
    ensures r.Failure? ==> r.error == Tags(h, 0).error
    ensures r.Success? ==> Success(r.value.0) == Injected(h, SriPlan(site)) && r.value.1 == ReportOf(site, Tags(h, 0).value)
  {
    hide *;
    var tags := Scan(h);
    if tags.Failure? { return Failure(tags.error); }
    var insertions, report := PlanTags(tags.value, site);
    TagsSound(h, 0);
    PlannedAscends(h, SriPlan(site), tags.value, 0);
    AscendingBounds(insertions, 0, |h|);
    SortInOrder(insertions, 0, |h|);
    var out := Splice(h, insertions);
    InjectedIs(h, SriPlan(site));
    return Success((out, report));
  }

  lemma InjectedIs(h: Bytes, plan: Plan)
    requires Tags(h, 0).Success? && Ascending(Planned(plan, Tags(h, 0).value), 0, |h|)
    ensures Injected(h, plan) == Success(Woven(h, Planned(plan, Tags(h, 0).value), 0))
  {
  }

  lemma ReportAppend(site: Site, tags: seq<Tag>, t: Tag)
    ensures ReportOf(site, tags + [t]) == Noted(ReportOf(site, tags), t, Judge(site, t.name, t.attrs))
    ensures
      var r := ReportOf(site, tags);
      match Judge(site, t.name, t.attrs)
      case NotCovered => Noted(r, t, Judge(site, t.name, t.attrs)) == r
      case Preexisting => Noted(r, t, Judge(site, t.name, t.attrs)) == r.(preexisting := r.preexisting + 1)
      case CrossOrigin(url) => Noted(r, t, Judge(site, t.name, t.attrs)) == r.(crossOrigin := r.crossOrigin + [url])
      case Unresolved(key) => Noted(r, t, Judge(site, t.name, t.attrs)) == r.(unresolved := r.unresolved + [key])
      case Apply(key, _) => Noted(r, t, Judge(site, t.name, t.attrs)) == r.(applied := r.applied + [(t.name, key)])
  {
    hide Judge;
    assert (tags + [t])[..|tags|] == tags;
  }

  /** The branches of the loop body, as the plan and the report see them. */
  lemma PlanOf(site: Site, t: Tag)
    ensures
      var v := Judge(site, t.name, t.attrs);
      var url := TargetUrl(t.name, t.attrs);
      && Wanted(SriPlan(site), t) == (if v.Apply? then Some(SriValue(v.digest)) else None)
      && v == (if url.None? then NotCovered
               else if AttrOf(t.attrs, INTEGRITY).Some? then Preexisting
               else if site.resolve(url.value).None? then CrossOrigin(url.value)
               else
                 var key := site.resolve(url.value).value;
                 if key !in site.digests || DecodeHex(site.digests[key]).None? then Unresolved(key)
                 else Apply(key, DecodeHex(site.digests[key]).value))
  {
    hide TargetUrl, DecodeHex, SriValue;
  }

  lemma {:induction false} AscendingBounds(ins: seq<Insertion>, i: nat, n: nat)
    requires Ascending(ins, i, n)
    ensures forall x :: x in ins ==> x.at <= n
  {
    if ins != [] {
      AscendingWithin(ins, i, n);
      AscendingBounds(ins[1..], ins[0].at, n);
      assert ins == [ins[0]] + ins[1..];
    }
  }

  // ---------------------------------------------------------------- the plan meets what re-scanning needs

  lemma SymbolsAreSafe(c: byte)
    requires Base64.GroupOf(c).Some? || c == Base64.PAD
    ensures c != QUOTE && c != AMP && c != GT && !IsSpace(c)
  {
  }

  /** No base64 symbol can end the value or be mistaken for markup. */
  lemma SriValueIsSafe(digest: Bytes)
    ensures SafeValue(SriValue(digest))
  {
    Base64.EncodedShape(digest);
    var e := Base64.Encoded(digest);
    forall b | b in SriValue(digest) ensures b != QUOTE && b != AMP && b != GT && !IsSpace(b) {
      if b in e {
        var k :| 0 <= k < |e| && e[k] == b;
        SymbolsAreSafe(b);
      } else {
        assert b in SHA384_PREFIX;
      }
    }
  }

  lemma SriPlanIsSound(site: Site)
    ensures SafePlan(SriPlan(site)) && RespectsIntegrity(SriPlan(site))
  {
    hide TargetUrl, DecodeHex, SriValue, SafeValue;
    var plan := SriPlan(site);
    forall name, attrs | plan(name, attrs).Some? ensures SafeValue(plan(name, attrs).value) {
      SriValueIsSafe(Judge(site, name, attrs).digest);
    }
  }

  // ---------------------------------------------------------------- a second pass

  lemma {:induction false} AttrOfOther(attrs: seq<Attr>, a: Attr, name: Bytes)
    requires a.name != name
    ensures AttrOf(attrs + [a], name) == AttrOf(attrs, name)
  {
    if attrs == [] {
      assert [a][1..] == [];
    } else {
      assert (attrs + [a])[1..] == attrs[1..] + [a];
      AttrOfOther(attrs[1..], a, name);
    }
  }

  /** Once it has gained the attribute, a tag counts as covered already. */
  lemma JudgedAgain(site: Site, t: Tag, v: Bytes)
    requires Judge(site, t.name, t.attrs).Apply?
    ensures Judge(site, t.name, t.attrs + [Attr(INTEGRITY, v)]) == Preexisting
  {
    var a := Attr(INTEGRITY, v);
    AttrOfOther(t.attrs, a, SRC);
    AttrOfOther(t.attrs, a, REL);
    AttrOfOther(t.attrs, a, AS);
    AttrOfOther(t.attrs, a, HREF);
    AttrOfAppended(t.attrs, v);
    hide AttrOf, Eligible, DecodeHex;
  }

  /** The report of the second pass, from that of the first. */
  function SecondReport(r: Report): Report {
    r.(applied := [], preexisting := r.preexisting + |r.applied|)
  }

  lemma {:induction false} ReportedAgain(site: Site, h: Bytes, g: Bytes, tags: seq<Tag>, seen: seq<Tag>)
    requires |seen| == |tags|
    requires forall k :: 0 <= k < |tags| ==> Carried(h, g, SriPlan(site), tags[k], seen[k])
    requires forall t :: t in tags && Wanted(SriPlan(site), t).Some? ==> !BareTag(h, t)
    ensures ReportOf(site, seen) == SecondReport(ReportOf(site, tags))
  {
    hide *;
    if tags == [] {
      EmptyReport(site, tags);
      EmptyReport(site, seen);
    } else {
      var n := |tags| - 1;
      ReportedAgain(site, h, g, tags[..n], seen[..n]);
      var t, u := tags[n], seen[n];
      assert Carried(h, g, SriPlan(site), t, u) && t in tags;
      JudgedStep(site, h, g, t, u);
      ReportAppend(site, tags[..n], t);
      ReportAppend(site, seen[..n], u);
      assert tags == tags[..n] + [t] && seen == seen[..n] + [u];
      NotedAgain(ReportOf(site, tags[..n]), t, u, Judge(site, t.name, t.attrs));
    }
  }

  lemma EmptyReport(site: Site, tags: seq<Tag>)
    requires tags == []
    ensures ReportOf(site, tags) == Report([], [], [], 0) == SecondReport(ReportOf(site, tags))
  {
  }

  lemma JudgedStep(site: Site, h: Bytes, g: Bytes, t: Tag, u: Tag)
    requires Carried(h, g, SriPlan(site), t, u) && (Wanted(SriPlan(site), t).Some? ==> !BareTag(h, t))
    ensures var v := Judge(site, t.name, t.attrs); Judge(site, u.name, u.attrs) == if v.Apply? then Preexisting else v
  {
    hide Judge, TargetUrl, BareTag, SameText, AttrOf;
    PlanOf(site, t);
    if Judge(site, t.name, t.attrs).Apply? { JudgedAgain(site, t, SriValue(Judge(site, t.name, t.attrs).digest)); }
  }

  lemma NotedAgain(r: Report, t: Tag, u: Tag, v: Verdict)
    ensures Noted(SecondReport(r), u, if v.Apply? then Preexisting else v) == SecondReport(Noted(r, t, v))
  {
  }

  /** Which tags of the output count as covered already: those that did before, and those that gained
      the attribute for good. */
  lemma CoveredAlready(site: Site, h: Bytes, g: Bytes, t: Tag, u: Tag)
    requires Carried(h, g, SriPlan(site), t, u)
    ensures Judge(site, u.name, u.attrs).Preexisting? <==>
      Judge(site, t.name, t.attrs).Preexisting? || (Judge(site, t.name, t.attrs).Apply? && !BareTag(h, t))
  {
    PlanOf(site, t);
    PlanOf(site, u);
    if Judge(site, t.name, t.attrs).Apply? {
      JudgedAgain(site, t, SriValue(Judge(site, t.name, t.attrs).digest));
    }
    hide Judge, TargetUrl, BareTag, SameText, AttrOf, SriPlan;
  }

  lemma NotedCounts(r: Report, t: Tag, v: Verdict)
    ensures Noted(r, t, v).preexisting == r.preexisting + (if v.Preexisting? then 1 else 0)
    ensures |Noted(r, t, v).applied| == |r.applied| + (if v.Apply? then 1 else 0)
  {
  }

  ghost predicate HasBare(h: Bytes, plan: Plan, tags: seq<Tag>) {
    exists t :: t in tags && Wanted(plan, t).Some? && BareTag(h, t)
  }

  /** The second pass finds no more covered than the first left - and fewer, if a covered one was bare. */
  lemma {:induction false} CoveredLess(site: Site, h: Bytes, g: Bytes, tags: seq<Tag>, seen: seq<Tag>)
    requires |seen| == |tags|
    requires forall k :: 0 <= k < |tags| ==> Carried(h, g, SriPlan(site), tags[k], seen[k])
    ensures var a, b := ReportOf(site, tags), ReportOf(site, seen);
      if HasBare(h, SriPlan(site), tags) then b.preexisting < a.preexisting + |a.applied|
      else b.preexisting <= a.preexisting + |a.applied|
  {
    hide Judge, Noted, ReportOf, Wanted, BareTag, Carried;
    if tags != [] {
      var n := |tags| - 1;
      CoveredLess(site, h, g, tags[..n], seen[..n]);
      var t, u := tags[n], seen[n];
      assert Carried(h, g, SriPlan(site), t, u);
      assert tags == tags[..n] + [t] && seen == seen[..n] + [u];
      CoveredAlready(site, h, g, t, u);
      PlanOf(site, t);
      ReportAppend(site, tags[..n], t);
      ReportAppend(site, seen[..n], u);
      NotedCounts(ReportOf(site, tags[..n]), t, Judge(site, t.name, t.attrs));
      NotedCounts(ReportOf(site, seen[..n]), u, Judge(site, u.name, u.attrs));
    }
  }

  /** A second pass over the output changes no byte if and only if no tag is wanted again, its bare last
      value overwritten; and it reports exactly the tags the first pass covered as covered already,
      everything else as before, if and only if none of them ended in a bare `=`. */
  lemma SecondPass(h: Bytes, site: Site)
    requires Tags(h, 0).Success?
    ensures Injected(h, SriPlan(site)).Success?
    ensures var plan, tags, g := SriPlan(site), Tags(h, 0).value, Injected(h, SriPlan(site)).value;
      && (Injected(g, plan) == Success(g) <==> forall t :: t in tags ==> !WantedAgain(h, plan, t))
      && Tags(g, 0).Success?
      && (ReportOf(site, Tags(g, 0).value) == SecondReport(ReportOf(site, tags)) <==> !BareWanted(h, plan))
  {
    var plan := SriPlan(site);
    SriPlanIsSound(site);
    InjectTwice(h, plan);
    InjectedScans(h, plan);
    var g, tags := Injected(h, plan).value, Tags(h, 0).value;
    BareAmong(h, plan);
    SecondReportIs(ReportOf(site, tags));
    hide *;
    AllSeenLength(h, plan, tags, 0);
    forall k | 0 <= k < |tags| ensures Carried(h, g, plan, tags[k], Tags(g, 0).value[k]) { InjectionCarries(h, plan, k); }
    CoveredLess(site, h, g, tags, Tags(g, 0).value);
    if !BareWanted(h, plan) { ReportedAgain(site, h, g, tags, Tags(g, 0).value); }
  }

  lemma BareAmong(h: Bytes, plan: Plan)
    requires Tags(h, 0).Success?
    ensures BareWanted(h, plan) <==> HasBare(h, plan, Tags(h, 0).value)
    ensures !BareWanted(h, plan) ==> forall t :: t in Tags(h, 0).value && Wanted(plan, t).Some? ==> !BareTag(h, t)
  {
  }

  lemma SecondReportIs(r: Report)
    ensures SecondReport(r).preexisting == r.preexisting + |r.applied|
  {
  }

  lemma {:induction false} AllSeenLength(h: Bytes, plan: Plan, tags: seq<Tag>, d: nat)
    ensures |AllSeen(h, plan, tags, d)| == |tags|
  {
    if tags != [] { AllSeenLength(h, plan, tags[1..], d + Added(plan, tags[0])); }
  }

  /** What a browser is then told: a covered tag of the output carries, after the algorithm name, the
      base64 of the asset's digest, and nothing else decodes to it. */
  lemma CoveredByDigest(h: Bytes, site: Site, k: nat)
    requires Tags(h, 0).Success? && k < |Tags(h, 0).value|
    requires var t := Tags(h, 0).value[k]; Judge(site, t.name, t.attrs).Apply? && !BareTag(h, t)
    ensures Injected(h, SriPlan(site)).Success?
    ensures var t, g := Tags(h, 0).value[k], Injected(h, SriPlan(site)).value;
      && Tags(g, 0).Success? && k < |Tags(g, 0).value|
      && AttrOf(Tags(g, 0).value[k].attrs, INTEGRITY) == Some(SriValue(Judge(site, t.name, t.attrs).digest))
      && Base64.Decoded(SriValue(Judge(site, t.name, t.attrs).digest)[|SHA384_PREFIX|..]) == Some(Judge(site, t.name, t.attrs).digest)
  {
    var plan, t := SriPlan(site), Tags(h, 0).value[k];
    SriPlanIsSound(site);
    InjectionCarries(h, plan, k);
    PlanOf(site, t);
    var digest := Judge(site, t.name, t.attrs).digest;
    Base64.RoundTrip(digest);
    assert SriValue(digest)[|SHA384_PREFIX|..] == Base64.Encoded(digest);
  }

  /** Every covered reference is accounted for once, and the insertions are those reported applied. */
  lemma {:induction false} NothingUncounted(site: Site, tags: seq<Tag>)
    ensures var r := ReportOf(site, tags);
      && |r.applied| == |Planned(SriPlan(site), tags)|
      && |r.applied| + |r.crossOrigin| + |r.unresolved| + r.preexisting == Covered(tags)
  {
    if tags != [] {
      var n := |tags| - 1;
      var t := tags[n];
      NothingUncounted(site, tags[..n]);
      assert tags == tags[..n] + [t];
      PlannedAppend(SriPlan(site), tags[..n], t);
      PlanOf(site, t);
      ReportAppend(site, tags[..n], t);
      hide Judge, TargetUrl, Planned, Wanted, AttrText, AttrOf;
    }
  }

  /** How many tags reference a subresource that supports integrity. */
  function Covered(tags: seq<Tag>): nat {
    if tags == [] then 0
    else
      var t := tags[|tags| - 1];
      Covered(tags[..|tags| - 1]) + (if TargetUrl(t.name, t.attrs).Some? then 1 else 0)
  }

  // ---------------------------------------------------------------- a page that stays unprotected

  /** <script src=a x=></script>, byte by byte. */
  predicate IsBarePage(h: Bytes) {
    && |h| == 26
    && h[0] == 0x3C && h[1] == 0x73 && h[2] == 0x63 && h[3] == 0x72 && h[4] == 0x69 && h[5] == 0x70
    && h[6] == 0x74 && h[7] == 0x20 && h[8] == 0x73 && h[9] == 0x72 && h[10] == 0x63 && h[11] == 0x3D
    && h[12] == 0x61 && h[13] == 0x20 && h[14] == 0x78 && h[15] == 0x3D && h[16] == 0x3E && h[17] == 0x3C
    && h[18] == 0x2F && h[19] == 0x73 && h[20] == 0x63 && h[21] == 0x72 && h[22] == 0x69 && h[23] == 0x70
    && h[24] == 0x74 && h[25] == 0x3E
  }

  /** The predicate says what its comment says. */
  lemma BarePageIs(h: Bytes)
    ensures IsBarePage(h) <==> h == Text("<script ") + Text("src=a ") + Text("x=>") + Text("</script>")
  {
    var a, b, c, d := Text("<script "), Text("src=a "), Text("x=>"), Text("</script>");
    if |h| == 26 {
      OpeningIs(h);
      SourceIs(h);
      BareIs(h);
      ClosingIs(h);
      FourParts(h, a, b, c, d);
    }
    hide Text;
  }

  lemma FourParts(h: Bytes, a: Bytes, b: Bytes, c: Bytes, d: Bytes)
    requires |h| == |a| + |b| + |c| + |d|
    ensures
      var i, j, k := |a|, |a| + |b|, |a| + |b| + |c|;
      h == a + b + c + d <==> h[0..i] == a && h[i..j] == b && h[j..k] == c && h[k..|h|] == d
  {
    assert h == h[0..|a|] + h[|a|..|a| + |b|] + h[|a| + |b|..|a| + |b| + |c|] + h[|a| + |b| + |c|..|h|];
  }

  lemma OpeningIs(h: Bytes)
    requires |h| == 26
    ensures h[0..8] == Text("<script ") <==>
      && h[0] == 0x3C && h[1] == 0x73 && h[2] == 0x63 && h[3] == 0x72 && h[4] == 0x69 && h[5] == 0x70
      && h[6] == 0x74 && h[7] == 0x20
  {
    var s := h[0..8];
    assert s == [h[0], h[1], h[2], h[3], h[4], h[5], h[6], h[7]];
  }

  lemma SourceIs(h: Bytes)
    requires |h| == 26
    ensures h[8..14] == Text("src=a ") <==>
      && h[8] == 0x73 && h[9] == 0x72 && h[10] == 0x63 && h[11] == 0x3D && h[12] == 0x61 && h[13] == 0x20
  {
    var s := h[8..14];
    assert s == [h[8], h[9], h[10], h[11], h[12], h[13]];
  }

  lemma BareIs(h: Bytes)
    requires |h| == 26
    ensures h[14..17] == Text("x=>") <==>
      && h[14] == 0x78 && h[15] == 0x3D && h[16] == 0x3E
  {
    var s := h[14..17];
    assert s == [h[14], h[15], h[16]];
  }

  lemma ClosingIs(h: Bytes)
    requires |h| == 26
    ensures h[17..26] == Text("</script>") <==>
      && h[17] == 0x3C && h[18] == 0x2F && h[19] == 0x73 && h[20] == 0x63 && h[21] == 0x72 && h[22] == 0x69
      && h[23] == 0x70 && h[24] == 0x74 && h[25] == 0x3E
  {
    var s := h[17..26];
    assert s == [h[17], h[18], h[19], h[20], h[21], h[22], h[23], h[24], h[25]];
  }

  const BARE_ATTRS: seq<Attr> := [Attr(SRC, [0x61]), Attr([0x78], [])]

  const BARE_SCRIPT: Tag := Tag(SCRIPT, 0, 17, 16, BARE_ATTRS, Some((17, 17)))

  lemma BarePageRuns(h: Bytes)
    requires IsBarePage(h)
    ensures
      && Skip(h, 7, Space) == 8 && Skip(h, 8, AttrName) == 11 && Skip(h, 11, Space) == 11
      && Skip(h, 12, Space) == 12 && Skip(h, 12, Unquoted) == 13
      && Skip(h, 13, Space) == 14 && Skip(h, 14, AttrName) == 15 && Skip(h, 15, Space) == 15
      && Skip(h, 16, Space) == 16 && Skip(h, 16, Unquoted) == 16 && Skip(h, 1, NameByte) == 7
  {
    SkipExact(h, 7, 8, Space);
    SkipExact(h, 8, 11, AttrName);
    SkipExact(h, 11, 11, Space);
    SkipExact(h, 12, 12, Space);
    SkipExact(h, 12, 13, Unquoted);
    SkipExact(h, 13, 14, Space);
    SkipExact(h, 14, 15, AttrName);
    SkipExact(h, 15, 15, Space);
    SkipExact(h, 16, 16, Space);
    SkipExact(h, 16, 16, Unquoted);
    SkipExact(h, 1, 7, NameByte);
  }

  lemma BarePageAttributes(h: Bytes)
    requires IsBarePage(h)
    ensures
      && |h| == 26 && OneAttribute(h, 8, 7) == Success((BARE_ATTRS[0], 13)) && OneAttribute(h, 14, 7) == Success((BARE_ATTRS[1], 16))
      && BareAt(h, 14)
  {
    BarePageRuns(h);
    assert h[8..11] == SRC && h[12..13] == [0x61] && h[14..15] == [0x78] && h[16..16] == [];
    assert LowerAll(SRC) == SRC && LowerAll([0x78]) == [0x78];
    assert AMP !in h[12..13] && AMP !in h[16..16];
    hide Skip;
  }

  lemma BarePageList(h: Bytes)
    requires IsBarePage(h)
    ensures |h| == 26 && Attributes(h, 7, 7) == Success(AttrList(BARE_ATTRS, 16, false)) && BareEnd(h, 7)
  {
    BarePageRuns(h);
    BarePageAttributes(h);
    assert h[8] == 0x73 && h[14] == 0x78 && h[16] == GT;
    hide OneAttribute, Skip, BareAt, BareEnd, Attributes;
    ListUnfolds(h, 7, 8, 7);
    ListUnfolds(h, 13, 14, 7);
    EmptyList(h, 16, 7);
    assert BARE_ATTRS == [BARE_ATTRS[0]] + ([BARE_ATTRS[1]] + []);
  }

  lemma BarePageBytes(h: Bytes)
    requires IsBarePage(h)
    ensures |h| == 26 && h[0] == LT && h[17] == LT && h[18] == SLASH && h[25] == GT && !Markup(h, 0) && IsAlpha(h[1])
    ensures LowerAll(h[1..7]) == SCRIPT && ClosesAt(h, 17, SCRIPT)
    ensures forall k :: 17 <= k < 25 ==> h[k] != GT
  {
    assert h[1..7] == [h[1], h[2], h[3], h[4], h[5], h[6]] == SCRIPT;
    assert h[19..25] == [h[19], h[20], h[21], h[22], h[23], h[24]] == SCRIPT;
    assert LowerAll(SCRIPT) == SCRIPT;
  }

  /** A page that is one empty script, given its parts. */
  lemma OneScript(h: Bytes, end: nat, list: AttrList, close: nat)
    requires 0 < end <= |h| && h[0] == LT && !Markup(h, 0) && NameEnd(h, 1) == Some(end) && LowerAll(h[1..end]) == SCRIPT
    requires Attributes(h, end, end) == Success(list) && !list.selfClosing && list.gt + 1 == close
    requires close + 1 < |h| && h[close] == LT && h[close + 1] == SLASH && ClosesAt(h, close, SCRIPT)
    requires IndexOf(h, close, GT) == Some(|h| - 1)
    ensures Tags(h, 0) == Success([Tag(SCRIPT, 0, close, list.gt, list.attrs, Some((close, close)))])
  {
    var tag := Tag(SCRIPT, 0, close, list.gt, list.attrs, Some((close, close)));
    ClosesHere(h, close, SCRIPT);
    ScriptElement(h, end, list, close);
    ElementLook(h, 0);
    MarkupLook(h, close, |h| - 1);
    assert OneTag(Look(close, Some(tag))) == [tag] && OneTag(Look(|h|, None)) == [];
    var none: seq<Tag> := [];
    assert [tag] + none == [tag] && none + none == none;
    hide *;
    TagsOf(h, |h|);
    TagsOf(h, close);
    TagsOf(h, 0);
  }

  lemma ClosesHere(h: Bytes, i: nat, name: Bytes)
    requires ClosesAt(h, i, name)
    ensures FindClose(h, i, name) == Some(i)
  {
  }

  lemma ScriptElement(h: Bytes, end: nat, list: AttrList, close: nat)
    requires 0 < end <= |h| && LowerAll(h[1..end]) == SCRIPT
    requires Attributes(h, end, end) == Success(list) && !list.selfClosing && list.gt + 1 == close
    requires FindClose(h, close, SCRIPT) == Some(close)
    ensures Element(h, 0, end) == Success(Look(close, Some(Tag(SCRIPT, 0, close, list.gt, list.attrs, Some((close, close))))))
  {
    hide Attributes, FindClose, LowerAll;
  }

  lemma BarePageScans(h: Bytes)
    requires IsBarePage(h)
    ensures Tags(h, 0) == Success([BARE_SCRIPT]) && BareTag(h, BARE_SCRIPT)
  {
    BarePageRuns(h);
    BarePageBytes(h);
    BarePageList(h);
    hide IsBarePage, Tags, Attributes, LowerAll, IndexOf, NameEnd, ClosesAt, Markup, BareEnd, Skip;
    NamedTo(h, 1, 7);
    IndexExact(h, 17, 25, GT);
    OneScript(h, 7, AttrList(BARE_ATTRS, 16, false), 17);
    assert |BARE_SCRIPT.name| == 6;
  }

  lemma NamedTo(h: Bytes, at: nat, end: nat)
    requires at < end <= |h| && Skip(h, at, NameByte) == end && IsAlpha(h[at])
    ensures NameEnd(h, at) == Some(end)
  {
  }

  lemma MarkupLook(h: Bytes, i: nat, end: nat)
    requires i + 1 < |h| && h[i] == LT && h[i + 1] == SLASH && IndexOf(h, i, GT) == Some(end)
    ensures LookAt(h, i) == Success(Look(end + 1, None))
  {
    LookBranches(h, i);
    StartsByByte(h, i);
    hide LookAt, IndexOf, Starts;
  }

  /** On this page, with its script's source among the assets, the pass reports the tag as covered - and the
      tag the browser then reads has no integrity attribute at all. */
  lemma BareScriptStaysUnprotected(site: Site, key: Bytes, h: Bytes)
    requires IsBarePage(h)
    requires site.resolve([0x61]) == Some(key) && key in site.digests && DecodeHex(site.digests[key]).Some?
    ensures ReportOf(site, [BARE_SCRIPT]).applied == [(SCRIPT, key)]
    ensures Injected(h, SriPlan(site)).Success?
    ensures var g := Injected(h, SriPlan(site)).value;
      Tags(g, 0).Success? && |Tags(g, 0).value| == 1 && AttrOf(Tags(g, 0).value[0].attrs, INTEGRITY).None?
  {
    BarePageScans(h);
    SriPlanIsSound(site);
    assert AttrOf(BARE_ATTRS, SRC) == Some([0x61]) && AttrOf(BARE_ATTRS, INTEGRITY).None?;
    PlanOf(site, BARE_SCRIPT);
    assert [BARE_SCRIPT] == [] + [BARE_SCRIPT];
    ReportAppend(site, [], BARE_SCRIPT);
    assert ReportOf(site, []).applied + [(SCRIPT, key)] == [(SCRIPT, key)];
    hide IsBarePage, Tags, BareTag, SriPlan, Injected, Judge, AttrOf, DecodeHex, SafePlan, RespectsIntegrity, ReportOf, SameText, SriValue;
    InjectionCarries(h, SriPlan(site), 0);
  }
}
