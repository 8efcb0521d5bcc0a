/** The audit daemon's alerting: per-target status, triggers, heartbeats and resolves over unbounded
    runs (src/auditor.rs, run_daemon). */
module Daemon {

  type Url = string

  datatype Severity = Critical | Warning | Info

  /** The derived order: declaration order, the gravest first. */
  function Rank(s: Severity): nat {
    match s
    case Critical => 0
    case Warning => 1
    case Info => 2
  }

  /** A probe errs or panics, or brings back a snapshot with its findings' severities. */
  datatype Probe = Error | Snapshot(findings: seq<Severity>)

  predicate HasFailures(threshold: Severity, findings: seq<Severity>) {
    exists f :: f in findings && Rank(f) <= Rank(threshold)
  }

  datatype TargetStatus = TargetStatus(isFailing: bool, since: nat, lastAlert: nat)

  const UNSEEN := TargetStatus(false, 0, 0)

  datatype Kind = Trigger | Resolve

  datatype Alert = Alert(kind: Kind, url: Url, at: nat, findings: nat)

  datatype DaemonConfig = DaemonConfig(threshold: Severity, heartbeat: nat, webhook: bool)

  function SaturatingSub(a: nat, b: nat): nat { if a < b then 0 else a - b }

  // ---------------------------------------------------------------- one target

  /** A successful probe of one target. */
  datatype Observation = Observation(now: nat, failing: bool, findings: nat)

  predicate HeartbeatDue(c: DaemonConfig, s: TargetStatus, now: nat) {
    c.heartbeat > 0 && SaturatingSub(now, s.lastAlert) >= c.heartbeat
  }

  function NextStatus(c: DaemonConfig, s: TargetStatus, o: Observation): TargetStatus {
    if o.failing then
      if !s.isFailing then TargetStatus(true, o.now, o.now)
      else if HeartbeatDue(c, s, o.now) then s.(lastAlert := o.now)
      else s
    else if s.isFailing then s.(isFailing := false, lastAlert := o.now)
    else s
  }

  /** The alert the observation gives rise to, if any. */
  function Raised(c: DaemonConfig, s: TargetStatus, u: Url, o: Observation): seq<Alert> {
    if o.failing then
      if !s.isFailing || HeartbeatDue(c, s, o.now) then [Alert(Trigger, u, o.now, o.findings)] else []
    else if s.isFailing then [Alert(Resolve, u, o.now, 0)]
    else []
  }

  function Status(c: DaemonConfig, obs: seq<Observation>): TargetStatus {
    if obs == [] then UNSEEN
    else NextStatus(c, Status(c, obs[..|obs| - 1]), obs[|obs| - 1])
  }

  function Alerts(c: DaemonConfig, u: Url, obs: seq<Observation>): seq<Alert> {
    if obs == [] then []
    else Alerts(c, u, obs[..|obs| - 1]) + Raised(c, Status(c, obs[..|obs| - 1]), u, obs[|obs| - 1])
  }

  // ---------------------------------------------------------------- all targets

  datatype Event = Event(url: Url, now: nat, probe: Probe)

  datatype World = World(state: map<Url, TargetStatus>, log: seq<Alert>)

  function ObservationOf(c: DaemonConfig, e: Event): Observation
    requires e.probe.Snapshot?
  {
    Observation(e.now, HasFailures(c.threshold, e.probe.findings), |e.probe.findings|)
  }

  function StatusIn(w: World, u: Url): TargetStatus { if u in w.state then w.state[u] else UNSEEN }

  function Stepped(c: DaemonConfig, w: World, e: Event): World {
    if e.probe.Error? then w
    else
      var o := ObservationOf(c, e);
      var s := StatusIn(w, e.url);
      World(w.state[e.url := NextStatus(c, s, o)], w.log + (if c.webhook then Raised(c, s, e.url, o) else []))
  }

  function Played(c: DaemonConfig, w: World, events: seq<Event>): World {
    if events == [] then w
    else Stepped(c, Played(c, w, events[..|events| - 1]), events[|events| - 1])
  }

  /** One pass over the targets, in configuration order. */
  function TickEvents(urls: seq<Url>, now: nat, probes: seq<Probe>): seq<Event>
    requires |probes| == |urls|
  {
    seq(|urls|, i requires 0 <= i < |urls| => Event(urls[i], now, probes[i]))
  }

  datatype Tick = Tick(now: nat, probes: seq<Probe>)

  predicate FitsAll(urls: seq<Url>, ticks: seq<Tick>) { forall t :: t in ticks ==> |t.probes| == |urls| }

  function AllEvents(urls: seq<Url>, ticks: seq<Tick>): seq<Event>
    requires FitsAll(urls, ticks)
  {
    if ticks == [] then []
    else
      var last := ticks[|ticks| - 1];
      AllEvents(urls, ticks[..|ticks| - 1]) + TickEvents(urls, last.now, last.probes)
  }

  lemma {:induction false} PlayedOn(c: DaemonConfig, w: World, a: seq<Event>, b: seq<Event>)
    ensures Played(c, w, a + b) == Played(c, Played(c, w, a), b)
  {
    hide Stepped;
    if b == [] {
      assert a + b == a;
    } else {
      var n := |b| - 1;
      PlayedOn(c, w, a, b[..n]);
      assert (a + b)[..|a + b| - 1] == a + b[..n];
    }
  }

  /** The daemon: a map of statuses, mutated target by target, and the alerts it has sent. */
  class AuditDaemon {
    const config: DaemonConfig
    const urls: seq<Url>
    var state: map<Url, TargetStatus>
    var log: seq<Alert>

    ghost function Contents(): World
      reads this
    {
      World(state, log)
    }

    constructor (config: DaemonConfig, urls: seq<Url>)
      ensures this.config == config && this.urls == urls && Contents() == World(map[], [])
    {
      this.config := config;
      this.urls := urls;
      state := map[];
      log := [];
    }

    method Send(kind: Kind, url: Url, now: nat, findings: nat)
      modifies this`log
      ensures log == old(log) + (if config.webhook then [Alert(kind, url, now, findings)] else [])
    {
      if config.webhook { log := log + [Alert(kind, url, now, findings)]; }
    }

    /** The body of the loop over the targets. */
    method Observe(url: Url, now: nat, probe: Probe)
      modifies this
      ensures Contents() == Stepped(config, old(Contents()), Event(url, now, probe))
    {
      if probe.Error? { return; }
      var failing := HasFailures(config.threshold, probe.findings);
      if url !in state { state := state[url := UNSEEN]; }
      var status := state[url];
      if failing {
        if !status.isFailing {
          state := state[url := TargetStatus(true, now, now)];
          Send(Trigger, url, now, |probe.findings|);
        } else if config.heartbeat > 0 && SaturatingSub(now, status.lastAlert) >= config.heartbeat {
          state := state[url := status.(lastAlert := now)];
          Send(Trigger, url, now, |probe.findings|);
        }
      } else if status.isFailing {
        state := state[url := status.(isFailing := false, lastAlert := now)];
        Send(Resolve, url, now, 0);
      }
    }

    method OnTick(now: nat, probes: seq<Probe>)
      requires |probes| == |urls|
      modifies this
      ensures Contents() == Played(config, old(Contents()), TickEvents(urls, now, probes))
    {
      ghost var events := TickEvents(urls, now, probes);
      hide Stepped;
      for i := 0 to |urls|
        invariant Contents() == Played(config, old(Contents()), events[..i])
      {
        Observe(urls[i], now, probes[i]);
        assert events[..i + 1][..i] == events[..i];
      }
      assert events[..|urls|] == events;
    }

    /** The daemon from its start until it is shut down. */
    method Run(ticks: seq<Tick>)
      requires FitsAll(urls, ticks)
      modifies this
      ensures Contents() == Played(config, old(Contents()), AllEvents(urls, ticks))
    {
      assert Played(config, Contents(), []) == Contents();
      hide Played;
      for i := 0 to |ticks|
        invariant Contents() == Played(config, old(Contents()), AllEvents(urls, ticks[..i]))
      {
        OnTick(ticks[i].now, ticks[i].probes);
        PlayedOn(config, old(Contents()), AllEvents(urls, ticks[..i]), TickEvents(urls, ticks[i].now, ticks[i].probes));
        assert ticks[..i + 1][..i] == ticks[..i];
      }
      assert ticks[..|ticks|] == ticks;
    }
  }

  // ---------------------------------------------------------------- targets do not disturb each other

  /** The successful probes of one target. */
  function History(c: DaemonConfig, u: Url, events: seq<Event>): seq<Observation> {
    if events == [] then []
    else
      var e := events[|events| - 1];
      History(c, u, events[..|events| - 1]) + (if e.url == u && e.probe.Snapshot? then [ObservationOf(c, e)] else [])
  }

  /** One target's part of the log. */
  function LogOf(u: Url, log: seq<Alert>): seq<Alert> {
    if log == [] then []
    else LogOf(u, log[..|log| - 1]) + (if log[|log| - 1].url == u then [log[|log| - 1]] else [])
  }

  lemma LogOfOne(u: Url, log: seq<Alert>, a: Alert)
    ensures LogOf(u, log + [a]) == LogOf(u, log) + (if a.url == u then [a] else [])
  {
    assert (log + [a])[..|log|] == log;
  }

  lemma LogOfRaised(c: DaemonConfig, u: Url, v: Url, s: TargetStatus, o: Observation, log: seq<Alert>)
    ensures LogOf(u, log + Raised(c, s, v, o)) == LogOf(u, log) + (if u == v then Raised(c, s, v, o) else [])
  {
    var r := Raised(c, s, v, o);
    if r == [] {
      assert log + r == log;
    } else {
      LogOfOne(u, log, r[0]);
      assert r == [r[0]];
    }
  }

  /** Whatever the daemon watches besides, a target's status and its alerts are those of its own
      successful probes alone; without a webhook nothing is ever sent. */
  lemma {:induction false} TargetsAreIndependent(c: DaemonConfig, u: Url, events: seq<Event>)
    ensures var w := Played(c, World(map[], []), events); var own := History(c, u, events);
      && (u in w.state <==> own != [])
      && StatusIn(w, u) == Status(c, own)
      && LogOf(u, w.log) == (if c.webhook then Alerts(c, u, own) else [])
      && (!c.webhook ==> w.log == [])
  {
    if events != [] {
      var n := |events| - 1;
      var e, w, own := events[n], Played(c, World(map[], []), events[..n]), History(c, u, events[..n]);
      TargetsAreIndependent(c, u, events[..n]);
      hide Raised, NextStatus, HasFailures;
      if e.probe.Snapshot? {
        var o := ObservationOf(c, e);
        if c.webhook { LogOfRaised(c, u, e.url, StatusIn(w, e.url), o, w.log); }
        assert (own + [o])[..|own|] == own;
      }
      assert own + [] == own;
    }
  }

  /** Probes that erred or panicked. */
  function Answered(events: seq<Event>): seq<Event> {
    if events == [] then []
    else Answered(events[..|events| - 1]) + (if events[|events| - 1].probe.Error? then [] else [events[|events| - 1]])
  }

  /** A run with failed probes is the run without them. */
  lemma {:induction false} ErrorsChangeNothing(c: DaemonConfig, w: World, events: seq<Event>)
    ensures Played(c, w, events) == Played(c, w, Answered(events))
  {
    if events != [] {
      var n := |events| - 1;
      ErrorsChangeNothing(c, w, events[..n]);
      var kept := Answered(events[..n]);
      if events[n].probe.Error? {
        assert kept + [] == kept;
      } else {
        hide Stepped;
        assert (kept + [events[n]])[..|kept|] == kept;
      }
    }
  }

  // ---------------------------------------------------------------- what a status means

  predicate Episode(obs: seq<Observation>, from: nat) {
    && from < |obs|
    && (forall k :: from <= k < |obs| ==> obs[k].failing)
    && (from > 0 ==> !obs[from - 1].failing)
  }

  /** A target is failing exactly if its last probe failed; the episode began with the first failure
      after the last healthy probe, and is dated from there. */
  lemma {:induction false} StatusMeans(c: DaemonConfig, obs: seq<Observation>) returns (from: nat)
    ensures Status(c, obs).isFailing <==> obs != [] && obs[|obs| - 1].failing
    ensures Status(c, obs).isFailing ==> Episode(obs, from) && Status(c, obs).since == obs[from].now
  {
    from := 0;
    if obs != [] {
      var n := |obs| - 1;
      from := StatusMeans(c, obs[..n]);
      if obs[n].failing && (n == 0 || !obs[n - 1].failing) { from := n; }
    }
  }

  /** How often the target went from healthy to failing, and back. */
  function Breakdowns(obs: seq<Observation>): nat {
    if obs == [] then 0
    else
      var n := |obs| - 1;
      Breakdowns(obs[..n]) + (if obs[n].failing && (n == 0 || !obs[n - 1].failing) then 1 else 0)
  }

  function Recoveries(obs: seq<Observation>): nat {
    if obs == [] then 0
    else
      var n := |obs| - 1;
      Recoveries(obs[..n]) + (if !obs[n].failing && n > 0 && obs[n - 1].failing then 1 else 0)
  }

  // ---------------------------------------------------------------- the shape of the log

  /** (TRIGGER+ RESOLVE)* TRIGGER*: nothing is resolved that was not triggered. */
  predicate Shaped(log: seq<Alert>) {
    forall i :: 0 <= i < |log| && log[i].kind == Resolve ==> i > 0 && log[i - 1].kind == Trigger
  }

  predicate Open(log: seq<Alert>) { log != [] && log[|log| - 1].kind == Trigger }

  /** Triggers that open an episode: the first alert, or the first after a resolve. */
  function Onsets(log: seq<Alert>): nat {
    if log == [] then 0
    else
      var n := |log| - 1;
      Onsets(log[..n]) + (if log[n].kind == Trigger && (n == 0 || log[n - 1].kind == Resolve) then 1 else 0)
  }

  function Resolves(log: seq<Alert>): nat {
    if log == [] then 0
    else Resolves(log[..|log| - 1]) + (if log[|log| - 1].kind == Resolve then 1 else 0)
  }

  lemma CountsAppend(log: seq<Alert>, a: Alert)
    ensures Onsets(log + [a]) == Onsets(log) + (if a.kind == Trigger && !Open(log) then 1 else 0)
    ensures Resolves(log + [a]) == Resolves(log) + (if a.kind == Resolve then 1 else 0)
  {
    assert (log + [a])[..|log|] == log;
  }

  lemma ShapedAppend(log: seq<Alert>, a: Alert)
    requires Shaped(log) && (a.kind == Resolve ==> Open(log))
    ensures Shaped(log + [a]) && (Open(log + [a]) <==> a.kind == Trigger)
  {
  }

  /** One probe adds one alert at most: a trigger while failing, a resolve on recovery. */
  lemma OneMore(c: DaemonConfig, u: Url, obs: seq<Observation>)
    requires obs != []
    ensures
      var n := |obs| - 1;
      var before, log := Status(c, obs[..n]), Alerts(c, u, obs[..n]);
      var fired := if obs[n].failing then !before.isFailing || HeartbeatDue(c, before, obs[n].now) else before.isFailing;
      && Status(c, obs).isFailing == obs[n].failing
      && Alerts(c, u, obs) ==
           if !fired then log
           else log + [Alert(if obs[n].failing then Trigger else Resolve, u, obs[n].now, if obs[n].failing then obs[n].findings else 0)]
  {
    hide HeartbeatDue;
    assert Alerts(c, u, obs[..|obs| - 1]) + [] == Alerts(c, u, obs[..|obs| - 1]);
  }

  lemma Changes(c: DaemonConfig, obs: seq<Observation>)
    requires obs != []
    ensures
      var n := |obs| - 1;
      var before := Status(c, obs[..n]).isFailing;
      && Breakdowns(obs) == Breakdowns(obs[..n]) + (if obs[n].failing && !before then 1 else 0)
      && Recoveries(obs) == Recoveries(obs[..n]) + (if !obs[n].failing && before then 1 else 0)
  {
    var from := StatusMeans(c, obs[..|obs| - 1]);
    hide Status, Episode;
  }

  /** For every sequence of probes: the log has the shape above; the target is failing exactly when
      its log is open, that is, onsets outnumber resolves by one; every breakdown is announced by one
      onset and every recovery by one resolve. */
  lemma {:induction false} LogShape(c: DaemonConfig, u: Url, obs: seq<Observation>)
    ensures var log := Alerts(c, u, obs);
      && Shaped(log)
      && (Status(c, obs).isFailing <==> Open(log))
      && Onsets(log) - Resolves(log) == (if Status(c, obs).isFailing then 1 else 0)
      && Onsets(log) == Breakdowns(obs) && Resolves(log) == Recoveries(obs)
  {
    if obs != [] {
      var n := |obs| - 1;
      LogShape(c, u, obs[..n]);
      var log, all := Alerts(c, u, obs[..n]), Alerts(c, u, obs);
      hide *;
      OneMore(c, u, obs);
      Changes(c, obs);
      if all != log {
        CountsAppend(log, all[|log|]);
        ShapedAppend(log, all[|log|]);
        assert all == log + [all[|log|]];
      }
    }
  }

  // ---------------------------------------------------------------- heartbeats

  /** While a target fails, its last alert is the last trigger of the log. */
  lemma LastAlertIsLogged(c: DaemonConfig, u: Url, obs: seq<Observation>)
    requires Status(c, obs).isFailing
    ensures Open(Alerts(c, u, obs)) && Alerts(c, u, obs)[|Alerts(c, u, obs)| - 1].at == Status(c, obs).lastAlert
  {
    LogShape(c, u, obs);
    var n := |obs| - 1;
    OneMore(c, u, obs);
    hide Alerts, Raised;
    if Status(c, obs[..n]).isFailing && !HeartbeatDue(c, Status(c, obs[..n]), obs[n].now) {
      LastAlertIsLogged(c, u, obs[..n]);
    }
  }

  /** Two triggers in a row are a heartbeat interval apart - whatever the clock does - and there are
      none if heartbeats are off. */
  lemma {:induction false} HeartbeatsAreSpaced(c: DaemonConfig, u: Url, obs: seq<Observation>, i: nat)
    requires i + 1 < |Alerts(c, u, obs)|
    requires Alerts(c, u, obs)[i].kind == Trigger && Alerts(c, u, obs)[i + 1].kind == Trigger
    ensures c.heartbeat > 0
    ensures Alerts(c, u, obs)[i].at + c.heartbeat <= Alerts(c, u, obs)[i + 1].at
  {
    var n := |obs| - 1;
    var log := Alerts(c, u, obs[..n]);
    if i + 1 < |log| {
      HeartbeatsAreSpaced(c, u, obs[..n], i);
    } else {
      LogShape(c, u, obs[..n]);
      LastAlertIsLogged(c, u, obs[..n]);
    }
  }

  /** Within one episode - a run of triggers - the number of heartbeats times the interval fits into
      the time that passed. */
  lemma {:induction false} HeartbeatsAreBounded(c: DaemonConfig, u: Url, obs: seq<Observation>, a: nat, b: nat)
    requires a <= b < |Alerts(c, u, obs)|
    requires forall i :: a <= i <= b ==> Alerts(c, u, obs)[i].kind == Trigger
    ensures Alerts(c, u, obs)[a].at + (b - a) * c.heartbeat <= Alerts(c, u, obs)[b].at
    ensures c.heartbeat > 0 ==> b - a <= (Alerts(c, u, obs)[b].at - Alerts(c, u, obs)[a].at) / c.heartbeat
    ensures c.heartbeat == 0 ==> a == b
    decreases b - a
  {
    hide Alerts;
    var log := Alerts(c, u, obs);
    if a < b {
      HeartbeatsAreBounded(c, u, obs, a, b - 1);
      HeartbeatsAreSpaced(c, u, obs, b - 1);
      Distribute(b - a, c.heartbeat);
    }
    if c.heartbeat > 0 { FitsInto(b - a, c.heartbeat, log[b].at - log[a].at); }
  }

  lemma Distribute(n: nat, h: nat)
    requires n > 0
    ensures n * h == (n - 1) * h + h
  {
  }

  lemma FitsInto(n: nat, h: nat, t: nat)
    requires h > 0 && n * h <= t
    ensures n <= t / h
  {
    var q, r := t / h, t % h;
    assert t == q * h + r && r < h;
    Distribute(q + 1, h);
    if q + 1 <= n { Monotone(q + 1, n, h); }
  }

  lemma Monotone(a: nat, b: nat, h: nat)
    requires a <= b
    ensures a * h <= b * h
  {
  }

  /** Nor is a heartbeat late: after any probe of a failing target, on a clock that does not run
      backwards, less than an interval has passed since the last alert. */
  lemma HeartbeatIsPunctual(c: DaemonConfig, obs: seq<Observation>)
    requires obs != [] && Status(c, obs).isFailing && c.heartbeat > 0
    requires forall i, j :: 0 <= i <= j < |obs| ==> obs[i].now <= obs[j].now
    ensures Status(c, obs).since <= Status(c, obs).lastAlert <= obs[|obs| - 1].now < Status(c, obs).lastAlert + c.heartbeat
  {
    AlertedInThePast(c, obs);
  }

  lemma {:induction false} AlertedInThePast(c: DaemonConfig, obs: seq<Observation>)
    requires obs != [] && Status(c, obs).isFailing
    requires forall i, j :: 0 <= i <= j < |obs| ==> obs[i].now <= obs[j].now
    ensures Status(c, obs).since <= Status(c, obs).lastAlert <= obs[|obs| - 1].now
  {
    var n := |obs| - 1;
    if Status(c, obs[..n]).isFailing {
      AlertedInThePast(c, obs[..n]);
      assert obs[n - 1].now <= obs[n].now;
    }
  }

  // ---------------------------------------------------------------- from probes to alerts

  /** Findings at least as grave as the threshold, spelled out. */
  ghost predicate Grave(threshold: Severity, findings: seq<Severity>) {
    match threshold
    case Critical => Critical in findings
    case Warning => Critical in findings || Warning in findings
    case Info => findings != []
  }

  lemma FailuresAreGrave(threshold: Severity, findings: seq<Severity>)
    ensures HasFailures(threshold, findings) <==> Grave(threshold, findings)
  {
    match threshold
    case Critical => assert forall f: Severity :: Rank(f) <= 0 <==> f == Critical;
    case Warning => assert forall f: Severity :: Rank(f) <= 1 <==> f == Critical || f == Warning;
    case Info =>
      assert forall f: Severity :: Rank(f) <= 2;
      if findings != [] { assert findings[0] in findings; }
  }

  /** The target's last answered probe, and what it brought. */
  ghost predicate LastAnswer(u: Url, events: seq<Event>, i: nat) {
    && i < |events| && events[i].url == u && events[i].probe.Snapshot?
    && forall j :: i < j < |events| ==> events[j].url != u || events[j].probe.Error?
  }

  ghost predicate Ailing(c: DaemonConfig, u: Url, events: seq<Event>) {
    exists i: nat :: LastAnswer(u, events, i) && Grave(c.threshold, events[i].probe.findings)
  }

  lemma AilingNext(c: DaemonConfig, u: Url, events: seq<Event>, e: Event)
    ensures Ailing(c, u, events + [e]) <==>
      if e.url == u && e.probe.Snapshot? then Grave(c.threshold, e.probe.findings) else Ailing(c, u, events)
  {
    var n, all := |events|, events + [e];
    AnswersOn(u, events, e);
    hide Grave, LastAnswer;
    if e.url == u && e.probe.Snapshot? { assert LastAnswer(u, all, n) && all[n] == e; }
    if Ailing(c, u, all) {
      var i: nat :| LastAnswer(u, all, i) && Grave(c.threshold, all[i].probe.findings);
    }
    if Ailing(c, u, events) {
      var i: nat :| LastAnswer(u, events, i) && Grave(c.threshold, events[i].probe.findings);
      assert all[i] == events[i];
    }
  }

  /** The next probe is the last answer, or leaves it where it was. */
  lemma AnswersOn(u: Url, events: seq<Event>, e: Event)
    ensures forall i: nat :: LastAnswer(u, events, i) ==> i < |events| && events[i].probe.Snapshot?
    ensures forall i: nat :: LastAnswer(u, events + [e], i) <==>
      if e.url == u && e.probe.Snapshot? then i == |events| else LastAnswer(u, events, i)
  {
    var n, all := |events|, events + [e];
    forall i: nat
      ensures LastAnswer(u, all, i) <==> if e.url == u && e.probe.Snapshot? then i == n else LastAnswer(u, events, i)
    {
      if LastAnswer(u, all, i) {
        assert i < n ==> all[n] == e;
        assert forall j :: i < j < n ==> events[j] == all[j];
      }
      if LastAnswer(u, events, i) {
        assert forall j :: i < j < n + 1 ==> all[j] == if j < n then events[j] else e;
      }
    }
  }

  /** The world of the daemon after these probes, from its start. */
  function From(c: DaemonConfig, events: seq<Event>): World { Played(c, World(map[], []), events) }

  lemma FromNext(c: DaemonConfig, events: seq<Event>, e: Event)
    ensures From(c, events + [e]) == Stepped(c, From(c, events), e)
  {
    assert (events + [e])[..|events|] == events;
  }

  /** A target is failing if and only if its last answered probe brought a finding at least as grave as the
      threshold. */
  lemma {:induction false} FailingIffGrave(c: DaemonConfig, u: Url, events: seq<Event>)
    ensures u in From(c, events).state && From(c, events).state[u].isFailing <==> Ailing(c, u, events)
    ensures u in From(c, events).state <==> exists i: nat :: LastAnswer(u, events, i)
  {
    if events != [] {
      var n := |events| - 1;
      var e := events[n];
      assert events == events[..n] + [e];
      FailingIffGrave(c, u, events[..n]);
      FromNext(c, events[..n], e);
      AilingNext(c, u, events[..n], e);
      AnswersOn(u, events[..n], e);
      if e.url == u && e.probe.Snapshot? { assert LastAnswer(u, events, n); }
      if e.probe.Snapshot? { FailuresAreGrave(c.threshold, e.probe.findings); }
      hide From, Ailing, Grave, HasFailures, LastAnswer, HeartbeatDue;
    }
  }

  /** The time of a target's last alert, onset or heartbeat; while it fails there is one. */
  ghost predicate LastAlertAt(u: Url, log: seq<Alert>, at: nat) {
    LogOf(u, log) != [] && LogOf(u, log)[|LogOf(u, log)| - 1].at == at
  }

  /** What the next probe adds to the log of a daemon with a webhook: nothing if it was not answered; a
      trigger with its time and number of findings if the target falls ill, or stays ill and the last
      alert is a heartbeat interval old; a resolve with its time if the target recovers. */
  lemma NextAlert(c: DaemonConfig, events: seq<Event>, e: Event)
    requires c.webhook
    ensures
      var log, next := From(c, events).log, From(c, events + [e]).log;
      var ill := Ailing(c, e.url, events);
      if e.probe.Error? then next == log
      else if Grave(c.threshold, e.probe.findings) then
        if !ill then next == log + [Alert(Trigger, e.url, e.now, |e.probe.findings|)]
        else
          exists at: nat :: LastAlertAt(e.url, log, at) &&
            next == log + (if c.heartbeat > 0 && at + c.heartbeat <= e.now then [Alert(Trigger, e.url, e.now, |e.probe.findings|)] else [])
      else next == log + (if ill then [Alert(Resolve, e.url, e.now, 0)] else [])
  {
    hide *;
    FromNext(c, events, e);
    StatusSays(c, e.url, events);
    StepLogs(c, From(c, events), e);
  }

  lemma StatusSays(c: DaemonConfig, u: Url, events: seq<Event>)
    requires c.webhook
    ensures
      var s := StatusIn(From(c, events), u);
      (s.isFailing <==> Ailing(c, u, events)) && (s.isFailing ==> LastAlertAt(u, From(c, events).log, s.lastAlert))
  {
    FailingIffGrave(c, u, events);
    TargetsAreIndependent(c, u, events);
    var own := History(c, u, events);
    if Status(c, own).isFailing { LastAlertIsLogged(c, u, own); }
    hide Ailing, History, Status, Alerts, LogOf, Played;
  }

  /** One step's share of the log, with the last alert of the target as its status has it. */
  lemma StepLogs(c: DaemonConfig, w: World, e: Event)
    requires c.webhook
    ensures
      var log, next, s := w.log, Stepped(c, w, e).log, StatusIn(w, e.url);
      if e.probe.Error? then next == log
      else if Grave(c.threshold, e.probe.findings) then
        if !s.isFailing then next == log + [Alert(Trigger, e.url, e.now, |e.probe.findings|)]
        else
          next == log + (if c.heartbeat > 0 && s.lastAlert + c.heartbeat <= e.now
                         then [Alert(Trigger, e.url, e.now, |e.probe.findings|)] else [])
      else next == log + (if s.isFailing then [Alert(Resolve, e.url, e.now, 0)] else [])
  {
    if e.probe.Snapshot? { FailuresAreGrave(c.threshold, e.probe.findings); }
    hide Grave, HasFailures, NextStatus;
  }

  /** A target whose probes never brought anything grave has the status it started with, and no alerts. */
  lemma {:induction false} NeverIll(c: DaemonConfig, u: Url, events: seq<Event>)
    requires forall e :: e in events && e.url == u && e.probe.Snapshot? ==> !Grave(c.threshold, e.probe.findings)
    ensures u in From(c, events).state ==> From(c, events).state[u] == TargetStatus(false, 0, 0)
    ensures forall a :: a in From(c, events).log ==> a.url != u
  {
    if events != [] {
      var n := |events| - 1;
      var e := events[n];
      assert events == events[..n] + [e];
      NeverIll(c, u, events[..n]);
      FromNext(c, events[..n], e);
      if e.probe.Snapshot? { FailuresAreGrave(c.threshold, e.probe.findings); }
      hide From, Grave, HasFailures;
    }
  }

  /** Without a webhook nothing is ever sent. */
  lemma SilentWithoutWebhook(c: DaemonConfig, events: seq<Event>)
    requires !c.webhook
    ensures From(c, events).log == []
  {
    TargetsAreIndependent(c, "", events);
  }
}
