// llm/resilience.go: the consecutive-failure circuit breaker, its behaviour over every
// interleaving of calls, and the bounded retry loop around one call.
module Breaker {
  import opened Edits

  datatype BreakerConfig = BreakerConfig(enabled: bool, failureThreshold: int, cooldown: int)

  datatype State = Closed | Open | HalfOpen

  // The breaker's fields at one moment.
  datatype Snapshot = Snapshot(state: State, failures: int, openedAt: int, probing: bool)

  const INITIAL := Snapshot(Closed, 0, 0, false)

  // --- The transitions --------------------------------------------------------------------------

  predicate Grants(cfg: BreakerConfig, s: Snapshot, now: int) {
    !cfg.enabled || s.state.Closed?
    || (s.state.Open? && now - s.openedAt >= cfg.cooldown && !s.probing)
  }

  function AfterAllow(cfg: BreakerConfig, s: Snapshot, now: int): Snapshot {
    if cfg.enabled && s.state.Open? && Grants(cfg, s, now) then s.(state := HalfOpen, probing := true) else s
  }

  function AfterSuccess(cfg: BreakerConfig, s: Snapshot): Snapshot {
    if !cfg.enabled then s else s.(state := Closed, failures := 0, probing := false)
  }

  function AfterFailure(cfg: BreakerConfig, s: Snapshot, now: int): Snapshot {
    if !cfg.enabled then s
    else if s.state.HalfOpen? then s.(state := Open, openedAt := now, probing := false)
    else
      var counted := s.(failures := s.failures + 1);
      if counted.failures >= cfg.failureThreshold then counted.(state := Open, openedAt := now, probing := false)
      else counted
  }

  class CircuitBreaker {
    const cfg: BreakerConfig
    var state: State
    var failures: int
    var openedAt: int
    var probing: bool
    // Everything asked of and reported to this breaker.
    ghost var log: seq<Event>

    ghost function Snap(): Snapshot
      reads this
    {
      Snapshot(state, failures, openedAt, probing)
    }

    ghost predicate Valid()
      reads this
    {
      Snap() == RunEvents(cfg, log)
    }

    constructor (config: BreakerConfig)
      ensures cfg == config && Valid() && log == []
    {
      cfg := config;
      state, failures, openedAt, probing := Closed, 0, 0, false;
      log := [];
    }

    method Allow(now: int) returns (granted: bool)
      requires Valid()
      modifies this
      ensures Valid() && log == old(log) + [Asked(now)]
      ensures granted == Grants(cfg, old(Snap()), now)
      ensures Snap() == AfterAllow(cfg, old(Snap()), now)
    {
      EventsSnoc(cfg, log, Asked(now));
      log := log + [Asked(now)];
      if !cfg.enabled {
        return true;
      }
      match state {
        case Closed => return true;
        case Open =>
          if now - openedAt < cfg.cooldown {
            return false;
          }
          if probing {
            return false;
          }
          state := HalfOpen;
          probing := true;
          return true;
        case HalfOpen => return false;
      }
    }

    method RecordSuccess()
      requires Valid()
      modifies this
      ensures Valid() && log == old(log) + [Reported(true, 0)]
      ensures Snap() == AfterSuccess(cfg, old(Snap()))
    {
      EventsSnoc(cfg, log, Reported(true, 0));
      log := log + [Reported(true, 0)];
      if !cfg.enabled {
        return;
      }
      state := Closed;
      failures := 0;
      probing := false;
    }

    method RecordFailure(now: int)
      requires Valid()
      modifies this
      ensures Valid() && log == old(log) + [Reported(false, now)]
      ensures Snap() == AfterFailure(cfg, old(Snap()), now)
    {
      EventsSnoc(cfg, log, Reported(false, now));
      log := log + [Reported(false, now)];
      if !cfg.enabled {
        return;
      }
      if state == HalfOpen {
        state := Open;
        openedAt := now;
        probing := false;
        return;
      }
      failures := failures + 1;
      if failures >= cfg.failureThreshold {
        state := Open;
        openedAt := now;
        probing := false;
      }
    }
  }

  // --- All event sequences ---------------------------------------------------------------------------

  // A call to Allow, or a recorded outcome. The mutex makes every interleaving of concurrent
  // calls such a sequence.
  datatype Event = Asked(at: int) | Reported(success: bool, at: int)

  function AfterEvent(cfg: BreakerConfig, s: Snapshot, e: Event): Snapshot {
    match e
    case Asked(now) => AfterAllow(cfg, s, now)
    case Reported(success, now) => if success then AfterSuccess(cfg, s) else AfterFailure(cfg, s, now)
  }

  ghost function RunEvents(cfg: BreakerConfig, events: seq<Event>): Snapshot {
    if events == [] then INITIAL
    else
      var last := |events| - 1;
      AfterEvent(cfg, RunEvents(cfg, events[..last]), events[last])
  }

  lemma EventsSnoc(cfg: BreakerConfig, events: seq<Event>, e: Event)
    ensures RunEvents(cfg, events + [e]) == AfterEvent(cfg, RunEvents(cfg, events), e)
  {
    assert (events + [e])[..|events|] == events;
  }

  ghost function FailuresSinceSuccess(events: seq<Event>): nat {
    if events == [] then 0
    else
      var last := |events| - 1;
      match events[last]
      case Asked(_) => FailuresSinceSuccess(events[..last])
      case Reported(success, _) => if success then 0 else FailuresSinceSuccess(events[..last]) + 1
  }

  // Main result, over every event sequence: a probe is in progress exactly in the half-open
  // state; while closed, the counter is the number of failures since the last success and
  // stays below the threshold; while not closed, at least the threshold has been reached.
  lemma {:induction false} BreakerInvariant(cfg: BreakerConfig, events: seq<Event>)
    requires cfg.enabled
    ensures var s, n := RunEvents(cfg, events), FailuresSinceSuccess(events);
            && (s.probing <==> s.state.HalfOpen?)
            && (s.state.Closed? ==> s.failures == n && (n == 0 || n < cfg.failureThreshold))
            && (!s.state.Closed? ==> n >= 1 && n >= cfg.failureThreshold && s.failures >= cfg.failureThreshold)
    decreases |events|
  {
    if events != [] {
      BreakerInvariant(cfg, events[..|events| - 1]);
    }
  }

  // A disabled breaker grants every call, whatever was reported.
  lemma {:induction false} DisabledGrants(cfg: BreakerConfig, events: seq<Event>, now: int)
    requires !cfg.enabled
    ensures Grants(cfg, RunEvents(cfg, events), now) && RunEvents(cfg, events) == INITIAL
    decreases |events|
  {
    if events != [] {
      DisabledGrants(cfg, events[..|events| - 1], now);
    }
  }

  predicate OnlyAsks(events: seq<Event>) {
    forall e :: e in events ==> e.Asked?
  }

  // Before any report, and after a success, every call is granted.
  lemma {:induction false} GrantsWhileWell(cfg: BreakerConfig, before: seq<Event>, asks: seq<Event>, now: int)
    requires OnlyAsks(asks) && (before == [] || (before[|before| - 1].Reported? && before[|before| - 1].success))
    ensures RunEvents(cfg, before + asks).state.Closed? && Grants(cfg, RunEvents(cfg, before + asks), now)
    decreases |asks|
  {
    if asks == [] {
      assert before + asks == before;
      if !cfg.enabled {
        DisabledGrants(cfg, before, now);
      }
    } else {
      var front, last := asks[..|asks| - 1], asks[|asks| - 1];
      assert last in asks && before + asks == before + front + [last];
      GrantsWhileWell(cfg, before, front, now);
      EventsSnoc(cfg, before + front, last);
    }
  }

  // The state since the last report, a failure at time t.
  lemma {:induction false} SinceFailure(cfg: BreakerConfig, before: seq<Event>, t: int, asks: seq<Event>)
    requires cfg.enabled && OnlyAsks(asks)
    ensures var s, n := RunEvents(cfg, before + [Reported(false, t)] + asks), FailuresSinceSuccess(before) + 1;
            && (s.state.Closed? <==> n < cfg.failureThreshold)
            && (!s.state.Closed? ==>
                  s.openedAt == t && (s.state.HalfOpen? <==> exists a :: a in asks && a.at - t >= cfg.cooldown))
    decreases |asks|
  {
    var failed := before + [Reported(false, t)];
    if asks == [] {
      assert failed + asks == failed;
      EventsSnoc(cfg, before, Reported(false, t));
      BreakerInvariant(cfg, before);
    } else {
      var front, last := asks[..|asks| - 1], asks[|asks| - 1];
      assert last in asks && asks == front + [last] && failed + asks == failed + front + [last];
      SinceFailure(cfg, before, t, front);
      BreakerInvariant(cfg, failed + front);
      EventsSnoc(cfg, failed + front, last);
      assert forall a :: a in asks <==> a in front || a == last;
    }
  }

  // Main result on admission: with a failure as the last report, a call is granted if and only
  // if the failures since the last success are fewer than the threshold, or the cooldown since
  // that failure is over and no call has been let through for it since.
  lemma GrantsExact(cfg: BreakerConfig, before: seq<Event>, t: int, asks: seq<Event>, now: int)
    requires cfg.enabled && OnlyAsks(asks)
    ensures Grants(cfg, RunEvents(cfg, before + [Reported(false, t)] + asks), now)
       <==> FailuresSinceSuccess(before) + 1 < cfg.failureThreshold
            || (now - t >= cfg.cooldown && forall a :: a in asks ==> a.at - t < cfg.cooldown)
  {
    SinceFailure(cfg, before, t, asks);
    BreakerInvariant(cfg, before + [Reported(false, t)] + asks);
  }

  predicate NoSuccess(events: seq<Event>) {
    forall e :: e in events ==> e.Asked? || !e.success
  }

  // Failure reports carry the clock.
  predicate NotBefore(events: seq<Event>, t: int) {
    forall e :: e in events && e.Reported? && !e.success ==> e.at >= t
  }

  lemma {:induction false} AfterProbe(cfg: BreakerConfig, before: seq<Event>, probeAt: int, mid: seq<Event>)
    requires cfg.enabled && RunEvents(cfg, before).state.Open? && Grants(cfg, RunEvents(cfg, before), probeAt)
    requires NoSuccess(mid) && NotBefore(mid, probeAt)
    ensures var s := RunEvents(cfg, before + [Asked(probeAt)] + mid);
            s.state.HalfOpen? || (s.state.Open? && s.openedAt >= probeAt)
    decreases |mid|
  {
    var all := before + [Asked(probeAt)] + mid;
    if mid == [] {
      assert all == before + [Asked(probeAt)];
      assert all[..|all| - 1] == before;
    } else {
      var mid' := mid[..|mid| - 1];
      assert all[..|all| - 1] == before + [Asked(probeAt)] + mid';
      assert all[|all| - 1] == mid[|mid| - 1] && mid[|mid| - 1] in mid;
      AfterProbe(cfg, before, probeAt, mid');
    }
  }

  // Two admissions granted while not closed, with no success between them, are at least the
  // cooldown apart: probes never pile up on a dead backend.
  lemma ProbesSpaced(cfg: BreakerConfig, before: seq<Event>, t1: int, mid: seq<Event>, t2: int)
    requires cfg.enabled && NoSuccess(mid) && NotBefore(mid, t1)
    requires !RunEvents(cfg, before).state.Closed? && Grants(cfg, RunEvents(cfg, before), t1)
    requires var s := RunEvents(cfg, before + [Asked(t1)] + mid); !s.state.Closed? && Grants(cfg, s, t2)
    ensures t2 - t1 >= cfg.cooldown
  {
    AfterProbe(cfg, before, t1, mid);
  }

  // --- Calls in flight ---------------------------------------------------------------------------------

  datatype Outcome = Succeeded | FailedCall | BuildFailed

  // A call asks for admission; an admitted call ends once. Calls overlap freely.
  datatype Step = Start(id: nat, at: int) | Finish(id: nat, outcome: Outcome, at: int)

  // `probe` is the call most recently admitted from the open state.
  datatype System = System(snap: Snapshot, inFlight: set<nat>, probe: Option<nat>, lost: set<nat>)

  ghost function Stepped(cfg: BreakerConfig, sys: System, step: Step): System {
    match step
    case Start(id, now) =>
      if id in sys.inFlight || id in sys.lost then sys   // ids are never reused
      else
        var granted := Grants(cfg, sys.snap, now);
        System(AfterAllow(cfg, sys.snap, now),
               if granted then sys.inFlight + {id} else sys.inFlight,
               if granted && sys.snap.state.Open? then Some(id) else sys.probe,
               sys.lost)
    case Finish(id, outcome, now) =>
      if id !in sys.inFlight then sys
      else
        var rest := sys.(inFlight := sys.inFlight - {id});
        match outcome
        case Succeeded => rest.(snap := AfterSuccess(cfg, sys.snap))
        case FailedCall => rest.(snap := AfterFailure(cfg, sys.snap, now))
        case BuildFailed => rest.(lost := sys.lost + {id})   // no outcome is recorded
  }

  ghost function RunSteps(cfg: BreakerConfig, steps: seq<Step>): System {
    if steps == [] then System(INITIAL, {}, None, {})
    else Stepped(cfg, RunSteps(cfg, steps[..|steps| - 1]), steps[|steps| - 1])
  }

  // A half-open breaker's probe is still in flight, or its request could not be built.
  lemma {:induction false} ProbeAccounted(cfg: BreakerConfig, steps: seq<Step>)
    requires cfg.enabled
    ensures var sys := RunSteps(cfg, steps);
            && (sys.snap.probing <==> sys.snap.state.HalfOpen?)
            && (sys.snap.state.HalfOpen? ==>
                  sys.probe.Some? && (sys.probe.value in sys.inFlight || sys.probe.value in sys.lost))
    decreases |steps|
  {
    if steps != [] {
      ProbeAccounted(cfg, steps[..|steps| - 1]);
    }
  }

  // Calls with no admission possible: half-open, and nobody left to report an outcome.
  ghost predicate Stuck(sys: System) {
    sys.snap.state.HalfOpen? && sys.inFlight == {}
  }

  // A stuck breaker stays stuck.
  lemma {:induction false} StuckForever(cfg: BreakerConfig, steps: seq<Step>, later: seq<Step>)
    requires cfg.enabled && Stuck(RunSteps(cfg, steps))
    ensures Stuck(RunSteps(cfg, steps + later))
    ensures forall now :: !Grants(cfg, RunSteps(cfg, steps + later).snap, now)
    decreases |later|
  {
    var all := steps + later;
    if later == [] {
      assert all == steps;
    } else {
      assert all[..|all| - 1] == steps + later[..|later| - 1];
      StuckForever(cfg, steps, later[..|later| - 1]);
    }
  }

  // Being stuck is exactly never granting again, whatever happens later.
  lemma StuckIffNeverGrants(cfg: BreakerConfig, steps: seq<Step>)
    requires cfg.enabled
    ensures Stuck(RunSteps(cfg, steps))
       <==> forall later, now :: !Grants(cfg, RunSteps(cfg, steps + later).snap, now)
  {
    var sys := RunSteps(cfg, steps);
    ProbeAccounted(cfg, steps);
    assert steps + [] == steps;
    if Stuck(sys) {
      forall later, now
        ensures !Grants(cfg, RunSteps(cfg, steps + later).snap, now)
      {
        StuckForever(cfg, steps, later);
      }
    } else if sys.snap.state.HalfOpen? {
      var id :| id in sys.inFlight;
      RunSnoc(cfg, steps, Finish(id, Succeeded, 0));
      assert Grants(cfg, RunSteps(cfg, steps + [Finish(id, Succeeded, 0)]).snap, 0);
    } else {
      assert Grants(cfg, RunSteps(cfg, steps + []).snap, sys.snap.openedAt + cfg.cooldown);
    }
  }

  lemma RunSnoc(cfg: BreakerConfig, steps: seq<Step>, step: Step)
    ensures RunSteps(cfg, steps + [step]) == Stepped(cfg, RunSteps(cfg, steps), step)
  {
    assert (steps + [step])[..|steps|] == steps;
  }

  // The step that sticks a breaker: half-open, and the only call in flight cannot be built.
  ghost predicate Sticks(sys: System, step: Step) {
    step.Finish? && step.outcome.BuildFailed? && sys.snap.state.HalfOpen? && sys.inFlight == {step.id}
  }

  lemma StuckStepIff(cfg: BreakerConfig, steps: seq<Step>, step: Step)
    requires cfg.enabled && !Stuck(RunSteps(cfg, steps))
    ensures Stuck(RunSteps(cfg, steps + [step])) <==> Sticks(RunSteps(cfg, steps), step)
  {
    var sys := RunSteps(cfg, steps);
    ProbeAccounted(cfg, steps);
    RunSnoc(cfg, steps, step);
    if step.Finish? && sys.inFlight - {step.id} == {} && step.id in sys.inFlight {
      assert sys.inFlight == {step.id};
    }
  }

  // Main result on getting stuck: over every interleaving, the breaker ends up refusing all
  // later calls if and only if at some point it was half-open with a single call in flight
  // and that call's request could not be built.
  lemma {:induction false} StuckIff(cfg: BreakerConfig, steps: seq<Step>)
    requires cfg.enabled
    ensures Stuck(RunSteps(cfg, steps))
       <==> exists k :: 0 <= k < |steps| && Sticks(RunSteps(cfg, steps[..k]), steps[k])
    decreases |steps|
  {
    if steps == [] {
      assert !Stuck(RunSteps(cfg, []));
    } else {
      hide RunSteps, Stuck, Sticks;
      var front, last := steps[..|steps| - 1], steps[|steps| - 1];
      StuckIff(cfg, front);
      SticksSnoc(cfg, front, last);
      assert front + [last] == steps;
      if Stuck(RunSteps(cfg, front)) {
        StuckForever(cfg, front, [last]);
      } else {
        StuckStepIff(cfg, front, last);
      }
    }
  }

  lemma SticksSnoc(cfg: BreakerConfig, front: seq<Step>, last: Step)
    ensures (exists k :: 0 <= k < |front + [last]| && Sticks(RunSteps(cfg, (front + [last])[..k]), (front + [last])[k]))
       <==> (exists k :: 0 <= k < |front| && Sticks(RunSteps(cfg, front[..k]), front[k]))
            || Sticks(RunSteps(cfg, front), last)
  {
    hide RunSteps, Sticks;
    var steps := front + [last];
    assert steps[..|front|] == front;
    forall k | 0 <= k < |front|
      ensures steps[..k] == front[..k] && steps[k] == front[k]
    {
    }
    if k :| 0 <= k < |front| && Sticks(RunSteps(cfg, front[..k]), front[k]) {
      assert Sticks(RunSteps(cfg, steps[..k]), steps[k]);
    } else if Sticks(RunSteps(cfg, front), last) {
      assert Sticks(RunSteps(cfg, steps[..|front|]), steps[|front|]);
    }
  }

  // A run that gets there: the probe alone in flight, its request not built.
  lemma BuildErrorSticks(cooldown: int)
    requires cooldown >= 0
    ensures var cfg := BreakerConfig(true, 1, cooldown);
            var steps := [Start(0, 0), Finish(0, FailedCall, 0), Start(1, cooldown), Finish(1, BuildFailed, cooldown)];
            Stuck(RunSteps(cfg, steps))
  {
    var cfg := BreakerConfig(true, 1, cooldown);
    var s1 := [Start(0, 0)];
    var s2 := s1 + [Finish(0, FailedCall, 0)];
    var s3 := s2 + [Start(1, cooldown)];
    var s4 := s3 + [Finish(1, BuildFailed, cooldown)];
    assert s1[..0] == [] && s2[..1] == s1 && s3[..2] == s2 && s4[..3] == s3;
    assert RunSteps(cfg, s1) == System(INITIAL, {0}, None, {});
    assert RunSteps(cfg, s2) == System(Snapshot(Open, 1, 0, false), {}, None, {});
    assert RunSteps(cfg, s3) == System(Snapshot(HalfOpen, 1, 0, true), {1}, Some(1), {});
    assert s4 == [Start(0, 0), Finish(0, FailedCall, 0), Start(1, cooldown), Finish(1, BuildFailed, cooldown)];
  }

  // --- One probe at a time --------------------------------------------------------------------------------

  // The step admits a call from the open state.
  ghost predicate Probes(cfg: BreakerConfig, sys: System, step: Step) {
    && step.Start? && step.id !in sys.inFlight && step.id !in sys.lost
    && sys.snap.state.Open? && Grants(cfg, sys.snap, step.at)
  }

  // The step records an outcome.
  ghost predicate Reports(sys: System, step: Step) {
    step.Finish? && step.id in sys.inFlight && !step.outcome.BuildFailed?
  }

  ghost predicate SomeReport(cfg: BreakerConfig, base: seq<Step>, mid: seq<Step>) {
    exists k :: 0 <= k < |mid| && Reports(RunSteps(cfg, base + mid[..k]), mid[k])
  }

  ghost predicate SomeProbe(cfg: BreakerConfig, base: seq<Step>, mid: seq<Step>) {
    exists k :: 0 <= k < |mid| && Probes(cfg, RunSteps(cfg, base + mid[..k]), mid[k])
  }

  predicate NeverFinishes(p: nat, mid: seq<Step>) {
    forall step :: step in mid && step.Finish? ==> step.id != p
  }

  lemma SomeSnoc(cfg: BreakerConfig, base: seq<Step>, mid: seq<Step>, step: Step)
    ensures SomeReport(cfg, base, mid + [step])
       <==> SomeReport(cfg, base, mid) || Reports(RunSteps(cfg, base + mid), step)
    ensures SomeProbe(cfg, base, mid + [step])
       <==> SomeProbe(cfg, base, mid) || Probes(cfg, RunSteps(cfg, base + mid), step)
  {
    var all := mid + [step];
    assert all[..|mid|] == mid && all[|mid|] == step;
    assert forall k :: 0 <= k < |mid| ==> all[..k] == mid[..k] && all[k] == mid[k];
  }

  lemma StepKeepsProbe(cfg: BreakerConfig, sys: System, step: Step, p: nat, reported: bool)
    requires cfg.enabled && p in sys.inFlight && (sys.snap.probing <==> sys.snap.state.HalfOpen?)
    requires sys.snap.state.HalfOpen? <==> !reported
    requires !Probes(cfg, sys, step) && (step.Finish? ==> step.id != p)
    ensures var next := Stepped(cfg, sys, step);
            p in next.inFlight && (next.snap.state.HalfOpen? <==> !(reported || Reports(sys, step)))
  {
  }

  lemma {:induction false} HalfOpenUntilReport(
      cfg: BreakerConfig, before: seq<Step>, p: nat, at: int, mid: seq<Step>)
    requires cfg.enabled && Probes(cfg, RunSteps(cfg, before), Start(p, at)) && NeverFinishes(p, mid)
    requires !SomeProbe(cfg, before + [Start(p, at)], mid)
    ensures var base := before + [Start(p, at)];
            && p in RunSteps(cfg, base + mid).inFlight
            && (RunSteps(cfg, base + mid).snap.state.HalfOpen? <==> !SomeReport(cfg, base, mid))
    decreases |mid|
  {
    hide RunSteps, Stepped;
    var base := before + [Start(p, at)];
    if mid == [] {
      assert base + mid == base;
      ProbeStarts(cfg, before, p, at);
    } else {
      var front, last := mid[..|mid| - 1], mid[|mid| - 1];
      assert mid == front + [last] && last in mid;
      SomeSnoc(cfg, base, front, last);
      hide SomeReport, SomeProbe, Probes, Reports;
      HalfOpenUntilReport(cfg, before, p, at, front);
      ProbeAccounted(cfg, base + front);
      assert base + mid == (base + front) + [last];
      RunSnoc(cfg, base + front, last);
      StepKeepsProbe(cfg, RunSteps(cfg, base + front), last, p, SomeReport(cfg, base, front));
    }
  }

  lemma ProbeStarts(cfg: BreakerConfig, before: seq<Step>, p: nat, at: int)
    requires cfg.enabled && Probes(cfg, RunSteps(cfg, before), Start(p, at))
    ensures var sys := RunSteps(cfg, before + [Start(p, at)]);
            p in sys.inFlight && sys.snap.state.HalfOpen?
  {
    RunSnoc(cfg, before, Start(p, at));
  }

  // Main result on probes: while probe p is in flight and no second one was admitted, a call
  // can be admitted, at some time, if and only if another call's outcome was recorded since.
  lemma SecondAdmissionIff(cfg: BreakerConfig, before: seq<Step>, p: nat, at: int, mid: seq<Step>)
    requires cfg.enabled && Probes(cfg, RunSteps(cfg, before), Start(p, at)) && NeverFinishes(p, mid)
    requires !SomeProbe(cfg, before + [Start(p, at)], mid)
    ensures var base := before + [Start(p, at)];
            (exists now :: Grants(cfg, RunSteps(cfg, base + mid).snap, now)) <==> SomeReport(cfg, base, mid)
  {
    hide RunSteps, Probes, SomeReport, SomeProbe;
    var base := before + [Start(p, at)];
    HalfOpenUntilReport(cfg, before, p, at, mid);
    ProbeAccounted(cfg, base + mid);
    var snap := RunSteps(cfg, base + mid).snap;
    assert !snap.state.HalfOpen? ==> Grants(cfg, snap, snap.openedAt + cfg.cooldown);
  }

  // So a second probe while the first is in flight means that another call reported first.
  lemma {:induction false} SecondProbeNeedsReport(
      cfg: BreakerConfig, before: seq<Step>, p: nat, at: int, mid: seq<Step>)
    requires cfg.enabled && Probes(cfg, RunSteps(cfg, before), Start(p, at)) && NeverFinishes(p, mid)
    requires SomeProbe(cfg, before + [Start(p, at)], mid)
    ensures SomeReport(cfg, before + [Start(p, at)], mid)
    decreases |mid|
  {
    var base := before + [Start(p, at)];
    var front, last := mid[..|mid| - 1], mid[|mid| - 1];
    assert mid == front + [last] && forall step :: step in front ==> step in mid;
    SomeSnoc(cfg, base, front, last);
    if SomeProbe(cfg, base, front) {
      SecondProbeNeedsReport(cfg, before, p, at, front);
    } else {
      HalfOpenUntilReport(cfg, before, p, at, front);
    }
  }

  // Two probes in flight: call 9, admitted while closed, fails after probe 1 was admitted.
  lemma TwoProbesInFlight(cooldown: int)
    requires cooldown >= 0
    ensures var cfg := BreakerConfig(true, 1, cooldown);
            var before := [Start(9, 0), Start(0, 0), Finish(0, FailedCall, 0)];
            var mid := [Finish(9, FailedCall, cooldown)];
            && Probes(cfg, RunSteps(cfg, before), Start(1, cooldown))
            && Probes(cfg, RunSteps(cfg, before + [Start(1, cooldown)] + mid), Start(2, cooldown + cooldown))
            && 1 in RunSteps(cfg, before + [Start(1, cooldown)] + mid).inFlight
  {
    var cfg := BreakerConfig(true, 1, cooldown);
    RunSnoc(cfg, [], Start(9, 0));
    RunSnoc(cfg, [Start(9, 0)], Start(0, 0));
    var closed := [Start(9, 0), Start(0, 0)];
    assert [Start(9, 0)] + [Start(0, 0)] == closed && [] + [Start(9, 0)] == [Start(9, 0)];
    assert RunSteps(cfg, closed) == System(INITIAL, {9, 0}, None, {});
    var before := [Start(9, 0), Start(0, 0), Finish(0, FailedCall, 0)];
    RunSnoc(cfg, closed, Finish(0, FailedCall, 0));
    assert closed + [Finish(0, FailedCall, 0)] == before;
    assert RunSteps(cfg, before) == System(Snapshot(Open, 1, 0, false), {9}, None, {});
    RunSnoc(cfg, before, Start(1, cooldown));
    RunSnoc(cfg, before + [Start(1, cooldown)], Finish(9, FailedCall, cooldown));
  }

  // The steps, as the breaker sees them.
  ghost function EventsOf(cfg: BreakerConfig, steps: seq<Step>): seq<Event> {
    if steps == [] then []
    else
      var last := |steps| - 1;
      var sys := RunSteps(cfg, steps[..last]);
      EventsOf(cfg, steps[..last]) +
      match steps[last]
      case Start(id, now) => if id in sys.inFlight || id in sys.lost then [] else [Asked(now)]
      case Finish(id, outcome, now) =>
        if id !in sys.inFlight || outcome.BuildFailed? then [] else [Reported(outcome.Succeeded?, now)]
  }

  // So the event-sequence results hold of every interleaving of calls.
  lemma {:induction false} StepsAreEvents(cfg: BreakerConfig, steps: seq<Step>)
    ensures RunSteps(cfg, steps).snap == RunEvents(cfg, EventsOf(cfg, steps))
    decreases |steps|
  {
    hide RunEvents;
    if steps == [] {
      NoEvents(cfg);
    } else {
      var front, last := steps[..|steps| - 1], steps[|steps| - 1];
      StepsAreEvents(cfg, front);
      EventsSnoc(cfg, EventsOf(cfg, front), Asked(last.at));
      EventsSnoc(cfg, EventsOf(cfg, front), Reported(last.Finish? && last.outcome.Succeeded?, last.at));
      assert EventsOf(cfg, front) + [] == EventsOf(cfg, front);
    }
  }

  lemma NoEvents(cfg: BreakerConfig)
    ensures RunEvents(cfg, []) == INITIAL
  {
  }

  // --- The retry loop --------------------------------------------------------------------------------------

  datatype RetryConfig = RetryConfig(enabled: bool, maxRetries: int)

  // What one attempt meets: a request that cannot be built, a network error, or a status.
  datatype Attempt = NoRequest | NoResponse | Status(code: int)

  datatype Result = Refused | Cancelled | NotBuilt | RequestError | StatusError(code: int) | Response

  predicate Transient(code: int) {
    code == 429 || 500 <= code < 600
  }

  function Attempts(retry: RetryConfig): nat {
    if retry.enabled && retry.maxRetries > 0 then 1 + retry.maxRetries else 1
  }

  // Worth another attempt.
  predicate Retryable(a: Attempt) {
    a.NoResponse? || (a.Status? && a.code != 200 && Transient(a.code))
  }

  // What a call that stopped on this attempt returns.
  function Ending(a: Attempt): Result {
    match a
    case NoRequest => NotBuilt
    case NoResponse => RequestError
    case Status(code) => if code == 200 then Response else StatusError(code)
  }

  // executeWithResilience. `attempt(k)` is what attempt k meets, `cancelled(k)` whether the
  // context ends during the backoff before it, `clock(k)` the time of attempt k's outcome.
  method ExecuteWithResilience(
      breaker: CircuitBreaker, retry: RetryConfig, now: int,
      attempt: nat -> Attempt, cancelled: nat -> bool, clock: nat -> int)
      returns (r: Result, tries: nat)
    requires breaker.Valid()
    modifies breaker
    ensures breaker.Valid()
    ensures r.Refused? <==> !Grants(breaker.cfg, old(breaker.Snap()), now)
    ensures r.Refused? ==> tries == 0 && breaker.log == old(breaker.log) + [Asked(now)]
    // Bounded; every attempt but the last met a network error, status 429 or a status 5xx.
    ensures !r.Refused? ==> 1 <= tries <= 1 + (if retry.enabled && retry.maxRetries > 0 then retry.maxRetries else 0)
    ensures forall k :: 0 <= k < tries - 1 ==>
              attempt(k).NoResponse?
              || (attempt(k).Status? && (attempt(k).code == 429 || 500 <= attempt(k).code <= 599))
    ensures r.Cancelled? ==> tries < Attempts(retry) && cancelled(tries) && Retryable(attempt(tries - 1))
    // The result is that of the last attempt, which is not made again only if that is no use
    // or no attempt is left.
    ensures !r.Refused? && !r.Cancelled? ==>
              && (attempt(tries - 1).NoRequest? <==> r.NotBuilt?)
              && (attempt(tries - 1).NoResponse? <==> r.RequestError?)
              && (attempt(tries - 1) == Status(200) <==> r.Response?)
              && (r.StatusError? ==> attempt(tries - 1) == Status(r.code))
              && (tries < 1 + (if retry.enabled && retry.maxRetries > 0 then retry.maxRetries else 0) ==>
                    attempt(tries - 1).NoRequest?
                    || (attempt(tries - 1).Status? && attempt(tries - 1).code != 429
                        && !(500 <= attempt(tries - 1).code <= 599)))
    ensures forall k :: 1 <= k < tries ==> !cancelled(k)
    // Exactly one outcome, except for a request that could not be built.
    ensures r.NotBuilt? ==> breaker.log == old(breaker.log) + [Asked(now)]
    ensures r.Response? ==> breaker.log == old(breaker.log) + [Asked(now), Reported(true, 0)]
    ensures !r.Refused? && !r.NotBuilt? && !r.Response? ==>
              exists t :: breaker.log == old(breaker.log) + [Asked(now), Reported(false, t)]
  {
    tries := 0;
    var granted := breaker.Allow(now);
    if !granted {
      return Refused, 0;
    }
    ghost var asked := breaker.log;
    var attempts := 1;
    if retry.enabled && retry.maxRetries > 0 {
      attempts := attempts + retry.maxRetries;
    }
    var lastErr := RequestError;
    while tries < attempts
      invariant 0 <= tries < attempts == Attempts(retry)
      invariant breaker.Valid() && breaker.log == asked
      invariant forall k :: 0 <= k < tries ==> Retryable(attempt(k))
      invariant forall k :: 1 <= k < tries ==> !cancelled(k)
      invariant tries > 0 ==> lastErr == Ending(attempt(tries - 1))
    {
      if tries > 0 && cancelled(tries) {
        breaker.RecordFailure(clock(tries));
        assert breaker.log == old(breaker.log) + [Asked(now), Reported(false, clock(tries))];
        return Cancelled, tries;
      }
      var a := attempt(tries);
      tries := tries + 1;
      match a {
        case NoRequest => return NotBuilt, tries;
        case NoResponse =>
          lastErr := RequestError;
          if tries < attempts {
            continue;
          }
          break;
        case Status(code) =>
          if code == 200 {
            breaker.RecordSuccess();
            assert breaker.log == old(breaker.log) + [Asked(now), Reported(true, 0)];
            return Response, tries;
          }
          lastErr := StatusError(code);
          if Transient(code) && tries < attempts {
            continue;
          }
          break;
      }
    }
    breaker.RecordFailure(clock(tries));
    assert breaker.log == old(breaker.log) + [Asked(now), Reported(false, clock(tries))];
    return lastErr, tries;
  }
}
