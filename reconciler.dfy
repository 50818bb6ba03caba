/** The decision logic of the firmware over its globals, as functions from the
    old globals to the new ones and the effects produced: command acceptance
    (`callback`), one pass of `loop`, and the initial read and report of `setup`. */
module Reconciler {
  import opened Sensor
  import opened Payload
  import opened Trace

  /** Minimum time between two actuator pulses, in milliseconds (strict `>`). */
  const PULSE_INTERVAL: nat := 2000
  /** Time between two periodic reports, in milliseconds (strict `>`). */
  const PUBLISH_INTERVAL: nat := 10000

  /** The firmware's global variables `state`, `target_state`, `do_change_state`,
      `lastMsg` and `lastPublish`. */
  datatype Globals = Globals(
    state: string,
    targetState: string,
    doChangeState: bool,
    lastMsg: int,
    lastPublish: int)

  /** Globals after a step, and the effects the step produced, in order. */
  datatype Step = Step(after: Globals, effects: seq<Event>)

  /** The payloads `callback` accepts as a target. */
  predicate IsCommand(res: string) {
    res == OFF || res == "0" || res == LEVEL1 || res == LEVEL2 || res == LEVEL3
  }

  /** What holds of the globals between any two calls of `callback` and `loop`:
      the state is a decoded one, a target is empty or a command, and an armed
      reconciliation has a command target the state does not yet show. */
  predicate Inv(g: Globals) {
    && IsState(g.state)
    && (g.targetState == "" || IsCommand(g.targetState))
    && (g.doChangeState ==> IsCommand(g.targetState) && g.state != g.targetState)
  }

  /** The timers agree with the log of effects: `lastMsg` is the time of the
      last pulse (0 before any), `lastPublish` the time of the last periodic
      report (0 before any), pulses are more than 2000 ms apart, periodic reports
      more than 10000 ms apart, and every published payload is a decoded state. */
  predicate LogAgrees(g: Globals, log: seq<Event>) {
    && Stamped(PulseTimes(log), PULSE_INTERVAL, g.lastMsg)
    && Stamped(ReportTimes(log), PUBLISH_INTERVAL, g.lastPublish)
    && (forall p :: p in Payloads(log) ==> IsState(p))
  }

  /** The global initialisers followed by `setup`: read the sensors and publish
      the decoded state once. */
  function Boot(d1: Bit, d2: Bit, d3: Bit): (s: Step)
    ensures s.after.state == Decode(d1, d2, d3)
    ensures s.after.targetState == "" && !s.after.doChangeState
    ensures s.after.lastMsg == 0 && s.after.lastPublish == 0
    ensures s.effects == [SetupReport(s.after.state)]
    ensures Inv(s.after) && LogAgrees(s.after, s.effects)
  {
    var state := Decode(d1, d2, d3);
    DecodeFits(d1, d2, d3);
    CollectOne(SetupReport(CopyToBuffer(state)), PulseAt);
    CollectOne(SetupReport(CopyToBuffer(state)), ReportAt);
    CollectOne(SetupReport(CopyToBuffer(state)), PayloadOf);
    Step(Globals(state, "", false, 0, 0), [SetupReport(CopyToBuffer(state))])
  }

  /** The decision of `callback` on the text `res` of a payload. */
  function ApplyCommand(g: Globals, res: string): (r: Globals)
    // only the flag and the target can change
    ensures r.state == g.state && r.lastMsg == g.lastMsg && r.lastPublish == g.lastPublish
    // the flag is armed exactly for a command other than the state, while not empty
    ensures r.doChangeState <==> g.state != EMPTY && res != g.state && IsCommand(res)
    // an armed flag targets the payload; otherwise the target is kept
    ensures r.targetState == (if r.doChangeState then res else g.targetState)
    // in particular: while empty, or for the current state, the flag is cleared
    ensures g.state == EMPTY || res == g.state ==> !r.doChangeState && r.targetState == g.targetState
    ensures Inv(g) ==> Inv(r)
  {
    if g.state != EMPTY then
      if res != g.state then
        if res == OFF || res == "0" || res == LEVEL1 || res == LEVEL2 || res == LEVEL3 then
          g.(doChangeState := true, targetState := res)
        else
          g.(doChangeState := false)
      else
        g.(doChangeState := false)
    else
      g.(doChangeState := false)
  }

  /** `loop` pulses when the flag is armed and more than 2000 ms have passed
      since the last pulse. */
  predicate PulseDue(g: Globals, now: int) {
    g.doChangeState && now - g.lastMsg > PULSE_INTERVAL
  }

  /** `loop` publishes when more than 10000 ms have passed since the last report. */
  predicate ReportDue(g: Globals, now: int) {
    now - g.lastPublish > PUBLISH_INTERVAL
  }

  /** One pass of `loop` at time `now`, the sensors reading (d1, d2, d3) after
      any pulse: maybe pulse, re-read, maybe publish, clear the flag on a match.
      `TickEffects` says what it emits. */
  function TickStep(g: Globals, now: int, d1: Bit, d2: Bit, d3: Bit): (t: Step)
    // each timer is stamped with `now` exactly when its action is due
    ensures t.after.lastMsg == (if PulseDue(g, now) then now else g.lastMsg)
    ensures t.after.lastPublish == (if ReportDue(g, now) then now else g.lastPublish)
    ensures t.after.state == Decode(d1, d2, d3) && t.after.targetState == g.targetState
    // the flag is only ever cleared here, and only by a match with the target
    ensures t.after.doChangeState == (g.doChangeState && t.after.state != g.targetState)
    ensures Inv(g) ==> Inv(t.after)
  {
    var state := Decode(d1, d2, d3);
    Step(
      Globals(
        state,
        g.targetState,
        if state == g.targetState then false else g.doChangeState,
        if PulseDue(g, now) then now else g.lastMsg,
        if ReportDue(g, now) then now else g.lastPublish),
      (if PulseDue(g, now) then [Pulse(now)] else [])
      + (if ReportDue(g, now) then [Report(CopyToBuffer(state), now)] else []))
  }

  /** What one tick emits: at most one pulse, exactly when due; at most one
      report, exactly when due, after the pulse, carrying in full the state
      read in this same tick. */
  lemma TickEffects(g: Globals, now: int, d1: Bit, d2: Bit, d3: Bit)
    ensures var t := TickStep(g, now, d1, d2, d3);
      && PulseTimes(t.effects) == (if PulseDue(g, now) then [now] else [])
      && ReportTimes(t.effects) == (if ReportDue(g, now) then [now] else [])
      && Payloads(t.effects) == (if ReportDue(g, now) then [t.after.state] else [])
      && (|t.effects| == 2 ==> t.effects[0].Pulse? && t.effects[1].Report?)
  {
    var t := TickStep(g, now, d1, d2, d3);
    var pulses: seq<Event> := if PulseDue(g, now) then [Pulse(now)] else [];
    var reports: seq<Event> := if ReportDue(g, now) then [Report(CopyToBuffer(t.after.state), now)] else [];
    assert t.effects == pulses + reports;
    DecodeFits(d1, d2, d3);
    CollectAppend(pulses, reports, PulseAt);
    CollectAppend(pulses, reports, ReportAt);
    CollectAppend(pulses, reports, PayloadOf);
    if PulseDue(g, now) {
      CollectOne(Pulse(now), PulseAt);
      CollectOne(Pulse(now), ReportAt);
      CollectOne(Pulse(now), PayloadOf);
    }
    if ReportDue(g, now) {
      CollectOne(reports[0], PulseAt);
      CollectOne(reports[0], ReportAt);
      CollectOne(reports[0], PayloadOf);
    }
  }

  /** A command leaves the timers and the log alone, so it keeps them in agreement. */
  lemma CommandKeepsLog(g: Globals, log: seq<Event>, res: string)
    requires LogAgrees(g, log)
    ensures LogAgrees(ApplyCommand(g, res), log)
  {
  }

  /** A tick keeps the timers in agreement with the log extended by its effects:
      over a whole run, pulses stay more than 2000 ms apart, periodic reports more
      than 10000 ms apart, and only decoded states are published. */
  lemma TickKeepsLog(g: Globals, log: seq<Event>, now: int, d1: Bit, d2: Bit, d3: Bit)
    requires LogAgrees(g, log)
    ensures LogAgrees(TickStep(g, now, d1, d2, d3).after, log + TickStep(g, now, d1, d2, d3).effects)
  {
    TickKeepsPulses(g, log, now, d1, d2, d3);
    TickKeepsReports(g, log, now, d1, d2, d3);
    TickKeepsPayloads(g, log, now, d1, d2, d3);
  }

  /** The pulse part of `TickKeepsLog`. */
  lemma TickKeepsPulses(g: Globals, log: seq<Event>, now: int, d1: Bit, d2: Bit, d3: Bit)
    requires Stamped(PulseTimes(log), PULSE_INTERVAL, g.lastMsg)
    ensures Stamped(PulseTimes(log + TickStep(g, now, d1, d2, d3).effects), PULSE_INTERVAL,
                    TickStep(g, now, d1, d2, d3).after.lastMsg)
  {
    var t := TickStep(g, now, d1, d2, d3);
    TickEffects(g, now, d1, d2, d3);
    var ps := PulseTimes(log);
    CollectAppend(log, t.effects, PulseAt);
    if PulseDue(g, now) {
      assert PulseTimes(log + t.effects) == ps + [now];
      StampedSnoc(ps, PULSE_INTERVAL, g.lastMsg, now);
    } else {
      assert PulseTimes(log + t.effects) == ps + [];
      assert ps + [] == ps;
    }
  }

  /** The periodic-report part of `TickKeepsLog`. */
  lemma TickKeepsReports(g: Globals, log: seq<Event>, now: int, d1: Bit, d2: Bit, d3: Bit)
    requires Stamped(ReportTimes(log), PUBLISH_INTERVAL, g.lastPublish)
    ensures Stamped(ReportTimes(log + TickStep(g, now, d1, d2, d3).effects), PUBLISH_INTERVAL,
                    TickStep(g, now, d1, d2, d3).after.lastPublish)
  {
    var t := TickStep(g, now, d1, d2, d3);
    TickEffects(g, now, d1, d2, d3);
    var rs := ReportTimes(log);
    CollectAppend(log, t.effects, ReportAt);
    if ReportDue(g, now) {
      assert ReportTimes(log + t.effects) == rs + [now];
      StampedSnoc(rs, PUBLISH_INTERVAL, g.lastPublish, now);
    } else {
      assert ReportTimes(log + t.effects) == rs + [];
      assert rs + [] == rs;
    }
  }

  /** The payload part of `TickKeepsLog`. */
  lemma TickKeepsPayloads(g: Globals, log: seq<Event>, now: int, d1: Bit, d2: Bit, d3: Bit)
    requires forall p :: p in Payloads(log) ==> IsState(p)
    ensures forall p :: p in Payloads(log + TickStep(g, now, d1, d2, d3).effects) ==> IsState(p)
  {
    var t := TickStep(g, now, d1, d2, d3);
    TickEffects(g, now, d1, d2, d3);
    CollectAppend(log, t.effects, PayloadOf);
  }

  /** Any two pulses of an agreeing log are more than 2000 ms apart, and any two
      periodic reports more than 10000 ms apart. */
  lemma LogSpacing(g: Globals, log: seq<Event>, i: nat, j: nat)
    requires LogAgrees(g, log)
    requires i < j
    ensures j < |PulseTimes(log)| ==> PulseTimes(log)[j] - PulseTimes(log)[i] > PULSE_INTERVAL
    ensures j < |ReportTimes(log)| ==> ReportTimes(log)[j] - ReportTimes(log)[i] > PUBLISH_INTERVAL
  {
    if j < |PulseTimes(log)| {
      SpacedApart(PulseTimes(log), PULSE_INTERVAL, i, j);
    }
    if j < |ReportTimes(log)| {
      SpacedApart(ReportTimes(log), PUBLISH_INTERVAL, i, j);
    }
  }

  /** "0" is a command no decoded state equals, so it is accepted even while the
      device is off ... */
  lemma ZeroCommandAccepted(g: Globals)
    requires Inv(g) && g.state != EMPTY
    ensures ApplyCommand(g, "0").doChangeState && ApplyCommand(g, "0").targetState == "0"
  {
  }

  /** ... and once armed for "0", no tick ever disarms it. */
  lemma ZeroTargetStaysArmed(g: Globals, now: int, d1: Bit, d2: Bit, d3: Bit)
    requires g.doChangeState && g.targetState == "0"
    ensures TickStep(g, now, d1, d2, d3).after.doChangeState
  {
    DecodeFits(d1, d2, d3);
  }

  /** Reading "empty" during a tick does not disarm: the flag stays set and the
      next ticks keep pulsing whenever the timer allows. */
  lemma EmptyDoesNotDisarm(g: Globals, now: int)
    requires Inv(g) && g.doChangeState
    ensures TickStep(g, now, 1, 1, 0).after.state == EMPTY
    ensures TickStep(g, now, 1, 1, 0).after.doChangeState
  {
  }

  /** With the flag clear, ticks never pulse and never arm it; only a command can. */
  lemma DisarmedStaysQuiet(g: Globals, now: int, d1: Bit, d2: Bit, d3: Bit)
    requires !g.doChangeState
    ensures PulseTimes(TickStep(g, now, d1, d2, d3).effects) == []
    ensures !TickStep(g, now, d1, d2, d3).after.doChangeState
  {
    TickEffects(g, now, d1, d2, d3);
  }

  /** A device that boots off, receives the payload "2" and reaches level 2 after
      two pulses: each armed tick more than 2000 ms apart pulses once, the match
      disarms, and no report is published before 10000 ms have passed, change or not. */
  lemma OffToLevelTwo()
    ensures
      var g0 := Boot(1, 1, 1).after;
      var g1 := ApplyCommand(g0, PayloadText([50]));
      var t1 := TickStep(g1, 2001, 0, 1, 0);
      var t2 := TickStep(t1.after, 4002, 1, 0, 1);
      var t3 := TickStep(t2.after, 6003, 1, 0, 1);
      && g0.state == OFF
      && g1.doChangeState && g1.targetState == LEVEL2
      && t1.effects == [Pulse(2001)] && t1.after.state == LEVEL1 && t1.after.doChangeState
      && t2.effects == [Pulse(4002)] && t2.after.state == LEVEL2 && !t2.after.doChangeState
      && t3.effects == []
  {
    assert PayloadText([50]) == LEVEL2;
  }
}
