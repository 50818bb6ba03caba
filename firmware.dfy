/** The firmware's global variables as one controller object, with the source's
    procedures as methods that update it in place. Sensor readings and the clock
    are parameters; pulses and publishes are appended to the ghost log `trace`. */
module Firmware {
  import opened Sensor
  import opened Payload
  import opened Trace
  import opened Reconciler

  class Humidifier {
    var state: string
    var targetState: string
    var doChangeState: bool
    var lastMsg: int
    var lastPublish: int
    /** Every pulse and publish so far, in order. */
    ghost var trace: seq<Event>

    /** The globals as a value. */
    function Snapshot(): Globals
      reads this
    {
      Globals(state, targetState, doChangeState, lastMsg, lastPublish)
    }

    ghost predicate Valid()
      reads this
    {
      Inv(Snapshot()) && LogAgrees(Snapshot(), trace)
    }

    /** The global initialisers, then `setup` with the sensors reading
        (d1, d2, d3): decode once and publish the result. */
    constructor Setup(d1: Bit, d2: Bit, d3: Bit)
      ensures Valid()
      ensures Snapshot() == Boot(d1, d2, d3).after
      ensures trace == Boot(d1, d2, d3).effects
    {
      state, targetState, doChangeState := "", "", false;
      lastMsg, lastPublish := 0, 0;
      trace := [];
      new;
      ReadState(d1, d2, d3);
      var copy := CopyToBuffer(state);
      trace := trace + [SetupReport(copy)];
      DecodeFits(d1, d2, d3);
      assert copy == state;
      assert Snapshot() == Boot(d1, d2, d3).after;
    }

    /** `read_state`: decode the three pins into `state`. */
    method ReadState(d1: Bit, d2: Bit, d3: Bit)
      modifies this`state
      ensures state == Decode(d1, d2, d3)
    {
      state := Decode(d1, d2, d3);
    }

    /** `change_state`: one pulse of the actuator line, logged at time `now`. */
    method ChangeState(now: int)
      modifies this`trace
      ensures trace == old(trace) + [Pulse(now)]
    {
      trace := trace + [Pulse(now)];
    }

    /** `callback` for one payload: build its text, then arm or disarm. */
    method Callback(payload: seq<Byte>)
      requires Valid()
      modifies this
      ensures Valid()
      ensures Snapshot() == ApplyCommand(old(Snapshot()), PayloadText(payload))
      ensures trace == old(trace)
    {
      var res := PayloadToString(payload);
      if state != EMPTY {
        if res != state {
          if res == OFF || res == "0" || res == LEVEL1 || res == LEVEL2 || res == LEVEL3 {
            doChangeState := true;
            targetState := res;
          } else {
            doChangeState := false;
          }
        } else {
          doChangeState := false;
        }
      } else {
        doChangeState := false;
      }
    }

    /** The pulse step of `loop`: when armed and more than 2000 ms after the
        last pulse, stamp `lastMsg` and pulse. */
    method PulseIfDue(now: int)
      modifies this`lastMsg, this`trace
      ensures lastMsg == (if PulseDue(old(Snapshot()), now) then now else old(lastMsg))
      ensures trace == old(trace) + (if PulseDue(old(Snapshot()), now) then [Pulse(now)] else [])
    {
      if now - lastMsg > PULSE_INTERVAL && doChangeState {
        lastMsg := now;
        ChangeState(now);
      }
    }

    /** The report step of `loop`: when more than 10000 ms after the last
        report, stamp `lastPublish` and publish the state through the buffer. */
    method PublishIfDue(now: int)
      modifies this`lastPublish, this`trace
      ensures lastPublish == (if ReportDue(old(Snapshot()), now) then now else old(lastPublish))
      ensures trace == old(trace)
                       + (if ReportDue(old(Snapshot()), now) then [Report(CopyToBuffer(state), now)] else [])
    {
      if now - lastPublish > PUBLISH_INTERVAL {
        lastPublish := now;
        var copy := CopyToBuffer(state);
        trace := trace + [Report(copy, now)];
      }
    }

    /** One pass of `loop` at time `now`, the sensors reading (d1, d2, d3) when
        `read_state` runs. */
    method Loop(now: int, d1: Bit, d2: Bit, d3: Bit)
      requires Valid()
      modifies this
      ensures Valid()
      ensures Snapshot() == TickStep(old(Snapshot()), now, d1, d2, d3).after
      ensures trace == old(trace) + TickStep(old(Snapshot()), now, d1, d2, d3).effects
      ensures forall i, j :: 0 <= i < j < |PulseTimes(trace)| ==>
                PulseTimes(trace)[j] - PulseTimes(trace)[i] > PULSE_INTERVAL
    {
      ghost var g, log := Snapshot(), trace;
      ghost var t := TickStep(g, now, d1, d2, d3);
      PulseIfDue(now);
      ReadState(d1, d2, d3);
      PublishIfDue(now);
      if state == targetState {
        doChangeState := false;
      }
      assert Snapshot() == t.after;
      assert trace == log + t.effects;
      TickKeepsLog(g, log, now, d1, d2, d3);
      forall i, j | 0 <= i < j < |PulseTimes(trace)|
        ensures PulseTimes(trace)[j] - PulseTimes(trace)[i] > PULSE_INTERVAL
      {
        LogSpacing(Snapshot(), trace, i, j);
      }
    }
  }
}
