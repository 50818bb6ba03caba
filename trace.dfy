/** The visible effects of the firmware, as a log: actuator pulses on pin D0 and
    state reports published on the topic "humidifier/state". */
module Trace {

  /** One effect. `Pulse` is a call of `change_state` at time `at`; `Report` is
      the periodic publish of `loop` at time `at`; `SetupReport` is the publish
      call at the end of `setup`, which reads no clock. Entries are publish calls,
      delivered or not. */
  datatype Event =
    | Pulse(at: int)
    | Report(payload: string, at: int)
    | SetupReport(payload: string)

  /** Concatenation of `f(e)` over the log, in order. */
  function Collect<T>(log: seq<Event>, f: Event -> seq<T>): seq<T> {
    if log == [] then [] else Collect(log[..|log| - 1], f) + f(log[|log| - 1])
  }

  lemma {:induction false} CollectAppend<T>(a: seq<Event>, b: seq<Event>, f: Event -> seq<T>)
    ensures Collect(a + b, f) == Collect(a, f) + Collect(b, f)
  {
    if b != [] {
      var b' := b[..|b| - 1];
      assert (a + b)[..|a + b| - 1] == a + b';
      assert (a + b)[|a + b| - 1] == b[|b| - 1];
      CollectAppend(a, b', f);
    } else {
      assert a + b == a;
    }
  }

  lemma CollectOne<T>(e: Event, f: Event -> seq<T>)
    ensures Collect([e], f) == f(e)
  {
    assert [e][..0] == [];
  }

  function PulseAt(e: Event): seq<int> {
    if e.Pulse? then [e.at] else []
  }

  function ReportAt(e: Event): seq<int> {
    if e.Report? then [e.at] else []
  }

  function PayloadOf(e: Event): seq<string> {
    match e
    case Pulse(_) => []
    case Report(p, _) => [p]
    case SetupReport(p) => [p]
  }

  /** Times of the pulses in the log, in order. */
  function PulseTimes(log: seq<Event>): seq<int> {
    Collect(log, PulseAt)
  }

  /** Times of the periodic reports in the log, in order. */
  function ReportTimes(log: seq<Event>): seq<int> {
    Collect(log, ReportAt)
  }

  /** Every payload published, in order, the one of `setup` included. */
  function Payloads(log: seq<Event>): seq<string> {
    Collect(log, PayloadOf)
  }

  /** Each time comes more than `gap` after the one before it. */
  predicate Spaced(times: seq<int>, gap: nat) {
    forall i :: 0 < i < |times| ==> times[i] - times[i - 1] > gap
  }

  /** Consecutive spacing gives spacing between any two entries. */
  lemma {:induction false} SpacedApart(times: seq<int>, gap: nat, i: nat, j: nat)
    requires Spaced(times, gap)
    requires i < j < |times|
    ensures times[j] - times[i] > gap
  {
    if i + 1 < j {
      SpacedApart(times, gap, i, j - 1);
      assert times[j] - times[j - 1] > gap;
    }
  }

  /** `times` is spaced by more than `gap`, and `last` is its last entry, or 0
      while it is empty: the shape of a firmware timer and the events it stamps. */
  predicate Stamped(times: seq<int>, gap: nat, last: int) {
    Spaced(times, gap) && last == (if times == [] then 0 else times[|times| - 1])
  }

  /** An event more than `gap` after the last stamp keeps the timer stamped. */
  lemma StampedSnoc(times: seq<int>, gap: nat, last: int, t: int)
    requires Stamped(times, gap, last)
    requires t - last > gap
    ensures Stamped(times + [t], gap, t)
  {
  }
}
