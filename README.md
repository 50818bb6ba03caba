# Humidifier controller: a Dafny model

This project models the decision logic of an ESP8266 humidifier firmware
(`src/main.cpp`). The firmware reads the appliance's level from three digital
sensor pins, publishes it over MQTT on `humidifier/state`, and accepts target
levels on `humidifier/command`. It reaches a target by pulsing an actuator pin
once every so often until the sensors show that level.

The model has five modules:

- `Sensor` (`sensor.dfy`): the decode chain of `read_state`. It maps three bits
  to `"off"`, `"1"`, `"2"`, `"3"`, `"empty"` or `"unknown"`. It is proved equal
  to a lookup in an unordered table, so the order of the tests does not matter.
- `Payload` (`payload.dfy`): how `callback` turns payload bytes into a `String`,
  as a loop proved against a function. It also models `toCharArray(copy, 50)`,
  which fills the publish buffer.
- `Trace` (`trace.dfy`): the log of effects, made of pulses, periodic reports and
  the report `setup` attempts to publish. It gives the pulse and report times in the log, and
  a lemma turning spacing between neighbours into spacing between any two entries.
- `Reconciler` (`reconciler.dfy`): the firmware's globals as a value.
  `ApplyCommand` is what `callback` decides, `TickStep` is one pass of `loop`, and
  `Boot` is `setup`. Lemmas prove the state invariant and the timer-versus-log
  invariant they keep, the pulse and publish rules, and the quirks listed below.
- `Firmware` (`firmware.dfy`): class `Humidifier`. Its fields are the source's
  globals and its methods update them in place. `Setup` establishes `Valid()`
  and ends equal to `Boot`. `Callback` and `Loop` keep `Valid()` and tie the new
  fields and log to `ApplyCommand` and `TickStep`. `ReadState`, `ChangeState`,
  `PulseIfDue` and `PublishIfDue` are steps inside them. Each has a
  postcondition of its own that names exactly what it changes, and none of
  them promises `Valid()` on its own.

Sensor bits, the clock (`millis()`) and payload bytes are parameters. A pulse of
`change_state` and each publish are appended to the ghost field `trace`.
`callback` is a method the caller may invoke between ticks. This stands for
`client.loop()` delivering a message before the pulse check of the same `loop`.

Where the intended design and the code differ, the model follows the code:

- `"off"` is accepted as a command beside `"0"` to `"3"` (`src/main.cpp:82`).
  The off state is published as `"off"`, not `"0"`.
- A change of state is never published at once. The only publishes of the
  state are the one in `setup` and the periodic one, sent when more than 10000 ms have passed
  since the last one (`OffToLevelTwo`).
- Both timers compare with a strict `>`.
- Reading `"empty"` during a tick does not disarm a pending change. Only a
  command does (`EmptyDoesNotDisarm`). So the actuator keeps being pulsed while
  the tank is empty.
- When the target is reached, only `do_change_state` is cleared. `target_state`
  keeps its value.
- A `"0"` command is accepted in every state except `"empty"`, since no decoded
  state equals `"0"`. Once armed for `"0"`, no tick disarms it
  (`ZeroCommandAccepted`, `ZeroTargetStaysArmed`).
- Arduino's `String(char)` builds its text from a NUL-terminated buffer, so a
  zero byte in a payload adds nothing to the text (`PayloadText`, `EncodeOfText`).

## Model

| member | source | states |
|---|---|---|
| `Sensor.Decode` | src/main.cpp:132-149 | The result is one of the six state strings. It equals the lookup of (d1, d2, d3) in the five-entry pattern table, or "unknown" when the pattern is not in the table, so it does not depend on the order of the tests |
| `Sensor.DecodeTable` | src/main.cpp:132-149 | Each of the eight readings decodes as the table says. (1,1,1), (0,1,0), (1,0,1), (0,1,1) and (1,1,0) give "off", "1", "2", "3" and "empty". (0,0,0), (0,0,1) and (1,0,0) give "unknown" |
| `Sensor.DecodeDistinguishes` | src/main.cpp:132-149 | Two different readings never decode to the same named state (order independence of the tests is `Decode`'s equality with `Lookup`) |
| `Sensor.DecodeFits` | src/main.cpp:132-149 | Every decoded state is non-empty, shorter than the 50-byte buffer, and never equal to the command "0" |
| `Payload.PayloadText` | src/main.cpp:71-74 | The text built from a payload is no longer than the payload, and each of its characters is a non-NUL byte value |
| `Payload.PayloadToString` | src/main.cpp:71-74 | The appending loop over the payload bytes yields exactly `PayloadText` of the payload |
| `Payload.TextOfEncode` | src/main.cpp:71-74 | Round trip: any text of non-NUL byte characters, sent one byte per character, is rebuilt exactly by the loop |
| `Payload.EncodeOfText` | src/main.cpp:71-74 | Reverse round trip: the rebuilt text, encoded again, is the payload with its zero bytes removed, in order |
| `Payload.CopyToBuffer` | src/main.cpp:201-203 | What is published is a prefix of the state of at most 49 characters. It is the whole state when the state is shorter than 50 |
| `Reconciler.Boot` | src/main.cpp:173-176 | After `setup` the state is the decoded reading, no change is pending, the target is empty and both timers are 0. Exactly one report is published (attempted) and it carries that state. The state invariant and the log invariant hold |
| `Reconciler.ApplyCommand` | src/main.cpp:79-98 | A command changes only the flag and the target. The flag is armed exactly when the state is not "empty", the payload differs from the state, and the payload is one of "off", "0", "1", "2", "3". An armed flag targets the payload; otherwise the target is unchanged. In particular, while "empty" or for a payload equal to the state, the flag is cleared. The state invariant is preserved |
| `Reconciler.TickStep` | src/main.cpp:186-209 | After a tick, `lastMsg` is `now` exactly when a pulse was due and is unchanged otherwise; the same holds for `lastPublish` and a due report. The state is the fresh reading and the target is unchanged. The flag stays armed exactly when it was armed and the fresh state differs from the target. The state invariant "armed implies a command target the state does not show" is preserved |
| `Reconciler.TickEffects` | src/main.cpp:186-204 | A tick emits at most one pulse, exactly when armed and more than 2000 ms after the last pulse. It emits at most one report, exactly when more than 10000 ms after the last report. The report comes after the pulse and carries in full the state read in that tick |
| `Reconciler.CommandKeepsLog` | src/main.cpp:79-98 | A command keeps the timers in agreement with the log of effects |
| `Reconciler.TickKeepsLog` | src/main.cpp:186-204 | A tick keeps the timers in agreement with the log extended by its effects. Pulses stay spaced more than 2000 ms apart and periodic reports more than 10000 ms apart. `lastMsg` and `lastPublish` are the last such times, or 0. Every published payload is a decoded state |
| `Reconciler.TickKeepsPulses` | src/main.cpp:187-190 | The pulse part of `TickKeepsLog` |
| `Reconciler.TickKeepsReports` | src/main.cpp:199-203 | The periodic-report part of `TickKeepsLog` |
| `Reconciler.TickKeepsPayloads` | src/main.cpp:197-203 | The payload part of `TickKeepsLog` |
| `Reconciler.LogSpacing` | src/main.cpp:187-203 | In a log that agrees with the timers, any two pulses are more than 2000 ms apart and any two periodic reports more than 10000 ms apart |
| `Reconciler.ZeroCommandAccepted` | src/main.cpp:79-84 | In any state but "empty", a "0" command arms the flag with target "0", even while the device is off |
| `Reconciler.ZeroTargetStaysArmed` | src/main.cpp:207-209 | Once armed for "0", the flag survives every tick, whatever the sensors read |
| `Reconciler.EmptyDoesNotDisarm` | src/main.cpp:197-209 | An armed flag stays armed through a tick that reads "empty" |
| `Reconciler.DisarmedStaysQuiet` | src/main.cpp:187-209 | With the flag clear, a tick neither pulses nor arms it |
| `Reconciler.OffToLevelTwo` | src/main.cpp:179-209 | Scenario: the device boots "off" and receives "2". Ticks at 2001 ms and 4002 ms each pulse once, the second reads "2" and disarms, and a tick at 6003 ms does nothing. No report is sent in between, although the state changed |
| `Firmware.Humidifier.Setup` | src/main.cpp:162-177 | The constructor sets the globals and the log to `Boot` of the reading and establishes `Valid()` |
| `Firmware.Humidifier.ReadState` | src/main.cpp:126-151 | `state` becomes the decoded reading; nothing else changes |
| `Firmware.Humidifier.ChangeState` | src/main.cpp:153-160 | Appends one pulse to the log; nothing else changes |
| `Firmware.Humidifier.Callback` | src/main.cpp:67-100 | Keeps `Valid()`. The new globals are `ApplyCommand` of the old ones and of the payload's text. The log is unchanged |
| `Firmware.Humidifier.PulseIfDue` | src/main.cpp:186-195 | When a pulse is due, stamps `lastMsg` with `now` and logs one pulse. Otherwise changes nothing |
| `Firmware.Humidifier.PublishIfDue` | src/main.cpp:199-204 | When a report is due, stamps `lastPublish` with `now` and logs one report of the buffered state. Otherwise changes nothing |
| `Firmware.Humidifier.Loop` | src/main.cpp:179-214 | Keeps `Valid()`. The new globals are `TickStep` of the old ones. The log grows by exactly the tick's effects. Any two pulses in the whole log are more than 2000 ms apart |

## Left out

- `setup_wifi` and `reconnect` (`src/main.cpp:44-65`, `102-124`): network association, blocking retry loops and random client IDs are I/O. The model does not include the `"hello world"` announcement that `reconnect` publishes after each (re)connection, or the resubscription.
- PubSubClient (`connected`, `loop`, `publish`, `subscribe`, `setServer`, `setCallback`) is a library outside this model. Publishing is an entry in the log. The log records each publish call whether or not it is delivered; the call in `setup` comes before the first connection, which only `reconnect` inside `loop` makes, so that report is attempted, not delivered. The `"hello world"` message that `reconnect` publishes on the same topic is not in the log. Message delivery is a call of `Callback`, and its `topic` argument is only logged by the source.
- `digitalRead`, `digitalWrite`, `pinMode`, `delay` (the 50 ms pulse dwell and the 1000 ms loop pause) are hardware and timing. Readings are parameters and a pulse is a log entry.
- `Serial` output has no effect on the logic.
- `Firmware.Humidifier.Loop`: time is an unbounded integer supplied by the caller. The model does not capture the wrap-around of `millis()` or the overflow of the signed `long` timers.
- How a pulse moves the appliance to its next level: the firmware works open loop and does not encode this, so the reading after a pulse is a free parameter.
- Running out of memory while growing an Arduino `String` is not modelled.
