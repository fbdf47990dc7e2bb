# Network device test tool: verified model of its protocol and bookkeeping

`deviceTestGui.py` is a desktop tool that finds test devices on the local
network and runs timed tests on them:

- It multicasts `ID;` and collects the replies into a registry of
  devices, keyed by `(model, serial)`.
- It sends a device `TEST;CMD=START;DURATION=<d>;RATE=<r>;`, then turns the
  `STATUS;...` datagrams the device sends back into `(TIME, MV, MA)`
  samples for a live plot.
- The session ends on a `STATE=IDLE` datagram, at the first loop test
  after `stop()` has cleared `running` (which also sends
  `TEST;CMD=STOP;`), by a receive timeout, or by the exception a
  malformed `STATUS` report raises.

This project models the logic under the window and proves its properties.
It covers the text formats, the parsing, the registry, the receive loops
and the plot's columns. Every operation takes already-decoded strings:
no socket, thread or widget appears.

Modules:

- `Wrappers`: `Option` and `Result`, which stand in for the Python
  exceptions (`IndexError`, `KeyError`, `ValueError`).
- `Text`: the Python string operations the code relies on. These are `in`,
  `startswith`, `split`, `strip(c)` and `str` of a non-negative integer.
  All but `startswith`, whose one-line definition is its meaning, come with
  lemmas that fix their meaning (split then join gives back the input,
  pieces hold no separator, and so on). `Find` and `Join` are not used by
  the code; they serve to define and specify `in` and `split`.
- `Net`: outgoing and incoming datagrams, as payload and address.
- `Discovery`:
  - the positional parse of a discovery reply;
  - the registry (`devices` plus the ordered `devicesList`);
  - `Discover`, the specification of the receive loop of `sendDiscovery`;
  - the `DeviceDiscovery` class, whose methods update the registry in
    place and are proved against `Discover`.
- `Session`:
  - the start and stop commands, and the receive timeout;
  - the `STATUS` parser (`strip(';')`, `split(';')`, then the dictionary
    comprehension);
  - `Loop`/`Session`, the specification of the `while self.running` loop
    over a schedule of datagrams and `stop()` calls;
  - the signals the worker emits;
  - the `TestWorker` class, whose `Run`, `Listen` and `Stop` are proved
    against `Session`.
- `Gui`:
  - the list-item text `"model - serial"` and its read-back with
    `split(" - ")`;
  - the item-to-device lookup of `startTest`;
  - the `PlotWidget` class with its three parallel columns.

A few points where the model follows the code's own behaviour:

- A malformed `STATUS` report raises out of `TestWorker.run`. This covers
  a part with two `=` and a missing `TIME`, `MV` or `MA`. The reports
  emitted before it stay emitted, `testFinished` is never emitted, and the
  session ends as `Crashed`. The datagram is not simply dropped.
- A malformed discovery reply raises `IndexError` out of `sendDiscovery`.
  This ends the discovery run (`Malformed`), and devices registered
  before it stay registered.
- `sendDiscovery` sends to the default group and port whatever its
  `group` and `port` arguments say.
- The list-item round trip needs more than "neither part contains
  ` - `". A model ending in ` -` puts a separator occurrence across the
  boundary. The key `("X -", "1")` has the list text `X - - 1`, and that
  text splits into the two pieces `X` and `- 1`. So it reads back as the
  different key `("X", "- 1")`, which has the same list text
  (`Gui.DisplayKeyCollision`). `startTest` then raises `KeyError` at line
  226, or picks the other device if that one is registered.
  `Gui.DisplayKeyTrailingDash` states the failed round trip.

Schedules: a discovery run or a session is given the sequence of datagrams
that arrive before the receive timeout. The end of the sequence is the
timeout. A session's schedule may also hold `StopCall` entries, the points
at which `stop()` runs between two loop iterations. A `stop()` after the
loop has ended is a call of `TestWorker.Stop` after `TestWorker.Run`.

## Model

| member | source | states |
|---|---|---|
| Discovery.NewDevice | deviceTestGui.py:13-19 | the `Device` record built for a new key: model, serial, the reply's address and port, `running` false; `RegisterUnseen` and `DiscoverKeepsFirstAddress` state which reply it comes from |
| Discovery.ParseReply | deviceTestGui.py:47-49 | the positional read of model and serial, with the `IndexError` cases as `Err`; specified by `ParseReplyByPosition`, `ParseReplyPositional` and `ParseReplyNeedsThreeFields` |
| Discovery.Discover | deviceTestGui.py:43-58 | the receive loop of `sendDiscovery` as a function of the registry and the replies; specified by `RegisterUnseen`, `RegisterKnown`, `DiscoverKeepsInvariant`, `DiscoverNeverOverwrites`, `DiscoverFoundMatchesList`, `DiscoverKeepsFirstAddress`, `DiscoverFirstArrivalOrder`, `DiscoverTimesOutIff`, `DiscoverStopsAtMalformed`, `DiscoverComplete` and `DiscoverRerun` |
| Discovery.DiscoverTimesOutIff | deviceTestGui.py:43-58 | a run ends by timeout exactly when every reply it receives parses |
| Discovery.DiscoverStopsAtMalformed | deviceTestGui.py:43-59 | a malformed reply ends the run as `Malformed` with its error; the registry and emitted devices are those of the replies before it, and nothing after it is looked at |
| Discovery.ParseReplyByPosition | deviceTestGui.py:47-49 | a reply parses exactly when it has at least three `;`-fields and the second and third each hold `=`; the model is then the text after the first `=` of field 2 (up to the next `=`), and the serial the same for field 3 |
| Discovery.ParseReplyPositional | deviceTestGui.py:47-49 | `<tag>;<name>=<model>;<name>=<serial>[;...]` parses to `(model, serial)` whatever the key names are (read by position, not by name) |
| Discovery.ParseReplyNeedsThreeFields | deviceTestGui.py:47-49 | a reply with fewer than three `;`-fields fails to parse |
| Discovery.RegisterUnseen | deviceTestGui.py:50-54 | a reply with an unseen key adds exactly one entry to `devices` and one to `devicesList`, emits exactly that one device and keeps the registry invariant |
| Discovery.RegisterKnown | deviceTestGui.py:50 | a reply with a known key changes nothing and emits nothing |
| Discovery.ReplayIgnored | deviceTestGui.py:48-50 | receiving any reply twice is the same as receiving it once (a known key is skipped; a malformed reply ends the run) |
| Discovery.DiscoverKeepsInvariant | deviceTestGui.py:26-27 | after any sequence of replies, `devicesList` has no duplicates, its elements are exactly the keys of `devices`, and every device sits under its own key |
| Discovery.Add | deviceTestGui.py:51-53 | the insert of an unseen key: the device stored under the key and the key appended to the list; specified by `AddKeepsInvariant` and `RegisterUnseen` |
| Discovery.AddKeepsInvariant | deviceTestGui.py:51-53 | adding an unseen key keeps the registry invariant |
| Discovery.DiscoverNeverOverwrites | deviceTestGui.py:50-53 | the list only grows at its end, and no existing device (address included) is ever replaced |
| Discovery.DiscoverFoundMatchesList | deviceTestGui.py:53-54 | the devices emitted by `deviceFound` are exactly those of the newly appended list entries, in list order |
| Discovery.DiscoverKeepsFirstAddress | deviceTestGui.py:50-52 | every newly registered device carries the address of the first reply with its key |
| Discovery.DiscoverFirstArrivalOrder | deviceTestGui.py:53 | new list entries are in the order in which the first reply with each key arrived |
| Discovery.DiscoverComplete | deviceTestGui.py:43-58 | a run that ends by timeout saw only well-formed replies and registered every key among them |
| Discovery.DiscoverRerun | deviceTestGui.py:26-27 | a second discovery run continues from the registry the first left, as one run over both reply sequences |
| Discovery.Received | deviceTestGui.py:44-49 | one receive: the parse of the payload together with the `recvfrom` address; `ReceivedAt` places it in the sequence of replies |
| Discovery.ReceivedAt | deviceTestGui.py:44-49 | the i-th reply is the parse of the i-th datagram, with its source address |
| Discovery.DeviceDiscovery.DiscoverDevices | deviceTestGui.py:204 | the call with the default group and port and the default message `ID;` of line 33: sends exactly `ID;` to the multicast group, then updates the registry as `Discover` says |
| Discovery.DeviceDiscovery.SendDiscovery | deviceTestGui.py:33-59 | sends `message` to the default group and port, then leaves the registry, the emitted devices and the outcome as `Discover` gives them for the parsed datagrams |
| Discovery.DeviceDiscovery.Register | deviceTestGui.py:43-54 | the in-place receive loop leaves the registry and the emitted devices that `Discover` describes and keeps the class invariant |
| Discovery.DeviceDiscovery.constructor | deviceTestGui.py:24-27 | empty dictionary and empty list |
| Session.StartCommand | deviceTestGui.py:114 | the start command text; specified by `StartCommandLayout`, `StartCommandFields` and `StartCommandDecodes` |
| Session.ParseField | deviceTestGui.py:127 | how the comprehension treats one part (filtered out, a pair, or a `ValueError`); specified by `ParseFieldPair` and `ParseFieldBad` |
| Session.AddFields | deviceTestGui.py:127 | `dict(...)` over the parts, left to right; specified by `AddFieldsSnoc`, `AddFieldsFails`, `AddFieldsErr` and `AddFieldsLastWins` |
| Session.AddFieldsErr | deviceTestGui.py:127 | the only failure of the dictionary is a malformed part |
| Session.Fields | deviceTestGui.py:126-127 | `strip(';')`, `split(';')` and the comprehension; specified by `FieldsOfMessage` and `ParseStatusSpec` |
| Session.ParseStatus | deviceTestGui.py:126-128 | the report read by key name; specified by `ParseStatusSpec` for every message and by `StatusRoundTrip` for laid-out reports |
| Session.ParseStatusSpec | deviceTestGui.py:126-128 | for any message: a part with two `=` fails; otherwise a missing `TIME`, `MV` or `MA` (checked in that order) fails with that key, and the report holds the value of the last part naming each key |
| Session.Classify | deviceTestGui.py:123-128 | one datagram: the idle test first, then the `STATUS` prefix and parse, else ignored; specified through `IdleBeforeStatus` and `SessionReports` |
| Session.Loop | deviceTestGui.py:118-130 | the `while self.running` loop over a schedule of datagrams and `stop()` calls; specified by `LoopEnds`, `LoopAppend`, `SessionIgnoresRest`, `StopEndsLoop` and `SessionReports`, and `TestWorker.Listen` is proved to follow it |
| Session.Session | deviceTestGui.py:118-130 | the loop over a schedule given as events; `TestWorker.Run` is proved to follow it |
| Session.SessionSignals | deviceTestGui.py:128-131 | the signals of a session; specified by `SessionSignalsOrder` |
| Session.ReceiveTimeout | deviceTestGui.py:116 | the receive timeout, `duration + 8` seconds; `TestWorker.Run` returns it |
| Session.StartCommandLayout | deviceTestGui.py:114 | the start command is the `TEST` message with the fields `CMD=START`, `DURATION=<d>`, `RATE=<r>` |
| Session.StartCommandFields | deviceTestGui.py:114 | read back with the same parser, the start command gives exactly `{CMD: START, DURATION: str(d), RATE: str(r)}` |
| Session.StartCommandDecodes | deviceTestGui.py:114 | the `DURATION` and `RATE` values read back are decimal digit strings whose values are `d` and `r` |
| Session.StopCommandLayout | deviceTestGui.py:135 | the stop command (`STOP_COMMAND`) is the `TEST` message with the single field `CMD=STOP` |
| Session.StopCommandFields | deviceTestGui.py:135 | read back, the stop command gives exactly `{CMD: STOP}` |
| Session.ParseFieldPair | deviceTestGui.py:127 | a part enters the dictionary as `(k, v)` exactly when it is `k=v` with no other `=` |
| Session.ParseFieldBad | deviceTestGui.py:127 | a part fails to unpack exactly when it holds two or more `=` |
| Session.AddFieldsSnoc | deviceTestGui.py:127 | the dictionary is built left to right, one part at a time |
| Session.AddFieldsFails | deviceTestGui.py:127 | building the dictionary fails exactly when some part holds two or more `=` |
| Session.AddFieldsLastWins | deviceTestGui.py:127 | when it succeeds, each key maps to the value of the last part naming it (a later duplicate overrides an earlier one) and no other key is added |
| Session.FieldsOfMessage | deviceTestGui.py:126-127 | stripping `;`, splitting on `;` and building the dictionary reads a `<tag>;K1=V1;...;` message back as its fields entered in order |
| Session.StatusFields | deviceTestGui.py:126-127 | the dictionary of a report as a device lays it out is `{TIME, MV, MA}` |
| Session.StatusRoundTrip | deviceTestGui.py:125-128 | every `STATUS;TIME=..;MV=..;MA=..;` report starts with `STATUS` and parses back to the same three values |
| Session.LoopEnds | deviceTestGui.py:118-130 | the loop runs out of datagrams (timeout) only with the flag set and no `StopCall` between iterations; after a `StopCall` it always ends as `Stopped` |
| Session.StopAfterEndingUnreached | deviceTestGui.py:123-128 | a `StopCall` after an idle or malformed datagram is never reached; the session is that of the datagram alone, with no stop recorded |
| Session.LoopAppend | deviceTestGui.py:118-119 | the loop over `a + b` is the loop over `a`, continued over `b` only when `a` ran out of datagrams |
| Session.SessionIgnoresRest | deviceTestGui.py:123-124 | nothing after the end of the loop is looked at |
| Session.StopEndsLoop | deviceTestGui.py:118-134 | once `stop()` has cleared the flag (line 134) the loop starts no further iteration: what follows the call is never received |
| Session.IdleBeforeStatus | deviceTestGui.py:123-125 | a `STATUS` message that also holds `STATE=IDLE` ends the loop with no report |
| Session.SessionReports | deviceTestGui.py:118-130 | over datagrams alone, the reports are the `STATUS` messages before the first idle message, in arrival order, up to the first that fails to parse; the loop then ends crashed, on the idle message, or by timeout when there is none |
| Session.SessionSignalsOrder | deviceTestGui.py:128-131 | one `dataReceived` per report in order, then `testFinished` exactly once and last when the loop ends by idle, flag or timeout; none after an exception |
| Session.TestWorker.constructor | deviceTestGui.py:103-110 | the worker keeps its parameters and starts with `running` set |
| Session.TestWorker.Stop | deviceTestGui.py:133-137 | clears `running` and sends exactly the stop command to the device |
| Session.TestWorker.Run | deviceTestGui.py:112-131 | sends the start command, sets the timeout to `duration + 8`, and leaves the ending, the signals, the datagrams sent and the flag that `Session` gives for the schedule |
| Session.TestWorker.Listen | deviceTestGui.py:118-128 | the `while self.running` loop emits `dataReceived` for each report, sends the stop command when `stop()` runs, and ends as `Loop` says |
| Gui.DisplayKey | deviceTestGui.py:209 | the list text `model + " - " + serial`; specified by `DisplayKeyRoundTrip`, `ParsedItemIsDisplayKey` and `DisplayKeyCollision` |
| Gui.ParseDisplayKey | deviceTestGui.py:225 | `item.split(" - ")` unpacked into two names, `None` for the `ValueError`; specified by the same lemmas |
| Gui.DisplayKeyCollision | deviceTestGui.py:225 | the keys `("X -", "1")` and `("X", "- 1")` have the same list text (line 209), and it reads back as the second |
| Gui.DeviceForItem | deviceTestGui.py:225-226 | the device `startTest` looks up for an item, with the `ValueError` and `KeyError` cases as errors; specified by `DeviceForItemFindsListed` and `DeviceForItemNamesDevice` |
| Gui.ParsedItemIsDisplayKey | deviceTestGui.py:225 | an item that unpacks into two pieces is the list text (as line 209 builds it) of the key it gives |
| Gui.DisplayKeyRoundTrip | deviceTestGui.py:209-225 | built as on line 209 and split as on line 225, `"model - serial"` reads back as `(model, serial)` exactly when the model has no ` - `, does not end in ` -`, and the serial has no ` - ` |
| Gui.DisplayKeyTrailingDash | deviceTestGui.py:225 | the model `"X -"` does not survive the round trip |
| Gui.DeviceForItemFindsListed | deviceTestGui.py:225-226 | the item of every listed device whose key reads back finds that device again |
| Gui.DeviceForItemNamesDevice | deviceTestGui.py:225-226 | a device found for an item is a listed device whose list text is that item |
| Gui.RowsAt | deviceTestGui.py:83-86 | row `i` of the plot is the `i`-th entry of each column |
| Gui.PlotWidget.constructor | deviceTestGui.py:62-67 | three empty columns |
| Gui.PlotWidget.UpdatePlot | deviceTestGui.py:83-86 | one value appended to each column; the columns stay of equal length and the samples grow by exactly one row |
| Gui.PlotWidget.ClearPlot | deviceTestGui.py:91-94 | all three columns empty, no samples |
| Text.Contains | deviceTestGui.py:123 | Python's `in`, as in the idle test; specified by `ContainsIff` (holds exactly when the text occurs at some index) |
| Text.StartsWith | deviceTestGui.py:125 | `startswith("STATUS")`: the message is at least as long as the prefix and its first characters are the prefix; it has no lemma of its own, its definition states it |
| Text.Split | deviceTestGui.py:47 | `str.split(sep)`: at least one piece, and exactly one when `sep` does not occur; with `SplitJoin` and `SplitPiecesFree` |
| Text.Strip | deviceTestGui.py:126 | `str.strip(c)`; specified by `StripSpec` and `StripTrailing` |
| Text.Decimal | deviceTestGui.py:114 | `str(n)`: a non-empty digit string with no leading zero unless `n` is 0; with `DecimalRoundTrip` |
| Text.SplitJoin | deviceTestGui.py:47 | joining the pieces of `split(sep)` with `sep` gives back the input |
| Text.SplitPiecesFree | deviceTestGui.py:47 | no piece of `split(sep)` holds `sep` |
| Text.StripSpec | deviceTestGui.py:126 | `strip(c)` removes exactly the leading and trailing runs of `c` and leaves a result that neither starts nor ends with `c` |
| Text.DecimalRoundTrip | deviceTestGui.py:114 | `str(n)` is a non-empty digit string whose value is `n` |

## Left out

- Sockets: `socket`, `sendto`, `recvfrom` and `settimeout` are not run. Datagrams sent are appended to an `outbox` field, datagrams received are an input schedule, and the receive timeout is the end of that schedule.
- Threads: `startDiscovery` starts a thread, and `TestWorker` is a `QThread` whose `running` flag is cleared from another thread. A `stop()` is modelled as a `StopCall` between two loop iterations. A stop that lands while `recvfrom` is blocked is a `StopCall` placed after the datagram that unblocks it only when that datagram is a report or is ignored. When that datagram ends the loop (the idle marker or a malformed report), or the receive times out instead, the stop is a `Stop()` call on the worker after `Run` returns (`Session.StopAfterEndingUnreached`). Either way the flag ends cleared and the stop command is sent. The race itself is not modelled.
- `float(...)` of `TIME`, `MV` and `MA`, in `run` and in `updatePlot`: values are kept as the raw strings, so the `ValueError` of a non-numeric value is not modelled.
- Latin-1 encoding and decoding: treated as the identity on characters.
- The 1024-byte receive buffer: longer datagrams are not truncated.
- `print` and the "No devices found." message: only flagged (`TimedOut(noDevicesFound)`), never printed.
- `socket.close()` after discovery.
- All Qt and pyqtgraph work: windows, layouts, curves, tabs and log output, including `PlotWidget`'s curve updates.
- The `TestGUI` slots `discoverDevices`, `startTest`, `stopTest`, `updatePlot`, `testDone` and `clearPlot`. Only the pieces of them that hold logic are modelled: the `sendDiscovery` call of `discoverDevices` (line 204, `DeviceDiscovery.DiscoverDevices`), the list text (line 209), its read-back and the registry lookup (lines 225-226).
- Discovery.DeviceDiscovery.SendDiscovery: parses all datagrams first and then runs the loop. Parsing changes no state, so the resulting registry, emitted devices and outcome are the same as with the interleaved order.
- Session.TestWorker.Run: classifies the whole schedule first and then runs the loop. Classifying changes no state, so the effects are the same.
- Session.TestWorker: `duration` and `rate` are natural numbers. The spin boxes hold 1 to 999999999.
- Discovery.ParseReplyPositional: states the reply shape symbolically, for any tag, key names and values free of delimiters, rather than for one literal reply.
