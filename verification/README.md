# NativeEngine, modelled in Dafny

This project models Starscream's `NativeEngine`. That class adapts the
platform's `URLSessionWebSocketTask` to Starscream's `Engine` interface
(`register`, `start`, `stop`, `forceStop` and the two `write` overloads). It
also translates the task's receive results and session callbacks into
`WebSocketEvent`s for the registered `EngineDelegate`.

The model is a pure state-transition system:

- **State.** An `EngineState` holds two things:
  - the current task handle, which is optional and gets a fresh identity on every `start`;
  - the registered delegate, which is optional.
- **Commands.** Every operation returns the new state plus the list of commands it issues, in order. The commands are `CreateTask`, `Receive`, `Resume`, `SendData`, `SendString`, `SendPing` and `Cancel`, and each names the task it is issued on.
- **Immediate completions.** A write that completes at once also returns the outcome its completion receives.
- **Transport replies.** The transport's replies are inputs to pure translators: a send's error, a receive's result, the open and close callbacks.

Modules:

- `Base`: `Option`, bytes and `UInt16`.
- `Utf8`: strict RFC 3629 decoding, as used by `String(data:encoding: .utf8)`, and its inverse, encoding.
- `CloseCodes`: Foundation's close-status enumeration. Its raw values are 0 (`invalid`) plus the status codes of section 7.4.1 of RFC 6455 (1000–1003, 1005–1011, 1015). The module also holds the engine's total mapping from a numeric code to a status.
- `EngineTypes`: minimal mirrors of `FrameOpCode`, `WSError`, `WebSocketEvent` and the transport's message and result kinds.
- `NativeEngine`: the engine's operations, write dispatch, completion handling, the receive loop, and the session callbacks.
- `EngineTrace`: sequences of calls and the properties that hold across them.

## Model

| member | source | states |
|---|---|---|
| NativeEngine.Read | Sources/Engine/NativeEngine.swift:80-81 | `doRead` arms exactly one receive, on the current task, when there is one, and nothing otherwise |
| NativeEngine.Register | Sources/Engine/NativeEngine.swift:16-18 | registering sets the delegate, leaves the task handle alone and issues no transport command |
| NativeEngine.Start | Sources/Engine/NativeEngine.swift:20-25 | start replaces the handle with a new one that differs from the old one and keeps the handle invariant; it issues create, receive, resume on that handle in exactly that order, so the loop is armed before the task runs; the delegate is unchanged |
| NativeEngine.Stop | Sources/Engine/NativeEngine.swift:27-30 | with a task, stop issues exactly one cancel on it with no reason; a recognised code yields the status of the same raw value and any other code yields normal closure; without a task it issues nothing; the state, including the handle, is unchanged |
| NativeEngine.ForceStop | Sources/Engine/NativeEngine.swift:32-34 | forceStop is stop(1006): the same state and a single cancel with abnormal closure, or nothing when there is no task |
| CloseCodes.StopStatus | Sources/Engine/NativeEngine.swift:28 | the code-to-status mapping is total on UInt16: recognised codes map to the status with that raw value (0 maps to `invalid`), all others map to normal closure |
| CloseCodes.FromRawValue | Sources/Engine/NativeEngine.swift:28 | `CloseCode(rawValue:)` succeeds exactly on the recognised set and returns a status whose raw value is the input |
| CloseCodes.RawValue | Sources/Engine/NativeEngine.swift:114 | every status's raw value is a recognised code that fits in UInt16, so the conversion in the close callback cannot trap |
| CloseCodes.RawValueRoundTrip | Sources/Engine/NativeEngine.swift:114 | a status's raw value maps back through `CloseCode(rawValue:)` to the same status |
| CloseCodes.RawValueInjective | Sources/Engine/NativeEngine.swift:114 | distinct statuses report distinct numeric codes |
| NativeEngine.WriteString | Sources/Engine/NativeEngine.swift:36-48 | exactly one of two things happens: one string send on the current task, or, without a task, an immediate "Task hasn't been initialized" failure with code 0 and no command |
| NativeEngine.WriteData | Sources/Engine/NativeEngine.swift:50-78 | without a task, every opcode fails at once with "not initialized"; binary sends the bytes; ping sends a ping; text sends the string whose UTF-8 encoding is the payload and is the same write as write(string:) of it; every other opcode fails at once with "Unsupported FrameOpCode" and no command; always exactly one command or one immediate outcome |
| NativeEngine.WriteDataAllowedExactly | Sources/Engine/NativeEngine.swift:55-65 | the force-unwrap of the decoded text traps exactly when a task exists, the frame is text and the payload is the UTF-8 encoding of no string; before any task every write passes the guard first |
| NativeEngine.Resolve | Sources/Engine/NativeEngine.swift:41-47 | a send or ping completion is success exactly when the transport reports no error, and otherwise carries that error unchanged |
| NativeEngine.ResolveBijective | Sources/Engine/NativeEngine.swift:68-74 | the completion outcome and the transport's report determine each other |
| NativeEngine.CompletionsOfWriteData | Sources/Engine/NativeEngine.swift:55-77 | over its life a data write's completion is invoked exactly once; it succeeds exactly when a task exists, the opcode is binary, text or ping, and the transport reports no error; otherwise it carries "not initialized", "unsupported", or the transport's error |
| NativeEngine.CompletionsOfWriteString | Sources/Engine/NativeEngine.swift:36-48 | a string write's completion is invoked exactly once, and succeeds exactly when a task exists and the transport reports no error |
| NativeEngine.TextFrameIsStringWrite | Sources/Engine/NativeEngine.swift:64-66 | a text frame whose payload is the UTF-8 encoding of a string is valid, and the write is identical to write(string:) of that string |
| Utf8.Decode | Sources/Engine/NativeEngine.swift:65 | a successful decode returns the unique string whose encoding is exactly the input bytes |
| Utf8.DecodeEncode | Sources/Engine/NativeEngine.swift:112 | every string survives a UTF-8 encode followed by a decode |
| Utf8.EncodeInjective | Sources/Engine/NativeEngine.swift:112 | two strings with the same UTF-8 bytes are the same string |
| NativeEngine.Broadcast | Sources/Engine/NativeEngine.swift:100-102 | an event reaches the registered delegate, and only it; with no delegate, broadcasting is a no-op |
| NativeEngine.EventOf | Sources/Engine/NativeEngine.swift:82-95 | a string message becomes a text event, a data message a binary event, and a failure an error event carrying the same error; only a message of unknown kind produces no event |
| NativeEngine.EventOfInjective | Sources/Engine/NativeEngine.swift:84-94 | the receive result can be recovered from the event it produced |
| NativeEngine.EventsAppend | Sources/Engine/NativeEngine.swift:82-96 | translating two runs of results one after the other gives the first run's events followed by the second's, so events keep arrival order |
| NativeEngine.EventsOneToOne | Sources/Engine/NativeEngine.swift:82-95 | when no message is of unknown kind, each result yields exactly one event, and the i-th event translates the i-th result |
| NativeEngine.OnReceive | Sources/Engine/NativeEngine.swift:80-98 | while the engine is alive, a callback delivers the result's event (if any) and re-arms one receive on the current task, after a failure too; once the engine is gone it does nothing |
| NativeEngine.ReadLoop | Sources/Engine/NativeEngine.swift:80-98 | over a run of results, the loop delivers the events of the arrivals that found the engine alive, in arrival order, with unknown messages skipped; it issues exactly one receive on the current task per such arrival, and nothing after the first arrival that found the engine gone |
| NativeEngine.OnOpen | Sources/Engine/NativeEngine.swift:104-107 | opening yields one `connected` event whose only header is the protocol name; its value is the negotiated protocol, or "" when there is none; with no delegate, nothing is delivered |
| NativeEngine.CloseReason | Sources/Engine/NativeEngine.swift:110-113 | the reason text is the string the reason bytes encode, or "" when the bytes are absent or not valid UTF-8 |
| NativeEngine.OnClose | Sources/Engine/NativeEngine.swift:109-115 | closing yields one `disconnected` event with the reason text and a numeric code that maps back to the reported status; with no delegate, nothing is delivered |
| NativeEngine.CloseReasonOfEncoding | Sources/Engine/NativeEngine.swift:111-114 | a reason that encodes a string is reported as exactly that string with the status's raw value |
| EngineTrace.Apply | Sources/Engine/Engine.swift:15-22 | per call on the interface: only register changes the delegate and only start changes the handle; a creation happens only first in a start and uses the drawn identity; every other command lands on the handle current after the call; without a task only start reaches the transport, and writes fail with "not initialized" |
| EngineTrace.Run | Sources/Engine/NativeEngine.swift:12-14 | any sequence of calls keeps the handle invariant: the current handle was drawn before the next identity |
| EngineTrace.RunKeepsLastSink | Sources/Engine/NativeEngine.swift:16-25 | after any sequence of calls, the delegate is the one named by the last register, or the original one if nothing was registered; start, stop and writes never disturb it |
| EngineTrace.RunCreatesFreshTasks | Sources/Engine/NativeEngine.swift:20-25 | the tasks a sequence of calls creates are strictly increasing and all new, so no two starts share a handle and none reuses an earlier one |
| EngineTrace.RunTargetsExistingTasks | Sources/Engine/NativeEngine.swift:20-78 | every non-creation command lands on the original handle or on one created earlier in the same run |
| EngineTrace.RunWithoutStart | Sources/Engine/NativeEngine.swift:36-54 | before any start, no command ever reaches the transport, and every write, whatever its opcode, completes at once with "not initialized" |
| EngineTrace.WriteAfterStopReachesTask | Sources/Engine/NativeEngine.swift:27-30 | stop does not clear the handle: a write after it still sends on the task it cancelled |
| EngineTrace.ForceStopIsStopAbnormal | Sources/Engine/NativeEngine.swift:32-34 | forceStop and stop(1006) are the same call, cancelling with abnormal closure |
| EngineTrace.RegisterIdempotentAndIndependent | Sources/Engine/NativeEngine.swift:16-18 | registering twice is registering once, and register and start commute on the state |
| EngineTrace.ReadLoopRearmsAfterFailure | Sources/Engine/NativeEngine.swift:93-96 | a failure followed by a message delivers an error event and then a text event, and arms a receive after each |
| EngineTrace.ReadLoopStopsWhenEngineGone | Sources/Engine/NativeEngine.swift:81-96 | once the engine is gone, the loop neither delivers nor re-arms, whatever else the transport reports |
| EngineTrace.ChatSession | Sources/Engine/NativeEngine.swift:104-115 | register, start, open with "chat", receive "hi", stop(1000), close with "bye": create/receive/resume on task 0, then `connected` with "chat", `text("hi")` plus a re-armed receive, a cancel with normal closure, and `disconnected("bye", 1000)` |

## Behaviour of the code worth knowing

- **Read loop after a failure.** `doRead()` re-arms after every result, failures included (`NativeEngine.swift:96`). So after `stop`, each failed receive re-arms on the cancelled task and the delegate keeps receiving error events. `NativeEngine.OnReceive`, `NativeEngine.ReadLoop` and `EngineTrace.ReadLoopRearmsAfterFailure` state this.
- **Invalid UTF-8 in a text frame.** The engine force-unwraps the decoded string (`NativeEngine.swift:65`), so a text frame with invalid UTF-8 traps instead of failing its completion. The model makes valid UTF-8 a precondition (`NativeEngine.WriteDataAllowed`, characterised by `NativeEngine.WriteDataAllowedExactly`). It applies only once a task exists, because the "not initialized" guard runs first.
- **Stop keeps the task handle.** `stop` and `forceStop` only cancel the task (`NativeEngine.swift:27-34`). The handle stays, so later writes still reach the cancelled task (`EngineTrace.WriteAfterStopReachesTask`).
- **Stop with code 0.** `stop(closeCode: 0)` cancels with `invalid`, not with normal closure, because 0 is a raw value of `CloseCode`.

## Left out

- Network I/O is not modelled. `URLSession` and `URLSessionWebSocketTask` internals are foreign and asynchronous; they appear only as command values and injected results.
- `URLRequest` contents are not modelled: `Request` is forwarded untouched.
- Threads, delegate queues and the timing of completions are not modelled. Callbacks are explicit inputs.
- ARC is reduced to two things. A callback of the receive loop sees a single "engine alive" flag, and the two `self?` checks inside one callback are taken as one check. A delegate that the weak reference has lost is a state with no delegate. The fact that `URLSession` retains its delegate (the engine) strongly is not modelled.
- NativeEngine.ReadLoop: runs the loop on an unchanging state. A `start` or `register` between two callbacks is covered only one callback at a time, by calling `NativeEngine.OnReceive` with the state current at that callback. In that case the old loop re-arms on the new task, because `doRead` reads the current `task`.
- NativeEngine.CompletionsOfWriteData: takes the transport's report for the issued send or ping as an input. When the transport reports back is not modelled.
- CloseCodes.StopStatus, CloseCodes.FromRawValue, NativeEngine.OnClose: the model takes `CloseCode(rawValue:)` to reject every value outside the thirteen declared statuses, as a native Swift enumeration's initializer does. Foundation declares the type as an Objective-C enumeration, whose imported initializer may instead accept any raw value. If it does, `stop(closeCode: 4000)` cancels with raw value 4000, the normal-closure fallback never runs, and a peer's close code outside the declared set, such as 4000, reaches the close callback. The model's `CloseCode` cannot represent that code.
- NativeEngine.CompletionsOfWriteData, NativeEngine.CompletionsOfWriteString: assume the caller passed a completion. Both `write` overloads take an optional one (`NativeEngine.swift:36` and `:50`). With `nil`, the same commands are issued and nothing is invoked; "invoked exactly once" holds only when a completion is present.
- `FrameOpCode`, `WSError`, `WebSocketEvent` and `HTTPWSHeader` are declared only as far as the engine uses them:
  - The unsupported-opcode message is the prefix followed by the case name.
  - The protocol header's name is taken to be `Sec-WebSocket-Protocol`, the header of section 11.3.4 of RFC 6455, since `HTTPWSHeader` is not part of this model.
- Strings are sequences of Unicode scalar values. Swift's grapheme-cluster comparison is not modelled, and neither is any special handling of a byte-order mark by Foundation's decoder.
- `Engine.swift` is an interface with no behaviour. It appears only as the list of calls in `EngineTrace.Call`.
- Wire-level WebSocket framing, masking and fragmentation are not modelled. The platform transport does all of them.
