/** The engine that adapts the platform's WebSocket task to the engine
    interface, as a pure state-transition system.

    The engine's state is an optional session handle (the current task) and an
    optional registered delegate (the sink events go to). Every operation maps a
    state to a new state plus the commands it hands the transport, in the order
    it issues them. The transport itself is not modelled: its replies (the
    outcome of a send, the result of a receive, the open and close callbacks)
    are inputs to the functions that translate them. */
module NativeEngine {
  import opened Base
  import Utf8
  import opened CloseCodes
  import opened EngineTypes

  /** Identity of a session handle; `start` draws a fresh one each time. */
  type TaskId = nat

  /** Identity of a registered delegate. */
  type SinkId = nat

  /** The request a session is opened with; only forwarded, never inspected. */
  datatype Request = Request(url: string)

  /** `task` is the current session handle and `sink` the registered delegate;
      `nextTask` is the identity the next `start` will use. */
  datatype EngineState = EngineState(task: Option<TaskId>, sink: Option<SinkId>, nextTask: TaskId)

  /** A newly constructed engine: no task, no delegate. */
  const Fresh: EngineState := EngineState(None, None, 0)

  /** The current handle, if any, was drawn before `nextTask`, so every handle
      `start` draws from here on differs from it. */
  predicate Valid(st: EngineState) {
    st.task.Some? ==> st.task.value < st.nextTask
  }

  /** What the engine asks of the transport. Each command names the task it is
      issued on. */
  datatype Command =
    | CreateTask(task: TaskId, request: Request)
    | Receive(task: TaskId)
    | Resume(task: TaskId)
    | SendData(task: TaskId, data: Bytes)
    | SendString(task: TaskId, text: string)
    | SendPing(task: TaskId)
    | Cancel(task: TaskId, status: CloseCode, reason: Option<Bytes>)

  /** The new state and the commands an operation issues, in order. */
  datatype Step = Step(state: EngineState, commands: seq<Command>)

  /** A write leaves the state alone; it issues commands and may complete at
      once, in which case `immediate` is what its completion receives. */
  datatype WriteStep = WriteStep(commands: seq<Command>, immediate: Option<Outcome>)

  /** One event handed to one delegate. */
  datatype Delivery = Delivery(sink: SinkId, event: Event)

  // ---------------------------------------------------------------------
  // Lifecycle

  /** `register(delegate:)`: replaces the delegate and touches nothing else. */
  function Register(st: EngineState, sink: SinkId): (r: Step)
    ensures r.state.sink == Some(sink)
    ensures r.state.task == st.task && r.state.nextTask == st.nextTask
    ensures r.commands == []
  {
    Step(st.(sink := Some(sink)), [])
  }

  /** `doRead`: arm one receive on the current task, if there is one. */
  function Read(st: EngineState): (r: seq<Command>)
    ensures |r| <= 1
    ensures r != [] <==> st.task.Some?
    ensures r != [] ==> r[0] == Receive(st.task.value)
  {
    match st.task
    case Some(t) => [Receive(t)]
    case None => []
  }

  /** `start(request:)`: supersedes any previous task with a fresh one, arms
      the receive loop on it, and only then resumes it. The delegate stays. */
  function Start(st: EngineState, request: Request): (r: Step)
    ensures r.state.task == Some(st.nextTask)
    ensures r.state.sink == st.sink
    ensures r.state.nextTask > st.nextTask
    ensures Valid(st) ==> Valid(r.state) && r.state.task != st.task
    ensures r.commands == [CreateTask(st.nextTask, request), Receive(st.nextTask), Resume(st.nextTask)]
  {
    var id := st.nextTask;
    var next := st.(task := Some(id), nextTask := id + 1);
    Step(next, [CreateTask(id, request)] + Read(next) + [Resume(id)])
  }

  /** `stop(closeCode:)`: cancel the current task, without a reason, with the
      status the code names (normal closure for an unrecognised code). Without
      a task it does nothing. The handle is kept. */
  function Stop(st: EngineState, code: UInt16): (r: Step)
    ensures r.state == st
    ensures st.task.None? ==> r.commands == []
    ensures st.task.Some? ==> |r.commands| == 1 && r.commands[0].Cancel?
    ensures st.task.Some? ==> r.commands[0].task == st.task.value && r.commands[0].reason.None?
    ensures st.task.Some? && code in RecognisedCodes ==> RawValue(r.commands[0].status) == code
    ensures st.task.Some? && code !in RecognisedCodes ==> r.commands[0].status == NormalClosure
  {
    match st.task
    case Some(t) => Step(st, [Cancel(t, StopStatus(code), None)])
    case None => Step(st, [])
  }

  /** `forceStop()`: `stop` with the raw value of abnormal closure, so the
      task is cancelled with exactly that status. */
  function ForceStop(st: EngineState): (r: Step)
    ensures r == Stop(st, 1006)
    ensures r.state == st
    ensures st.task.None? ==> r.commands == []
    ensures st.task.Some? ==> r.commands == [Cancel(st.task.value, AbnormalClosure, None)]
  {
    Stop(st, RawValue(AbnormalClosure))
  }

  // ---------------------------------------------------------------------
  // Writes

  /** The failure a write reports when no task has been created. */
  const NotInitialized: Error := WSError(SnCustom, "Task hasn't been initialized", 0)

  /** The failure a write reports for an opcode it cannot send. */
  function Unsupported(op: FrameOpCode): Error {
    WSError(SnCustom, "Unsupported FrameOpCode: " + OpCodeName(op), 0)
  }

  /** The completion handler the engine passes with every send and ping:
      success when the transport reports no error, else that very error. */
  function Resolve(report: Option<Error>): (r: Outcome)
    ensures r.Success? <==> report.None?
    ensures r.Failure? ==> r.error == report.value
  {
    match report
    case None => Success
    case Some(e) => Failure(e)
  }

  /** The transport report a completion outcome stands for. */
  function ReportOf(o: Outcome): Option<Error> {
    match o
    case Success => None
    case Failure(e) => Some(e)
  }

  /** `Resolve` loses nothing: the report can be read back from the outcome,
      and every outcome arises from exactly one report. */
  lemma ResolveBijective(report: Option<Error>, o: Outcome)
    ensures ReportOf(Resolve(report)) == report
    ensures Resolve(ReportOf(o)) == o
  {
  }

  /** `write(string:completion:)`: one string send on the current task, or an
      immediate "not initialized" failure when there is none. Exactly one of
      the two happens. */
  function WriteString(st: EngineState, text: string): (r: WriteStep)
    ensures |r.commands| + |r.immediate.ToSeq()| == 1
    ensures st.task.None? ==> r.commands == [] && r.immediate == Some(Failure(NotInitialized))
    ensures st.task.Some? ==> r.commands == [SendString(st.task.value, text)] && r.immediate.None?
  {
    match st.task
    case None => WriteStep([], Some(Failure(NotInitialized)))
    case Some(t) => WriteStep([SendString(t, text)], None)
  }

  /** What `write(data:opcode:completion:)` demands: a text frame's payload
      must be valid UTF-8 once a task exists, because the engine force-unwraps
      the decoded string (a trap, not a failed completion, otherwise). */
  predicate WriteDataAllowed(st: EngineState, data: Bytes, op: FrameOpCode) {
    st.task.Some? && op == TextFrame ==> Utf8.IsValid(data)
  }

  /** The precondition is exactly what the force-unwrap needs: before any task
      every write is allowed, and afterwards a text frame is allowed exactly
      when its payload is the UTF-8 encoding of some string. */
  lemma WriteDataAllowedExactly(st: EngineState, data: Bytes, op: FrameOpCode)
    ensures WriteDataAllowed(st, data, op)
            <==> (st.task.None? || op != TextFrame || exists s: string :: Utf8.Encode(s) == data)
  {
    if st.task.Some? && op == TextFrame {
      if Utf8.IsValid(data) {
        assert Utf8.Encode(Utf8.Decode(data).value) == data;
      }
      if exists s: string :: Utf8.Encode(s) == data {
        var s: string :| Utf8.Encode(s) == data;
        Utf8.DecodeEncode(s);
      }
    }
  }

  /** `write(data:opcode:completion:)`: dispatch on the opcode once a task
      exists. A binary frame sends the bytes, a text frame behaves exactly as
      `write(string:)` on the decoded text, a ping sends a ping, and every other
      opcode fails at once without touching the transport. */
  function WriteData(st: EngineState, data: Bytes, op: FrameOpCode): (r: WriteStep)
    requires WriteDataAllowed(st, data, op)
    ensures |r.commands| + |r.immediate.ToSeq()| == 1
    ensures st.task.None? ==> r.commands == [] && r.immediate == Some(Failure(NotInitialized))
    ensures st.task.Some? && op == BinaryFrame ==>
              r.commands == [SendData(st.task.value, data)] && r.immediate.None?
    ensures st.task.Some? && op == TextFrame ==>
              |r.commands| == 1 && r.commands[0].SendString? && Utf8.Encode(r.commands[0].text) == data
              && r == WriteString(st, r.commands[0].text)
    ensures st.task.Some? && op == Ping ==> r.commands == [SendPing(st.task.value)] && r.immediate.None?
    ensures st.task.Some? && !IsWritable(op) ==>
              r.commands == [] && r.immediate == Some(Failure(Unsupported(op)))
  {
    match st.task
    case None => WriteStep([], Some(Failure(NotInitialized)))
    case Some(t) =>
      match op
      case BinaryFrame => WriteStep([SendData(t, data)], None)
      case TextFrame => WriteString(st, Utf8.Decode(data).value)
      case Ping => WriteStep([SendPing(t)], None)
      case _ => WriteStep([], Some(Failure(Unsupported(op))))
  }

  /** Every outcome a write's completion receives over the write's life: the
      immediate one, or the resolution of the one send it issued once the
      transport reports `report` for it. */
  function Completions(w: WriteStep, report: Option<Error>): seq<Outcome> {
    w.immediate.ToSeq() + (if w.commands == [] then [] else [Resolve(report)])
  }

  /** A data write completes exactly once: with success exactly when a task
      exists, the opcode is one the engine sends and the transport reports no
      error; otherwise with the engine's own failure or the transport's error. */
  function CompletionsOfWriteData(st: EngineState, data: Bytes, op: FrameOpCode, report: Option<Error>): (r: seq<Outcome>)
    requires WriteDataAllowed(st, data, op)
    ensures |r| == 1
    ensures r[0].Success? <==> st.task.Some? && IsWritable(op) && report.None?
    ensures st.task.None? ==> r[0] == Failure(NotInitialized)
    ensures st.task.Some? && !IsWritable(op) ==> r[0] == Failure(Unsupported(op))
    ensures st.task.Some? && IsWritable(op) && report.Some? ==> r[0] == Failure(report.value)
  {
    Completions(WriteData(st, data, op), report)
  }

  /** A string write completes exactly once: with success exactly when a task
      exists and the transport reports no error. */
  function CompletionsOfWriteString(st: EngineState, text: string, report: Option<Error>): (r: seq<Outcome>)
    ensures |r| == 1
    ensures r[0].Success? <==> st.task.Some? && report.None?
    ensures st.task.None? ==> r[0] == Failure(NotInitialized)
    ensures st.task.Some? && report.Some? ==> r[0] == Failure(report.value)
  {
    Completions(WriteString(st, text), report)
  }

  /** A text frame carrying the encoding of a string is the same write as
      `write(string:)` of that string: same commands, same completion. */
  lemma TextFrameIsStringWrite(st: EngineState, text: string)
    ensures Utf8.IsValid(Utf8.Encode(text))
    ensures WriteData(st, Utf8.Encode(text), TextFrame) == WriteString(st, text)
  {
    Utf8.DecodeEncode(text);
  }

  // ---------------------------------------------------------------------
  // Delivery to the delegate

  /** `broadcast(event:)`: hand the event to the delegate, if one is
      registered; with none it is a no-op. */
  function Broadcast(st: EngineState, e: Event): (r: seq<Delivery>)
    ensures r == [] <==> st.sink.None?
    ensures r != [] ==> r == [Delivery(st.sink.value, e)]
  {
    match st.sink
    case Some(s) => [Delivery(s, e)]
    case None => []
  }

  /** Each event in turn, handed to the delegate, if one is registered. */
  function BroadcastAll(st: EngineState, events: seq<Event>): (r: seq<Delivery>)
    ensures st.sink.None? ==> r == []
    ensures st.sink.Some? ==> |r| == |events|
    ensures st.sink.Some? ==> forall i :: 0 <= i < |r| ==> r[i] == Delivery(st.sink.value, events[i])
  {
    match st.sink
    case Some(s) => seq(|events|, i requires 0 <= i < |events| => Delivery(s, events[i]))
    case None => []
  }

  lemma BroadcastAllAppend(st: EngineState, a: seq<Event>, b: seq<Event>)
    ensures BroadcastAll(st, a + b) == BroadcastAll(st, a) + BroadcastAll(st, b)
  {
  }

  // ---------------------------------------------------------------------
  // The receive loop

  /** The event one receive result becomes: a string message a text event, a
      data message a binary event, a failure an error event, and a message of
      an unknown kind nothing. */
  function EventOf(result: ReceiveResult): (r: Option<Event>)
    ensures r.None? <==> result == Received(UnknownMessage)
    ensures result.ReceiveFailed? ==> r == Some(ErrorEvent(result.error))
    ensures result.Received? && result.message.StringMessage? ==> r == Some(Text(result.message.text))
    ensures result.Received? && result.message.DataMessage? ==> r == Some(Binary(result.message.data))
  {
    match result
    case Received(StringMessage(s)) => Some(Text(s))
    case Received(DataMessage(d)) => Some(Binary(d))
    case Received(UnknownMessage) => None
    case ReceiveFailed(e) => Some(ErrorEvent(e))
  }

  /** The receive result an event stands for, for the events the loop makes. */
  function ResultOf(e: Event): Option<ReceiveResult> {
    match e
    case Text(s) => Some(Received(StringMessage(s)))
    case Binary(d) => Some(Received(DataMessage(d)))
    case ErrorEvent(err) => Some(ReceiveFailed(err))
    case _ => None
  }

  /** The translation loses nothing: distinct results give distinct events. */
  lemma EventOfInjective(result: ReceiveResult)
    requires EventOf(result).Some?
    ensures ResultOf(EventOf(result).value) == Some(result)
  {
  }

  /** What the loop outputs: deliveries to the delegate and further receives. */
  datatype LoopOutput = LoopOutput(deliveries: seq<Delivery>, commands: seq<Command>)

  /** The receive callback of `doRead`: if the engine is still alive, broadcast
      the result's event (if it has one) and re-arm the loop, after a failure
      too; if the engine is gone, do nothing at all. */
  function OnReceive(st: EngineState, alive: bool, result: ReceiveResult): (r: LoopOutput)
    ensures !alive ==> r.deliveries == [] && r.commands == []
    ensures alive ==> r.commands == Read(st)
    ensures alive && EventOf(result).None? ==> r.deliveries == []
    ensures alive && EventOf(result).Some? ==> r.deliveries == Broadcast(st, EventOf(result).value)
  {
    if !alive then LoopOutput([], [])
    else
      var delivered := match EventOf(result)
        case Some(e) => Broadcast(st, e)
        case None => [];
      LoopOutput(delivered, Read(st))
  }

  /** One receive result as it arrives, and whether the engine was still alive
      when its callback ran. */
  datatype Arrival = Arrival(alive: bool, result: ReceiveResult)

  /** The results of the arrivals, in order. */
  function Results(arrivals: seq<Arrival>): (r: seq<ReceiveResult>)
    ensures |r| == |arrivals|
    ensures forall i :: 0 <= i < |r| ==> r[i] == arrivals[i].result
  {
    seq(|arrivals|, i requires 0 <= i < |arrivals| => arrivals[i].result)
  }

  /** The events a sequence of receive results becomes, in arrival order. */
  function Events(results: seq<ReceiveResult>): (r: seq<Event>)
    ensures |r| <= |results|
  {
    if |results| == 0 then [] else EventOf(results[0]).ToSeq() + Events(results[1..])
  }

  /** The translation respects arrival order: the events of two runs of
      results one after the other are the events of the first run followed by
      those of the second. */
  lemma {:induction false} EventsAppend(a: seq<ReceiveResult>, b: seq<ReceiveResult>)
    ensures Events(a + b) == Events(a) + Events(b)
    decreases |a|
  {
    if |a| > 0 {
      assert (a + b)[0] == a[0];
      assert (a + b)[1..] == a[1..] + b;
      EventsAppend(a[1..], b);
    } else {
      assert a + b == b;
    }
  }

  /** Without messages of unknown kind, every result yields exactly one event,
      and the i-th event is the translation of the i-th result. */
  lemma {:induction false} EventsOneToOne(results: seq<ReceiveResult>)
    requires forall i :: 0 <= i < |results| ==> results[i] != Received(UnknownMessage)
    ensures |Events(results)| == |results|
    ensures forall i :: 0 <= i < |results| ==> Events(results)[i] == EventOf(results[i]).value
    decreases |results|
  {
    if |results| > 0 {
      var tail := results[1..];
      assert forall i :: 0 <= i < |tail| ==> tail[i] == results[i + 1];
      EventsOneToOne(tail);
      assert Events(results) == [EventOf(results[0]).value] + Events(tail);
    }
  }

  /** How many arrivals in a row, from the first, found the engine alive. */
  function LivePrefix(arrivals: seq<Arrival>): (k: nat)
    ensures k <= |arrivals|
    ensures forall i :: 0 <= i < k ==> arrivals[i].alive
    ensures k < |arrivals| ==> !arrivals[k].alive
  {
    if |arrivals| == 0 || !arrivals[0].alive then 0 else 1 + LivePrefix(arrivals[1..])
  }

  /** The events of a live prefix that starts with a live arrival: that
      arrival's event, then the events of the live prefix of the rest. */
  lemma {:induction false} LivePrefixEvents(arrivals: seq<Arrival>)
    requires |arrivals| > 0 && arrivals[0].alive
    ensures Events(Results(arrivals[..LivePrefix(arrivals)]))
            == EventOf(arrivals[0].result).ToSeq() + Events(Results(arrivals[1..][..LivePrefix(arrivals[1..])]))
  {
    var k' := LivePrefix(arrivals[1..]);
    assert LivePrefix(arrivals) == k' + 1;
    var rs := Results(arrivals[..k' + 1]);
    assert rs[1..] == Results(arrivals[1..][..k']);
  }

  /** The receive loop run over a sequence of arrivals on an unchanging state.
      Each callback that finds the engine alive delivers its event and arms the
      next receive; the first that finds it gone arms nothing, so nothing after
      it can arrive. Hence the loop delivers exactly the events of the live
      prefix of the arrivals, in arrival order (failures included, unknown
      messages skipped), and issues one receive per live arrival. */
  function ReadLoop(st: EngineState, arrivals: seq<Arrival>): (r: LoopOutput)
    ensures r.deliveries == BroadcastAll(st, Events(Results(arrivals[..LivePrefix(arrivals)])))
    ensures |r.commands| == (if st.task.Some? then LivePrefix(arrivals) else 0)
    ensures forall i :: 0 <= i < |r.commands| ==> st.task.Some? && r.commands[i] == Receive(st.task.value)
    decreases |arrivals|
  {
    if |arrivals| == 0 then LoopOutput([], [])
    else if !arrivals[0].alive then OnReceive(st, false, arrivals[0].result)
    else
      var first := OnReceive(st, true, arrivals[0].result);
      var rest := ReadLoop(st, arrivals[1..]);
      ReadLoopStep(st, arrivals, first, rest);
      LoopOutput(first.deliveries + rest.deliveries, first.commands + rest.commands)
  }

  /** One live callback followed by the rest of the loop delivers the live
      prefix's events and arms one receive per live arrival. */
  lemma {:induction false} ReadLoopStep(st: EngineState, arrivals: seq<Arrival>, first: LoopOutput, rest: LoopOutput)
    requires |arrivals| > 0 && arrivals[0].alive
    requires first == OnReceive(st, true, arrivals[0].result)
    requires rest.deliveries == BroadcastAll(st, Events(Results(arrivals[1..][..LivePrefix(arrivals[1..])])))
    requires |rest.commands| == (if st.task.Some? then LivePrefix(arrivals[1..]) else 0)
    requires forall i :: 0 <= i < |rest.commands| ==> st.task.Some? && rest.commands[i] == Receive(st.task.value)
    ensures first.deliveries + rest.deliveries == BroadcastAll(st, Events(Results(arrivals[..LivePrefix(arrivals)])))
    ensures |first.commands + rest.commands| == (if st.task.Some? then LivePrefix(arrivals) else 0)
    ensures forall i :: 0 <= i < |first.commands + rest.commands| ==>
              st.task.Some? && (first.commands + rest.commands)[i] == Receive(st.task.value)
  {
    var e := EventOf(arrivals[0].result).ToSeq();
    var later := Events(Results(arrivals[1..][..LivePrefix(arrivals[1..])]));
    LivePrefixEvents(arrivals);
    BroadcastAllAppend(st, e, later);
    assert first.deliveries == BroadcastAll(st, e);
  }

  // ---------------------------------------------------------------------
  // Session callbacks

  /** The header name under which the negotiated sub-protocol is reported;
      the `Sec-WebSocket-Protocol` header of section 11.3.4 of RFC 6455. */
  const ProtocolHeader: string := "Sec-WebSocket-Protocol"

  /** The session-opened callback: a `connected` event whose only header is the
      negotiated protocol, or the empty string when none was negotiated. */
  function OnOpen(st: EngineState, negotiated: Option<string>): (r: seq<Delivery>)
    ensures r == [] <==> st.sink.None?
    ensures r != [] ==> |r| == 1 && r[0].sink == st.sink.value && r[0].event.Connected?
    ensures r != [] ==> r[0].event.headers.Keys == {ProtocolHeader}
    ensures r != [] && negotiated.Some? ==> r[0].event.headers[ProtocolHeader] == negotiated.value
    ensures r != [] && negotiated.None? ==> r[0].event.headers[ProtocolHeader] == ""
  {
    var p := negotiated.GetOr("");
    Broadcast(st, Connected(map[ProtocolHeader := p]))
  }

  /** The close reason as text: the string the reason bytes encode, or the
      empty string when there are none or they are not valid UTF-8. */
  function CloseReason(reason: Option<Bytes>): (r: string)
    ensures reason.Some? && Utf8.IsValid(reason.value) ==> Utf8.Encode(r) == reason.value
    ensures !(reason.Some? && Utf8.IsValid(reason.value)) ==> r == ""
  {
    match reason
    case None => ""
    case Some(d) => Utf8.Decode(d).GetOr("")
  }

  /** The session-closed callback: a `disconnected` event with the reason
      text and the numeric value of the status, from which the status can be
      recovered. */
  function OnClose(st: EngineState, status: CloseCode, reason: Option<Bytes>): (r: seq<Delivery>)
    ensures r == [] <==> st.sink.None?
    ensures r != [] ==> |r| == 1 && r[0].sink == st.sink.value && r[0].event.Disconnected?
    ensures r != [] ==> FromRawValue(r[0].event.code) == Some(status)
    ensures r != [] ==> r[0].event.reason == CloseReason(reason)
  {
    RawValueRoundTrip(status);
    Broadcast(st, Disconnected(CloseReason(reason), RawValue(status)))
  }

  /** A reason that encodes a string is reported as that string. */
  lemma CloseReasonOfEncoding(st: EngineState, status: CloseCode, text: string)
    requires st.sink.Some?
    ensures OnClose(st, status, Some(Utf8.Encode(text)))
            == [Delivery(st.sink.value, Disconnected(text, RawValue(status)))]
  {
    Utf8.DecodeEncode(text);
  }
}
