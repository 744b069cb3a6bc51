/** Sequences of calls on one engine, and the properties that hold across
    them: the delegate registration survives everything but `register`, every
    `start` draws a handle never seen before, every command lands on a handle
    that exists, and before the first `start` the transport is never touched. */
module EngineTrace {
  import opened Base
  import Utf8
  import opened CloseCodes
  import opened EngineTypes
  import opened NativeEngine

  /** One call on the engine interface. */
  datatype Call =
    | RegisterCall(sink: SinkId)
    | StartCall(request: Request)
    | StopCall(code: UInt16)
    | ForceStopCall
    | WriteDataCall(data: Bytes, opcode: FrameOpCode)
    | WriteStringCall(text: string)

  /** The accumulated effect of calls: the final state, the commands issued in
      order, and the outcomes writes completed with at once, in order. */
  datatype Effect = Effect(state: EngineState, commands: seq<Command>, immediate: seq<Outcome>)

  /** The call does not trap in this state. */
  predicate CallAllowed(st: EngineState, call: Call) {
    call.WriteDataCall? ==> WriteDataAllowed(st, call.data, call.opcode)
  }

  predicate IsWrite(call: Call) {
    call.WriteDataCall? || call.WriteStringCall?
  }

  /** `c` creates the task `t`. */
  predicate Creates(c: Command, t: TaskId) {
    c.CreateTask? && c.task == t
  }

  /** The tasks the commands create lie in `[lo, hi)`. */
  predicate CreatesWithin(cs: seq<Command>, lo: nat, hi: nat) {
    forall i :: 0 <= i < |cs| && cs[i].CreateTask? ==> lo <= cs[i].task < hi
  }

  /** The tasks the commands create are drawn in strictly increasing order. */
  predicate CreatesIncreasing(cs: seq<Command>) {
    forall i, j :: 0 <= i < j < |cs| && cs[i].CreateTask? && cs[j].CreateTask? ==> cs[i].task < cs[j].task
  }

  /** Every command other than a creation lands on the `initial` task or on
      one an earlier command created. */
  predicate TargetsKnown(initial: Option<TaskId>, cs: seq<Command>) {
    forall i :: 0 <= i < |cs| && !cs[i].CreateTask? ==>
      initial == Some(cs[i].task) || exists j :: 0 <= j < i && Creates(cs[j], cs[i].task)
  }

  /** One call. Only `register` changes the delegate and only `start` the
      handle; a created task is the one `start` drew; every other command lands
      on the handle current after the call; writes without a task fail at once
      with "not initialized", and nothing but `start` reaches the transport
      while there is no task. */
  function Apply(st: EngineState, call: Call): (r: Effect)
    requires CallAllowed(st, call)
    ensures r.state.sink == (if call.RegisterCall? then Some(call.sink) else st.sink)
    ensures r.state.task == (if call.StartCall? then Some(st.nextTask) else st.task)
    ensures r.state.nextTask == (if call.StartCall? then st.nextTask + 1 else st.nextTask)
    ensures forall i :: 0 <= i < |r.commands| && r.commands[i].CreateTask? ==>
              i == 0 && call.StartCall? && r.commands[i].task == st.nextTask
    ensures forall i :: 0 <= i < |r.commands| && !r.commands[i].CreateTask? ==>
              r.state.task == Some(r.commands[i].task)
    ensures st.task.None? && !call.StartCall? ==> r.commands == []
    ensures st.task.None? && IsWrite(call) ==> r.immediate == [Failure(NotInitialized)]
    ensures !IsWrite(call) ==> r.immediate == []
  {
    match call
    case RegisterCall(s) =>
      var step := Register(st, s);
      Effect(step.state, step.commands, [])
    case StartCall(request) =>
      var step := Start(st, request);
      Effect(step.state, step.commands, [])
    case StopCall(code) =>
      var step := Stop(st, code);
      Effect(step.state, step.commands, [])
    case ForceStopCall =>
      var step := ForceStop(st);
      Effect(step.state, step.commands, [])
    case WriteDataCall(data, op) =>
      var w := WriteData(st, data, op);
      Effect(st, w.commands, w.immediate.ToSeq())
    case WriteStringCall(text) =>
      var w := WriteString(st, text);
      Effect(st, w.commands, w.immediate.ToSeq())
  }

  /** No call in the sequence traps when it is made. */
  predicate Admissible(st: EngineState, calls: seq<Call>)
    decreases |calls|
  {
    |calls| == 0 || (CallAllowed(st, calls[0]) && Admissible(Apply(st, calls[0]).state, calls[1..]))
  }

  /** The calls made one after another. */
  function Run(st: EngineState, calls: seq<Call>): (r: Effect)
    requires Admissible(st, calls)
    ensures Valid(st) ==> Valid(r.state)
    ensures r.state.nextTask >= st.nextTask
    decreases |calls|
  {
    if |calls| == 0 then Effect(st, [], [])
    else
      var first := Apply(st, calls[0]);
      var rest := Run(first.state, calls[1..]);
      Effect(rest.state, first.commands + rest.commands, first.immediate + rest.immediate)
  }

  /** None of the calls registers a delegate. */
  predicate NoRegister(calls: seq<Call>) {
    forall i :: 0 <= i < |calls| ==> !calls[i].RegisterCall?
  }

  /** The call at `i` is the last `register` among the calls. */
  predicate LastRegister(calls: seq<Call>, i: int) {
    0 <= i < |calls| && calls[i].RegisterCall? && NoRegister(calls[i + 1..])
  }

  /** The delegate after a run is the one the last `register` named, or the
      original one when nothing was registered: `start`, `stop` and writes
      never disturb the registration. */
  lemma {:induction false} RunKeepsLastSink(st: EngineState, calls: seq<Call>)
    requires Admissible(st, calls)
    ensures NoRegister(calls) ==> Run(st, calls).state.sink == st.sink
    ensures forall i :: LastRegister(calls, i) ==> Run(st, calls).state.sink == Some(calls[i].sink)
    decreases |calls|
  {
    if |calls| > 0 {
      var first := Apply(st, calls[0]);
      var tail := calls[1..];
      RunKeepsLastSink(first.state, tail);
      forall i | LastRegister(calls, i)
        ensures Run(st, calls).state.sink == Some(calls[i].sink)
      {
        assert tail[i..] == calls[i + 1..];
        if i > 0 {
          assert LastRegister(tail, i - 1);
        } else {
          assert NoRegister(tail);
        }
      }
      if NoRegister(calls) {
        assert forall k :: 0 <= k < |tail| ==> tail[k] == calls[k + 1];
        assert NoRegister(tail);
      }
    }
  }

  /** Every task a run creates is new: they are drawn in strictly increasing
      order, from at least the engine's next identity, so no two `start`s share
      a handle and none reuses a handle the engine had before. */
  lemma {:induction false} RunCreatesFreshTasks(st: EngineState, calls: seq<Call>)
    requires Admissible(st, calls)
    ensures CreatesWithin(Run(st, calls).commands, st.nextTask, Run(st, calls).state.nextTask)
    ensures CreatesIncreasing(Run(st, calls).commands)
    decreases |calls|
  {
    if |calls| > 0 {
      var first := Apply(st, calls[0]);
      var rest := Run(first.state, calls[1..]);
      RunCreatesFreshTasks(first.state, calls[1..]);
      var cs := Run(st, calls).commands;
      var n := |first.commands|;
      assert cs == first.commands + rest.commands;
      assert CreatesWithin(rest.commands, first.state.nextTask, rest.state.nextTask);
      assert CreatesIncreasing(rest.commands);
      forall i | 0 <= i < |cs| && cs[i].CreateTask?
        ensures st.nextTask <= cs[i].task < Run(st, calls).state.nextTask
      {
        if i < n {
          assert cs[i] == first.commands[i];
        } else {
          assert cs[i] == rest.commands[i - n];
          assert rest.commands[i - n].CreateTask?;
        }
      }
      forall i, j | 0 <= i < j < |cs| && cs[i].CreateTask? && cs[j].CreateTask?
        ensures cs[i].task < cs[j].task
      {
        if i < n {
          assert cs[i] == first.commands[i] && first.commands[i].CreateTask?;
          assert cs[j] == rest.commands[j - n] && rest.commands[j - n].CreateTask?;
        } else {
          assert cs[i] == rest.commands[i - n] && rest.commands[i - n].CreateTask?;
          assert cs[j] == rest.commands[j - n] && rest.commands[j - n].CreateTask?;
        }
      }
    }
  }

  /** Every command other than a creation lands on the handle the engine had
      at the outset or on one created earlier in the same run: the engine never
      addresses a task that does not exist. */
  lemma {:induction false} RunTargetsExistingTasks(st: EngineState, calls: seq<Call>)
    requires Admissible(st, calls)
    ensures TargetsKnown(st.task, Run(st, calls).commands)
    decreases |calls|
  {
    if |calls| > 0 {
      var first := Apply(st, calls[0]);
      var rest := Run(first.state, calls[1..]);
      RunTargetsExistingTasks(first.state, calls[1..]);
      var cs := Run(st, calls).commands;
      var n := |first.commands|;
      assert cs == first.commands + rest.commands;
      assert TargetsKnown(first.state.task, rest.commands);
      forall i | 0 <= i < |cs| && !cs[i].CreateTask?
        ensures st.task == Some(cs[i].task) || exists j :: 0 <= j < i && Creates(cs[j], cs[i].task)
      {
        if i < n {
          if calls[0].StartCall? {
            assert Creates(cs[0], cs[i].task);
          }
        } else {
          var k := i - n;
          assert cs[i] == rest.commands[k];
          assert !rest.commands[k].CreateTask?;
          if first.state.task != Some(cs[i].task) {
            assert exists j :: 0 <= j < k && Creates(rest.commands[j], rest.commands[k].task);
            var j :| 0 <= j < k && Creates(rest.commands[j], cs[i].task);
            assert cs[j + n] == rest.commands[j];
          } else if calls[0].StartCall? {
            assert Creates(cs[0], cs[i].task);
          }
        }
      }
    }
  }

  /** The number of writes among the calls. */
  function WriteCount(calls: seq<Call>): (n: nat)
    ensures n <= |calls|
  {
    if |calls| == 0 then 0 else (if IsWrite(calls[0]) then 1 else 0) + WriteCount(calls[1..])
  }

  /** Before any `start` the transport is never touched: `stop` and
      `forceStop` do nothing, and every write, whatever its opcode, completes
      at once with "not initialized". */
  lemma {:induction false} RunWithoutStart(st: EngineState, calls: seq<Call>)
    requires Admissible(st, calls)
    requires st.task.None?
    requires forall i :: 0 <= i < |calls| ==> !calls[i].StartCall?
    ensures Run(st, calls).commands == []
    ensures |Run(st, calls).immediate| == WriteCount(calls)
    ensures forall k :: 0 <= k < |Run(st, calls).immediate| ==> Run(st, calls).immediate[k] == Failure(NotInitialized)
    decreases |calls|
  {
    if |calls| > 0 {
      var first := Apply(st, calls[0]);
      assert forall i :: 0 <= i < |calls| - 1 ==> calls[1..][i] == calls[i + 1];
      RunWithoutStart(first.state, calls[1..]);
    }
  }

  /** `stop` keeps the handle, so a write after it still reaches the task it
      cancelled. */
  lemma WriteAfterStopReachesTask(st: EngineState, code: UInt16, data: Bytes)
    requires st.task.Some?
    ensures Admissible(st, [StopCall(code), WriteDataCall(data, BinaryFrame)])
    ensures Run(st, [StopCall(code), WriteDataCall(data, BinaryFrame)]).commands
            == [Cancel(st.task.value, StopStatus(code), None), SendData(st.task.value, data)]
  {
    var calls := [StopCall(code), WriteDataCall(data, BinaryFrame)];
    var s1 := Apply(st, StopCall(code)).state;
    assert calls[1..] == [WriteDataCall(data, BinaryFrame)];
    assert [WriteDataCall(data, BinaryFrame)][1..] == [];
    assert Run(s1, calls[1..]).commands == [SendData(st.task.value, data)];
  }

  /** `forceStop` is `stop` with the abnormal-closure code, call for call. */
  lemma ForceStopIsStopAbnormal(st: EngineState)
    ensures Apply(st, ForceStopCall) == Apply(st, StopCall(1006))
    ensures st.task.Some? ==> Apply(st, ForceStopCall).commands == [Cancel(st.task.value, AbnormalClosure, None)]
  {
  }

  /** Registering twice in a row is registering once, and registration and
      `start` commute: neither disturbs what the other sets. */
  lemma RegisterIdempotentAndIndependent(st: EngineState, sink: SinkId, request: Request)
    ensures Register(Register(st, sink).state, sink) == Register(st, sink)
    ensures Start(Register(st, sink).state, request).state == Register(Start(st, request).state, sink).state
  {
  }

  /** The receive loop, as written, keeps going after a failure: a failure
      followed by a message delivers an error event and then a text event, and
      arms a receive after each. */
  lemma ReadLoopRearmsAfterFailure(st: EngineState, e: Error, text: string)
    requires st.task.Some? && st.sink.Some?
    ensures var out := ReadLoop(st, [Arrival(true, ReceiveFailed(e)), Arrival(true, Received(StringMessage(text)))]);
      && out.deliveries == [Delivery(st.sink.value, ErrorEvent(e)), Delivery(st.sink.value, Text(text))]
      && out.commands == [Receive(st.task.value), Receive(st.task.value)]
  {
    var arrivals := [Arrival(true, ReceiveFailed(e)), Arrival(true, Received(StringMessage(text)))];
    assert arrivals[1..][1..] == [];
    assert LivePrefix(arrivals) == 2;
    assert arrivals[..2] == arrivals;
    assert Results(arrivals) == [ReceiveFailed(e), Received(StringMessage(text))];
    assert Events([Received(StringMessage(text))]) == [Text(text)];
  }

  /** Once the engine is gone, the callback neither delivers nor re-arms, so
      nothing further happens whatever the transport still reports. */
  lemma ReadLoopStopsWhenEngineGone(st: EngineState, result: ReceiveResult, later: seq<Arrival>)
    ensures ReadLoop(st, [Arrival(false, result)] + later) == LoopOutput([], [])
  {
  }

  /** The life of one connection: register a delegate, start, the peer opens
      with protocol "chat", sends "hi", the owner stops with 1000, and the peer
      closes with reason "bye" and code 1000. */
  lemma ChatSession(sink: SinkId, request: Request)
    ensures var st := Start(Register(Fresh, sink).state, request).state;
      && Start(Register(Fresh, sink).state, request).commands == [CreateTask(0, request), Receive(0), Resume(0)]
      && OnOpen(st, Some("chat")) == [Delivery(sink, Connected(map[ProtocolHeader := "chat"]))]
      && ReadLoop(st, [Arrival(true, Received(StringMessage("hi")))])
         == LoopOutput([Delivery(sink, Text("hi"))], [Receive(0)])
      && Stop(st, 1000).commands == [Cancel(0, NormalClosure, None)]
      && OnClose(st, NormalClosure, Some(Utf8.Encode("bye"))) == [Delivery(sink, Disconnected("bye", 1000))]
  {
    var st := Start(Register(Fresh, sink).state, request).state;
    var arrivals := [Arrival(true, Received(StringMessage("hi")))];
    assert arrivals[1..] == [];
    assert arrivals[..LivePrefix(arrivals)] == arrivals;
    CloseReasonOfEncoding(st, NormalClosure, "bye");
  }
}
