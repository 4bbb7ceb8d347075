/** The JavaScript tracer: a stack machine that rebuilds the call tree from the
    enter and exit events of the EVM. */
module CallTracer {
  import opened JsObjects
  import opened Types

  /** The frame object handed to `enter`. STATICCALL and DELEGATECALL frames
      carry no value. */
  datatype EnterFrame = EnterFrame(
    kind: OpType,
    from: Address,
    to: Address,
    input: string,
    gas: nat,
    value: Option<nat>)

  /** The frame result handed to `exit`. */
  datatype ExitFrame = ExitFrame(gasUsed: nat, output: string, error: Option<string>)

  datatype Event = Enter(frame: EnterFrame) | Exit(result: ExitFrame)

  /** The context of the outermost message, known when the trace ends. */
  datatype Context = Context(
    kind: OpType,
    from: Address,
    to: Address,
    value: nat,
    gas: nat,
    gasUsed: nat,
    input: string,
    output: string,
    error: Option<string>)

  // ---------- The machine as a function of its events ----------

  function Opened(f: EnterFrame): JsCall {
    EMPTY_CALL.(kind := Some(f.kind), from := Some(f.from), to := Some(f.to),
                input := Some(f.input), gas := Some(f.gas), value := f.value)
  }

  /** An open call once its result is known. A create that failed loses the
      address it would have created. */
  function Closed(call: JsCall, r: ExitFrame): JsCall {
    var call := call.(gasUsed := Some(r.gasUsed));
    if r.error.None? then call.(output := Some(r.output))
    else if call.kind == Some(CreateOpType) || call.kind == Some(Create2OpType) then call.(error := r.error, to := None)
    else call.(error := r.error)
  }

  function AddCalls(call: JsCall, more: seq<JsCall>): JsCall {
    call.(calls := call.calls + more)
  }

  function Step(stack: seq<JsCall>, ev: Event): seq<JsCall> {
    match ev
    case Enter(f) => stack + [Opened(f)]
    case Exit(r) =>
      var n := |stack|;
      if n <= 1 then stack
      else stack[..n - 2] + [AddCalls(stack[n - 2], [Closed(stack[n - 1], r)])]
  }

  function RunFrom(stack: seq<JsCall>, evs: seq<Event>): seq<JsCall>
    decreases evs
  {
    if evs == [] then stack else RunFrom(Step(stack, evs[0]), evs[1..])
  }

  function Run(evs: seq<Event>): seq<JsCall> {
    RunFrom([EMPTY_CALL], evs)
  }

  /** The call object reported for the outermost message, given the bottom of the stack. */
  function RootCall(bottom: JsCall, ctx: Context): JsCall {
    var error := if bottom.error.Some? then bottom.error else ctx.error;
    var dropOutput := error.Some? && (error.value != "execution reverted" || ctx.output == "0x");
    JsCall(Some(ctx.kind), Some(ctx.from), Some(ctx.to), Some(ctx.value), Some(ctx.gas),
           Some(ctx.gasUsed), Some(ctx.input), if dropOutput then None else Some(ctx.output),
           error, None, bottom.calls)
  }

  /** What must be reported of the outermost message: its context, the calls recorded
      at the bottom of the stack, the error found there or else the context's; and
      its output unless it ended in an error, other than a revert with output. */
  ghost predicate ReportsOutermost(bottom: JsCall, ctx: Context, c: JsCall) {
    c.kind == Some(ctx.kind) && c.from == Some(ctx.from) && c.to == Some(ctx.to) && c.value == Some(ctx.value)
    && c.gas == Some(ctx.gas) && c.gasUsed == Some(ctx.gasUsed) && c.input == Some(ctx.input)
    && c.error == (if bottom.error.Some? then bottom.error else ctx.error)
    && (c.output == None <==> c.error.Some? && !(c.error == Some("execution reverted") && ctx.output != "0x"))
    && (c.output == None || c.output == Some(ctx.output))
    && c.time == None && c.calls == bottom.calls
  }

  lemma {:induction false} OutermostReported(bottom: JsCall, ctx: Context)
    ensures ReportsOutermost(bottom, ctx, RootCall(bottom, ctx))
  {
  }

  class Tracer {
    var callstack: seq<JsCall>

    constructor ()
      ensures callstack == [EMPTY_CALL]
    {
      callstack := [EMPTY_CALL];
    }

    method Enter(frame: EnterFrame)
      modifies this
      ensures callstack == Step(old(callstack), Event.Enter(frame))
    {
      var call := EMPTY_CALL.(
        kind := Some(frame.kind),
        from := Some(frame.from),
        to := Some(frame.to),
        input := Some(frame.input),
        gas := Some(frame.gas));
      if frame.value.Some? {
        call := call.(value := frame.value);
      }
      callstack := callstack + [call];
    }

    method Exit(frameResult: ExitFrame)
      modifies this
      ensures callstack == Step(old(callstack), Event.Exit(frameResult))
    {
      var len := |callstack|;
      if len > 1 {
        var call := callstack[len - 1];
        callstack := callstack[..len - 1];
        call := call.(gasUsed := Some(frameResult.gasUsed));
        if frameResult.error.None? {
          call := call.(output := Some(frameResult.output));
        } else {
          call := call.(error := frameResult.error);
          if call.kind == Some(CreateOpType) || call.kind == Some(Create2OpType) {
            call := call.(to := None);
          }
        }
        len := len - 1;
        var parent := callstack[len - 1];
        callstack := callstack[len - 1 := parent.(calls := parent.calls + [call])];
      }
    }

    /** Feeds a whole event stream to the machine. */
    method Feed(evs: seq<Event>)
      modifies this
      ensures callstack == RunFrom(old(callstack), evs)
    {
      var i := 0;
      while i < |evs|
        invariant 0 <= i <= |evs|
        invariant RunFrom(callstack, evs[i..]) == RunFrom(old(callstack), evs)
      {
        match evs[i] {
          case Enter(f) => Enter(f);
          case Exit(r) => Exit(r);
        }
        assert evs[i..][1..] == evs[i + 1..];
        i := i + 1;
      }
    }

    /** Reports the outermost call as an object with its keys in display order, from
        which decoding reads what was recorded. */
    method Result(ctx: Context) returns (r: JsObject)
      requires callstack != []
      ensures r == Finalized(RootHeld(RootCall(callstack[0], ctx)))
      ensures Read(r) == RootCall(callstack[0], ctx)
      ensures ReportsOutermost(callstack[0], ctx, Read(r))
    {
      var call := Outermost(ctx);
      OutermostReported(callstack[0], ctx);
      ReadFinalized(call);
      r := Finalize(RootHeld(call));
    }

    /** The outermost call: its context, the calls recorded at the bottom of the stack,
        and the error of either. */
    method Outermost(ctx: Context) returns (call: JsCall)
      requires callstack != []
      ensures call == RootCall(callstack[0], ctx)
    {
      call := EMPTY_CALL.(
        kind := Some(ctx.kind),
        from := Some(ctx.from),
        to := Some(ctx.to),
        value := Some(ctx.value),
        gas := Some(ctx.gas),
        gasUsed := Some(ctx.gasUsed),
        input := Some(ctx.input),
        output := Some(ctx.output));
      call := call.(calls := callstack[0].calls);
      if callstack[0].error.Some? {
        call := call.(error := callstack[0].error);
      } else if ctx.error.Some? {
        call := call.(error := ctx.error);
      }
      if call.error.Some? && (call.error != Some("execution reverted") || call.output == Some("0x")) {
        call := call.(output := None);
      }
    }
  }

  // ---------- What the EVM did, as a forest ----------

  /** A finished call frame: how it was entered, how it ended and what it called. */
  datatype Frame = Frame(enter: EnterFrame, exit: ExitFrame, calls: seq<Frame>)

  /** The events of running the frames of `fs` one after the other. */
  function Serialize(fs: seq<Frame>): seq<Event>
    decreases fs, 0
  {
    if fs == [] then []
    else FrameEvents(fs[0]) + Serialize(fs[1..])
  }

  /** The call object of a finished frame. */
  function Record(f: Frame): JsCall
    decreases f, 1
  {
    AddCalls(Closed(Opened(f.enter), f.exit), Records(f.calls))
  }

  function Records(fs: seq<Frame>): (r: seq<JsCall>)
    ensures |r| == |fs|
    decreases fs, 0
  {
    if fs == [] then [] else [Record(fs[0])] + Records(fs[1..])
  }

  lemma {:induction false} RunFromConcat(stack: seq<JsCall>, a: seq<Event>, b: seq<Event>)
    ensures RunFrom(stack, a + b) == RunFrom(RunFrom(stack, a), b)
    decreases a
  {
    if a == [] {
      assert a + b == b;
    } else {
      assert (a + b)[1..] == a[1..] + b;
      RunFromConcat(Step(stack, a[0]), a[1..], b);
    }
  }

  /** The events of one frame. */
  function FrameEvents(f: Frame): seq<Event>
    decreases f, 1
  {
    [Enter(f.enter)] + Serialize(f.calls) + [Exit(f.exit)]
  }

  lemma {:induction false} AddNoCalls(call: JsCall)
    ensures AddCalls(call, []) == call
  {
    assert call.calls + [] == call.calls;
  }

  lemma {:induction false} AddCallsTwice(call: JsCall, a: seq<JsCall>, b: seq<JsCall>)
    ensures AddCalls(AddCalls(call, a), b) == AddCalls(call, a + b)
  {
    assert call.calls + a + b == call.calls + (a + b);
  }

  /** Exiting pops the finished call and hangs it under its parent. */
  lemma {:induction false} StepExit(below: seq<JsCall>, parent: JsCall, call: JsCall, r: ExitFrame)
    ensures Step(below + [parent] + [call], Exit(r)) == below + [AddCalls(parent, [Closed(call, r)])]
  {
    var stack := below + [parent] + [call];
    assert stack[..|stack| - 2] == below;
  }

  lemma {:induction false} RunOne(stack: seq<JsCall>, ev: Event)
    ensures RunFrom(stack, [ev]) == Step(stack, ev)
  {
    assert RunFrom(Step(stack, ev), [ev][1..]) == Step(stack, ev);
  }

  /** Running the events of a frame hangs its record under the open call. */
  lemma {:induction false} RunFrame(below: seq<JsCall>, open: JsCall, f: Frame)
    ensures RunFrom(below + [open], FrameEvents(f)) == below + [AddCalls(open, [Record(f)])]
    decreases f, 1
  {
    var stack := below + [open];
    RunFromConcat(stack, [Enter(f.enter)] + Serialize(f.calls), [Exit(f.exit)]);
    RunFromConcat(stack, [Enter(f.enter)], Serialize(f.calls));
    RunOne(stack, Enter(f.enter));
    RunSerialized(stack, Opened(f.enter), f.calls);
    var top := AddCalls(Opened(f.enter), Records(f.calls));
    RunOne(stack + [top], Exit(f.exit));
    StepExit(below, open, top, f.exit);
    assert Closed(top, f.exit) == Record(f);
  }

  /** Running the events of a forest hangs its records under the open call and
      changes nothing else on the stack. */
  lemma {:induction false} RunSerialized(below: seq<JsCall>, open: JsCall, fs: seq<Frame>)
    ensures RunFrom(below + [open], Serialize(fs)) == below + [AddCalls(open, Records(fs))]
    decreases fs, 0
  {
    if fs == [] {
      AddNoCalls(open);
    } else {
      RunFromConcat(below + [open], FrameEvents(fs[0]), Serialize(fs[1..]));
      RunFrame(below, open, fs[0]);
      RunSerialized(below, AddCalls(open, [Record(fs[0])]), fs[1..]);
      AddCallsTwice(open, [Record(fs[0])], Records(fs[1..]));
    }
  }

  /** The tracer inverts serialisation: after the events of a forest, that forest
      is recorded under the bottom of a stack of length one. */
  lemma {:induction false} TracerInverse(fs: seq<Frame>)
    ensures Run(Serialize(fs)) == [EMPTY_CALL.(calls := Records(fs))]
  {
    RunSerialized([], EMPTY_CALL, fs);
    assert [] + [EMPTY_CALL] == [EMPTY_CALL];
    assert EMPTY_CALL.calls + Records(fs) == Records(fs);
    assert [] + [AddCalls(EMPTY_CALL, Records(fs))] == [EMPTY_CALL.(calls := Records(fs))];
  }

  /** What must be recorded of a frame besides its calls: the data it was entered with,
      but for the address of a create that ended in an error; gas used; and either
      the output or the error. */
  ghost predicate RecordsFrame(enter: EnterFrame, exit: ExitFrame, c: JsCall) {
    c.kind == Some(enter.kind) && c.from == Some(enter.from) && c.value == enter.value
    && c.to == (if exit.error.Some? && enter.kind in {CreateOpType, Create2OpType} then None else Some(enter.to))
    && c.gas == Some(enter.gas) && c.input == Some(enter.input) && c.gasUsed == Some(exit.gasUsed)
    && c.output == (if exit.error.Some? then None else Some(exit.output))
    && c.error == exit.error && c.time == None
  }

  lemma {:induction false} RecordOf(f: Frame)
    ensures RecordsFrame(f.enter, f.exit, Record(f)) && Record(f).calls == Records(f.calls)
  {
    assert [] + Records(f.calls) == Records(f.calls);
  }

  // ---------- Arbitrary streams ----------

  /** How many frames are open after `evs`, when exits without an open frame are ignored. */
  function Open(evs: seq<Event>): nat {
    if evs == [] then 0
    else
      var before := Open(evs[..|evs| - 1]);
      if evs[|evs| - 1].Enter? then before + 1 else if before > 0 then before - 1 else 0
  }

  lemma {:induction false} RunSnoc(stack: seq<JsCall>, evs: seq<Event>)
    requires evs != []
    ensures RunFrom(stack, evs) == Step(RunFrom(stack, evs[..|evs| - 1]), evs[|evs| - 1])
  {
    RunFromConcat(stack, evs[..|evs| - 1], [evs[|evs| - 1]]);
    assert evs == evs[..|evs| - 1] + [evs[|evs| - 1]];
    var s := RunFrom(stack, evs[..|evs| - 1]);
    assert RunFrom(s, [evs[|evs| - 1]]) == Step(s, evs[|evs| - 1]);
  }

  /** Whatever the events, even unbalanced ones, the root is never popped and
      never gains a key besides `calls`, and the stack holds one call per open frame above it. */
  lemma {:induction false} RootNeverPopped(evs: seq<Event>)
    ensures |Run(evs)| == 1 + Open(evs)
    ensures Run(evs)[0] == EMPTY_CALL.(calls := Run(evs)[0].calls)
  {
    if evs != [] {
      RunSnoc([EMPTY_CALL], evs);
      RootNeverPopped(evs[..|evs| - 1]);
    }
  }

  // ---------- Well-nested streams ----------

  function Depth(evs: seq<Event>): int {
    if evs == [] then 0
    else Depth(evs[..|evs| - 1]) + if evs[|evs| - 1].Enter? then 1 else -1
  }

  /** Every exit has its enter, and every frame is exited. */
  ghost predicate WellNested(evs: seq<Event>) {
    Depth(evs) == 0 && forall i :: 0 <= i <= |evs| ==> Depth(evs[..i]) >= 0
  }

  /** A frame that has been entered but not exited, with the calls it has finished. */
  datatype OpenFrame = OpenFrame(enter: EnterFrame, done: seq<Frame>)

  /** The events that lead to finished frames `done` and open frames `opens` above them. */
  ghost function History(done: seq<Frame>, opens: seq<OpenFrame>): seq<Event> {
    if opens == [] then Serialize(done)
    else
      var top := opens[|opens| - 1];
      History(done, opens[..|opens| - 1]) + [Enter(top.enter)] + Serialize(top.done)
  }

  lemma {:induction false} SerializeConcat(a: seq<Frame>, b: seq<Frame>)
    ensures Serialize(a + b) == Serialize(a) + Serialize(b)
  {
    if a == [] {
      assert a + b == b;
    } else {
      assert (a + b)[1..] == a[1..] + b;
      SerializeConcat(a[1..], b);
    }
  }

  /** Finishing the top open frame appends its exit event. */
  lemma {:induction false} HistoryExit(done: seq<Frame>, opens: seq<OpenFrame>, r: ExitFrame)
    returns (done': seq<Frame>, opens': seq<OpenFrame>)
    requires opens != []
    ensures |opens'| == |opens| - 1
    ensures History(done', opens') == History(done, opens) + [Exit(r)]
  {
    var n := |opens|;
    var top := opens[n - 1];
    var f := Frame(top.enter, r, top.done);
    assert opens == opens[..n - 1] + [top];
    if n == 1 {
      done', opens' := done + [f], [];
      ExitBottom(done, top, r);
    } else {
      var below, parent := opens[..n - 2], opens[n - 2];
      done', opens' := done, below + [OpenFrame(parent.enter, parent.done + [f])];
      assert opens[..n - 1] == below + [parent];
      ExitInner(done, below, parent, top, r);
    }
  }

  lemma {:induction false} ExitBottom(done: seq<Frame>, top: OpenFrame, r: ExitFrame)
    ensures History(done + [Frame(top.enter, r, top.done)], []) == History(done, [top]) + [Exit(r)]
  {
    var f := Frame(top.enter, r, top.done);
    SerializeOne(f);
    SerializeConcat(done, [f]);
    HistorySnoc(done, [], top);
    assert [] + [top] == [top];
    AddExit(Serialize(done), f);
  }

  lemma {:induction false} ExitInner(done: seq<Frame>, below: seq<OpenFrame>, parent: OpenFrame,
                                     top: OpenFrame, r: ExitFrame)
    ensures var f := Frame(top.enter, r, top.done);
            History(done, below + [OpenFrame(parent.enter, parent.done + [f])])
            == History(done, below + [parent] + [top]) + [Exit(r)]
  {
    var f := Frame(top.enter, r, top.done);
    SerializeOne(f);
    SerializeConcat(parent.done, [f]);
    HistorySnoc(done, below + [parent], top);
    HistorySnoc(done, below, parent);
    HistorySnoc(done, below, OpenFrame(parent.enter, parent.done + [f]));
    var before := History(done, below) + [Enter(parent.enter)];
    AddExit(before + Serialize(parent.done), f);
    Associate(before, Serialize(parent.done), FrameEvents(f));
  }

  lemma {:induction false} Associate(a: seq<Event>, b: seq<Event>, c: seq<Event>)
    ensures a + b + c == a + (b + c)
  {
  }

  lemma {:induction false} SerializeOne(f: Frame)
    ensures Serialize([f]) == FrameEvents(f)
  {
    assert [f][1..] == [] && FrameEvents(f) + [] == FrameEvents(f);
  }

  lemma {:induction false} HistorySnoc(done: seq<Frame>, opens: seq<OpenFrame>, o: OpenFrame)
    ensures History(done, opens + [o]) == History(done, opens) + [Enter(o.enter)] + Serialize(o.done)
  {
    assert (opens + [o])[..|opens|] == opens;
  }

  lemma {:induction false} AddExit(before: seq<Event>, f: Frame)
    ensures before + [Enter(f.enter)] + Serialize(f.calls) + [Exit(f.exit)] == before + FrameEvents(f)
  {
  }

  lemma {:induction false} BuildHistory(evs: seq<Event>) returns (done: seq<Frame>, opens: seq<OpenFrame>)
    requires forall i :: 0 <= i <= |evs| ==> Depth(evs[..i]) >= 0
    ensures |opens| == Depth(evs)
    ensures History(done, opens) == evs
  {
    if evs == [] {
      done, opens := [], [];
    } else {
      var before, ev := evs[..|evs| - 1], evs[|evs| - 1];
      forall i | 0 <= i <= |before| ensures Depth(before[..i]) >= 0 {
        assert before[..i] == evs[..i];
      }
      done, opens := BuildHistory(before);
      assert Depth(evs) >= 0 by { assert evs[..|evs|] == evs; }
      match ev {
        case Enter(f) =>
          var opens' := opens + [OpenFrame(f, [])];
          assert opens'[..|opens|] == opens;
          opens := opens';
        case Exit(r) =>
          done, opens := HistoryExit(done, opens, r);
      }
      assert evs == before + [ev];
    }
  }

  /** Every well-nested stream is the serialisation of a forest. */
  lemma {:induction false} WellNestedIsForest(evs: seq<Event>) returns (fs: seq<Frame>)
    requires WellNested(evs)
    ensures Serialize(fs) == evs
  {
    var opens;
    fs, opens := BuildHistory(evs);
  }
}
