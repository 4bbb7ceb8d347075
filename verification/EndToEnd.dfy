/** From the EVM's events to the flattened trace: the tracer, the decoding and
    the flattening, put together. */
module EndToEnd {
  import opened JsObjects
  import opened Types
  import opened CallTracer
  import opened CallTrees
  import opened Calls

  /** What the pipeline reports for an event stream and its outermost message. */
  function Flattened(evs: seq<Event>, ctx: Context): seq<FlatCall>
  {
    RootNeverPopped(evs);
    Preorder(Close(Decode(RootCall(Run(evs)[0], ctx))))
  }

  method TraceTransaction(evs: seq<Event>, ctx: Context) returns (flat: seq<FlatCall>)
    ensures flat == Flattened(evs, ctx)
  {
    RootNeverPopped(evs);
    var tracer := new Tracer();
    tracer.Feed(evs);
    var report := tracer.Result(ctx);
    var call := Call.FromJSON(Read(report));
    flat := FlattenTraces(call, []);
    SpreadEmpty(Preorder(Close(Decode(Read(report)))));
  }

  // ---------- Matching enters and exits in a stream ----------

  /** The frame entered at `i` is the one exited at `j`: the depth returns to what
      it was before `i` at `j`, and not earlier. */
  ghost predicate ClosesAt(evs: seq<Event>, i: int, j: int) {
    0 <= i < j < |evs| && evs[i].Enter? && evs[j].Exit?
    && Depth(evs[..j + 1]) == Depth(evs[..i])
    && forall m :: i < m <= j ==> Depth(evs[..m]) > Depth(evs[..i])
  }

  lemma {:induction false} ClosesOnce(evs: seq<Event>, i: int, j: int, j': int)
    requires ClosesAt(evs, i, j) && ClosesAt(evs, i, j')
    ensures j == j'
  {
  }

  /** The positions of the enter events, in order, counted from `at`. */
  function Enters(evs: seq<Event>, at: nat): seq<nat> {
    if evs == [] then []
    else (if evs[0].Enter? then [at] else []) + Enters(evs[1..], at + 1)
  }

  lemma {:induction false} EntersCons(ev: Event, rest: seq<Event>, at: nat)
    ensures Enters([ev] + rest, at) == (if ev.Enter? then [at] else []) + Enters(rest, at + 1)
  {
    assert ([ev] + rest)[1..] == rest;
  }

  lemma {:induction false} EntersConcat(a: seq<Event>, b: seq<Event>, at: nat)
    ensures Enters(a + b, at) == Enters(a, at) + Enters(b, at + |a|)
    decreases a
  {
    if a == [] {
      assert a + b == b;
    } else {
      EntersConcat(a[1..], b, at + 1);
      EntersCons(a[0], a[1..], at);
      EntersCons(a[0], a[1..] + b, at);
      assert a == [a[0]] + a[1..] && a + b == [a[0]] + (a[1..] + b);
    }
  }

  lemma {:induction false} EntersComplete(evs: seq<Event>, at: nat, i: nat)
    requires i < |evs| && evs[i].Enter?
    ensures at + i in Enters(evs, at)
    decreases evs
  {
    if i > 0 {
      EntersComplete(evs[1..], at + 1, i - 1);
    }
  }

  /** The positions ascend, and an enter event stands at each. */
  lemma {:induction false} EntersAscend(evs: seq<Event>, at: nat)
    ensures forall k :: 0 <= k < |Enters(evs, at)| ==>
              at <= Enters(evs, at)[k] < at + |evs| && evs[Enters(evs, at)[k] - at].Enter?
    ensures forall j, k :: 0 <= j < k < |Enters(evs, at)| ==> Enters(evs, at)[j] < Enters(evs, at)[k]
    decreases evs
  {
    if evs != [] {
      EntersAscend(evs[1..], at + 1);
    }
  }

  lemma {:induction false} DepthConcat(a: seq<Event>, b: seq<Event>)
    ensures Depth(a + b) == Depth(a) + Depth(b)
  {
    if b == [] {
      assert a + b == a;
    } else {
      assert (a + b)[..|a + b| - 1] == a + b[..|b| - 1];
      DepthConcat(a, b[..|b| - 1]);
    }
  }

  lemma {:induction false} DepthOne(ev: Event)
    ensures Depth([ev]) == if ev.Enter? then 1 else -1
  {
    assert [ev][..0] == [];
  }

  /** Inside a frame the depth stays above the frame's own. */
  lemma {:induction false} FrameBalanced(f: Frame)
    ensures Depth(FrameEvents(f)) == 0
    ensures forall m :: 0 < m < |FrameEvents(f)| ==> Depth(FrameEvents(f)[..m]) > 0
    decreases f, 1
  {
    var inner := Serialize(f.calls);
    ForestBalanced(f.calls);
    DepthOne(Enter(f.enter));
    DepthOne(Exit(f.exit));
    DepthConcat([Enter(f.enter)] + inner, [Exit(f.exit)]);
    DepthConcat([Enter(f.enter)], inner);
    forall m | 0 < m < |FrameEvents(f)| ensures Depth(FrameEvents(f)[..m]) > 0 {
      assert FrameEvents(f)[..m] == [Enter(f.enter)] + inner[..m - 1];
      DepthConcat([Enter(f.enter)], inner[..m - 1]);
    }
  }

  lemma {:induction false} ForestBalanced(fs: seq<Frame>)
    ensures Depth(Serialize(fs)) == 0
    ensures forall m :: 0 <= m <= |Serialize(fs)| ==> Depth(Serialize(fs)[..m]) >= 0
    decreases fs, 0
  {
    var evs := Serialize(fs);
    if fs != [] {
      var first, rest := FrameEvents(fs[0]), Serialize(fs[1..]);
      FrameBalanced(fs[0]);
      ForestBalanced(fs[1..]);
      DepthConcat(first, rest);
      forall m | 0 <= m <= |evs| ensures Depth(evs[..m]) >= 0 {
        if m < |first| {
          assert evs[..m] == first[..m];
        } else {
          assert evs[..m] == first + rest[..m - |first|];
          DepthConcat(first, rest[..m - |first|]);
        }
      }
    }
  }

  lemma {:induction false} FrameCloses(before: seq<Event>, f: Frame, after: seq<Event>)
    ensures ClosesAt(before + FrameEvents(f) + after, |before|, |before| + |FrameEvents(f)| - 1)
  {
    var evs, es := before + FrameEvents(f) + after, FrameEvents(f);
    var i, j := |before|, |before| + |es| - 1;
    FrameBalanced(f);
    assert evs[..i] == before && evs[..j + 1] == before + es;
    DepthConcat(before, es);
    forall m | i < m <= j ensures Depth(evs[..m]) > Depth(evs[..i]) {
      assert evs[..m] == before + es[..m - i];
      DepthConcat(before, es[..m - i]);
    }
  }

  // ---------- The frames of a forest with their positions ----------

  datatype Entry = Entry(frame: Frame, enter: nat, exit: nat)

  /** The frames of a forest in the order they are entered, with the positions of
      their events when the forest's first event stands at `at`. */
  ghost function Entries(fs: seq<Frame>, at: nat): seq<Entry> {
    if fs == [] then []
    else
      var end := at + |FrameEvents(fs[0])|;
      [Entry(fs[0], at, end - 1)] + Entries(fs[0].calls, at + 1) + Entries(fs[1..], end)
  }

  ghost predicate Within(es: seq<Entry>, lo: nat, hi: nat) {
    forall e :: e in es ==> lo <= e.enter < e.exit < hi
  }

  ghost predicate Lists(es: seq<Entry>, fs: seq<Frame>, at: nat) {
    es == Entries(fs, at)
  }

  /** The entries of a forest's first frame, of the frames below it and of those after it. */
  lemma {:induction false} EntriesParts(es: seq<Entry>, fs: seq<Frame>, at: nat)
    returns (x: Entry, below: seq<Entry>, later: seq<Entry>)
    requires Lists(es, fs, at) && fs != []
    ensures x == Entry(fs[0], at, at + |FrameEvents(fs[0])| - 1)
    ensures Lists(below, fs[0].calls, at + 1)
    ensures Lists(later, fs[1..], x.exit + 1)
    ensures es == [x] + below + later
  {
    var end := at + |FrameEvents(fs[0])|;
    x, below, later := Entry(fs[0], at, end - 1), Entries(fs[0].calls, at + 1), Entries(fs[1..], end);
  }

  lemma {:induction false} Lengths(fs: seq<Frame>)
    requires fs != []
    ensures |FrameEvents(fs[0])| == |Serialize(fs[0].calls)| + 2
    ensures |Serialize(fs)| == |FrameEvents(fs[0])| + |Serialize(fs[1..])|
  {
  }

  lemma {:induction false} EntriesWithin(es: seq<Entry>, fs: seq<Frame>, at: nat)
    requires Lists(es, fs, at)
    ensures Within(es, at, at + |Serialize(fs)|)
    decreases fs
  {
    if fs != [] {
      var x, below, later := EntriesParts(es, fs, at);
      var end := at + |FrameEvents(fs[0])|;
      EntriesWithin(below, fs[0].calls, at + 1);
      EntriesWithin(later, fs[1..], x.exit + 1);
      Lengths(fs);
      WithinTogether(x, below, at + 1 + |Serialize(fs[0].calls)|, later, end, end + |Serialize(fs[1..])|);
    }
  }

  lemma {:induction false} WithinTogether(x: Entry, below: seq<Entry>, last: nat, later: seq<Entry>, end: nat, hi: nat)
    requires x.enter < x.exit == last < end <= hi
    requires Within(below, x.enter + 1, last) && Within(later, end, hi)
    ensures Within([x] + below + later, x.enter, hi)
  {
  }

  /** The parts, with their positions apart. */
  lemma {:induction false} EntriesFirst(es: seq<Entry>, fs: seq<Frame>, at: nat)
    returns (x: Entry, below: seq<Entry>, later: seq<Entry>)
    requires Lists(es, fs, at) && fs != []
    ensures x == Entry(fs[0], at, at + |FrameEvents(fs[0])| - 1) && x.enter < x.exit
    ensures Lists(below, fs[0].calls, at + 1) && Within(below, x.enter + 1, x.exit)
    ensures Lists(later, fs[1..], x.exit + 1)
    ensures forall e :: e in later ==> x.exit < e.enter < e.exit
    ensures es == [x] + below + later
  {
    x, below, later := EntriesParts(es, fs, at);
    Lengths(fs);
    EntriesWithin(below, fs[0].calls, at + 1);
    EntriesWithin(later, fs[1..], x.exit + 1);
  }

  /** An entry stands for a frame of the stream. */
  ghost predicate Matches(evs: seq<Event>, e: Entry) {
    ClosesAt(evs, e.enter, e.exit)
    && evs[e.enter] == Enter(e.frame.enter) && evs[e.exit] == Exit(e.frame.exit)
  }

  ghost predicate AllMatch(evs: seq<Event>, es: seq<Entry>) {
    forall e :: e in es ==> Matches(evs, e)
  }

  lemma {:induction false} Regroup(before: seq<Event>, enter: seq<Event>, inner: seq<Event>, exit: seq<Event>,
                rest: seq<Event>, after: seq<Event>)
    ensures var evs := before + (enter + inner + exit + rest) + after;
            evs == before + (enter + inner + exit) + (rest + after)
            && evs == (before + enter) + inner + (exit + rest + after)
            && evs == (before + (enter + inner + exit)) + rest + after
  {
  }

  /** In `evs` the events of the forest `fs` stand between `before` and `after`. */
  ghost predicate Placed(evs: seq<Event>, before: seq<Event>, fs: seq<Frame>, after: seq<Event>) {
    evs == before + Serialize(fs) + after
  }

  lemma {:induction false} PlacedParts(evs: seq<Event>, before: seq<Event>, fs: seq<Frame>, after: seq<Event>)
    requires Placed(evs, before, fs, after) && fs != []
    ensures Placed(evs, before + [Enter(fs[0].enter)], fs[0].calls, [Exit(fs[0].exit)] + Serialize(fs[1..]) + after)
    ensures Placed(evs, before + FrameEvents(fs[0]), fs[1..], after)
    ensures evs == before + FrameEvents(fs[0]) + (Serialize(fs[1..]) + after)
  {
    var enter, inner, exit := [Enter(fs[0].enter)], Serialize(fs[0].calls), [Exit(fs[0].exit)];
    var rest := Serialize(fs[1..]);
    assert Serialize(fs) == enter + inner + exit + rest;
    Regroup(before, enter, inner, exit, rest, after);
    assert evs == before + enter + inner + (exit + rest + after);
  }

  lemma {:induction false} EntryMatches(evs: seq<Event>, before: seq<Event>, fs: seq<Frame>, after: seq<Event>,
                                        es: seq<Entry>, e: Entry)
    requires Placed(evs, before, fs, after) && Lists(es, fs, |before|)
    requires e in es
    ensures Matches(evs, e)
    decreases fs
  {
    var f := fs[0];
    var x, below, later := EntriesParts(es, fs, |before|);
    PlacedParts(evs, before, fs, after);
    if e in below {
      EntryMatches(evs, before + [Enter(f.enter)], f.calls, [Exit(f.exit)] + Serialize(fs[1..]) + after, below, e);
    } else if e in later {
      EntryMatches(evs, before + FrameEvents(f), fs[1..], after, later, e);
    } else {
      FrameMatches(evs, before, f, Serialize(fs[1..]) + after);
    }
  }

  lemma {:induction false} EntriesMatch(fs: seq<Frame>, es: seq<Entry>)
    requires Lists(es, fs, 0)
    ensures AllMatch(Serialize(fs), es)
  {
    var evs := Serialize(fs);
    assert Placed(evs, [], fs, []);
    forall e | e in es ensures Matches(evs, e) {
      EntryMatches(evs, [], fs, [], es, e);
    }
  }

  lemma {:induction false} FrameMatches(evs: seq<Event>, before: seq<Event>, f: Frame, after: seq<Event>)
    requires evs == before + FrameEvents(f) + after
    ensures Matches(evs, Entry(f, |before|, |before| + |FrameEvents(f)| - 1))
  {
    FrameCloses(before, f, after);
  }

  ghost function EnterPositions(es: seq<Entry>): seq<nat> {
    seq(|es|, k requires 0 <= k < |es| => es[k].enter)
  }

  lemma {:induction false} EntriesAreEnters(es: seq<Entry>, fs: seq<Frame>, at: nat)
    requires Lists(es, fs, at)
    ensures EnterPositions(es) == Enters(Serialize(fs), at)
    decreases fs
  {
    if fs != [] {
      var x, below, later := EntriesParts(es, fs, at);
      EntriesAreEnters(below, fs[0].calls, at + 1);
      EntriesAreEnters(later, fs[1..], x.exit + 1);
      PositionsTogether(x, below, later);
      SerializeEnters(fs, at);
    }
  }

  lemma {:induction false} PositionsTogether(x: Entry, below: seq<Entry>, later: seq<Entry>)
    ensures EnterPositions([x] + below + later) == [x.enter] + EnterPositions(below) + EnterPositions(later)
  {
  }

  lemma {:induction false} SerializeEnters(fs: seq<Frame>, at: nat)
    requires fs != []
    ensures Enters(Serialize(fs), at)
         == [at] + Enters(Serialize(fs[0].calls), at + 1) + Enters(Serialize(fs[1..]), at + |FrameEvents(fs[0])|)
  {
    FrameEnters(fs[0], at);
    EntersConcat(FrameEvents(fs[0]), Serialize(fs[1..]), at);
  }

  lemma {:induction false} FrameEnters(f: Frame, at: nat)
    ensures Enters(FrameEvents(f), at) == [at] + Enters(Serialize(f.calls), at + 1)
  {
    var enter, inner, exit := [Enter(f.enter)], Serialize(f.calls), [Exit(f.exit)];
    EntersConcat(enter + inner, exit, at);
    EntersConcat(enter, inner, at);
    assert enter[1..] == [] && exit[1..] == [];
  }

  // ---------- What the tracer records of each frame ----------

  /** The calls of a recorded forest, each before its own calls. */
  function AllRecorded(cs: seq<JsCall>): seq<JsCall> {
    if cs == [] then [] else [cs[0]] + AllRecorded(cs[0].calls) + AllRecorded(cs[1..])
  }

  ghost function RecordsOf(es: seq<Entry>): seq<JsCall> {
    seq(|es|, k requires 0 <= k < |es| => Record(es[k].frame))
  }

  lemma {:induction false} RecordedInOrder(es: seq<Entry>, fs: seq<Frame>, at: nat)
    requires Lists(es, fs, at)
    ensures AllRecorded(Records(fs)) == RecordsOf(es)
    decreases fs
  {
    if fs != [] {
      var x, below, later := EntriesParts(es, fs, at);
      RecordedInOrder(below, fs[0].calls, at + 1);
      RecordedInOrder(later, fs[1..], x.exit + 1);
      RecordsTogether(x, below, later);
      RecordedParts(fs);
    }
  }

  lemma {:induction false} RecordsTogether(x: Entry, below: seq<Entry>, later: seq<Entry>)
    ensures RecordsOf([x] + below + later) == [Record(x.frame)] + RecordsOf(below) + RecordsOf(later)
  {
  }

  lemma {:induction false} RecordedParts(fs: seq<Frame>)
    requires fs != []
    ensures AllRecorded(Records(fs))
         == [Record(fs[0])] + AllRecorded(Records(fs[0].calls)) + AllRecorded(Records(fs[1..]))
  {
    RecordOf(fs[0]);
    assert Records(fs)[1..] == Records(fs[1..]);
  }

  /** The call `c` records the frame entered at `p` and its exit. */
  ghost predicate RecordedAt(evs: seq<Event>, p: int, c: JsCall) {
    exists q :: ClosesAt(evs, p, q) && RecordsFrame(evs[p].frame, evs[q].result, c)
  }

  /** For every well-nested stream the tracer records one call per frame, in the order
      they were entered, with the data of its enter and exit events. */
  lemma {:induction false} RecordedFrames(evs: seq<Event>)
    requires WellNested(evs)
    ensures |Run(evs)| == 1
    ensures var cs := AllRecorded(Run(evs)[0].calls);
            |cs| == |Enters(evs, 0)|
            && forall k :: 0 <= k < |cs| ==> RecordedAt(evs, Enters(evs, 0)[k], cs[k])
  {
    var fs := WellNestedIsForest(evs);
    var es := Entries(fs, 0);
    TracerInverse(fs);
    RecordedInOrder(es, fs, 0);
    EntriesAreEnters(es, fs, 0);
    EntriesMatch(fs, es);
    assert |EnterPositions(es)| == |es|;
    forall k | 0 <= k < |es| ensures RecordedAt(evs, Enters(evs, 0)[k], RecordsOf(es)[k]) {
      assert EnterPositions(es)[k] == es[k].enter;
      assert Matches(evs, es[k]);
      RecordOf(es[k].frame);
    }
  }

  // ---------- What flattening reports of each frame ----------

  /** Decoding takes an error without a message for no error. */
  predicate Fails(r: ExitFrame) {
    r.error.Some? && r.error.value != ""
  }

  ghost predicate Erred(e: Entry) {
    Fails(e.frame.exit)
  }

  ghost predicate Encloses(e: Entry, x: Entry) {
    e.enter <= x.enter < e.exit
  }

  /** What a frame decodes to, before anything is inherited. */
  function Own(f: Frame): FlatCall {
    DecodeFrame(Record(f))
  }

  /** `flat` reports the data of frame `f`; a create that failed lost its address. */
  ghost predicate SameData(f: Frame, flat: FlatCall) {
    flat.kind == f.enter.kind && flat.from == f.enter.from
    && flat.to == (if CreateType(f.enter.kind) && f.exit.error.Some? then ZERO_ADDRESS else f.enter.to)
    && flat.value == (if f.enter.value.Some? then f.enter.value.value else 0)
    && flat.gasUsed == f.exit.gasUsed
  }

  lemma {:induction false} OwnData(f: Frame)
    ensures SameData(f, Own(f))
    ensures Own(f).errorMessage == if f.exit.error.Some? then f.exit.error.value else ""
    ensures Own(f).revert <==> Own(f).errorMessage != ""
  {
  }

  /** The error of the last of the entries `es` that encloses `x` and ended in one. */
  ghost function ErrorAround(es: seq<Entry>, x: Entry): Option<string> {
    if es == [] then None
    else
      var e := es[|es| - 1];
      if Erred(e) && Encloses(e, x) then e.frame.exit.error else ErrorAround(es[..|es| - 1], x)
  }

  lemma {:induction false} ErrorAroundConcat(a: seq<Entry>, b: seq<Entry>, x: Entry)
    ensures ErrorAround(a + b, x) == if ErrorAround(b, x).Some? then ErrorAround(b, x) else ErrorAround(a, x)
  {
    if b == [] {
      assert a + b == a;
    } else {
      assert (a + b)[..|a + b| - 1] == a + b[..|b| - 1];
      ErrorAroundConcat(a, b[..|b| - 1], x);
    }
  }

  lemma {:induction false} NoErrorAround(es: seq<Entry>, x: Entry)
    requires forall e :: e in es ==> !Encloses(e, x)
    ensures ErrorAround(es, x).None?
  {
    if es != [] {
      NoErrorAround(es[..|es| - 1], x);
    }
  }

  lemma {:induction false} ErrorAroundOne(e: Entry, x: Entry)
    ensures ErrorAround([e], x) == if Erred(e) && Encloses(e, x) then e.frame.exit.error else None
  {
    assert [e][..0] == [];
  }

  /** The report on `x`, a frame among `es` below a frame whose message is `above`. */
  ghost function Verdict(above: string, es: seq<Entry>, x: Entry): FlatCall {
    var around := ErrorAround(es, x);
    var message := if around.Some? then around.value else above;
    Own(x.frame).(revert := message != "", errorMessage := message)
  }

  ghost function Verdicts(above: string, es: seq<Entry>, some: seq<Entry>): seq<FlatCall> {
    seq(|some|, k requires 0 <= k < |some| => Verdict(above, es, some[k]))
  }

  /** The flattened records of a forest, below a frame `parent`. */
  ghost function Reports(parent: FlatCall, fs: seq<Frame>): seq<FlatCall> {
    PreorderAll(CloseAll(parent, DecodeAll(Records(fs))))
  }

  lemma {:induction false} ReportsFirst(parent: FlatCall, fs: seq<Frame>)
    requires fs != []
    ensures var top := Inherit(parent, Own(fs[0]));
            Reports(parent, fs) == [top] + Reports(top, fs[0].calls) + Reports(parent, fs[1..])
  {
    var ts := DecodeAll(Records(fs));
    assert Records(fs)[1..] == Records(fs[1..]);
    assert ts[1..] == DecodeAll(Records(fs[1..]));
    assert CloseAll(parent, ts)[1..] == CloseAll(parent, ts[1..]);
    assert Record(fs[0]).calls == [] + Records(fs[0].calls) == Records(fs[0].calls);
    assert ts[0] == Decode(Records(fs)[0]) == Decode(Record(fs[0]));
    assert ts[0] == Node(Own(fs[0]), DecodeAll(Records(fs[0].calls)));
    var top := Inherit(parent, Own(fs[0]));
    assert Preorder(CloseWith(top, ts[0])) == [top] + Reports(top, fs[0].calls);
  }

  /** The top frame, seen among all the frames. */
  lemma {:induction false} VerdictOnFirst(parent: FlatCall, x: Entry, below: seq<Entry>, later: seq<Entry>)
    requires parent.revert <==> parent.errorMessage != ""
    requires x.enter < x.exit && forall e :: e in below + later ==> x.enter < e.enter
    ensures Verdict(parent.errorMessage, [x] + below + later, x) == Inherit(parent, Own(x.frame))
  {
    OwnData(x.frame);
    ErrorAroundOne(x, x);
    assert [x] + below + later == [x] + (below + later);
    ErrorAroundConcat([x], below + later, x);
    NoErrorAround(below + later, x);
  }

  /** The frames below it inherit from it; seen among all the frames it encloses them. */
  lemma {:induction false} VerdictBelow(parent: FlatCall, x: Entry, below: seq<Entry>, later: seq<Entry>, b: Entry)
    requires parent.revert <==> parent.errorMessage != ""
    requires Encloses(x, b) && forall e :: e in later ==> b.enter < e.enter
    ensures Verdict(parent.errorMessage, [x] + below + later, b)
         == Verdict(Inherit(parent, Own(x.frame)).errorMessage, below, b)
  {
    OwnData(x.frame);
    ErrorAroundOne(x, b);
    ErrorAroundConcat([x], below, b);
    ErrorAroundConcat([x] + below, later, b);
    NoErrorAround(later, b);
  }

  /** The frames after it are not enclosed by it or by the frames below it. */
  lemma {:induction false} VerdictLater(above: string, x: Entry, below: seq<Entry>, later: seq<Entry>, l: Entry)
    requires forall e :: e in [x] + below ==> e.exit < l.enter
    ensures Verdict(above, [x] + below + later, l) == Verdict(above, later, l)
  {
    ErrorAroundConcat([x] + below, later, l);
    NoErrorAround([x] + below, l);
  }

  lemma {:induction false} VerdictsTogether(parent: FlatCall, x: Entry, below: seq<Entry>, later: seq<Entry>)
    requires parent.revert <==> parent.errorMessage != ""
    requires x.enter < x.exit
    requires Within(below, x.enter + 1, x.exit)
    requires forall e :: e in later ==> x.exit < e.enter < e.exit
    ensures var es, top := [x] + below + later, Inherit(parent, Own(x.frame));
            Verdicts(parent.errorMessage, es, es)
            == [top] + Verdicts(top.errorMessage, below, below) + Verdicts(parent.errorMessage, later, later)
  {
    var es, top := [x] + below + later, Inherit(parent, Own(x.frame));
    var above := parent.errorMessage;
    VerdictsConcat(above, es, x, below, later);
    VerdictOnFirst(parent, x, below, later);
    forall k | 0 <= k < |below| ensures Verdict(above, es, below[k]) == Verdict(top.errorMessage, below, below[k]) {
      VerdictBelow(parent, x, below, later, below[k]);
    }
    assert Verdicts(above, es, below) == Verdicts(top.errorMessage, below, below);
    forall k | 0 <= k < |later| ensures Verdict(above, es, later[k]) == Verdict(above, later, later[k]) {
      VerdictLater(above, x, below, later, later[k]);
    }
    assert Verdicts(above, es, later) == Verdicts(above, later, later);
  }

  lemma {:induction false} VerdictsConcat(above: string, es: seq<Entry>, x: Entry, a: seq<Entry>, b: seq<Entry>)
    ensures Verdicts(above, es, [x] + a + b)
         == [Verdict(above, es, x)] + Verdicts(above, es, a) + Verdicts(above, es, b)
  {
  }

  /** Flattening reports of each frame of a forest exactly its verdict. */
  lemma {:induction false} ReportsAreVerdicts(parent: FlatCall, es: seq<Entry>, fs: seq<Frame>, at: nat)
    requires parent.revert <==> parent.errorMessage != ""
    requires Lists(es, fs, at)
    ensures Decided(parent, es, fs)
    decreases fs
  {
    if fs == [] {
      assert Records(fs) == [];
    } else {
      var x, below, later := EntriesFirst(es, fs, at);
      InheritMarks(parent, fs[0]);
      ReportsAreVerdicts(Inherit(parent, Own(fs[0])), below, fs[0].calls, at + 1);
      ReportsAreVerdicts(parent, later, fs[1..], x.exit + 1);
      ReportsStep(parent, fs, x, below, later);
    }
  }

  lemma {:induction false} InheritMarks(parent: FlatCall, f: Frame)
    requires parent.revert <==> parent.errorMessage != ""
    ensures var d := Inherit(parent, Own(f)); d.revert <==> d.errorMessage != ""
  {
    OwnData(f);
  }

  ghost predicate Decided(parent: FlatCall, es: seq<Entry>, fs: seq<Frame>) {
    Reports(parent, fs) == Verdicts(parent.errorMessage, es, es)
  }

  lemma {:induction false} ReportsStep(parent: FlatCall, fs: seq<Frame>, x: Entry, below: seq<Entry>,
                                       later: seq<Entry>)
    requires fs != [] && x.frame == fs[0] && x.enter < x.exit
    requires parent.revert <==> parent.errorMessage != ""
    requires Within(below, x.enter + 1, x.exit) && forall e :: e in later ==> x.exit < e.enter < e.exit
    requires Decided(Inherit(parent, Own(fs[0])), below, fs[0].calls)
    requires Decided(parent, later, fs[1..])
    ensures Decided(parent, [x] + below + later, fs)
  {
    ReportsFirst(parent, fs);
    VerdictsTogether(parent, x, below, later);
  }

  // ---------- Who is to blame ----------

  ghost predicate Ordered(es: seq<Entry>) {
    forall i, j :: 0 <= i < j < |es| ==> es[i].enter < es[j].enter
  }

  lemma {:induction false} EntriesOrdered(es: seq<Entry>, fs: seq<Frame>, at: nat)
    requires Lists(es, fs, at)
    ensures Ordered(es)
    decreases fs
  {
    if fs != [] {
      var x, below, later := EntriesFirst(es, fs, at);
      EntriesOrdered(below, fs[0].calls, at + 1);
      EntriesOrdered(later, fs[1..], x.exit + 1);
      OrderedTogether(x, below, later);
    }
  }

  lemma {:induction false} OrderedTogether(x: Entry, below: seq<Entry>, later: seq<Entry>)
    requires Ordered(below) && Ordered(later)
    requires Within(below, x.enter + 1, x.exit)
    requires x.enter < x.exit && forall e :: e in later ==> x.exit < e.enter < e.exit
    ensures Ordered([x] + below + later)
  {
    var es := [x] + below + later;
    forall i, j | 0 <= i < j < |es| ensures es[i].enter < es[j].enter {
      assert i > 0 ==> es[i] == if i <= |below| then below[i - 1] else later[i - 1 - |below|];
      assert es[j] == if j <= |below| then below[j - 1] else later[j - 1 - |below|];
    }
  }

  /** The error around `x` is that of the innermost erring frame enclosing it, if there is one. */
  lemma {:induction false} ErrorAroundIsInnermost(es: seq<Entry>, x: Entry)
    requires Ordered(es)
    ensures ErrorAround(es, x).None? ==> forall e :: e in es && Encloses(e, x) ==> !Erred(e)
    ensures ErrorAround(es, x).Some? ==>
              exists e :: e in es && Erred(e) && Encloses(e, x) && e.frame.exit.error == ErrorAround(es, x)
                          && forall o :: o in es && Erred(o) && Encloses(o, x) ==> o.enter <= e.enter
  {
    if es != [] {
      var e, init := es[|es| - 1], es[..|es| - 1];
      ErrorAroundIsInnermost(init, x);
      assert forall o :: o in es <==> o == e || o in init;
      assert forall o :: o in init ==> o.enter < e.enter;
    }
  }

  // ---------- The theorem, in terms of the events alone ----------

  /** The exit at `j` reports an error and closes a frame that is open at `p`. */
  ghost predicate FailsAround(evs: seq<Event>, p: int, i: int, j: int) {
    ClosesAt(evs, i, j) && i <= p < j && Fails(evs[j].result)
  }

  /** What `flat` must say about the frame entered at `p` and exited at `q`, in a
      transaction whose outermost message failed with `rootError` ("" if it did not). */
  ghost predicate ReportsFrame(evs: seq<Event>, rootError: string, p: int, q: int, flat: FlatCall) {
    ClosesAt(evs, p, q)
    && SameData(Frame(evs[p].frame, evs[q].result, []), flat)
    && (flat.revert <==> rootError != "" || exists i, j :: FailsAround(evs, p, i, j))
    && (forall i, j :: FailsAround(evs, p, i, j)
                       && (forall i', j' :: FailsAround(evs, p, i', j') ==> i' <= i)
                       ==> flat.errorMessage == evs[j].result.error.value)
    && ((forall i, j :: !FailsAround(evs, p, i, j)) ==> flat.errorMessage == rootError)
  }

  ghost predicate Reported(evs: seq<Event>, rootError: string, p: int, flat: FlatCall) {
    exists q :: ReportsFrame(evs, rootError, p, q, flat)
  }

  ghost function RootError(ctx: Context): string {
    if ctx.error.Some? then ctx.error.value else ""
  }

  function RootFlat(ctx: Context): FlatCall {
    FlatCall(ctx.kind, ctx.from, ctx.to, ctx.value, ctx.gasUsed,
             ctx.error.Some? && ctx.error.value != "",
             if ctx.error.Some? then ctx.error.value else "")
  }

  /** Entries and matched events of a stream are the same thing. */
  lemma {:induction false} EntryOf(evs: seq<Event>, es: seq<Entry>, i: int, j: int) returns (e: Entry)
    requires AllMatch(evs, es) && EnterPositions(es) == Enters(evs, 0)
    requires ClosesAt(evs, i, j)
    ensures e in es && e.enter == i && e.exit == j
  {
    EntersComplete(evs, 0, i);
    var k :| 0 <= k < |es| && EnterPositions(es)[k] == i;
    e := es[k];
    assert Matches(evs, e);
    ClosesOnce(evs, i, j, e.exit);
  }

  /** The failures around an entry are the erring entries that enclose it. */
  ghost predicate FailuresAre(evs: seq<Event>, es: seq<Entry>, x: Entry) {
    (forall i, j :: FailsAround(evs, x.enter, i, j) ==>
       exists e :: e in es && Erred(e) && Encloses(e, x) && e.enter == i && e.exit == j)
    && forall e :: e in es && Erred(e) && Encloses(e, x) ==>
         FailsAround(evs, x.enter, e.enter, e.exit) && evs[e.exit].result.error == e.frame.exit.error
  }

  lemma {:induction false} FailureEntries(evs: seq<Event>, es: seq<Entry>, x: Entry)
    requires AllMatch(evs, es) && EnterPositions(es) == Enters(evs, 0)
    ensures FailuresAre(evs, es, x)
  {
    forall i, j | FailsAround(evs, x.enter, i, j)
      ensures exists e :: e in es && Erred(e) && Encloses(e, x) && e.enter == i && e.exit == j
    {
      var e := EntryOf(evs, es, i, j);
      assert Matches(evs, e);
    }
    forall e | e in es && Erred(e) && Encloses(e, x)
      ensures FailsAround(evs, x.enter, e.enter, e.exit) && evs[e.exit].result.error == e.frame.exit.error
    {
      assert Matches(evs, e);
    }
  }

  /** The innermost failure around an entry gives it its message. */
  lemma {:induction false} InnermostMessage(evs: seq<Event>, es: seq<Entry>, x: Entry, i: int, j: int)
    requires FailuresAre(evs, es, x) && Ordered(es)
    requires FailsAround(evs, x.enter, i, j) && forall i', j' :: FailsAround(evs, x.enter, i', j') ==> i' <= i
    ensures ErrorAround(es, x) == evs[j].result.error
  {
    ErrorAroundIsInnermost(es, x);
    var e :| e in es && Erred(e) && Encloses(e, x) && e.enter == i && e.exit == j;
    var o :| o in es && Erred(o) && Encloses(o, x) && o.frame.exit.error == ErrorAround(es, x)
             && forall p :: p in es && Erred(p) && Encloses(p, x) ==> p.enter <= o.enter;
    assert FailsAround(evs, x.enter, o.enter, o.exit);
    ClosesOnce(evs, i, j, o.exit);
  }

  /** The verdict on an entry, in terms of the events. */
  lemma {:induction false} VerdictByEvents(evs: seq<Event>, above: string, es: seq<Entry>, x: Entry)
    requires FailuresAre(evs, es, x) && Ordered(es) && Matches(evs, x)
    ensures ReportsFrame(evs, above, x.enter, x.exit, Verdict(above, es, x))
  {
    OwnData(x.frame);
    ErrorAroundIsInnermost(es, x);
    forall i, j | FailsAround(evs, x.enter, i, j)
                  && (forall i', j' :: FailsAround(evs, x.enter, i', j') ==> i' <= i)
      ensures ErrorAround(es, x) == evs[j].result.error
    {
      InnermostMessage(evs, es, x, i, j);
    }
  }

  /** The flattened trace of a forest's events. */
  lemma {:induction false} FlattenedSerialized(fs: seq<Frame>, ctx: Context)
    ensures WellNested(Serialize(fs))
    ensures Flattened(Serialize(fs), ctx) == [RootFlat(ctx)] + Reports(RootFlat(ctx), fs)
  {
    ForestBalanced(fs);
    assert Serialize(fs)[..|Serialize(fs)|] == Serialize(fs);
    TracerInverse(fs);
    var root := RootCall(Run(Serialize(fs))[0], ctx);
    assert root.calls == Records(fs);
    assert DecodeFrame(root) == RootFlat(ctx);
  }

  lemma {:induction false} FlattenedVerdicts(fs: seq<Frame>, ctx: Context)
    ensures Flattened(Serialize(fs), ctx)
         == [RootFlat(ctx)] + Verdicts(RootError(ctx), Entries(fs, 0), Entries(fs, 0))
  {
    FlattenedSerialized(fs, ctx);
    ReportsAreVerdicts(RootFlat(ctx), Entries(fs, 0), fs, 0);
  }

  lemma {:induction false} VerdictReported(fs: seq<Frame>, above: string, k: nat)
    requires k < |Entries(fs, 0)|
    ensures |Enters(Serialize(fs), 0)| == |Entries(fs, 0)|
    ensures Reported(Serialize(fs), above, Enters(Serialize(fs), 0)[k],
                     Verdict(above, Entries(fs, 0), Entries(fs, 0)[k]))
  {
    var es := Entries(fs, 0);
    EntriesOrdered(es, fs, 0);
    EntriesAreEnters(es, fs, 0);
    EntriesMatch(fs, es);
    assert es[k].enter == EnterPositions(es)[k];
    FailureEntries(Serialize(fs), es, es[k]);
    VerdictByEvents(Serialize(fs), above, es, es[k]);
  }

  /** For every well-nested stream the flattened trace is the outermost message
      followed by the frames in the order they were entered. A frame is reverted
      exactly when it, a frame around it or the outermost message failed, and
      carries the message of the innermost of those; a create that itself failed
      has lost its address. */
  lemma {:induction false} EntryOrderAndStatus(evs: seq<Event>, ctx: Context)
    requires WellNested(evs)
    ensures var flat := Flattened(evs, ctx);
            flat != [] && flat[0] == RootFlat(ctx)
            && |flat| == 1 + |Enters(evs, 0)|
            && forall k :: 0 <= k < |Enters(evs, 0)| ==> Reported(evs, RootError(ctx), Enters(evs, 0)[k], flat[k + 1])
  {
    var fs := WellNestedIsForest(evs);
    FlattenedVerdicts(fs, ctx);
    EntriesAreEnters(Entries(fs, 0), fs, 0);
    forall k | 0 <= k < |Enters(evs, 0)|
      ensures Reported(evs, RootError(ctx), Enters(evs, 0)[k], Flattened(evs, ctx)[k + 1])
    {
      assert |EnterPositions(Entries(fs, 0))| == |Entries(fs, 0)|;
      VerdictReported(fs, RootError(ctx), k);
    }
  }
}
