/** Call trees as values: what decoding and flattening a geth call trace mean,
    independently of the heap they are carried out on. */
module CallTrees {
  import opened Types

  /** One call frame without its sub-calls. */
  datatype FlatCall = FlatCall(
    kind: OpType,
    from: Address,
    to: Address,
    value: int,
    gasUsed: int,
    revert: bool,
    errorMessage: string)

  datatype CallTree = Node(data: FlatCall, calls: seq<CallTree>)

  function Size(t: CallTree): nat
    decreases t, 1
  {
    1 + SizeAll(t.calls)
  }

  function SizeAll(ts: seq<CallTree>): nat
    decreases ts, 0
  {
    if ts == [] then 0 else Size(ts[0]) + SizeAll(ts[1..])
  }

  /** What a child frame becomes under its parent: a reverted parent reverts it
      and lends it an error message when it has none. */
  function Inherit(parent: FlatCall, child: FlatCall): FlatCall {
    if parent.revert then
      child.(revert := true,
             errorMessage := if child.errorMessage == "" then parent.errorMessage else child.errorMessage)
    else child
  }

  /** The revert-closed tree: every frame has inherited from its parent. */
  function Close(t: CallTree): CallTree {
    CloseWith(t.data, t)
  }

  /** `t` with its root frame replaced by `d` and its sub-calls closed under `d`. */
  function CloseWith(d: FlatCall, t: CallTree): CallTree
    decreases t, 1
  {
    Node(d, CloseAll(d, t.calls))
  }

  function CloseAll(parent: FlatCall, ts: seq<CallTree>): (r: seq<CallTree>)
    ensures |r| == |ts|
    decreases ts, 0
  {
    if ts == [] then []
    else [CloseWith(Inherit(parent, ts[0].data), ts[0])] + CloseAll(parent, ts[1..])
  }

  /** A frame comes before its sub-calls, and sub-calls in call order. */
  function Preorder(t: CallTree): seq<FlatCall>
    decreases t, 1
  {
    [t.data] + PreorderAll(t.calls)
  }

  function PreorderAll(ts: seq<CallTree>): seq<FlatCall>
    decreases ts, 0
  {
    if ts == [] then [] else Preorder(ts[0]) + PreorderAll(ts[1..])
  }

  /** `acc` before each element of `ns`. */
  function Spread(acc: seq<FlatCall>, ns: seq<FlatCall>): seq<FlatCall> {
    if ns == [] then [] else acc + [ns[0]] + Spread(acc, ns[1..])
  }

  lemma {:induction false} SpreadConcat(acc: seq<FlatCall>, a: seq<FlatCall>, b: seq<FlatCall>)
    ensures Spread(acc, a + b) == Spread(acc, a) + Spread(acc, b)
  {
    if a == [] {
      assert a + b == b;
    } else {
      assert (a + b)[1..] == a[1..] + b;
      SpreadConcat(acc, a[1..], b);
    }
  }

  /** With an empty accumulator the spread list is the list itself. */
  lemma {:induction false} SpreadEmpty(ns: seq<FlatCall>)
    ensures Spread([], ns) == ns
  {
    if ns != [] {
      SpreadEmpty(ns[1..]);
    }
  }

  /** In general each element has the accumulator right before it. */
  lemma {:induction false} SpreadBefore(acc: seq<FlatCall>, a: seq<FlatCall>, n: FlatCall, b: seq<FlatCall>)
    ensures Spread(acc, a + [n] + b) == Spread(acc, a) + acc + [n] + Spread(acc, b)
    ensures Spread(acc, []) == []
  {
    SpreadConcat(acc, a + [n], b);
    SpreadConcat(acc, a, [n]);
    assert [n][1..] == [];
    assert acc + [n] + [] == acc + [n];
    assert Spread(acc, a) + (acc + [n]) == Spread(acc, a) + acc + [n];
  }

  lemma {:induction false} CloseAllAt(parent: FlatCall, ts: seq<CallTree>, i: nat)
    requires i < |ts|
    ensures CloseAll(parent, ts)[i] == CloseWith(Inherit(parent, ts[i].data), ts[i])
  {
    if i > 0 {
      CloseAllAt(parent, ts[1..], i - 1);
    }
  }

  lemma {:induction false} PreorderAllConcat(a: seq<CallTree>, b: seq<CallTree>)
    ensures PreorderAll(a + b) == PreorderAll(a) + PreorderAll(b)
  {
    if a == [] {
      assert a + b == b;
    } else {
      assert (a + b)[1..] == a[1..] + b;
      PreorderAllConcat(a[1..], b);
    }
  }

  /** Exactly one entry per frame. */
  lemma {:induction false} PreorderSize(t: CallTree)
    ensures |Preorder(t)| == Size(t)
    decreases t, 1
  {
    PreorderAllSize(t.calls);
  }

  lemma {:induction false} PreorderAllSize(ts: seq<CallTree>)
    ensures |PreorderAll(ts)| == SizeAll(ts)
    decreases ts, 0
  {
    if ts != [] {
      PreorderSize(ts[0]);
      PreorderAllSize(ts[1..]);
    }
  }

  /** Closing a closed tree changes nothing, so a second flattening returns the
      same list and leaves every frame as it is. */
  lemma {:induction false} CloseIdempotent(t: CallTree)
    ensures Close(Close(t)) == Close(t)
  {
    CloseWithIdempotent(t.data, t);
  }

  lemma {:induction false} CloseWithIdempotent(d: FlatCall, t: CallTree)
    ensures CloseWith(d, CloseWith(d, t)) == CloseWith(d, t)
    decreases t, 1
  {
    CloseAllIdempotent(d, t.calls);
  }

  lemma {:induction false} CloseAllIdempotent(parent: FlatCall, ts: seq<CallTree>)
    ensures CloseAll(parent, CloseAll(parent, ts)) == CloseAll(parent, ts)
    decreases ts, 0
  {
    if ts != [] {
      CloseWithIdempotent(Inherit(parent, ts[0].data), ts[0]);
      CloseAllIdempotent(parent, ts[1..]);
      assert CloseAll(parent, ts)[1..] == CloseAll(parent, ts[1..]);
    }
  }

  // ---------- Error propagation ----------

  /** What decoding guarantees: a frame is marked reverted exactly when it
      carries an error message of its own. */
  ghost predicate MarksErrors(t: CallTree)
    decreases t, 1
  {
    (t.data.revert <==> t.data.errorMessage != "") && MarksErrorsAll(t.calls)
  }

  ghost predicate MarksErrorsAll(ts: seq<CallTree>)
    decreases ts, 0
  {
    ts == [] || (MarksErrors(ts[0]) && MarksErrorsAll(ts[1..]))
  }

  /** For each frame in preorder, the frames on the path from the root to it
      (both included), below the given ancestors. */
  ghost function Paths(above: seq<FlatCall>, t: CallTree): seq<seq<FlatCall>>
    decreases t, 1
  {
    [above + [t.data]] + PathsAll(above + [t.data], t.calls)
  }

  ghost function PathsAll(above: seq<FlatCall>, ts: seq<CallTree>): seq<seq<FlatCall>>
    decreases ts, 0
  {
    if ts == [] then [] else Paths(above, ts[0]) + PathsAll(above, ts[1..])
  }

  /** The message of the last erring frame on a path: the nearest one to its end. */
  ghost function NearestError(path: seq<FlatCall>): string {
    if path == [] then ""
    else if path[|path| - 1].errorMessage != "" then path[|path| - 1].errorMessage
    else NearestError(path[..|path| - 1])
  }

  /** `flat` is what closing makes of the frame at the end of `path`. */
  ghost predicate Propagated(path: seq<FlatCall>, flat: FlatCall) {
    path != [] &&
    flat == path[|path| - 1].(revert := NearestError(path) != "", errorMessage := NearestError(path))
  }

  ghost predicate PropagatedAll(paths: seq<seq<FlatCall>>, flats: seq<FlatCall>) {
    |paths| == |flats| && forall k :: 0 <= k < |paths| ==> Propagated(paths[k], flats[k])
  }

  /** Each entry of a flattened, decoded trace carries the message of its
      nearest erring ancestor-or-self, and is reverted exactly when there is
      one; everything else is as decoded. */
  lemma {:induction false} ErrorPropagation(t: CallTree)
    requires MarksErrors(t)
    ensures PropagatedAll(Paths([], t), Preorder(Close(t)))
  {
    assert [] + [t.data] == [t.data];
    PropagationBelow([], t, t.data);
  }

  lemma {:induction false} PropagationBelow(above: seq<FlatCall>, t: CallTree, d: FlatCall)
    requires MarksErrors(t)
    requires Propagated(above + [t.data], d)
    ensures PropagatedAll(Paths(above, t), Preorder(CloseWith(d, t)))
    decreases t, 1
  {
    PropagationBelowAll(above + [t.data], t.calls, d);
  }

  lemma {:induction false} PropagationBelowAll(above: seq<FlatCall>, ts: seq<CallTree>, parent: FlatCall)
    requires MarksErrorsAll(ts)
    requires Propagated(above, parent)
    ensures PropagatedAll(PathsAll(above, ts), PreorderAll(CloseAll(parent, ts)))
    decreases ts, 0
  {
    if ts != [] {
      assert (above + [ts[0].data])[..|above|] == above;
      PropagationBelow(above, ts[0], Inherit(parent, ts[0].data));
      PropagationBelowAll(above, ts[1..], parent);
      assert CloseAll(parent, ts)[1..] == CloseAll(parent, ts[1..]);
    }
  }

  /** Hence marks and messages still agree after flattening: every reverted
      entry has an error message to report. */
  lemma {:induction false} FlattenedMarksErrors(t: CallTree)
    requires MarksErrors(t)
    ensures forall c :: c in Preorder(Close(t)) ==> (c.revert <==> c.errorMessage != "")
  {
    ErrorPropagation(t);
  }
}
