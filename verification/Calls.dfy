/** The decoded call trace on the heap: `Call` objects, their decoding from the
    tracer's report, and the in-place flattening that propagates reverts. */
module Calls {
  import opened JsObjects
  import opened Types
  import opened CallTrees
  import opened CallTracer

  /** The frame a reported call object denotes. Absent keys take Go's zero
      value: in particular a failed create's missing `to` is the zero address. */
  function DecodeFrame(w: JsCall): FlatCall {
    var message := if w.error.Some? then w.error.value else "";
    FlatCall(
      if w.kind.Some? then w.kind.value else Other(""),
      if w.from.Some? then w.from.value else ZERO_ADDRESS,
      if w.to.Some? then w.to.value else ZERO_ADDRESS,
      if w.value.Some? then w.value.value else 0,
      if w.gasUsed.Some? then w.gasUsed.value else 0,
      message != "",
      message)
  }

  function Decode(w: JsCall): CallTree
    decreases w, 1
  {
    Node(DecodeFrame(w), DecodeAll(w.calls))
  }

  function DecodeAll(ws: seq<JsCall>): (r: seq<CallTree>)
    ensures |r| == |ws|
    decreases ws, 0
  {
    if ws == [] then [] else [Decode(ws[0])] + DecodeAll(ws[1..])
  }

  /** Keys that are missing from a report are decoded as Go's zero values. */
  lemma {:induction false} MissingKeys(w: JsCall)
    ensures w == EMPTY_CALL.(calls := w.calls) ==>
              DecodeFrame(w) == FlatCall(Other(""), 0, 0, 0, 0, false, "")
    ensures w.to.None? ==> DecodeFrame(w).to == 0
    ensures w.value.None? ==> DecodeFrame(w).value == 0
    ensures w.error.None? ==> !DecodeFrame(w).revert && DecodeFrame(w).errorMessage == ""
  {
  }

  /** Decoding establishes that reverted frames are exactly those with a message. */
  lemma {:induction false} DecodeMarksErrors(w: JsCall)
    ensures MarksErrors(Decode(w))
    decreases w, 1
  {
    DecodeAllMarksErrors(w.calls);
  }

  lemma {:induction false} DecodeAllMarksErrors(ws: seq<JsCall>)
    ensures MarksErrorsAll(DecodeAll(ws))
    decreases ws, 0
  {
    if ws != [] {
      DecodeMarksErrors(ws[0]);
      DecodeAllMarksErrors(ws[1..]);
    }
  }

  class Call {
    var kind: OpType
    var from: Address
    var to: Address
    var value: int
    var gasUsed: int
    var revert: bool
    var errorMessage: string
    var calls: seq<Call>
    ghost var tree: CallTree  // the tree this object stands for
    ghost var Repr: set<Call>  // this object and all calls below it

    ghost function Data(): FlatCall
      reads this
    {
      FlatCall(kind, from, to, value, gasUsed, revert, errorMessage)
    }

    /** The calls below this one form a tree, without sharing or cycles, and
        that tree is `tree`. */
    ghost predicate Valid()
      reads this, Repr
      decreases Repr
    {
      this in Repr
      && Apart(Repr - {this}, calls) && (forall k :: 0 <= k < |calls| ==> calls[k].Valid())
      && tree.data == Data() && Stand(calls, tree.calls)
    }

    /** The calls `cs` stand for the trees `ts`. */
    static ghost predicate Stand(cs: seq<Call>, ts: seq<CallTree>)
      reads cs`tree
    {
      |ts| == |cs| && forall k :: 0 <= k < |cs| ==> ts[k] == cs[k].tree
    }

    /** `owned` holds the disjoint trees of the calls `cs`. */
    static ghost predicate Owns(owned: set<Call>, cs: seq<Call>)
      reads owned
    {
      Apart(owned, cs) && forall k :: 0 <= k < |cs| ==> cs[k].Valid()
    }

    static ghost predicate Apart(owned: set<Call>, cs: seq<Call>)
      reads owned`Repr
    {
      (forall k :: 0 <= k < |cs| ==> cs[k] in owned && cs[k].Repr <= owned)
      && (forall i, j :: 0 <= i < |cs| && 0 <= j < |cs| && i != j ==> cs[i].Repr !! cs[j].Repr)
    }

    static lemma {:induction false} OwnOneMore(owned: set<Call>, cs: seq<Call>, c: Call)
      requires Owns(owned, cs) && c.Valid() && c.Repr !! owned
      ensures Owns(owned + c.Repr, cs + [c])
    {
    }

    /** Records that this object, whose sub-calls `below` holds, stands for `t`. */
    ghost method Relabel(t: CallTree, below: set<Call>)
      requires Repr == below + {this} && this !in below && Owns(below, calls)
      requires t.data == Data() && Stand(calls, t.calls)
      modifies this`tree
      ensures Valid() && tree == t
    {
      tree := t;
      assert Repr - {this} == below;
    }

    /** Go's zero value. */
    constructor ()
      ensures Valid() && Repr == {this}
      ensures tree == Node(FlatCall(Other(""), ZERO_ADDRESS, ZERO_ADDRESS, 0, 0, false, ""), [])
    {
      kind, from, to, value, gasUsed, revert, errorMessage, calls :=
        Other(""), ZERO_ADDRESS, ZERO_ADDRESS, 0, 0, false, "", [];
      tree := Node(FlatCall(Other(""), ZERO_ADDRESS, ZERO_ADDRESS, 0, 0, false, ""), []);
      Repr := {this};
    }

    method Flatten() returns (f: FlatCall)
      ensures f == Data()
    {
      f := FlatCall(kind, from, to, value, gasUsed, revert, errorMessage);
    }

    /** Decodes a reported call into this object. The revert mark is only ever
        set: a mark the receiver already carries survives. */
    method UnmarshalJSON(input: JsCall)
      modifies this
      ensures Valid() && fresh(Repr - {this})
      ensures tree.calls == Decode(input).calls
      ensures tree.data == DecodeFrame(input).(revert := old(revert) || DecodeFrame(input).revert)
      decreases input, 0
    {
      var decoded, owned := UnmarshalCalls(input.calls);
      Assign(DecodeFrame(input));
      Adopt(decoded, owned, DecodeAll(input.calls));
    }

    /** Takes the calls `cs`, which `owned` holds and which stand for `ts`, as sub-calls. */
    method Adopt(cs: seq<Call>, ghost owned: set<Call>, ghost ts: seq<CallTree>)
      requires this !in owned && Owns(owned, cs) && Stand(cs, ts)
      modifies this`calls, this`tree, this`Repr
      ensures Valid() && Repr == owned + {this}
      ensures Data() == old(Data()) && tree == Node(Data(), ts)
    {
      calls, Repr := cs, owned + {this};
      Relabel(Node(Data(), ts), owned);
    }

    /** Copies a decoded frame into the fields, setting but never clearing the revert mark. */
    method Assign(dec: FlatCall)
      modifies this
      ensures Data() == dec.(revert := old(revert) || dec.errorMessage != "")
    {
      kind := dec.kind;
      from := dec.from;
      to := dec.to;
      value := dec.value;
      gasUsed := dec.gasUsed;
      if dec.errorMessage != "" {
        revert := true;
      }
      errorMessage := dec.errorMessage;
    }

    /** Decodes a reported call into a new object. */
    static method FromJSON(input: JsCall) returns (c: Call)
      ensures c.Valid() && fresh(c.Repr)
      ensures c.tree == Decode(input)
      decreases input, 1
    {
      c := new Call();
      c.UnmarshalJSON(input);
    }

    /** Decodes the elements of a `calls` array into new objects. */
    static method UnmarshalCalls(inputs: seq<JsCall>) returns (decoded: seq<Call>, ghost owned: set<Call>)
      ensures fresh(owned)
      ensures Owns(owned, decoded) && Stand(decoded, DecodeAll(inputs))
      decreases inputs
    {
      decoded, owned := [], {};
      var i := 0;
      while i < |inputs|
        invariant 0 <= i == |decoded| <= |inputs|
        invariant fresh(owned)
        invariant Owns(owned, decoded)
        invariant forall k :: 0 <= k < |decoded| ==> decoded[k].tree == Decode(inputs[k])
      {
        var child := FromJSON(inputs[i]);
        OwnOneMore(owned, decoded, child);
        decoded, owned := decoded + [child], owned + child.Repr;
        i := i + 1;
      }
      DecodeAllAt(inputs);
    }
  }

  lemma {:induction false} DecodeAllAt(ws: seq<JsCall>)
    ensures forall k :: 0 <= k < |ws| ==> DecodeAll(ws)[k] == Decode(ws[k])
  {
    if ws != [] {
      DecodeAllAt(ws[1..]);
    }
  }

  // ---------- Flattening ----------

  /** The frames of the forest `ts` as flattening under `parent` reports them,
      with `acc` before each. */
  ghost function Reported(acc: seq<FlatCall>, parent: FlatCall, ts: seq<CallTree>): seq<FlatCall> {
    Spread(acc, PreorderAll(CloseAll(parent, ts)))
  }

  lemma {:induction false} ReportedSnoc(acc: seq<FlatCall>, parent: FlatCall, ts: seq<CallTree>, i: nat)
    requires i < |ts|
    ensures Reported(acc, parent, ts[..i + 1])
         == Reported(acc, parent, ts[..i]) + Spread(acc, Preorder(CloseWith(Inherit(parent, ts[i].data), ts[i])))
  {
    var last := CloseWith(Inherit(parent, ts[i].data), ts[i]);
    CloseAllSnoc(parent, ts[..i], ts[i]);
    assert ts[..i + 1] == ts[..i] + [ts[i]];
    PreorderAllConcat(CloseAll(parent, ts[..i]), [last]);
    assert PreorderAll([last]) == Preorder(last) by { assert [last][1..] == []; }
    SpreadConcat(acc, PreorderAll(CloseAll(parent, ts[..i])), Preorder(last));
  }

  lemma {:induction false} CloseAllSnoc(parent: FlatCall, ts: seq<CallTree>, t: CallTree)
    ensures CloseAll(parent, ts + [t]) == CloseAll(parent, ts) + [CloseWith(Inherit(parent, t.data), t)]
  {
    if ts == [] {
      assert ts + [t] == [t];
      assert [t][1..] == [];
    } else {
      assert (ts + [t])[1..] == ts[1..] + [t];
      CloseAllSnoc(parent, ts[1..], t);
    }
  }

  /** Lets `child` inherit from the frame `parent`, in place. */
  method Propagate(parent: FlatCall, child: Call)
    requires child.Valid()
    modifies child`revert, child`errorMessage, child`tree
    ensures child.Valid()
    ensures child.tree == Node(Inherit(parent, old(child.tree.data)), old(child.tree.calls))
  {
    if parent.revert {
      child.revert := true;
      if |child.errorMessage| == 0 {
        child.errorMessage := parent.errorMessage;
      }
    }
    child.tree := Node(child.Data(), child.tree.calls);
  }

  /** Flattens a call tree in call order, marking on the way every call below a
      reverted one as reverted. Only revert marks and error messages change. */
  method FlattenTraces(data: Call, flattened: seq<FlatCall>) returns (results: seq<FlatCall>)
    requires data.Valid()
    modifies data.Repr`revert, data.Repr`errorMessage, data.Repr`tree
    ensures data.Valid()
    ensures data.tree == Close(old(data.tree))
    ensures results == Spread(flattened, Preorder(Close(old(data.tree))))
    decreases data.Repr, 1
  {
    ghost var before, below := data.tree, data.Repr - {data};
    var d := data.Flatten();
    var children := FlattenCalls(d, data.calls, flattened, below, before.calls);
    results := flattened + [d] + children;
    SpreadNode(flattened, d, before);
    data.Relabel(Close(before), below);
  }

  lemma {:induction false} SpreadNode(acc: seq<FlatCall>, d: FlatCall, t: CallTree)
    ensures Spread(acc, Preorder(CloseWith(d, t))) == acc + [d] + Reported(acc, d, t.calls)
  {
  }

  /** Of the calls `cs`, the first `n` stand for the trees `after`, the others for `before`. */
  ghost predicate Partly(cs: seq<Call>, n: nat, after: seq<CallTree>, before: seq<CallTree>)
    reads cs`tree
  {
    |cs| == |after| == |before|
    && forall k :: 0 <= k < |cs| ==> cs[k].tree == if k < n then after[k] else before[k]
  }

  /** The loop of the flattening: each call inherits from its parent's frame and
      is flattened in turn. The ghost parameters are the objects of the sub-calls
      and the trees they stand for. */
  method FlattenCalls(parent: FlatCall, calls: seq<Call>, flattened: seq<FlatCall>,
                      ghost owned: set<Call>, ghost trees: seq<CallTree>)
    returns (results: seq<FlatCall>)
    requires Call.Owns(owned, calls) && Call.Stand(calls, trees)
    modifies owned`revert, owned`errorMessage, owned`tree
    ensures Call.Owns(owned, calls) && Call.Stand(calls, CloseAll(parent, trees))
    ensures results == Reported(flattened, parent, trees)
    decreases owned, 4
  {
    results := [];
    var i := 0;
    while i < |calls|
      invariant 0 <= i <= |calls|
      invariant Call.Owns(owned, calls) && Partly(calls, i, CloseAll(parent, trees), trees)
      invariant results == Reported(flattened, parent, trees[..i])
    {
      var children := FlattenNext(parent, calls, i, flattened, owned, trees);
      results := results + children;
      ReportedSnoc(flattened, parent, trees, i);
      i := i + 1;
    }
    assert trees[..i] == trees;
  }

  /** One turn of that loop: only the objects of one call change. */
  method FlattenNext(parent: FlatCall, calls: seq<Call>, i: nat, flattened: seq<FlatCall>,
                     ghost owned: set<Call>, ghost trees: seq<CallTree>)
    returns (children: seq<FlatCall>)
    requires i < |calls| && Call.Owns(owned, calls) && Partly(calls, i, CloseAll(parent, trees), trees)
    modifies calls[i].Repr`revert, calls[i].Repr`errorMessage, calls[i].Repr`tree
    ensures Call.Owns(owned, calls) && Partly(calls, i + 1, CloseAll(parent, trees), trees)
    ensures children == Spread(flattened, Preorder(CloseWith(Inherit(parent, trees[i].data), trees[i])))
    decreases owned, 3
  {
    children := FlattenChild(parent, calls[i], flattened);
    CloseAllAt(parent, trees, i);
    forall k | 0 <= k < |calls| && k != i ensures calls[k].Valid() && calls[k].tree == old(calls[k].tree) {
      assert calls[k] in calls[k].Repr && calls[k].Repr !! calls[i].Repr;
    }
  }

  /** Lets one call inherit, and flattens it. */
  method FlattenChild(parent: FlatCall, child: Call, flattened: seq<FlatCall>) returns (children: seq<FlatCall>)
    requires child.Valid()
    modifies child.Repr`revert, child.Repr`errorMessage, child.Repr`tree
    ensures child.Valid()
    ensures child.tree == CloseWith(Inherit(parent, old(child.tree.data)), old(child.tree))
    ensures children == Spread(flattened, Preorder(child.tree))
    decreases child.Repr, 2
  {
    Propagate(parent, child);
    children := FlattenTraces(child, flattened);
  }
}
