/** Event streams on which the engine does not track every balance change: why the
    conditions of the tracking theorems cannot be dropped. Account 1 is a contract
    holding `held`, account 3 pays for the transactions, account 9 is the contract
    it calls. */
module Mistracked {
  import opened Types
  import opened CallTracer
  import opened CallTrees
  import opened EndToEnd
  import TraceOps
  import opened TraceLaws
  import opened Ledger
  import opened Blocks
  import opened Settlement

  const REVERTED := "execution reverted"

  function Before(held: nat, purse: nat): Balances {
    map[1 := held, 3 := purse]
  }

  /** The outermost message, a call of `to` by account 3. */
  function Calling(to: Address, value: nat): Context {
    Context(CallOpType, 3, to, value, 0, 0, "0x", "0x", None)
  }

  function Completed(kind: OpType, from: Address, to: Address, value: nat, calls: seq<Frame>): Frame {
    Frame(EnterFrame(kind, from, to, "0x", 0, Some(value)), ExitFrame(0, "0x", None), calls)
  }

  function Aborted(kind: OpType, from: Address, to: Address, value: nat, calls: seq<Frame>): Frame {
    Frame(EnterFrame(kind, from, to, "0x", 0, Some(value)), ExitFrame(0, "0x", Some(REVERTED)), calls)
  }

  /** Account 1 sends all it holds to account 2 and self-destructs. */
  function DestroyOne(held: nat): Frame {
    Completed(SelfDestructOpType, 1, 2, held, [])
  }

  function Took(kind: OpType, from: Address, to: Address, value: int): FlatCall {
    FlatCall(kind, from, to, value, 0, false, "")
  }

  function Undid(kind: OpType, from: Address, to: Address, value: int): FlatCall {
    FlatCall(kind, from, to, value, 0, true, REVERTED)
  }

  // ---------- Evaluating small traces ----------

  lemma {:induction false} ReportNothing(parent: FlatCall)
    ensures Reports(parent, []) == []
  {
    assert Records([]) == [];
  }

  /** The report on a frame that completed, below one that did. */
  lemma {:induction false} ReportCompleted(parent: FlatCall, kind: OpType, from: Address, to: Address, value: nat,
                                           calls: seq<Frame>, rest: seq<Frame>)
    requires !parent.revert
    ensures Reports(parent, [Completed(kind, from, to, value, calls)] + rest)
         == [Took(kind, from, to, value)] + Reports(Took(kind, from, to, value), calls) + Reports(parent, rest)
  {
    var fs := [Completed(kind, from, to, value, calls)] + rest;
    ReportsFirst(parent, fs);
    OwnData(fs[0]);
    assert fs[1..] == rest;
  }

  lemma {:induction false} ReportLeaf(parent: FlatCall, kind: OpType, from: Address, to: Address, value: nat,
                                      rest: seq<Frame>)
    requires !parent.revert
    ensures Reports(parent, [Completed(kind, from, to, value, [])] + rest)
         == [Took(kind, from, to, value)] + Reports(parent, rest)
  {
    ReportCompleted(parent, kind, from, to, value, [], rest);
    ReportNothing(Took(kind, from, to, value));
  }

  /** The report on a call by account 9 that was reverted, with the one frame below it. */
  lemma {:induction false} ReportAborted(parent: FlatCall, callee: Address, kind: OpType, from: Address, to: Address,
                                         value: nat, rest: seq<Frame>)
    requires !parent.revert
    ensures Reports(parent, [Aborted(CallOpType, 9, callee, 0, [Completed(kind, from, to, value, [])])] + rest)
         == [Undid(CallOpType, 9, callee, 0), Undid(kind, from, to, value)] + Reports(parent, rest)
  {
    var below := Completed(kind, from, to, value, []);
    var f := Aborted(CallOpType, 9, callee, 0, [below]);
    assert Own(f) == Undid(CallOpType, 9, callee, 0);
    assert Inherit(Own(f), Own(below)) == Undid(kind, from, to, value);
    ReportPair(parent, f, below, rest);
  }

  lemma {:induction false} ReportPair(parent: FlatCall, f: Frame, below: Frame, rest: seq<Frame>)
    requires !parent.revert && f.calls == [below] && below.calls == []
    ensures Reports(parent, [f] + rest) == [Own(f), Inherit(Own(f), Own(below))] + Reports(parent, rest)
  {
    ReportsFirst(parent, [f] + rest);
    assert ([f] + rest)[1..] == rest;
    ReportsFirst(Own(f), [below]);
    assert [below][1..] == [];
    ReportNothing(Own(f));
    ReportNothing(Inherit(Own(f), Own(below)));
  }

  /** One more frame of a trace the accounts can afford. */
  lemma {:induction false} OneMore(bal: Balances, calls: seq<FlatCall>, t: FlatCall)
    requires Solvent(bal, calls) && Affordable(ExecuteAll(bal, calls), t)
    ensures Solvent(bal, calls + [t])
    ensures ExecuteAll(bal, calls + [t]) == Execute(ExecuteAll(bal, calls), t)
  {
    SolventSnoc(bal, calls, t);
    ExecuteSnoc(bal, calls, t);
  }

  /** The accounts tracked after one more frame. */
  lemma {:induction false} TrackOneMore(calls: seq<FlatCall>, t: FlatCall)
    ensures TraceOps.Run(calls + [t], 0).destroyed == TraceOps.Step(TraceOps.Run(calls, 0), t, 0).destroyed
  {
    assert Init(calls + [t]) == calls;
  }

  lemma {:induction false} FlowOne(t: FlatCall, a: Address)
    ensures Flow([t], a) == Effect(t, a)
  {
    assert Init([t]) == [];
  }

  // ---------- A reverted self-destruct ----------

  /** Account 9 calls account 1, which self-destructs; the call is reverted. Then
      account 9 pays `amount` to account 1. */
  function PaidLater(held: nat, amount: nat): seq<Frame> {
    [Aborted(CallOpType, 9, 1, 0, [DestroyOne(held)])] + [Completed(CallOpType, 9, 1, amount, [])]
  }

  function PaidLaterCalls(held: nat, amount: nat): seq<FlatCall> {
    [Took(CallOpType, 3, 9, amount), Undid(CallOpType, 9, 1, 0), Undid(SelfDestructOpType, 1, 2, held),
     Took(CallOpType, 9, 1, amount)]
  }

  lemma {:induction false} PaidLaterTrace(held: nat, amount: nat)
    ensures WellNested(Serialize(PaidLater(held, amount)))
    ensures Flattened(Serialize(PaidLater(held, amount)), Calling(9, amount)) == PaidLaterCalls(held, amount)
  {
    var root, last := Took(CallOpType, 3, 9, amount), [Completed(CallOpType, 9, 1, amount, [])];
    FlattenedSerialized(PaidLater(held, amount), Calling(9, amount));
    ReportAborted(root, 1, SelfDestructOpType, 1, 2, held, last);
    ReportLeaf(root, CallOpType, 9, 1, amount, []);
    ReportNothing(root);
    assert last == last + [];
  }

  lemma {:induction false} PaidLaterSolvent(held: nat, amount: nat)
    ensures Solvent(Before(held, amount), PaidLaterCalls(held, amount))
  {
    var bal, calls := Before(held, amount), PaidLaterCalls(held, amount);
    var c1 := [calls[0]];
    var c2 := c1 + [calls[1]];
    var c3 := c2 + [calls[2]];
    var c4 := c3 + [calls[3]];
    assert [] + [calls[0]] == c1 && c4 == calls;
    OneMore(bal, [], calls[0]);
    OneMore(bal, c1, calls[1]);
    OneMore(bal, c2, calls[2]);
    OneMore(bal, c3, calls[3]);
  }

  lemma {:induction false} PaidLaterUnsettled(held: nat, amount: nat)
    requires amount > 0
    ensures !Settled(PaidLaterCalls(held, amount), 1, 0)
  {
    var calls := PaidLaterCalls(held, amount);
    assert LastMark(calls, 1, false) == 2;
    assert LastMark(calls, 1, true) == -1;
    FlowOne(calls[3], 1);
    assert calls[3..] == [calls[3]];
    assert Flow(calls[3..], 1) == amount;
  }

  /** The engine takes the amount away again with a DESTRUCT operation, although
      account 1 lives on: in no iteration order do the operations replay to the
      balances. */
  lemma {:induction false} RevertedSelfDestructIsMistracked(held: nat, amount: nat, order: seq<Address>)
    requires amount > 0
    ensures var evs, ctx := Serialize(PaidLater(held, amount)), Calling(9, amount);
            var calls := Flattened(evs, ctx);
            WellNested(evs) && Solvent(Before(held, amount), calls)
            && (Enumerates(order, TraceOps.Run(calls, 0).destroyed.Keys) ==>
                  !Refines(Before(held, amount), calls, TraceOps.Result(calls, 0, order)))
  {
    var calls := PaidLaterCalls(held, amount);
    PaidLaterTrace(held, amount);
    PaidLaterSolvent(held, amount);
    PaidLaterUnsettled(held, amount);
    if Enumerates(order, TraceOps.Run(calls, 0).destroyed.Keys) {
      LedgerRefinement(Before(held, amount), calls, 0, order);
    }
  }

  /** Or, instead, account 1 is called once more and spends `amount`. */
  function SpentLater(held: nat, amount: nat): seq<Frame> {
    [Aborted(CallOpType, 9, 1, 0, [DestroyOne(held)])]
    + [Completed(CallOpType, 9, 1, 0, [Completed(CallOpType, 1, 3, amount, [])])]
  }

  function SpentLaterCalls(held: nat, amount: nat): seq<FlatCall> {
    [Took(CallOpType, 3, 9, 0), Undid(CallOpType, 9, 1, 0), Undid(SelfDestructOpType, 1, 2, held),
     Took(CallOpType, 9, 1, 0), Took(CallOpType, 1, 3, amount)]
  }

  lemma {:induction false} SpentLaterTrace(held: nat, amount: nat)
    ensures WellNested(Serialize(SpentLater(held, amount)))
    ensures Flattened(Serialize(SpentLater(held, amount)), Calling(9, 0)) == SpentLaterCalls(held, amount)
  {
    var root, second := Took(CallOpType, 3, 9, 0), Took(CallOpType, 9, 1, 0);
    var spend := [Completed(CallOpType, 1, 3, amount, [])];
    var last := [Completed(CallOpType, 9, 1, 0, spend)];
    FlattenedSerialized(SpentLater(held, amount), Calling(9, 0));
    ReportAborted(root, 1, SelfDestructOpType, 1, 2, held, last);
    ReportCompleted(root, CallOpType, 9, 1, 0, spend, []);
    ReportLeaf(second, CallOpType, 1, 3, amount, []);
    ReportNothing(root);
    ReportNothing(second);
    assert last == last + [] && spend == spend + [];
  }

  lemma {:induction false} SpentLaterSolvent(held: nat, amount: nat)
    requires 0 < amount <= held
    ensures Solvent(Before(held, 0), SpentLaterCalls(held, amount))
  {
    var bal, calls := Before(held, 0), SpentLaterCalls(held, amount);
    var c1 := [calls[0]];
    var c2 := c1 + [calls[1]];
    var c3 := c2 + [calls[2]];
    var c4 := c3 + [calls[3]];
    var c5 := c4 + [calls[4]];
    assert [] + [calls[0]] == c1 && c5 == calls;
    OneMore(bal, [], calls[0]);
    OneMore(bal, c1, calls[1]);
    OneMore(bal, c2, calls[2]);
    OneMore(bal, c3, calls[3]);
    OneMore(bal, c4, calls[4]);
  }

  lemma {:induction false} SpentLaterTracked(held: nat, amount: nat)
    requires amount > 0
    ensures TraceOps.Run(SpentLaterCalls(held, amount), 0).destroyed == map[1 := -(amount as int)]
  {
    var calls := SpentLaterCalls(held, amount);
    var c2 := [calls[0], calls[1]];
    var c3 := c2 + [calls[2]];
    var c4 := c3 + [calls[3]];
    assert c4 + [calls[4]] == calls;
    NothingTracked(c2);
    TrackOneMore(c2, calls[2]);
    TrackOneMore(c3, calls[3]);
    TrackOneMore(c4, calls[4]);
  }

  lemma {:induction false} NothingTracked(calls: seq<FlatCall>)
    requires forall t :: t in calls ==> t.kind == CallOpType
    ensures TraceOps.Run(calls, 0).destroyed == map[]
  {
    if calls != [] {
      NothingTracked(Init(calls));
    }
  }

  /** The engine believes account 1 overdrawn and ends the process. */
  lemma {:induction false} RevertedSelfDestructExits(held: nat, amount: nat)
    requires 0 < amount <= held
    ensures var evs, ctx := Serialize(SpentLater(held, amount)), Calling(9, 0);
            var calls := Flattened(evs, ctx);
            WellNested(evs) && Solvent(Before(held, 0), calls)
            && Enumerates([1], TraceOps.Run(calls, 0).destroyed.Keys)
            && TraceOps.Result(calls, 0, [1]) == TraceOps.Exited(1, -(amount as int))
  {
    var calls := SpentLaterCalls(held, amount);
    SpentLaterTrace(held, amount);
    SpentLaterSolvent(held, amount);
    SpentLaterTracked(held, amount);
    var s, order: seq<Address> := TraceOps.Run(calls, 0), [1];
    assert Enumerates(order, s.destroyed.Keys);
    TraceOps.EnumerationFinishable(calls, 0, order);
    assert order[..0] == [];
    assert TraceOps.Finish(s, order[..0]) == TraceOps.Completed(s.ops);
  }

  // ---------- A reverted create ----------

  /** Account 1 self-destructs and is paid `amount`; then account 8 creates it, in a
      call that is reverted. */
  function CreatedLater(held: nat, amount: nat): seq<Frame> {
    [Completed(CallOpType, 9, 1, 0, [DestroyOne(held)])] + ([Completed(CallOpType, 9, 1, amount, [])]
    + [Aborted(CallOpType, 9, 8, 0, [Completed(Create2OpType, 8, 1, 0, [])])])
  }

  function CreatedLaterCalls(held: nat, amount: nat): seq<FlatCall> {
    [Took(CallOpType, 3, 9, amount), Took(CallOpType, 9, 1, 0), Took(SelfDestructOpType, 1, 2, held),
     Took(CallOpType, 9, 1, amount), Undid(CallOpType, 9, 8, 0), Undid(Create2OpType, 8, 1, 0)]
  }

  lemma {:induction false} CreatedLaterReports(held: nat, amount: nat)
    ensures var root := Took(CallOpType, 3, 9, amount);
            [root] + Reports(root, CreatedLater(held, amount)) == CreatedLaterCalls(held, amount)
  {
    var root, first := Took(CallOpType, 3, 9, amount), Took(CallOpType, 9, 1, 0);
    var pay := [Completed(CallOpType, 9, 1, amount, [])];
    var last := [Aborted(CallOpType, 9, 8, 0, [Completed(Create2OpType, 8, 1, 0, [])])];
    ReportCompleted(root, CallOpType, 9, 1, 0, [DestroyOne(held)], pay + last);
    ReportAlone(first, SelfDestructOpType, 1, 2, held);
    ReportLeaf(root, CallOpType, 9, 1, amount, last);
    ReportAborted(root, 8, Create2OpType, 8, 1, 0, []);
    ReportNothing(root);
    assert last == last + [];
  }

  lemma {:induction false} ReportAlone(parent: FlatCall, kind: OpType, from: Address, to: Address, value: nat)
    requires !parent.revert
    ensures Reports(parent, [Completed(kind, from, to, value, [])]) == [Took(kind, from, to, value)]
  {
    ReportLeaf(parent, kind, from, to, value, []);
    ReportNothing(parent);
    assert [Completed(kind, from, to, value, [])] == [Completed(kind, from, to, value, [])] + [];
  }

  lemma {:induction false} CreatedLaterTrace(held: nat, amount: nat)
    ensures WellNested(Serialize(CreatedLater(held, amount)))
    ensures Flattened(Serialize(CreatedLater(held, amount)), Calling(9, amount)) == CreatedLaterCalls(held, amount)
  {
    FlattenedSerialized(CreatedLater(held, amount), Calling(9, amount));
    CreatedLaterReports(held, amount);
  }

  lemma {:induction false} CreatedLaterSolvent(held: nat, amount: nat)
    ensures Solvent(Before(held, amount), CreatedLaterCalls(held, amount))
  {
    var bal, calls := Before(held, amount), CreatedLaterCalls(held, amount);
    var c1 := [calls[0]];
    var c2 := c1 + [calls[1]];
    var c3 := c2 + [calls[2]];
    var c4 := c3 + [calls[3]];
    var c5 := c4 + [calls[4]];
    var c6 := c5 + [calls[5]];
    assert [] + [calls[0]] == c1 && c6 == calls;
    OneMore(bal, [], calls[0]);
    OneMore(bal, c1, calls[1]);
    OneMore(bal, c2, calls[2]);
    OneMore(bal, c3, calls[3]);
    OneMore(bal, c4, calls[4]);
    OneMore(bal, c5, calls[5]);
  }

  lemma {:induction false} CreatedLaterUnsettled(held: nat, amount: nat)
    requires amount > 0
    ensures !Settled(CreatedLaterCalls(held, amount), 1, 0)
  {
    var calls := CreatedLaterCalls(held, amount);
    assert LastMark(calls, 1, false) == 5;
    assert Marks(calls[2], 1, true);
    assert LastMark(calls, 1, true) == 2;
    FlowOne(calls[3], 1);
    FlowOne(calls[4], 1);
    FlowOne(calls[5], 1);
    FlowConcat([calls[3]], [calls[4]], 1);
    FlowConcat([calls[3]] + [calls[4]], [calls[5]], 1);
    assert calls[3..] == [calls[3]] + [calls[4]] + [calls[5]];
  }

  /** Account 1 is removed with the amount, but no operation says so. */
  lemma {:induction false} RevertedCreateIsMistracked(held: nat, amount: nat, order: seq<Address>)
    requires amount > 0
    ensures var evs, ctx := Serialize(CreatedLater(held, amount)), Calling(9, amount);
            var calls := Flattened(evs, ctx);
            WellNested(evs) && Solvent(Before(held, amount), calls)
            && (Enumerates(order, TraceOps.Run(calls, 0).destroyed.Keys) ==>
                  !Refines(Before(held, amount), calls, TraceOps.Result(calls, 0, order)))
  {
    var calls := CreatedLaterCalls(held, amount);
    CreatedLaterTrace(held, amount);
    CreatedLaterSolvent(held, amount);
    CreatedLaterUnsettled(held, amount);
    if Enumerates(order, TraceOps.Run(calls, 0).destroyed.Keys) {
      LedgerRefinement(Before(held, amount), calls, 0, order);
    }
  }

  // ---------- A miner that self-destructs ----------

  /** Account 3 pays `fee` to account 1, which mines the block and self-destructs in
      the transaction. */
  function MinerDestroyed(held: nat, fee: nat): TxView {
    TxView(3, 1, fee, None, Flattened(Serialize([DestroyOne(held)]), Calling(1, 0)), true)
  }

  function MinerDestroyedCalls(held: nat): seq<FlatCall> {
    [Took(CallOpType, 3, 1, 0), Took(SelfDestructOpType, 1, 2, held)]
  }

  lemma {:induction false} MinerDestroyedTrace(held: nat)
    ensures WellNested(Serialize([DestroyOne(held)]))
    ensures Flattened(Serialize([DestroyOne(held)]), Calling(1, 0)) == MinerDestroyedCalls(held)
  {
    var root := Took(CallOpType, 3, 1, 0);
    FlattenedSerialized([DestroyOne(held)], Calling(1, 0));
    ReportLeaf(root, SelfDestructOpType, 1, 2, held, []);
    ReportNothing(root);
    assert [DestroyOne(held)] == [DestroyOne(held)] + [];
  }

  lemma {:induction false} MinerDestroyedSolvent(held: nat, fee: nat)
    ensures Solvent(Move(Before(held, fee), 3, -(fee as int)), MinerDestroyedCalls(held))
  {
    var bal, calls := Move(Before(held, fee), 3, -(fee as int)), MinerDestroyedCalls(held);
    var c1 := [calls[0]];
    var c2 := c1 + [calls[1]];
    assert [] + [calls[0]] == c1 && c2 == calls;
    OneMore(bal, [], calls[0]);
    OneMore(bal, c1, calls[1]);
  }

  /** The fee is removed with the account, but no operation says so. */
  lemma {:induction false} DestroyedMinerIsMistracked(held: nat, fee: nat, order: seq<Address>)
    requires fee > 0
    ensures var v := MinerDestroyed(held, fee);
            WellNested(Serialize([DestroyOne(held)])) && Accepted(Before(held, fee), v, fee)
            && (Enumerates(order, DestroyedIn(v).Keys) && Populate(v, order).Populated? ==>
                  !SameBalances(Replay(Before(held, fee), Populate(v, order).ops), Settle(Before(held, fee), v, fee)))
  {
    var v := MinerDestroyed(held, fee);
    MinerDestroyedTrace(held);
    MinerDestroyedSolvent(held, fee);
    assert LastMark(v.calls, 1, false) == 1;
    assert Marks(v.calls[1], 1, true);
    assert v.calls[2..2] == [];
    assert !Settled(v.calls, 1, LatePay(v, fee, 1));
    if Enumerates(order, DestroyedIn(v).Keys) {
      TransactionRefinement(Before(held, fee), v, fee, order);
    }
  }
}
