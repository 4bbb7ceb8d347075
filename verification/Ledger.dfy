/** A reference ledger that moves balances as the frames of a trace say, and when
    the operations of the trace replay to exactly the same balances. */
module Ledger {
  import opened Types
  import opened CallTrees
  import opened TraceOps
  import opened TraceLaws

  type Balances = map<Address, int>

  function Bal(b: Balances, a: Address): int {
    if a in b then b[a] else 0
  }

  function Move(b: Balances, a: Address, amount: int): Balances {
    b[a := Bal(b, a) + amount]
  }

  /** The accounts' balances and the accounts to be removed when the transaction ends. */
  datatype World = World(bal: Balances, dead: set<Address>)

  /** What a frame does when it takes effect: a self-destruct sends the whole
      balance of its account away, or burns it when sent to itself, and condemns
      the account; a create makes its account live again. */
  function Execute(w: World, t: FlatCall): World {
    if t.revert then w
    else if t.kind == SelfDestructOpType then
      var emptied := w.bal[t.from := 0];
      World(if t.to == t.from then emptied else Move(emptied, t.to, t.value), w.dead + {t.from})
    else
      World(Move(Move(w.bal, t.from, -t.value), t.to, t.value),
            if CreateType(t.kind) then w.dead - {t.to} else w.dead)
  }

  function ExecuteAll(bal: Balances, calls: seq<FlatCall>): World {
    if calls == [] then World(bal, {}) else Execute(ExecuteAll(bal, Init(calls)), Last(calls))
  }

  /** The balance of an account after the condemned accounts have been removed. */
  function FinalBalance(bal: Balances, calls: seq<FlatCall>, a: Address): int {
    var w := ExecuteAll(bal, calls);
    if a in w.dead then 0 else Bal(w.bal, a)
  }

  /** What the EVM guarantees of a frame that takes effect: its sender can afford
      it, and a self-destruct moves its account's whole balance. */
  predicate Affordable(w: World, t: FlatCall) {
    !t.revert ==>
      0 <= t.value <= Bal(w.bal, t.from) && (t.kind == SelfDestructOpType ==> t.value == Bal(w.bal, t.from))
  }

  /** No balance is negative and every frame is affordable after the ones before it. */
  ghost predicate Solvent(bal: Balances, calls: seq<FlatCall>) {
    if calls == [] then forall a :: Bal(bal, a) >= 0
    else Solvent(bal, Init(calls)) && Affordable(ExecuteAll(bal, Init(calls)), Last(calls))
  }

  /** Applies the successful operations to the balances. */
  function Replay(bal: Balances, ops: seq<Operation>): Balances {
    if ops == [] then bal
    else
      var op := Last(ops);
      var before := Replay(bal, Init(ops));
      if op.status == Success then Move(before, op.account, Amount(op)) else before
  }

  lemma {:induction false} ReplayCredits(bal: Balances, ops: seq<Operation>, a: Address)
    ensures Bal(Replay(bal, ops), a) == Bal(bal, a) + Credited(ops, a)
  {
    if ops != [] {
      ReplayCredits(bal, Init(ops), a);
    }
  }

  lemma {:induction false} ExecuteOne(w: World, t: FlatCall, a: Address)
    requires Affordable(w, t)
    ensures Bal(Execute(w, t).bal, a) == Bal(w.bal, a) + Effect(t, a)
  {
  }

  lemma {:induction false} ExecuteCondemns(w: World, t: FlatCall, a: Address)
    ensures a in Execute(w, t).dead <==> if Marks(t, a, true) then Destroys(t, a) else a in w.dead
    ensures Marks(t, a, true) && Destroys(t, a) ==> Bal(Execute(w, t).bal, a) == 0
  {
  }

  lemma {:induction false} ExecuteSnoc(bal: Balances, calls: seq<FlatCall>, t: FlatCall)
    ensures ExecuteAll(bal, calls + [t]) == Execute(ExecuteAll(bal, calls), t)
  {
    assert Init(calls + [t]) == calls;
  }

  lemma {:induction false} SolventSnoc(bal: Balances, calls: seq<FlatCall>, t: FlatCall)
    requires Solvent(bal, calls) && Affordable(ExecuteAll(bal, calls), t)
    ensures Solvent(bal, calls + [t])
  {
    assert Init(calls + [t]) == calls;
  }

  /** The reference ledger's balances follow the frames' effects and never turn
      negative; condemned are the accounts an effective frame destroyed last, and
      each holds what it has received since. */
  lemma {:induction false} WorldInvariant(bal: Balances, calls: seq<FlatCall>, a: Address)
    requires Solvent(bal, calls)
    ensures Bal(ExecuteAll(bal, calls).bal, a) == Bal(bal, a) + Flow(calls, a) >= 0
    ensures a in ExecuteAll(bal, calls).dead <==> Dead(calls, a, true)
    ensures Dead(calls, a, true) ==> Bal(ExecuteAll(bal, calls).bal, a) == Residue(calls, a, true)
  {
    if calls != [] {
      WorldInvariant(bal, Init(calls), a);
      WorldStep(bal, calls, a, ExecuteAll(bal, Init(calls)));
    }
  }

  lemma {:induction false} WorldStep(bal: Balances, calls: seq<FlatCall>, a: Address, w: World)
    requires calls != [] && Affordable(w, Last(calls))
    requires Bal(w.bal, a) == Bal(bal, a) + Flow(Init(calls), a) >= 0
    requires a in w.dead <==> Dead(Init(calls), a, true)
    requires Dead(Init(calls), a, true) ==> Bal(w.bal, a) == Residue(Init(calls), a, true)
    ensures var next := Execute(w, Last(calls));
            Bal(next.bal, a) == Bal(bal, a) + Flow(calls, a) >= 0
            && (a in next.dead <==> Dead(calls, a, true))
            && (Dead(calls, a, true) ==> Bal(next.bal, a) == Residue(calls, a, true))
  {
    ExecuteOne(w, Last(calls), a);
    ExecuteCondemns(w, Last(calls), a);
    ResidueLast(calls, a, true);
  }

  /** The reference final balances, as effects and residues. */
  lemma {:induction false} FinalBalanceIs(bal: Balances, calls: seq<FlatCall>, a: Address)
    requires Solvent(bal, calls)
    ensures FinalBalance(bal, calls, a) == Bal(bal, a) + Flow(calls, a) - Residue(calls, a, true)
    ensures Residue(calls, a, true) >= 0
  {
    WorldInvariant(bal, calls, a);
  }

  /** The operations account for every balance change of the trace. */
  ghost predicate Refines(bal: Balances, calls: seq<FlatCall>, r: Outcome) {
    r.Completed? && forall a :: Bal(Replay(bal, r.ops), a) == FinalBalance(bal, calls, a)
  }

  /** A frame that took effect is a frame. */
  lemma {:induction false} HonestMarkEarlier(calls: seq<FlatCall>, a: Address)
    ensures LastMark(calls, a, true) <= LastMark(calls, a, false)
  {
    var h := LastMark(calls, a, true);
    assert h >= 0 ==> Marks(calls[h], a, false);
  }

  /** The engine lets the latest self-destruct or create `m` of an account decide
      whether it is destroyed; the EVM the latest one `h` that took effect. This says
      that the engine takes from `a` exactly what the EVM removes with it, when
      `late` is paid to `a` after the last frame and before the removal. */
  predicate Settled(calls: seq<FlatCall>, a: Address, late: int) {
    HonestMarkEarlier(calls, a);
    SettledBetween(calls, a, late, LastMark(calls, a, false), Dead(calls, a, false),
                   LastMark(calls, a, true), Dead(calls, a, true))
  }

  /** The same, with whether `m` and `h` are self-destructs. */
  predicate SettledBetween(calls: seq<FlatCall>, a: Address, late: int, m: int, destroyed: bool, h: int, dead: bool)
    requires -1 <= h <= m < |calls|
  {
    if dead && destroyed then Flow(calls[h + 1..m + 1], a) + late == 0
    else if dead then Flow(calls[h + 1..], a) + late == 0
    else destroyed ==> Flow(calls[m + 1..], a) == 0
  }

  /** In terms of residues. */
  lemma {:induction false} SettledResidues(calls: seq<FlatCall>, a: Address, late: int)
    ensures Settled(calls, a, late)
       <==> Residue(calls, a, false) == Residue(calls, a, true) + if Dead(calls, a, true) then late else 0
  {
    HonestMarkEarlier(calls, a);
    FlowsBetween(calls, a, late, LastMark(calls, a, false), Dead(calls, a, false),
                 LastMark(calls, a, true), Dead(calls, a, true));
  }

  lemma {:induction false} FlowsBetween(calls: seq<FlatCall>, a: Address, late: int, m: int, destroyed: bool, h: int,
                                        dead: bool)
    requires -1 <= h <= m < |calls|
    ensures SettledBetween(calls, a, late, m, destroyed, h, dead)
       <==> Since(calls, a, m, destroyed) == Since(calls, a, h, dead) + if dead then late else 0
  {
    FlowBetween(calls, h + 1, m + 1, a);
  }

  lemma {:induction false} FlowBetween(calls: seq<FlatCall>, h: nat, m: nat, a: Address)
    requires h <= m <= |calls|
    ensures Flow(calls[h..], a) == Flow(calls[h..m], a) + Flow(calls[m..], a)
  {
    FlowSplit(calls[h..], m - h, a);
    assert calls[h..][..m - h] == calls[h..m] && calls[h..][m - h..] == calls[m..];
  }

  /** On every trace the EVM can afford, the engine completes and its successful
      operations replay to the reference balances exactly when every account is
      settled: where the latest self-destruct or create of an account was reverted,
      what the account received in between, or since, must cancel. */
  lemma {:induction false} LedgerRefinement(bal: Balances, calls: seq<FlatCall>, start: int, order: seq<Address>)
    requires Solvent(bal, calls)
    requires Enumerates(order, Run(calls, start).destroyed.Keys)
    ensures Refines(bal, calls, Result(calls, start, order)) <==> forall a :: Settled(calls, a, 0)
  {
    var r := Result(calls, start, order);
    if forall a :: Settled(calls, a, 0) {
      forall a ensures Residue(calls, a, false) >= 0 {
        SettledResidues(calls, a, 0);
        FinalBalanceIs(bal, calls, a);
      }
      CoveredCompletes(calls, start, order);
    }
    if r.Completed? {
      forall a
        ensures Bal(Replay(bal, r.ops), a) == FinalBalance(bal, calls, a) <==> Settled(calls, a, 0)
      {
        ReplayCredits(bal, r.ops, a);
        ResultCredited(calls, start, order, a);
        FinalBalanceIs(bal, calls, a);
        SettledResidues(calls, a, 0);
      }
    }
  }

  /** When no tracked balance is negative, the process does not exit. */
  lemma {:induction false} CoveredCompletes(calls: seq<FlatCall>, start: int, order: seq<Address>)
    requires forall a :: Residue(calls, a, false) >= 0
    requires Enumerates(order, Run(calls, start).destroyed.Keys)
    ensures Result(calls, start, order).Completed?
  {
    EnumerationFinishable(calls, start, order);
    forall a | a in Run(calls, start).destroyed ensures Run(calls, start).destroyed[a] >= 0 {
      DestroyedInvariant(calls, start, a);
    }
    FinishPays(Run(calls, start), order);
  }

  /** No self-destruct is reverted, and no reverted create targets an account the
      engine is tracking at that point. */
  ghost predicate NoRevertedMarks(calls: seq<FlatCall>, start: int) {
    forall k :: 0 <= k < |calls| ==> NoRevertedMark(calls, start, k)
  }

  ghost predicate NoRevertedMark(calls: seq<FlatCall>, start: int, k: int)
    requires 0 <= k < |calls|
  {
    calls[k].revert ==>
      calls[k].kind != SelfDestructOpType
      && (CreateType(calls[k].kind) ==> calls[k].to !in Run(calls[..k], start).destroyed)
  }

  lemma {:induction false} NoRevertedMarksInit(calls: seq<FlatCall>, start: int)
    requires NoRevertedMarks(calls, start) && calls != []
    ensures NoRevertedMarks(Init(calls), start)
  {
    forall k | 0 <= k < |Init(calls)| ensures NoRevertedMark(Init(calls), start, k) {
      assert Init(calls)[..k] == calls[..k];
      assert NoRevertedMark(calls, start, k);
    }
  }

  lemma {:induction false} NoRevertedMarksHarmless(calls: seq<FlatCall>, start: int, a: Address)
    requires NoRevertedMarks(calls, start)
    ensures Dead(calls, a, false) <==> Dead(calls, a, true)
    ensures Residue(calls, a, false) == Residue(calls, a, true)
  {
    if calls != [] {
      NoRevertedMarksInit(calls, start);
      NoRevertedMarksHarmless(Init(calls), start, a);
      LastMarkHarmless(calls, start, a);
      HarmlessStep(calls, a);
    }
  }

  lemma {:induction false} HarmlessStep(calls: seq<FlatCall>, a: Address)
    requires calls != []
    requires Dead(Init(calls), a, false) <==> Dead(Init(calls), a, true)
    requires Residue(Init(calls), a, false) == Residue(Init(calls), a, true)
    requires Last(calls).revert && Marks(Last(calls), a, false) ==>
               !Destroys(Last(calls), a) && !Dead(Init(calls), a, false) && Residue(Init(calls), a, false) == 0
    ensures Dead(calls, a, false) <==> Dead(calls, a, true)
    ensures Residue(calls, a, false) == Residue(calls, a, true)
  {
    ResidueLast(calls, a, false);
    ResidueLast(calls, a, true);
  }

  /** A reverted last frame only marks an account that is not tracked anyway. */
  lemma {:induction false} LastMarkHarmless(calls: seq<FlatCall>, start: int, a: Address)
    requires NoRevertedMarks(calls, start) && calls != []
    ensures Last(calls).revert && Marks(Last(calls), a, false) ==>
              !Destroys(Last(calls), a) && !Dead(Init(calls), a, false) && Residue(Init(calls), a, false) == 0
  {
    DestroyedInvariant(Init(calls), start, a);
    var k := |calls| - 1;
    assert NoRevertedMark(calls, start, k);
    assert calls[k] == Last(calls) && calls[..k] == Init(calls);
  }

  /** In particular a trace without such reverts is tracked completely. */
  lemma {:induction false} RefinesWithoutRevertedMarks(bal: Balances, calls: seq<FlatCall>, start: int,
                                                       order: seq<Address>)
    requires Solvent(bal, calls) && NoRevertedMarks(calls, start)
    requires Enumerates(order, Run(calls, start).destroyed.Keys)
    ensures Refines(bal, calls, Result(calls, start, order))
  {
    forall a ensures Settled(calls, a, 0) {
      NoRevertedMarksHarmless(calls, start, a);
      SettledResidues(calls, a, 0);
    }
    LedgerRefinement(bal, calls, start, order);
  }
}
