/** From flattened traces to ledger operations. */
module TraceOps {
  import opened Types
  import opened CallTrees

  // ---------- The engine as a function ----------

  /** The loop state: the operations so far, and for every account destroyed so
      far what it has received since. */
  datatype State = State(ops: seq<Operation>, destroyed: map<Address, int>)

  /** The process exits when a destroyed account ends with a negative balance. */
  datatype Outcome = Completed(ops: seq<Operation>) | Exited(account: Address, residue: int)

  function StatusOf(t: FlatCall): Status {
    if t.revert then Failure else Success
  }

  function ErrorOf(t: FlatCall): Option<string> {
    if t.revert then Some(t.errorMessage) else None
  }

  /** Zero-value calls produce no operations. */
  predicate Reports(t: FlatCall) {
    !(t.value == 0 && CallType(t.kind))
  }

  function Debit(t: FlatCall, index: int): Operation {
    Operation(index, [], t.kind, StatusOf(t), t.from, if t.value == 0 then None else Some(-t.value), ErrorOf(t))
  }

  function Credit(t: FlatCall, index: int): Operation {
    Operation(index, [index - 1], t.kind, StatusOf(t), t.to, if t.value == 0 then None else Some(t.value), ErrorOf(t))
  }

  /** Adds `amount` to what `a` has received, if `a` is a destroyed account and `t` succeeded. */
  function Track(destroyed: map<Address, int>, t: FlatCall, a: Address, amount: int): map<Address, int> {
    if t.value != 0 && a in destroyed && !t.revert then destroyed[a := destroyed[a] + amount] else destroyed
  }

  function AddDebit(s: State, t: FlatCall, start: int): State {
    if Reports(t) then State(s.ops + [Debit(t, |s.ops| + start)], Track(s.destroyed, t, t.from, -t.value)) else s
  }

  function AddCredit(s: State, t: FlatCall): State
    requires Reports(t) ==> s.ops != []
  {
    if Reports(t) then
      State(s.ops + [Credit(t, s.ops[|s.ops| - 1].index + 1)], Track(s.destroyed, t, t.to, t.value))
    else s
  }

  /** What one frame does to the loop state. A self-destruct resets its account
      whether or not it was reverted, and so does a create. */
  function Step(s: State, t: FlatCall, start: int): State {
    var s1 := AddDebit(s, t, start);
    if t.kind == SelfDestructOpType then
      var s2 := s1.(destroyed := s1.destroyed[t.from := 0]);
      if t.from == t.to then s2 else AddCredit(s2, t)
    else if CreateType(t.kind) then AddCredit(s1.(destroyed := s1.destroyed - {t.to}), t)
    else AddCredit(s1, t)
  }

  function Run(calls: seq<FlatCall>, start: int): State {
    if calls == [] then State([], map[])
    else Step(Run(calls[..|calls| - 1], start), calls[|calls| - 1], start)
  }

  function DestructOp(index: int, a: Address, residue: int): Operation {
    Operation(index, [], DestructOpType, Success, a, Some(-residue), None)
  }

  /** `order` lists destroyed accounts only, and if there are any, there is an
      operation whose index the next one can follow. */
  predicate Finishable(s: State, order: seq<Address>) {
    (forall a :: a in order ==> a in s.destroyed) && (order != [] ==> s.ops != [])
  }

  /** Empties the destroyed accounts that still hold a balance, in the given order. */
  function Finish(s: State, order: seq<Address>): (r: Outcome)
    requires Finishable(s, order)
    ensures r.Completed? ==> |r.ops| >= |s.ops|
  {
    if order == [] then Completed(s.ops)
    else
      var a := order[|order| - 1];
      var before := Finish(s, order[..|order| - 1]);
      if before.Exited? || s.destroyed[a] == 0 then before
      else if s.destroyed[a] < 0 then Exited(a, s.destroyed[a])
      else Completed(before.ops + [DestructOp(before.ops[|before.ops| - 1].index + 1, a, s.destroyed[a])])
  }

  /** The operations of a trace, for one iteration order of the destroyed accounts. */
  ghost function Result(calls: seq<FlatCall>, start: int, order: seq<Address>): Outcome
    requires Enumerates(order, Run(calls, start).destroyed.Keys)
  {
    EnumerationFinishable(calls, start, order);
    Finish(Run(calls, start), order)
  }

  // ---------- The engine as the program runs it ----------

  /** The map of destroyed accounts is iterated in no particular order. */
  method TraceOps(calls: seq<FlatCall>, startIndex: int) returns (r: Outcome)
    ensures exists order :: Enumerates(order, Run(calls, startIndex).destroyed.Keys)
                            && r == Result(calls, startIndex, order)
  {
    var ops: seq<Operation> := [];
    if |calls| == 0 {
      assert Enumerates([], Run(calls, startIndex).destroyed.Keys);
      return Completed(ops);
    }

    var destroyedAccounts: map<Address, int> := map[];
    var k := 0;
    while k < |calls|
      invariant 0 <= k <= |calls|
      invariant State(ops, destroyedAccounts) == Run(calls[..k], startIndex)
    {
      assert calls[..k + 1][..k] == calls[..k];
      ops, destroyedAccounts := ApplyTrace(calls[k], ops, destroyedAccounts, startIndex);
      k := k + 1;
    }
    assert calls[..k] == calls;
    DestroyedImpliesOps(calls, startIndex);
    r := DestructOps(ops, destroyedAccounts);
    ghost var order :| Enumerates(order, destroyedAccounts.Keys) && Finishable(State(ops, destroyedAccounts), order)
                       && r == Finish(State(ops, destroyedAccounts), order);
    assert r == Result(calls, startIndex, order);
  }

  /** One turn of the engine's main loop. */
  method ApplyTrace(trace: FlatCall, traceOps: seq<Operation>, destroyed: map<Address, int>, startIndex: int)
    returns (ops: seq<Operation>, destroyedAccounts: map<Address, int>)
    ensures State(ops, destroyedAccounts) == Step(State(traceOps, destroyed), trace, startIndex)
  {
    ops, destroyedAccounts := traceOps, destroyed;
    var opStatus := Success;
    var metadata: Option<string> := None;
    if trace.revert {
      opStatus := Failure;
      metadata := Some(trace.errorMessage);
    }

    var zeroValue := trace.value == 0;

    // A zero-value call is not reported, but the rest of the body still runs.
    var shouldAdd := true;
    if zeroValue && CallType(trace.kind) {
      shouldAdd := false;
    }

    var from := trace.from;
    var to := trace.to;

    if shouldAdd {
      var fromOp := Operation(|ops| + startIndex, [], trace.kind, opStatus, from, Some(-trace.value), metadata);
      if zeroValue {
        fromOp := fromOp.(amount := None);
      } else if from in destroyedAccounts && opStatus == Success {
        destroyedAccounts := destroyedAccounts[from := destroyedAccounts[from] - trace.value];
      }
      ops := ops + [fromOp];
    }
    assert State(ops, destroyedAccounts) == AddDebit(State(traceOps, destroyed), trace, startIndex);

    if trace.kind == SelfDestructOpType {
      destroyedAccounts := destroyedAccounts[from := 0];
      if from == to {
        return;
      }
    }

    if CreateType(trace.kind) {
      destroyedAccounts := destroyedAccounts - {to};
    }

    if shouldAdd {
      var lastOpIndex := ops[|ops| - 1].index;
      var toOp := Operation(lastOpIndex + 1, [lastOpIndex], trace.kind, opStatus, to, Some(trace.value), metadata);
      if zeroValue {
        toOp := toOp.(amount := None);
      } else if to in destroyedAccounts && opStatus == Success {
        destroyedAccounts := destroyedAccounts[to := destroyedAccounts[to] + trace.value];
      }
      ops := ops + [toOp];
    }
  }

  /** The engine's final loop: empties the destroyed accounts that still hold a
      balance, in whatever order the map yields them. */
  method DestructOps(traceOps: seq<Operation>, destroyedAccounts: map<Address, int>)
    returns (r: Outcome)
    requires destroyedAccounts != map[] ==> traceOps != []
    ensures var s := State(traceOps, destroyedAccounts);
            exists order :: Enumerates(order, destroyedAccounts.Keys) && Finishable(s, order) && r == Finish(s, order)
  {
    ghost var s := State(traceOps, destroyedAccounts);
    ghost var order: seq<Address>, seen: set<Address> := [], {};
    var ops := traceOps;
    var remaining := destroyedAccounts.Keys;
    while remaining != {}
      invariant seen + remaining == destroyedAccounts.Keys && seen !! remaining
      invariant Enumerates(order, seen)
      invariant Finishable(s, order)
      invariant Finish(s, order) == Completed(ops)
      decreases remaining
    {
      var acct :| acct in remaining;
      assert acct in destroyedAccounts;
      EnumerateOne(order, seen, acct);
      FinishOne(s, order, acct);
      remaining := remaining - {acct};
      var val := destroyedAccounts[acct];
      order, seen := order + [acct], seen + {acct};
      if val == 0 {
        continue;
      }
      if val < 0 {
        // The process exits here: no later entry can change the outcome.
        ghost var rest := EnumerateRest(order, seen, destroyedAccounts.Keys);
        FinishExited(s, order, rest);
        order := order + rest;
        return Exited(acct, val);
      }
      ops := ops + [Operation(ops[|ops| - 1].index + 1, [], DestructOpType, Success, acct, Some(-val), None)];
    }
    r := Completed(ops);
  }

  lemma {:induction false} FinishOne(s: State, order: seq<Address>, a: Address)
    requires Finishable(s, order) && a in s.destroyed && s.ops != [] && Finish(s, order).Completed?
    ensures Finishable(s, order + [a])
    ensures var ops := Finish(s, order).ops;
            Finish(s, order + [a])
            == if s.destroyed[a] == 0 then Completed(ops)
               else if s.destroyed[a] < 0 then Exited(a, s.destroyed[a])
               else Completed(ops + [DestructOp(ops[|ops| - 1].index + 1, a, s.destroyed[a])])
  {
    assert (order + [a])[..|order|] == order;
  }

  lemma {:induction false} FinishExited(s: State, order: seq<Address>, rest: seq<Address>)
    requires Finishable(s, order + rest) && Finishable(s, order)
    requires Finish(s, order).Exited?
    ensures Finish(s, order + rest) == Finish(s, order)
  {
    if rest == [] {
      assert order + rest == order;
    } else {
      assert (order + rest)[..|order + rest| - 1] == order + rest[..|rest| - 1];
      FinishExited(s, order, rest[..|rest| - 1]);
    }
  }

  /** A self-destruct is always reported, so a destroyed account implies an
      operation: the last operation exists wherever the engine reads its index. */
  lemma {:induction false} DestroyedImpliesOps(calls: seq<FlatCall>, start: int)
    ensures Run(calls, start).destroyed != map[] ==> Run(calls, start).ops != []
  {
    if calls != [] {
      DestroyedImpliesOps(calls[..|calls| - 1], start);
    }
  }

  lemma {:induction false} EnumerationFinishable(calls: seq<FlatCall>, start: int, order: seq<Address>)
    requires Enumerates(order, Run(calls, start).destroyed.Keys)
    ensures Finishable(Run(calls, start), order)
  {
    DestroyedImpliesOps(calls, start);
    assert order != [] ==> order[0] in Run(calls, start).destroyed;
  }
}
