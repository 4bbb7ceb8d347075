/** What the operations of a trace promise: positions, conservation, the account
    of what destroyed accounts receive, and what does not matter. */
module TraceLaws {
  import opened Types
  import opened CallTrees
  import opened TraceOps

  function Init<T>(s: seq<T>): seq<T>
    requires s != []
  {
    s[..|s| - 1]
  }

  function Last<T>(s: seq<T>): T
    requires s != []
  {
    s[|s| - 1]
  }

  lemma {:induction false} InitLast<T>(s: seq<T>)
    requires s != []
    ensures s == Init(s) + [Last(s)]
  {
  }

  /** The operations one frame adds, the first of them at `index`. */
  function Legs(t: FlatCall, index: int): seq<Operation> {
    if !Reports(t) then []
    else if t.kind == SelfDestructOpType && t.from == t.to then [Debit(t, index)]
    else [Debit(t, index), Credit(t, index + 1)]
  }

  lemma {:induction false} StepLegs(s: State, t: FlatCall, start: int)
    ensures Step(s, t, start).ops == s.ops + Legs(t, |s.ops| + start)
  {
  }

  /** The operations of the frames of a trace, one after the other. */
  function Emitted(calls: seq<FlatCall>, start: int): seq<Operation> {
    if calls == [] then []
    else Emitted(Init(calls), start) + Legs(Last(calls), |Emitted(Init(calls), start)| + start)
  }

  lemma {:induction false} EmittedLast(calls: seq<FlatCall>, start: int) returns (before: seq<Operation>)
    requires calls != []
    ensures before == Emitted(Init(calls), start)
    ensures Emitted(calls, start) == before + Legs(Last(calls), |before| + start)
  {
    before := Emitted(Init(calls), start);
  }

  /** What the frames report does not depend on the destroyed accounts. */
  lemma {:induction false} RunEmits(calls: seq<FlatCall>, start: int)
    ensures Run(calls, start).ops == Emitted(calls, start)
  {
    if calls != [] {
      RunEmits(Init(calls), start);
      EmitsNext(calls, start);
    }
  }

  lemma {:induction false} EmitsNext(calls: seq<FlatCall>, start: int)
    requires calls != [] && Run(Init(calls), start).ops == Emitted(Init(calls), start)
    ensures Run(calls, start).ops == Emitted(calls, start)
  {
    var before := EmittedLast(calls, start);
    RunLast(calls, start, before);
  }

  lemma {:induction false} RunLast(calls: seq<FlatCall>, start: int, before: seq<Operation>)
    requires calls != [] && before == Run(Init(calls), start).ops
    ensures Run(calls, start).ops == before + Legs(Last(calls), |before| + start)
  {
    StepLegs(Run(Init(calls), start), Last(calls), start);
  }

  // ---------- What one frame reports ----------

  /** With n the index of the next operation: a call of any of the four types without
      value adds nothing; every other frame adds a debit of its sender and, unless
      it is a self-destruct in favour of itself, a credit of its recipient that is
      related to the debit. Both have the frame's type, status and error message, and
      no amount when there is no value. */
  lemma {:induction false} FrameReported(calls: seq<FlatCall>, t: FlatCall, start: int)
    ensures var before, after := Run(calls, start).ops, Run(calls + [t], start).ops;
            var n := |before| + start;
            var status := if t.revert then Failure else Success;
            var error := if t.revert then Some(t.errorMessage) else None;
            var debited := if t.value == 0 then None else Some(-t.value);
            var credited := if t.value == 0 then None else Some(t.value);
            var debit := Operation(n, [], t.kind, status, t.from, debited, error);
            var credit := Operation(n + 1, [n], t.kind, status, t.to, credited, error);
            if t.value == 0 && t.kind in {CallOpType, CallCodeOpType, DelegateCallOpType, StaticCallOpType} then
              after == before
            else if t.kind == SelfDestructOpType && t.from == t.to then after == before + [debit]
            else after == before + [debit, credit]
  {
    var before := RunNext(calls, t, start);
    LegsReported(before, Run(calls + [t], start).ops, t, start);
  }

  lemma {:induction false} RunNext(calls: seq<FlatCall>, t: FlatCall, start: int) returns (before: seq<Operation>)
    ensures before == Run(calls, start).ops
    ensures Run(calls + [t], start).ops == before + Legs(t, |before| + start)
  {
    before := Run(calls, start).ops;
    assert Init(calls + [t]) == calls && Last(calls + [t]) == t;
    RunLast(calls + [t], start, before);
  }

  lemma {:induction false} LegsReported(before: seq<Operation>, after: seq<Operation>, t: FlatCall, start: int)
    requires after == before + Legs(t, |before| + start)
    ensures var n := |before| + start;
            var status := if t.revert then Failure else Success;
            var error := if t.revert then Some(t.errorMessage) else None;
            var debited := if t.value == 0 then None else Some(-t.value);
            var credited := if t.value == 0 then None else Some(t.value);
            var debit := Operation(n, [], t.kind, status, t.from, debited, error);
            var credit := Operation(n + 1, [n], t.kind, status, t.to, credited, error);
            if t.value == 0 && t.kind in {CallOpType, CallCodeOpType, DelegateCallOpType, StaticCallOpType} then
              after == before
            else if t.kind == SelfDestructOpType && t.from == t.to then after == before + [debit]
            else after == before + [debit, credit]
  {
    LegsAre(t, |before| + start);
  }

  ghost predicate IsLeg(op: Operation, t: FlatCall, index: int, related: seq<int>, account: Address, amount: int) {
    op.index == index && op.related == related && op.kind == t.kind && op.account == account
    && op.status == (if t.revert then Failure else Success)
    && op.amount == (if t.value == 0 then None else Some(amount))
    && op.error == (if t.revert then Some(t.errorMessage) else None)
  }

  /** The debit leg of frame `t`, and its credit leg, which relates to the operation before it. */
  ghost predicate IsDebit(op: Operation, t: FlatCall, index: int) {
    IsLeg(op, t, index, [], t.from, -t.value)
  }

  ghost predicate IsCredit(op: Operation, t: FlatCall, index: int) {
    IsLeg(op, t, index, [index - 1], t.to, t.value)
  }

  ghost predicate IsDestruct(op: Operation, index: int) {
    op.index == index && op.related == [] && op.kind == DestructOpType && op.status == Success
    && op.amount.Some? && op.amount.value < 0 && op.error == None
  }

  lemma {:induction false} LegsAre(t: FlatCall, index: int)
    ensures IsDebit(Debit(t, index), t, index) && IsCredit(Credit(t, index + 1), t, index + 1)
    ensures Reports(t) <==>
              !(t.value == 0 && t.kind in {CallOpType, CallCodeOpType, DelegateCallOpType, StaticCallOpType})
  {
  }

  // ---------- Index discipline ----------

  /** The operation at `i` is the debit leg of a frame, or the credit leg of one whose
      debit leg is the operation just before it, or a DESTRUCT operation. */
  ghost predicate Belongs(calls: seq<FlatCall>, ops: seq<Operation>, start: int, i: int)
    requires 0 <= i < |ops|
  {
    (exists t :: t in calls && IsDebit(ops[i], t, start + i))
    || (i > 0 && exists t :: t in calls && IsDebit(ops[i - 1], t, start + i - 1) && IsCredit(ops[i], t, start + i))
    || IsDestruct(ops[i], start + i)
  }

  ghost predicate Disciplined(calls: seq<FlatCall>, ops: seq<Operation>, start: int) {
    Indexed(ops, start) && forall i :: 0 <= i < |ops| ==> Belongs(calls, ops, start, i)
  }

  lemma {:induction false} EmittedDisciplined(calls: seq<FlatCall>, start: int)
    ensures Disciplined(calls, Emitted(calls, start), start)
  {
    if calls != [] {
      EmittedDisciplined(Init(calls), start);
      LegsDisciplined(calls, Emitted(Init(calls), start), start);
    }
  }

  lemma {:induction false} LegsDisciplined(calls: seq<FlatCall>, before: seq<Operation>, start: int)
    requires calls != [] && Disciplined(Init(calls), before, start)
    ensures Disciplined(calls, before + Legs(Last(calls), |before| + start), start)
  {
    var t := Last(calls);
    var ops := before + Legs(t, |before| + start);
    LegsAre(t, |before| + start);
    assert t in calls;
    forall i | 0 <= i < |ops| ensures Belongs(calls, ops, start, i) {
      if i < |before| {
        BelongsStill(calls, before, ops, start, i);
      } else if i == |before| {
        assert IsDebit(ops[i], t, start + i);
      } else {
        assert IsDebit(ops[i - 1], t, start + i - 1) && IsCredit(ops[i], t, start + i);
      }
    }
  }

  lemma {:induction false} BelongsStill(calls: seq<FlatCall>, before: seq<Operation>, ops: seq<Operation>, start: int,
                                        i: int)
    requires calls != [] && before <= ops && 0 <= i < |before|
    requires Belongs(Init(calls), before, start, i)
    ensures Belongs(calls, ops, start, i)
  {
    assert forall t :: t in Init(calls) ==> t in calls;
    assert ops[i] == before[i] && (i > 0 ==> ops[i - 1] == before[i - 1]);
  }

  lemma {:induction false} FinishDisciplined(calls: seq<FlatCall>, s: State, order: seq<Address>, start: int)
    requires Finishable(s, order)
    requires Disciplined(calls, s.ops, start)
    requires Finish(s, order).Completed?
    ensures Disciplined(calls, Finish(s, order).ops, start)
  {
    if order != [] {
      FinishDisciplined(calls, s, Init(order), start);
      var ops, before := Finish(s, order).ops, Finish(s, Init(order)).ops;
      forall i | 0 <= i < |ops| ensures Belongs(calls, ops, start, i) {
        if i < |before| {
          assert Belongs(calls, before, start, i);
        } else {
          assert IsDestruct(ops[i], start + i);
        }
      }
    }
  }

  /** The operation at position i has index start + i; it is a debit leg, a credit leg
      related to the debit leg of the same frame one position before, or a DESTRUCT. */
  lemma {:induction false} ResultDisciplined(calls: seq<FlatCall>, start: int, order: seq<Address>)
    requires Enumerates(order, Run(calls, start).destroyed.Keys)
    requires Result(calls, start, order).Completed?
    ensures Disciplined(calls, Result(calls, start, order).ops, start)
  {
    EnumerationFinishable(calls, start, order);
    RunEmits(calls, start);
    EmittedDisciplined(calls, start);
    FinishDisciplined(calls, Run(calls, start), order, start);
  }

  // ---------- Conservation ----------

  /** The value that self-destructs in favour of the same account make vanish. */
  function SelfBurned(calls: seq<FlatCall>, st: Status): int {
    if calls == [] then 0
    else
      var t := Last(calls);
      SelfBurned(Init(calls), st)
      + if t.kind == SelfDestructOpType && t.from == t.to && StatusOf(t) == st then t.value else 0
  }

  /** What the destroyed accounts in `order` still hold at the end. */
  function Residues(destroyed: map<Address, int>, order: seq<Address>): int
    requires forall a :: a in order ==> a in destroyed
  {
    if order == [] then 0 else Residues(destroyed, Init(order)) + destroyed[Last(order)]
  }

  lemma {:induction false} LegsTotal(t: FlatCall, index: int, st: Status)
    ensures Total(Legs(t, index), st)
         == if t.kind == SelfDestructOpType && t.from == t.to && StatusOf(t) == st then -t.value else 0
  {
    SumsOfTwo(Debit(t, index), Credit(t, index + 1), st, t.from);
  }

  lemma {:induction false} AddLegsTotal(ops: seq<Operation>, t: FlatCall, index: int, st: Status)
    ensures Total(ops + Legs(t, index), st)
         == Total(ops, st) - if t.kind == SelfDestructOpType && t.from == t.to && StatusOf(t) == st then t.value else 0
  {
    TotalConcat(ops, Legs(t, index), st);
    LegsTotal(t, index, st);
  }

  /** The two legs of a frame cancel, except that a self-destruct in favour of
      itself only has the debit leg. */
  lemma {:induction false} EmittedTotal(calls: seq<FlatCall>, start: int, st: Status)
    ensures Total(Emitted(calls, start), st) == -SelfBurned(calls, st)
  {
    if calls != [] {
      var before := EmittedLast(calls, start);
      EmittedTotal(Init(calls), start, st);
      TotalStep(calls, before, Emitted(calls, start), start, st);
    }
  }

  lemma {:induction false} TotalStep(calls: seq<FlatCall>, before: seq<Operation>, ops: seq<Operation>, start: int,
                                     st: Status)
    requires calls != [] && ops == before + Legs(Last(calls), |before| + start)
    requires Total(before, st) == -SelfBurned(Init(calls), st)
    ensures Total(ops, st) == -SelfBurned(calls, st)
  {
    AddLegsTotal(before, Last(calls), |before| + start, st);
  }

  lemma {:induction false} FinishTotal(s: State, order: seq<Address>)
    requires Finishable(s, order)
    requires Finish(s, order).Completed?
    ensures Total(Finish(s, order).ops, Success) == Total(s.ops, Success) - Residues(s.destroyed, order)
    ensures Total(Finish(s, order).ops, Failure) == Total(s.ops, Failure)
  {
    if order != [] {
      FinishTotal(s, Init(order));
      var before, a := Finish(s, Init(order)).ops, Last(order);
      TotalSnoc(before, DestructOp(Last(before).index + 1, a, s.destroyed[a]), Success);
      TotalSnoc(before, DestructOp(Last(before).index + 1, a, s.destroyed[a]), Failure);
    }
  }

  /** Per-status conservation: only self-targeted self-destructs and the residues
      of destroyed accounts leave the ledger, and nothing ever enters it. */
  lemma {:induction false} TraceConservation(calls: seq<FlatCall>, start: int, order: seq<Address>)
    requires Enumerates(order, Run(calls, start).destroyed.Keys)
    requires Result(calls, start, order).Completed?
    ensures Total(Result(calls, start, order).ops, Success)
         == -SelfBurned(calls, Success) - Residues(Run(calls, start).destroyed, order)
    ensures Total(Result(calls, start, order).ops, Failure) == -SelfBurned(calls, Failure)
  {
    EnumerationFinishable(calls, start, order);
    FinishTotal(Run(calls, start), order);
    RunEmits(calls, start);
    EmittedTotal(calls, start, Success);
    EmittedTotal(calls, start, Failure);
  }

  // ---------- What destroyed accounts receive ----------

  predicate Destroys(t: FlatCall, a: Address) {
    t.kind == SelfDestructOpType && t.from == a
  }

  predicate Recreates(t: FlatCall, a: Address) {
    CreateType(t.kind) && t.to == a
  }

  /** `t` decides whether `a` counts as destroyed. With `honest`, only frames that
      took effect decide; the engine lets every frame decide. */
  predicate Marks(t: FlatCall, a: Address, honest: bool) {
    (Destroys(t, a) || Recreates(t, a)) && !(honest && t.revert)
  }

  /** What a frame successfully moves to `a`, net. */
  function Effect(t: FlatCall, a: Address): int {
    if t.revert then 0
    else
      (if t.from == a then -t.value else 0)
      + if t.to == a && !(t.kind == SelfDestructOpType && t.from == t.to) then t.value else 0
  }

  function Flow(calls: seq<FlatCall>, a: Address): int {
    if calls == [] then 0 else Flow(Init(calls), a) + Effect(Last(calls), a)
  }

  /** The latest frame that decides whether `a` counts as destroyed, -1 if there is none. */
  function LastMark(calls: seq<FlatCall>, a: Address, honest: bool): (m: int)
    ensures -1 <= m < |calls|
    ensures m >= 0 ==> Marks(calls[m], a, honest)
    ensures forall j :: m < j < |calls| ==> !Marks(calls[j], a, honest)
  {
    if calls == [] then -1
    else if Marks(Last(calls), a, honest) then |calls| - 1
    else LastMark(Init(calls), a, honest)
  }

  predicate Dead(calls: seq<FlatCall>, a: Address, honest: bool) {
    var m := LastMark(calls, a, honest);
    m >= 0 && Destroys(calls[m], a)
  }

  /** What a destroyed account has received since it was destroyed. */
  function Residue(calls: seq<FlatCall>, a: Address, honest: bool): int {
    Since(calls, a, LastMark(calls, a, honest), Dead(calls, a, honest))
  }

  /** What an account that is `dead` has received behind frame `m`. */
  function Since(calls: seq<FlatCall>, a: Address, m: int, dead: bool): int
    requires -1 <= m < |calls|
  {
    if dead then Flow(calls[m + 1..], a) else 0
  }

  lemma {:induction false} FlowConcat(x: seq<FlatCall>, y: seq<FlatCall>, a: Address)
    ensures Flow(x + y, a) == Flow(x, a) + Flow(y, a)
  {
    if y == [] {
      assert x + y == x;
    } else {
      assert Init(x + y) == x + Init(y);
      FlowConcat(x, Init(y), a);
    }
  }

  lemma {:induction false} FlowSplit(calls: seq<FlatCall>, n: nat, a: Address)
    requires n <= |calls|
    ensures Flow(calls, a) == Flow(calls[..n], a) + Flow(calls[n..], a)
  {
    assert calls == calls[..n] + calls[n..];
    FlowConcat(calls[..n], calls[n..], a);
  }

  /** How the last frame changes who is dead and what they have received. */
  lemma {:induction false} ResidueLast(calls: seq<FlatCall>, a: Address, honest: bool)
    requires calls != []
    ensures Marks(Last(calls), a, honest) ==>
              (Dead(calls, a, honest) <==> Destroys(Last(calls), a)) && Residue(calls, a, honest) == 0
    ensures !Marks(Last(calls), a, honest) ==>
              (Dead(calls, a, honest) <==> Dead(Init(calls), a, honest))
              && Residue(calls, a, honest)
              == Residue(Init(calls), a, honest) + if Dead(calls, a, honest) then Effect(Last(calls), a) else 0
  {
    if Marks(Last(calls), a, honest) {
      assert LastMark(calls, a, honest) == |calls| - 1;
      assert calls[|calls| - 1 + 1..] == [];
    } else {
      ResidueUnmarked(calls, a, honest);
    }
  }

  lemma {:induction false} ResidueUnmarked(calls: seq<FlatCall>, a: Address, honest: bool)
    requires calls != [] && !Marks(Last(calls), a, honest)
    ensures Dead(calls, a, honest) <==> Dead(Init(calls), a, honest)
    ensures Residue(calls, a, honest)
         == Residue(Init(calls), a, honest) + if Dead(calls, a, honest) then Effect(Last(calls), a) else 0
  {
    var m := LastMark(Init(calls), a, honest);
    assert LastMark(calls, a, honest) == m;
    if m >= 0 {
      assert calls[m] == Init(calls)[m];
      FlowLast(calls, m + 1, a);
    }
  }

  lemma {:induction false} FlowLast(calls: seq<FlatCall>, n: nat, a: Address)
    requires n < |calls|
    ensures Flow(calls[n..], a) == Flow(Init(calls)[n..], a) + Effect(Last(calls), a)
  {
    assert Init(calls[n..]) == Init(calls)[n..];
  }

  lemma {:induction false} StepDestroyed(s: State, t: FlatCall, start: int, a: Address)
    ensures var d := Step(s, t, start).destroyed;
            if Destroys(t, a) then a in d && d[a] == 0
            else if Recreates(t, a) then a !in d
            else (a in d <==> a in s.destroyed) && (a in d ==> d[a] == s.destroyed[a] + Effect(t, a))
  {
  }

  /** After any number of frames, the tracked accounts are those with a
      self-destruct and no create since, and each is tracked with what the
      successful frames after its latest self-destruct moved to it. */
  lemma {:induction false} DestroyedInvariant(calls: seq<FlatCall>, start: int, a: Address)
    ensures a in Run(calls, start).destroyed <==> Dead(calls, a, false)
    ensures a in Run(calls, start).destroyed ==> Run(calls, start).destroyed[a] == Residue(calls, a, false)
  {
    if calls != [] {
      DestroyedInvariant(Init(calls), start, a);
      StepDestroyed(Run(Init(calls), start), Last(calls), start, a);
      ResidueLast(calls, a, false);
    }
  }

  lemma {:induction false} DeadIsLatest(calls: seq<FlatCall>, a: Address)
    ensures Dead(calls, a, false) <==> exists m :: LatestDestroy(calls, a, m)
  {
    if Dead(calls, a, false) {
      assert LatestDestroy(calls, a, LastMark(calls, a, false));
    }
    forall m | LatestDestroy(calls, a, m) ensures Dead(calls, a, false) {
      LatestDestroyIsMark(calls, a, m);
    }
  }

  /** In terms of positions: an account is tracked exactly when it has a latest
      self-destruct, and its amount is what moved to it since. */
  lemma {:induction false} DestroyedSince(calls: seq<FlatCall>, start: int, a: Address)
    ensures a in Run(calls, start).destroyed <==> exists m :: LatestDestroy(calls, a, m)
    ensures forall m :: LatestDestroy(calls, a, m) ==>
              a in Run(calls, start).destroyed && Run(calls, start).destroyed[a] == Flow(calls[m + 1..], a)
  {
    DestroyedInvariant(calls, start, a);
    DeadIsLatest(calls, a);
    forall m | LatestDestroy(calls, a, m)
      ensures Dead(calls, a, false) && Residue(calls, a, false) == Flow(calls[m + 1..], a)
    {
      LatestDestroyIsMark(calls, a, m);
    }
  }

  lemma {:induction false} LegsCredited(t: FlatCall, index: int, a: Address)
    ensures Credited(Legs(t, index), a) == Effect(t, a)
  {
    SumsOfTwo(Debit(t, index), Credit(t, index + 1), Success, a);
  }

  lemma {:induction false} AddLegsCredited(ops: seq<Operation>, t: FlatCall, index: int, a: Address)
    ensures Credited(ops + Legs(t, index), a) == Credited(ops, a) + Effect(t, a)
  {
    CreditedConcat(ops, Legs(t, index), a);
    LegsCredited(t, index, a);
  }

  lemma {:induction false} EmittedCredited(calls: seq<FlatCall>, start: int, a: Address)
    ensures Credited(Emitted(calls, start), a) == Flow(calls, a)
  {
    if calls != [] {
      var before := EmittedLast(calls, start);
      EmittedCredited(Init(calls), start, a);
      CreditedStep(calls, before, Emitted(calls, start), start, a);
    }
  }

  lemma {:induction false} CreditedStep(calls: seq<FlatCall>, before: seq<Operation>, ops: seq<Operation>, start: int,
                                        a: Address)
    requires calls != [] && ops == before + Legs(Last(calls), |before| + start)
    requires Credited(before, a) == Flow(Init(calls), a)
    ensures Credited(ops, a) == Flow(calls, a)
  {
    AddLegsCredited(before, Last(calls), |before| + start, a);
  }

  /** The successful operations on an account are what the frames moved to it. */
  lemma {:induction false} RunCredited(calls: seq<FlatCall>, start: int, a: Address)
    ensures Credited(Run(calls, start).ops, a) == Flow(calls, a)
  {
    RunEmits(calls, start);
    EmittedCredited(calls, start, a);
  }

  lemma {:induction false} FinishCredited(s: State, order: seq<Address>, a: Address)
    requires Finishable(s, order)
    requires NoDuplicates(order)
    requires Finish(s, order).Completed?
    ensures s.ops <= Finish(s, order).ops
    ensures Credited(Finish(s, order).ops, a)
         == Credited(s.ops, a) - if a in order then s.destroyed[a] else 0
  {
    if order != [] {
      FinishCredited(s, Init(order), a);
      var before, x := Finish(s, Init(order)).ops, Last(order);
      assert a in order <==> a in Init(order) || a == x;
      CreditedSnoc(before, DestructOp(Last(before).index + 1, x, s.destroyed[x]), a);
    }
  }

  lemma {:induction false} EmittedPrefix(calls: seq<FlatCall>, n: nat, start: int)
    requires n <= |calls|
    ensures Emitted(calls[..n], start) <= Emitted(calls, start)
  {
    if n < |calls| {
      EmittedPrefix(Init(calls), n, start);
      assert Init(calls)[..n] == calls[..n];
    } else {
      assert calls[..n] == calls;
    }
  }

  lemma {:induction false} RunPrefix(calls: seq<FlatCall>, n: nat, start: int)
    requires n <= |calls|
    ensures Run(calls[..n], start).ops <= Run(calls, start).ops
  {
    RunEmits(calls, start);
    RunEmits(calls[..n], start);
    EmittedPrefix(calls, n, start);
  }

  /** All in all, the successful operations on an account are what the frames
      moved to it, less its residue. */
  lemma {:induction false} ResultCredited(calls: seq<FlatCall>, start: int, order: seq<Address>, a: Address)
    requires Enumerates(order, Run(calls, start).destroyed.Keys)
    requires Result(calls, start, order).Completed?
    ensures Run(calls, start).ops <= Result(calls, start, order).ops
    ensures Credited(Result(calls, start, order).ops, a) == Flow(calls, a) - Residue(calls, a, false)
  {
    EnumerationFinishable(calls, start, order);
    DestroyedInvariant(calls, start, a);
    FinishCredited(Run(calls, start), order, a);
    RunCredited(calls, start, a);
  }

  /** Frame `m` is a self-destruct of `a`, and no later frame destroys or recreates `a`. */
  ghost predicate LatestDestroy(calls: seq<FlatCall>, a: Address, m: nat) {
    m < |calls| && Destroys(calls[m], a)
    && forall j :: m < j < |calls| ==> !Destroys(calls[j], a) && !Recreates(calls[j], a)
  }

  lemma {:induction false} LatestDestroyIsMark(calls: seq<FlatCall>, a: Address, m: nat)
    requires LatestDestroy(calls, a, m)
    ensures Dead(calls, a, false) && Residue(calls, a, false) == Flow(calls[m + 1..], a)
  {
    MarkUnique(calls, a, m, LastMark(calls, a, false));
  }

  lemma {:induction false} MarkUnique(calls: seq<FlatCall>, a: Address, m: nat, last: int)
    requires LatestDestroy(calls, a, m)
    requires -1 <= last < |calls| && (last >= 0 ==> Marks(calls[last], a, false))
    requires forall j :: last < j < |calls| ==> !Marks(calls[j], a, false)
    ensures m == last
  {
    assert Marks(calls[m], a, false);
  }

  /** For an account that ends destroyed, the successful operations emitted after
      its latest self-destruct, DESTRUCT included, sum to zero. */
  lemma {:induction false} DestroyedNetZero(calls: seq<FlatCall>, start: int, order: seq<Address>, a: Address, m: nat)
    requires Enumerates(order, Run(calls, start).destroyed.Keys)
    requires Result(calls, start, order).Completed?
    requires LatestDestroy(calls, a, m)
    ensures var early := Run(calls[..m + 1], start).ops;
            early <= Result(calls, start, order).ops
            && Credited(Result(calls, start, order).ops[|early|..], a) == 0
  {
    var early, ops := Run(calls[..m + 1], start).ops, Result(calls, start, order).ops;
    assert Credited(ops, a) == Credited(early, a) by {
      ResultCredited(calls, start, order, a);
      LatestDestroyIsMark(calls, a, m);
      RunCredited(calls[..m + 1], start, a);
      FlowSplit(calls, m + 1, a);
    }
    assert early <= Run(calls, start).ops by {
      RunPrefix(calls, m + 1, start);
    }
    assert Run(calls, start).ops <= ops by {
      ResultCredited(calls, start, order, a);
    }
    NetZero(early, Run(calls, start).ops, ops, a);
  }

  /** When `ops` takes back what `mid` credits beyond `early`, everything after `early` sums to zero. */
  lemma {:induction false} NetZero(early: seq<Operation>, mid: seq<Operation>, ops: seq<Operation>, a: Address)
    requires early <= mid && mid <= ops
    requires Credited(ops, a) == Credited(early, a)
    ensures early <= ops && Credited(ops[|early|..], a) == 0
  {
    assert ops == early + ops[|early|..];
    CreditedConcat(early, ops[|early|..], a);
  }

  // ---------- The final loop does not depend on the map order ----------

  function Pairs(ops: seq<Operation>): seq<(Address, int)> {
    if ops == [] then [] else Pairs(Init(ops)) + [(Last(ops).account, Amount(Last(ops)))]
  }

  /** The accounts of `order` that still hold something, with what is taken from them. */
  function Payouts(destroyed: map<Address, int>, order: seq<Address>): seq<(Address, int)>
    requires forall a :: a in order ==> a in destroyed
  {
    if order == [] then []
    else
      var a := Last(order);
      Payouts(destroyed, Init(order)) + if destroyed[a] == 0 then [] else [(a, -destroyed[a])]
  }

  /** Every DESTRUCT operation is a success without related operations. */
  ghost predicate AllDestructs(ops: seq<Operation>) {
    forall op :: op in ops ==> IsDestruct(op, op.index)
  }

  lemma {:induction false} FinishCompletes(s: State, order: seq<Address>)
    requires Finishable(s, order)
    ensures Finish(s, order).Completed? <==> forall a :: a in order ==> s.destroyed[a] >= 0
  {
    if order != [] {
      FinishCompletes(s, Init(order));
      assert forall a :: a in order <==> a in Init(order) || a == Last(order);
    }
  }

  /** What the final loop adds to the operations `first`. */
  ghost predicate Pays(first: seq<Operation>, ops: seq<Operation>, paid: seq<(Address, int)>) {
    first <= ops && AllDestructs(ops[|first|..]) && Pairs(ops[|first|..]) == paid
  }

  lemma {:induction false} FinishPayouts(s: State, order: seq<Address>)
    requires Finishable(s, order)
    ensures Finish(s, order).Completed? ==> Pays(s.ops, Finish(s, order).ops, Payouts(s.destroyed, order))
  {
    if order == [] {
      assert s.ops[|s.ops|..] == [];
    } else {
      FinishPayouts(s, Init(order));
      PaysNext(s.ops, Finish(s, Init(order)), Finish(s, order), Payouts(s.destroyed, Init(order)),
               Payouts(s.destroyed, order), Last(order), s.destroyed[Last(order)]);
    }
  }

  lemma {:induction false} PaysNext(first: seq<Operation>, before: Outcome, after: Outcome,
                                    paid: seq<(Address, int)>, paid': seq<(Address, int)>, a: Address, residue: int)
    requires before.Completed? ==> before.ops != [] && Pays(first, before.ops, paid)
    requires after == if before.Exited? || residue == 0 then before
                      else if residue < 0 then Exited(a, residue)
                      else Completed(before.ops + [DestructOp(Last(before.ops).index + 1, a, residue)])
    requires paid' == paid + if residue == 0 then [] else [(a, -residue)]
    ensures after.Completed? ==> Pays(first, after.ops, paid')
  {
    if before.Completed? && residue > 0 {
      PaysOneMore(first, before.ops, paid, DestructOp(Last(before.ops).index + 1, a, residue));
    } else if residue == 0 {
      assert paid' == paid;
    }
  }

  lemma {:induction false} PaysOneMore(first: seq<Operation>, ops: seq<Operation>, paid: seq<(Address, int)>,
                                       op: Operation)
    requires Pays(first, ops, paid)
    requires IsDestruct(op, op.index)
    ensures Pays(first, ops + [op], paid + [(op.account, Amount(op))])
  {
    PairsSnoc(first, ops, op);
  }

  lemma {:induction false} PairsSnoc(first: seq<Operation>, ops: seq<Operation>, op: Operation)
    requires first <= ops
    ensures first <= ops + [op]
    ensures (ops + [op])[|first|..] == ops[|first|..] + [op]
    ensures Pairs((ops + [op])[|first|..]) == Pairs(ops[|first|..]) + [(op.account, Amount(op))]
  {
    assert (ops + [op])[|first|..] == ops[|first|..] + [op];
    assert Init(ops[|first|..] + [op]) == ops[|first|..];
  }

  /** How often the final loop takes `p.1` from account `p.0` when it goes through `order`. */
  function OwedIn(destroyed: map<Address, int>, order: seq<Address>, p: (Address, int)): nat {
    if p.0 in order && p.0 in destroyed && destroyed[p.0] != 0 && p.1 == -destroyed[p.0] then 1 else 0
  }

  lemma {:induction false} PayoutsCount(destroyed: map<Address, int>, order: seq<Address>, p: (Address, int))
    requires forall a :: a in order ==> a in destroyed
    requires NoDuplicates(order)
    ensures multiset(Payouts(destroyed, order))[p] == OwedIn(destroyed, order, p)
  {
    if order != [] {
      PayoutsCount(destroyed, Init(order), p);
      PayoutsCountStep(destroyed, order, p);
    }
  }

  lemma {:induction false} PayoutsCountStep(destroyed: map<Address, int>, order: seq<Address>, p: (Address, int))
    requires order != [] && forall a :: a in order ==> a in destroyed
    requires NoDuplicates(order)
    requires multiset(Payouts(destroyed, Init(order)))[p] == OwedIn(destroyed, Init(order), p)
    ensures multiset(Payouts(destroyed, order))[p] == OwedIn(destroyed, order, p)
  {
    var a, before := Last(order), Payouts(destroyed, Init(order));
    assert OwedIn(destroyed, order, p)
        == OwedIn(destroyed, Init(order), p) + if p == (a, -destroyed[a]) && destroyed[a] != 0 then 1 else 0 by {
      InOrder(order, p.0);
    }
    if destroyed[a] != 0 {
      assert Payouts(destroyed, order) == before + [(a, -destroyed[a])];
      CountSnoc(before, (a, -destroyed[a]), p);
    } else {
      assert Payouts(destroyed, order) == before + [] == before;
    }
  }

  lemma {:induction false} InOrder(order: seq<Address>, a: Address)
    requires order != []
    requires NoDuplicates(order)
    ensures a in order <==> a in Init(order) || a == Last(order)
    ensures Last(order) !in Init(order)
  {
  }

  lemma {:induction false} CountSnoc(s: seq<(Address, int)>, q: (Address, int), p: (Address, int))
    ensures multiset(s + [q])[p] == multiset(s)[p] + if p == q then 1 else 0
  {
  }

  /** How often the final loop takes `p.1` from account `p.0`. */
  function Owed(destroyed: map<Address, int>, p: (Address, int)): nat {
    if p.0 in destroyed && destroyed[p.0] != 0 && p.1 == -destroyed[p.0] then 1 else 0
  }

  /** The final loop completes exactly when no destroyed account is overdrawn, and
      then empties each account with something left exactly once. */
  lemma {:induction false} FinishPays(s: State, order: seq<Address>)
    requires Enumerates(order, s.destroyed.Keys)
    requires Finishable(s, order)
    ensures Finish(s, order).Completed? <==> forall a :: a in s.destroyed ==> s.destroyed[a] >= 0
    ensures Finish(s, order).Completed? ==>
              var added := Finish(s, order).ops[|s.ops|..];
              AllDestructs(added) && forall p :: multiset(Pairs(added))[p] == Owed(s.destroyed, p)
  {
    FinishCompletes(s, order);
    FinishPayouts(s, order);
    forall p ensures multiset(Payouts(s.destroyed, order))[p] == Owed(s.destroyed, p) {
      PayoutsCount(s.destroyed, order, p);
    }
  }

  /** When the process exits, it is for the first account in iteration order that is overdrawn. */
  lemma {:induction false} FinishExits(s: State, order: seq<Address>)
    requires Finishable(s, order) && Finish(s, order).Exited?
    ensures exists n :: 0 <= n < |order| && Finish(s, order) == Exited(order[n], s.destroyed[order[n]])
                        && s.destroyed[order[n]] < 0 && forall m :: 0 <= m < n ==> s.destroyed[order[m]] >= 0
  {
    var n, before := |order| - 1, Finish(s, Init(order));
    if before.Exited? {
      FinishExits(s, Init(order));
      var m :| 0 <= m < n && before == Exited(Init(order)[m], s.destroyed[Init(order)[m]])
               && s.destroyed[Init(order)[m]] < 0 && forall l :: 0 <= l < m ==> s.destroyed[Init(order)[l]] >= 0;
      assert order[m] == Init(order)[m] && forall l :: 0 <= l < m ==> order[l] == Init(order)[l];
    } else {
      FinishCompletes(s, Init(order));
      assert forall m :: 0 <= m < n ==> order[m] in Init(order);
      assert order[n] == Last(order);
    }
  }

  /** Whether the process survives the final loop, and which account loses how
      much in it, does not depend on the order the map is iterated in. */
  lemma {:induction false} OrderIndependence(calls: seq<FlatCall>, start: int, o1: seq<Address>, o2: seq<Address>)
    requires Enumerates(o1, Run(calls, start).destroyed.Keys)
    requires Enumerates(o2, Run(calls, start).destroyed.Keys)
    ensures Result(calls, start, o1).Completed? <==> Result(calls, start, o2).Completed?
    ensures Result(calls, start, o1).Completed? ==>
              var n := |Run(calls, start).ops|;
              var d1, d2 := Result(calls, start, o1).ops[n..], Result(calls, start, o2).ops[n..];
              AllDestructs(d1) && AllDestructs(d2) && multiset(Pairs(d1)) == multiset(Pairs(d2))
  {
    EnumerationFinishable(calls, start, o1);
    EnumerationFinishable(calls, start, o2);
    FinishPays(Run(calls, start), o1);
    FinishPays(Run(calls, start), o2);
  }

  // ---------- Frames that do not matter ----------

  /** The frames of `calls` that `keep` holds for. */
  function Filter(calls: seq<FlatCall>, keep: FlatCall -> bool): seq<FlatCall> {
    if calls == [] then []
    else Filter(Init(calls), keep) + if keep(Last(calls)) then [Last(calls)] else []
  }

  /** Dropping the zero-value calls changes nothing at all, indices included. */
  lemma {:induction false} ZeroCallsDoNotMatter(calls: seq<FlatCall>, start: int)
    ensures Run(Filter(calls, Reports), start) == Run(calls, start)
  {
    if calls != [] {
      ZeroCallsDoNotMatter(Init(calls), start);
      var kept, t := Filter(Init(calls), Reports), Last(calls);
      if Reports(t) {
        assert Init(kept + [t]) == kept;
      } else {
        assert kept + [] == kept;
        assert Step(Run(Init(calls), start), t, start) == Run(Init(calls), start);
      }
    }
  }

  /** A frame that took effect, or that resets a destroyed account even without. */
  predicate Matters(t: FlatCall) {
    !t.revert || t.kind == SelfDestructOpType || CreateType(t.kind)
  }

  function SuccessPairs(ops: seq<Operation>): seq<(Address, int)> {
    if ops == [] then []
    else
      var op := Last(ops);
      SuccessPairs(Init(ops)) + if op.status == Success then [(op.account, Amount(op))] else []
  }

  lemma {:induction false} SuccessPairsSnoc(ops: seq<Operation>, op: Operation)
    ensures SuccessPairs(ops + [op])
         == SuccessPairs(ops) + if op.status == Success then [(op.account, Amount(op))] else []
  {
    assert Init(ops + [op]) == ops;
  }

  lemma {:induction false} SuccessPairsConcat(a: seq<Operation>, b: seq<Operation>)
    ensures SuccessPairs(a + b) == SuccessPairs(a) + SuccessPairs(b)
  {
    if b == [] {
      assert a + b == a;
    } else {
      SuccessPairsConcat(a, Init(b));
      SuccessPairsSnoc(a + Init(b), Last(b));
      assert a + b == a + Init(b) + [Last(b)];
    }
  }

  /** The successes a frame adds do not depend on where its operations stand,
      and a failed frame adds none. */
  lemma {:induction false} LegsSuccessPairs(t: FlatCall, i: int, j: int)
    ensures SuccessPairs(Legs(t, i)) == SuccessPairs(Legs(t, j))
    ensures t.revert ==> SuccessPairs(Legs(t, i)) == []
  {
    SuccessPairsSnoc([Debit(t, i)], Credit(t, i + 1));
    SuccessPairsSnoc([Debit(t, j)], Credit(t, j + 1));
    SuccessPairsSnoc([], Debit(t, i));
    SuccessPairsSnoc([], Debit(t, j));
    assert [] + [Debit(t, i)] == [Debit(t, i)] && [] + [Debit(t, j)] == [Debit(t, j)];
    assert [Debit(t, i)] + [Credit(t, i + 1)] == [Debit(t, i), Credit(t, i + 1)];
    assert [Debit(t, j)] + [Credit(t, j + 1)] == [Debit(t, j), Credit(t, j + 1)];
  }

  lemma {:induction false} AddLegsSuccessPairs(ops: seq<Operation>, t: FlatCall, index: int)
    ensures SuccessPairs(ops + Legs(t, index)) == SuccessPairs(ops) + SuccessPairs(Legs(t, 0))
  {
    SuccessPairsConcat(ops, Legs(t, index));
    LegsSuccessPairs(t, index, 0);
  }

  lemma {:induction false} KeptSuccessPairs(calls: seq<FlatCall>, start: int)
    ensures SuccessPairs(Emitted(Filter(calls, Matters), start)) == SuccessPairs(Emitted(calls, start))
  {
    if calls != [] {
      var kept, t := Filter(Init(calls), Matters), Last(calls);
      KeptSuccessPairs(Init(calls), start);
      EmittedSuccessPairs(calls, start);
      if Matters(t) {
        assert Filter(calls, Matters) == kept + [t];
        assert Init(kept + [t]) == kept;
        EmittedSuccessPairs(kept + [t], start);
      } else {
        assert Filter(calls, Matters) == kept + [] == kept;
        LegsSuccessPairs(t, 0, 0);
      }
    }
  }

  lemma {:induction false} EmittedSuccessPairs(calls: seq<FlatCall>, start: int)
    requires calls != []
    ensures SuccessPairs(Emitted(calls, start))
         == SuccessPairs(Emitted(Init(calls), start)) + SuccessPairs(Legs(Last(calls), 0))
  {
    var before := EmittedLast(calls, start);
    AddLegsSuccessPairs(before, Last(calls), |before| + start);
  }

  /** Apart from the operations, a frame only looks at the destroyed accounts. */
  lemma {:induction false} StepTracksAlike(s: State, s': State, t: FlatCall, start: int)
    requires s.destroyed == s'.destroyed
    ensures Step(s, t, start).destroyed == Step(s', t, start).destroyed
    ensures !Matters(t) ==> Step(s, t, start).destroyed == s.destroyed
  {
  }

  lemma {:induction false} KeptDestroyed(calls: seq<FlatCall>, start: int)
    ensures Run(Filter(calls, Matters), start).destroyed == Run(calls, start).destroyed
  {
    if calls != [] {
      KeptDestroyed(Init(calls), start);
      var kept, t := Filter(Init(calls), Matters), Last(calls);
      StepTracksAlike(Run(kept, start), Run(Init(calls), start), t, start);
      StepTracksAlike(Run(Init(calls), start), Run(Init(calls), start), t, start);
      if Matters(t) {
        assert Init(kept + [t]) == kept;
      } else {
        assert kept + [] == kept;
      }
    }
  }

  /** Dropping the reverted frames that are neither self-destructs nor creates
      leaves the successful (account, amount) pairs, in order, and the destroyed
      accounts' amounts as they are. */
  lemma {:induction false} FailedFramesDoNotMatter(calls: seq<FlatCall>, start: int)
    ensures SuccessPairs(Run(Filter(calls, Matters), start).ops) == SuccessPairs(Run(calls, start).ops)
    ensures Run(Filter(calls, Matters), start).destroyed == Run(calls, start).destroyed
  {
    RunEmits(calls, start);
    RunEmits(Filter(calls, Matters), start);
    KeptSuccessPairs(calls, start);
    KeptDestroyed(calls, start);
  }

  lemma {:induction false} FinishAlike(s: State, s': State, order: seq<Address>)
    requires SuccessPairs(s.ops) == SuccessPairs(s'.ops) && s.destroyed == s'.destroyed
    requires Finishable(s, order) && Finishable(s', order)
    ensures Finish(s, order).Completed? <==> Finish(s', order).Completed?
    ensures Finish(s, order).Completed? ==>
              SuccessPairs(Finish(s, order).ops) == SuccessPairs(Finish(s', order).ops)
  {
    if order != [] {
      FinishAlike(s, s', Init(order));
      var b, b' := Finish(s, Init(order)), Finish(s', Init(order));
      var a := Last(order);
      if b.Completed? {
        SuccessPairsSnoc(b.ops, DestructOp(Last(b.ops).index + 1, a, s.destroyed[a]));
        SuccessPairsSnoc(b'.ops, DestructOp(Last(b'.ops).index + 1, a, s.destroyed[a]));
      }
    }
  }

  /** The same for the whole engine, final loop included. */
  lemma {:induction false} NonInterference(calls: seq<FlatCall>, start: int, order: seq<Address>)
    requires Enumerates(order, Run(calls, start).destroyed.Keys)
    ensures Enumerates(order, Run(Filter(calls, Reports), start).destroyed.Keys)
    ensures Result(Filter(calls, Reports), start, order) == Result(calls, start, order)
    ensures Enumerates(order, Run(Filter(calls, Matters), start).destroyed.Keys)
    ensures Result(Filter(calls, Matters), start, order).Completed? <==> Result(calls, start, order).Completed?
    ensures Result(calls, start, order).Completed? ==>
              SuccessPairs(Result(Filter(calls, Matters), start, order).ops)
              == SuccessPairs(Result(calls, start, order).ops)
  {
    ZeroCallsDoNotMatter(calls, start);
    FailedFramesDoNotMatter(calls, start);
    EnumerationFinishable(calls, start, order);
    EnumerationFinishable(Filter(calls, Matters), start, order);
    FinishAlike(Run(Filter(calls, Matters), start), Run(calls, start), order);
  }

  // ---------- Failures are explained ----------

  /** A failed operation carries the message of a reverted frame it belongs to, and
      the message is not empty; no other operation carries one. */
  ghost predicate Explained(calls: seq<FlatCall>, op: Operation) {
    if op.status == Failure then
      exists c :: c in calls && c.revert && op.kind == c.kind && op.account in {c.from, c.to}
                  && op.error == Some(c.errorMessage) && c.errorMessage != ""
    else op.error == None
  }

  lemma {:induction false} BelongsExplained(calls: seq<FlatCall>, ops: seq<Operation>, start: int, i: int)
    requires forall c :: c in calls ==> (c.revert <==> c.errorMessage != "")
    requires 0 <= i < |ops| && Belongs(calls, ops, start, i)
    ensures Explained(calls, ops[i])
  {
  }

  /** When the reverted entries of a flattened trace are those with a message, as
      decoding and flattening guarantee, every failed operation shows its frame's. */
  lemma {:induction false} FailuresExplained(t: CallTree, start: int, order: seq<Address>)
    requires MarksErrors(t)
    requires Enumerates(order, Run(Preorder(Close(t)), start).destroyed.Keys)
    requires Result(Preorder(Close(t)), start, order).Completed?
    ensures forall op :: op in Result(Preorder(Close(t)), start, order).ops ==> Explained(Preorder(Close(t)), op)
  {
    var calls := Preorder(Close(t));
    var ops := Result(calls, start, order).ops;
    FlattenedMarksErrors(t);
    ResultDisciplined(calls, start, order);
    forall op | op in ops ensures Explained(calls, op) {
      var i :| 0 <= i < |ops| && ops[i] == op;
      BelongsExplained(calls, ops, start, i);
    }
  }
}
