/** From the EVM's events to complete balance tracking. */
module Tracking {
  import opened Types
  import opened CallTracer
  import opened CallTrees
  import opened EndToEnd
  import TraceOps
  import opened TraceLaws
  import opened Ledger
  import opened Blocks
  import opened Settlement

  // ---------- Self-destructs and creates in a stream ----------
  // Position -1 stands for the outermost message, which has no events of its own.

  ghost predicate IsEntered(evs: seq<Event>, p: int) {
    p == -1 || (0 <= p < |evs| && evs[p].Enter?)
  }

  /** The frame entered at `p`, a frame around it or the outermost message failed. */
  ghost predicate Undone(evs: seq<Event>, ctx: Context, p: int) {
    RootError(ctx) != "" || exists i, j :: FailsAround(evs, p, i, j)
  }

  ghost predicate SelfDestructsAt(evs: seq<Event>, ctx: Context, p: int)
    requires IsEntered(evs, p)
  {
    (if p == -1 then ctx.kind else evs[p].frame.kind) == SelfDestructOpType
  }

  ghost predicate CreatesAt(evs: seq<Event>, ctx: Context, p: int)
    requires IsEntered(evs, p)
  {
    CreateType(if p == -1 then ctx.kind else evs[p].frame.kind)
  }

  ghost predicate ExitsWithError(evs: seq<Event>, p: int) {
    exists q :: ClosesAt(evs, p, q) && evs[q].result.error.Some?
  }

  /** The account a create at `p` is reported to make: one that itself ended in an
      error has lost its address. */
  ghost function Created(evs: seq<Event>, ctx: Context, p: int): Address
    requires IsEntered(evs, p)
  {
    if p == -1 then ctx.to else if ExitsWithError(evs, p) then ZERO_ADDRESS else evs[p].frame.to
  }

  ghost predicate DestroysAt(evs: seq<Event>, ctx: Context, p: int, a: Address) {
    IsEntered(evs, p) && SelfDestructsAt(evs, ctx, p) && (if p == -1 then ctx.from else evs[p].frame.from) == a
  }

  ghost predicate RecreatesAt(evs: seq<Event>, ctx: Context, p: int, a: Address) {
    IsEntered(evs, p) && CreatesAt(evs, ctx, p) && Created(evs, ctx, p) == a
  }

  /** `d` enters the latest self-destruct of `a` before `p`, with no create of `a` since. */
  ghost predicate LatestBefore(evs: seq<Event>, ctx: Context, p: int, a: Address, d: int) {
    d < p && DestroysAt(evs, ctx, d, a)
    && forall r :: d < r < p ==> !DestroysAt(evs, ctx, r, a) && !RecreatesAt(evs, ctx, r, a)
  }

  /** Before position `p`, account `a` has self-destructed and was not created since. */
  ghost predicate DestroyedBefore(evs: seq<Event>, ctx: Context, p: int, a: Address) {
    exists d :: LatestBefore(evs, ctx, p, a, d)
  }

  /** Every self-destruct took effect, and so did every create of an account that had
      self-destructed before. Any other create may fail. */
  ghost predicate MarksHold(evs: seq<Event>, ctx: Context) {
    forall p :: IsEntered(evs, p) ==> MarkHolds(evs, ctx, p)
  }

  ghost predicate MarkHolds(evs: seq<Event>, ctx: Context, p: int)
    requires IsEntered(evs, p)
  {
    Undone(evs, ctx, p) ==>
      !SelfDestructsAt(evs, ctx, p)
      && (CreatesAt(evs, ctx, p) ==> !DestroyedBefore(evs, ctx, p, Created(evs, ctx, p)))
  }

  // ---------- The same in the flattened trace ----------

  /** The position entry `k` of the flattened trace stands for; the end for the entry after the last. */
  function PositionOf(evs: seq<Event>, k: nat): int {
    if k == 0 then -1
    else if k <= |Enters(evs, 0)| then Enters(evs, 0)[k - 1]
    else |evs|
  }

  lemma {:induction false} PositionsAscend(evs: seq<Event>, j: nat, k: nat)
    requires j < k <= 1 + |Enters(evs, 0)|
    ensures PositionOf(evs, j) < PositionOf(evs, k)
    ensures IsEntered(evs, PositionOf(evs, j))
  {
    EntersAscend(evs, 0);
  }

  /** Every entered position before that of entry `k` is that of an earlier entry. */
  lemma {:induction false} EntryAt(evs: seq<Event>, k: nat, p: int) returns (j: nat)
    requires k <= 1 + |Enters(evs, 0)|
    requires IsEntered(evs, p) && p < PositionOf(evs, k)
    ensures j < k && PositionOf(evs, j) == p
  {
    if p == -1 {
      j := 0;
    } else {
      EntersComplete(evs, 0, p);
      var i :| 0 <= i < |Enters(evs, 0)| && Enters(evs, 0)[i] == p;
      j := i + 1;
      if k < j {
        PositionsAscend(evs, k, j);
      }
    }
  }

  /** What entry `k` of the flattened trace says of its frame. */
  lemma {:induction false} EntryMarks(evs: seq<Event>, ctx: Context, k: nat, a: Address)
    requires WellNested(evs)
    requires k <= |Enters(evs, 0)|
    ensures |Flattened(evs, ctx)| == 1 + |Enters(evs, 0)| && IsEntered(evs, PositionOf(evs, k))
    ensures var t, p := Flattened(evs, ctx)[k], PositionOf(evs, k);
            (t.revert <==> Undone(evs, ctx, p))
            && (t.kind == SelfDestructOpType <==> SelfDestructsAt(evs, ctx, p))
            && (CreateType(t.kind) <==> CreatesAt(evs, ctx, p))
            && (CreateType(t.kind) ==> t.to == Created(evs, ctx, p))
            && (Destroys(t, a) <==> DestroysAt(evs, ctx, p, a))
            && (Recreates(t, a) <==> RecreatesAt(evs, ctx, p, a))
  {
    EntryOrderAndStatus(evs, ctx);
    PositionsAscend(evs, k, k + 1);
    if k == 0 {
      assert forall i, j :: !FailsAround(evs, -1, i, j);
    } else {
      var t, p := Flattened(evs, ctx)[k], PositionOf(evs, k);
      assert Reported(evs, RootError(ctx), Enters(evs, 0)[k - 1], Flattened(evs, ctx)[k - 1 + 1]);
      var q :| ReportsFrame(evs, RootError(ctx), p, q, t);
      if ExitsWithError(evs, p) {
        var q' :| ClosesAt(evs, p, q') && evs[q'].result.error.Some?;
        ClosesOnce(evs, p, q, q');
      }
    }
  }

  lemma {:induction false} LatestEntry(evs: seq<Event>, ctx: Context, k: nat, a: Address, m: nat)
    requires WellNested(evs)
    requires k <= |Flattened(evs, ctx)| == 1 + |Enters(evs, 0)| && m < k
    ensures LatestDestroy(Flattened(evs, ctx)[..k], a, m)
       <==> LatestBefore(evs, ctx, PositionOf(evs, k), a, PositionOf(evs, m))
  {
    var calls, p := Flattened(evs, ctx)[..k], PositionOf(evs, k);
    PositionsAscend(evs, m, k);
    forall j | 0 <= j < k
      ensures Destroys(calls[j], a) <==> DestroysAt(evs, ctx, PositionOf(evs, j), a)
      ensures Recreates(calls[j], a) <==> RecreatesAt(evs, ctx, PositionOf(evs, j), a)
    {
      EntryMarks(evs, ctx, j, a);
    }
    if LatestDestroy(calls, a, m) {
      forall r | PositionOf(evs, m) < r < p
        ensures !DestroysAt(evs, ctx, r, a) && !RecreatesAt(evs, ctx, r, a)
      {
        if IsEntered(evs, r) {
          var j := EntryAt(evs, k, r);
          if j < m {
            PositionsAscend(evs, j, m);
          }
        }
      }
    }
    if LatestBefore(evs, ctx, p, a, PositionOf(evs, m)) {
      forall j | m < j < k ensures !Destroys(calls[j], a) && !Recreates(calls[j], a) {
        PositionsAscend(evs, m, j);
        PositionsAscend(evs, j, k);
      }
    }
  }

  /** The engine tracks an account before an entry exactly when, by the events, it
      had self-destructed by then and was not created since. */
  lemma {:induction false} DeadByEvents(evs: seq<Event>, ctx: Context, k: nat, a: Address)
    requires WellNested(evs)
    requires k <= 1 + |Enters(evs, 0)|
    ensures |Flattened(evs, ctx)| == 1 + |Enters(evs, 0)|
    ensures Dead(Flattened(evs, ctx)[..k], a, false) <==> DestroyedBefore(evs, ctx, PositionOf(evs, k), a)
  {
    EntryOrderAndStatus(evs, ctx);
    var calls, p := Flattened(evs, ctx)[..k], PositionOf(evs, k);
    DeadIsLatest(calls, a);
    if Dead(calls, a, false) {
      var m: nat :| LatestDestroy(calls, a, m);
      LatestEntry(evs, ctx, k, a, m);
    }
    if DestroyedBefore(evs, ctx, p, a) {
      var d :| LatestBefore(evs, ctx, p, a, d);
      var m := EntryAt(evs, k, d);
      LatestEntry(evs, ctx, k, a, m);
    }
  }

  /** The condition on the events is the one on the flattened trace. */
  lemma {:induction false} MarksHoldIff(evs: seq<Event>, ctx: Context, start: int)
    requires WellNested(evs)
    ensures MarksHold(evs, ctx) <==> NoRevertedMarks(Flattened(evs, ctx), start)
  {
    var calls := Flattened(evs, ctx);
    EntryOrderAndStatus(evs, ctx);
    forall k | 0 <= k < |calls|
      ensures MarkHolds(evs, ctx, PositionOf(evs, k)) <==> NoRevertedMark(calls, start, k)
    {
      EntryMarks(evs, ctx, k, ZERO_ADDRESS);
      DeadByEvents(evs, ctx, k, calls[k].to);
      DestroyedInvariant(calls[..k], start, calls[k].to);
    }
    if NoRevertedMarks(calls, start) {
      forall p | IsEntered(evs, p) ensures MarkHolds(evs, ctx, p) {
        var k := EntryAt(evs, |calls|, p);
        assert NoRevertedMark(calls, start, k);
      }
    }
    if MarksHold(evs, ctx) {
      forall k | 0 <= k < |calls| ensures NoRevertedMark(calls, start, k) {
        PositionsAscend(evs, k, k + 1);
        assert MarkHolds(evs, ctx, PositionOf(evs, k));
      }
    }
  }

  /** Creates that fail by themselves do no harm, nor do those that nothing undoes, as
      long as the zero address, which a failed create is reported to make, has not
      self-destructed. */
  lemma {:induction false} FailedCreatesHold(evs: seq<Event>, ctx: Context)
    requires forall p :: !DestroysAt(evs, ctx, p, ZERO_ADDRESS)
    requires forall p :: IsEntered(evs, p) && Undone(evs, ctx, p) ==> !SelfDestructsAt(evs, ctx, p)
    requires forall p :: IsEntered(evs, p) && Undone(evs, ctx, p) && CreatesAt(evs, ctx, p) ==>
                           p == -1 || ExitsWithError(evs, p)
    ensures MarksHold(evs, ctx)
  {
    forall p | IsEntered(evs, p) && Undone(evs, ctx, p) && CreatesAt(evs, ctx, p)
      ensures !DestroyedBefore(evs, ctx, p, Created(evs, ctx, p))
    {
      forall d ensures !LatestBefore(evs, ctx, p, Created(evs, ctx, p), d) {
      }
    }
  }

  // ---------- The theorems ----------

  /** For every well-nested event stream whose self-destructs all took effect, as did
      its creates of accounts that had self-destructed, and which the accounts can
      afford, the operations made from the traced, decoded and flattened calls
      replay to exactly the reference balances. */
  lemma {:induction false} EventsAreTracked(bal: Balances, evs: seq<Event>, ctx: Context, start: int,
                                            order: seq<Address>)
    requires WellNested(evs) && MarksHold(evs, ctx)
    requires Solvent(bal, Flattened(evs, ctx))
    requires Enumerates(order, TraceOps.Run(Flattened(evs, ctx), start).destroyed.Keys)
    ensures Refines(bal, Flattened(evs, ctx), TraceOps.Result(Flattened(evs, ctx), start, order))
  {
    MarksHoldIff(evs, ctx, start);
    RefinesWithoutRevertedMarks(bal, Flattened(evs, ctx), start, order);
  }

  /** For the transaction around such a stream, fees included: it is populated, with
      operations that replay to exactly its settlement, if and only if its metadata
      is readable and no account that ends self-destructed is paid after the last
      frame, as its miner or as a payer with unused gas. */
  lemma {:induction false} EventsAreSettled(bal: Balances, evs: seq<Event>, ctx: Context, v: TxView, bought: int,
                                            order: seq<Address>)
    requires WellNested(evs) && MarksHold(evs, ctx) && v.calls == Flattened(evs, ctx)
    requires Accepted(bal, v, bought)
    requires Enumerates(order, DestroyedIn(v).Keys)
    ensures Populate(v, order).Populated? && SameBalances(Replay(bal, Populate(v, order).ops), Settle(bal, v, bought))
       <==> v.readable && forall a :: DestroyedBefore(evs, ctx, |evs|, a) ==> LatePay(v, bought, a) == 0
  {
    TransactionRefinement(bal, v, bought, order);
    forall a
      ensures Settled(v.calls, a, LatePay(v, bought, a))
         <==> (DestroyedBefore(evs, ctx, |evs|, a) ==> LatePay(v, bought, a) == 0)
    {
      SettledByEvents(evs, ctx, a, LatePay(v, bought, a));
    }
  }

  lemma {:induction false} SettledByEvents(evs: seq<Event>, ctx: Context, a: Address, late: int)
    requires WellNested(evs) && MarksHold(evs, ctx)
    ensures Settled(Flattened(evs, ctx), a, late) <==> (DestroyedBefore(evs, ctx, |evs|, a) ==> late == 0)
  {
    var calls := Flattened(evs, ctx);
    MarksHoldIff(evs, ctx, 0);
    NoRevertedMarksHarmless(calls, 0, a);
    SettledResidues(calls, a, late);
    EntryOrderAndStatus(evs, ctx);
    DeadByEvents(evs, ctx, |calls|, a);
    assert calls[..|calls|] == calls;
  }
}
