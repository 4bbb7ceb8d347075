/** Whole transactions and whole blocks: fee, trace and reward operations put
    together, and what they add up to. */
module Blocks {
  import opened Types
  import opened CallTrees
  import opened Calls
  import opened TraceOps
  import opened TraceLaws
  import opened Fees
  import Rewards

  /** A transaction with its fee, its call trace, and whether its receipt and raw
      trace can be turned into metadata. */
  datatype LoadedTransaction = LoadedTransaction(
    from: Address,
    miner: Address,
    feeAmount: int,
    feeBurned: Option<int>,
    trace: Call,
    readable: bool)

  datatype TxResult = Populated(ops: seq<Operation>) | ProcessExit(account: Address, residue: int) | MetadataError

  /** A loaded transaction as a value, with its flattened trace. */
  datatype TxView = TxView(
    from: Address,
    miner: Address,
    feeAmount: int,
    feeBurned: Option<int>,
    calls: seq<FlatCall>,
    readable: bool)

  ghost function View(tx: LoadedTransaction): TxView
    reads tx.trace
  {
    TxView(tx.from, tx.miner, tx.feeAmount, tx.feeBurned, Preorder(Close(tx.trace.tree)), tx.readable)
  }

  function FeesOf(v: TxView): seq<Operation> {
    FeeOps(v.from, v.miner, v.feeAmount, v.feeBurned)
  }

  /** The accounts destroyed in a transaction, with what they hold at its end. */
  function DestroyedIn(v: TxView): map<Address, int> {
    Run(v.calls, |FeesOf(v)|).destroyed
  }

  /** The outcome of a transaction, for one iteration order of its destroyed accounts. */
  ghost function Populate(v: TxView, order: seq<Address>): TxResult
    requires Enumerates(order, DestroyedIn(v).Keys)
  {
    var traced := Result(v.calls, |FeesOf(v)|, order);
    if traced.Exited? then ProcessExit(traced.account, traced.residue)
    else if !v.readable then MetadataError
    else Populated(FeesOf(v) + traced.ops)
  }

  method PopulateTransaction(tx: LoadedTransaction) returns (r: TxResult, ghost order: seq<Address>)
    requires tx.trace.Valid()
    modifies tx.trace.Repr`revert, tx.trace.Repr`errorMessage, tx.trace.Repr`tree
    ensures tx.trace.Valid() && tx.trace.tree == Close(old(tx.trace.tree))
    ensures Enumerates(order, DestroyedIn(old(View(tx))).Keys)
    ensures r == Populate(old(View(tx)), order)
    ensures r.Populated? ==>
              var fees := FeeOps(tx.from, tx.miner, tx.feeAmount, tx.feeBurned);
              tx.readable && Result(Preorder(tx.trace.tree), |fees|, order).Completed?
              && r.ops == fees + Result(Preorder(tx.trace.tree), |fees|, order).ops
  {
    ghost var v := View(tx);
    var ops := FeeOps(tx.from, tx.miner, tx.feeAmount, tx.feeBurned);
    var traces := FlattenTraces(tx.trace, []);
    SpreadEmpty(Preorder(Close(old(tx.trace.tree))));
    assert ops == FeesOf(v) && traces == v.calls;
    var traced := TraceOps.TraceOps(traces, |ops|);
    order :| Enumerates(order, DestroyedIn(v).Keys) && traced == Result(v.calls, |FeesOf(v)|, order);
    match traced {
      case Exited(account, residue) => r := ProcessExit(account, residue);
      case Completed(traceOps) =>
        ops := ops + traceOps;
        r := if tx.readable then Populated(ops) else MetadataError;
    }
  }

  // ---------- Laws of one transaction ----------

  /** Every related operation is exactly the preceding one. */
  ghost predicate RelatesBack(ops: seq<Operation>) {
    forall i :: 0 <= i < |ops| ==> RelatesToPrevious(ops, i)
  }

  ghost predicate RelatesToPrevious(ops: seq<Operation>, i: int)
    requires 0 <= i < |ops|
  {
    ops[i].related == [] || (i > 0 && ops[i].related == [ops[i - 1].index])
  }

  /** In a populated transaction the operation at position i has index i, related
      operations are exactly the preceding ones, and behind the fee operations every
      one is a debit leg, a credit leg behind its debit leg, or a DESTRUCT. */
  lemma {:induction false} TransactionDisciplined(v: TxView, order: seq<Address>)
    requires Enumerates(order, DestroyedIn(v).Keys)
    requires Populate(v, order).Populated?
    ensures Indexed(Populate(v, order).ops, 0) && RelatesBack(Populate(v, order).ops)
    ensures FeesOf(v) <= Populate(v, order).ops
    ensures Disciplined(v.calls, Populate(v, order).ops[|FeesOf(v)|..], |FeesOf(v)|)
  {
    var fees, n := FeesOf(v), |FeesOf(v)|;
    var traced := Result(v.calls, n, order).ops;
    ResultDisciplined(v.calls, n, order);
    FeeOpsSplit(v.from, v.miner, v.feeAmount, v.feeBurned, v.from);
    assert (fees + traced)[n..] == traced;
    RelatedBehindFees(v.calls, fees, traced);
  }

  lemma {:induction false} RelatedBehindFees(calls: seq<FlatCall>, fees: seq<Operation>, traced: seq<Operation>)
    requires Indexed(fees, 0) && RelatesBack(fees)
    requires Disciplined(calls, traced, |fees|)
    ensures Indexed(fees + traced, 0) && RelatesBack(fees + traced)
  {
    var ops := fees + traced;
    forall i | 0 <= i < |ops| ensures RelatesToPrevious(ops, i) {
      if i < |fees| {
        assert RelatesToPrevious(fees, i);
      } else {
        RelatedIsPrevious(calls, traced, |fees|, i - |fees|);
      }
    }
  }

  lemma {:induction false} RelatedIsPrevious(calls: seq<FlatCall>, traced: seq<Operation>, start: int, j: nat)
    requires Disciplined(calls, traced, start) && j < |traced|
    ensures RelatesToPrevious(traced, j)
  {
    assert Belongs(calls, traced, start, j);
  }

  /** Why a transaction is not populated: the process exits when a destroyed account
      ends overdrawn, and only otherwise do unreadable metadata matter. */
  lemma {:induction false} PopulateFails(v: TxView, order: seq<Address>)
    requires Enumerates(order, DestroyedIn(v).Keys)
    ensures var r, d := Populate(v, order), DestroyedIn(v);
            (r.ProcessExit? <==> exists a :: a in d && d[a] < 0)
            && (r.ProcessExit? ==> r.account in d && r.residue == d[r.account] < 0)
            && (r.MetadataError? <==> !v.readable && forall a :: a in d ==> d[a] >= 0)
  {
    var s := Run(v.calls, |FeesOf(v)|);
    EnumerationFinishable(v.calls, |FeesOf(v)|, order);
    FinishPays(s, order);
    if Finish(s, order).Exited? {
      FinishExits(s, order);
    }
  }

  /** What a transaction takes out of circulation. */
  ghost function Destroyed(v: TxView, order: seq<Address>): int
    requires Enumerates(order, DestroyedIn(v).Keys)
  {
    Burned(v.feeBurned) + SelfBurned(v.calls, Success) + Residues(DestroyedIn(v), order)
  }

  lemma {:induction false} TransactionConservation(v: TxView, order: seq<Address>)
    requires Enumerates(order, DestroyedIn(v).Keys)
    requires Populate(v, order).Populated?
    ensures Total(Populate(v, order).ops, Success) == -Destroyed(v, order)
    ensures Total(Populate(v, order).ops, Failure) == -SelfBurned(v.calls, Failure)
  {
    var fees := FeesOf(v);
    var traced := Result(v.calls, |fees|, order).ops;
    TraceConservation(v.calls, |fees|, order);
    FeeOpsSplit(v.from, v.miner, v.feeAmount, v.feeBurned, v.from);
    TotalConcat(fees, traced, Success);
    TotalConcat(fees, traced, Failure);
  }

  // ---------- Blocks ----------

  datatype Header = Header(number: int, coinbase: Address, uncles: seq<Rewards.Uncle>)

  /** A populated block: its reward transaction, which comes first, and the others. */
  datatype BlockResult =
    | Transactions(rewards: seq<Operation>, txs: seq<seq<Operation>>)
    | Failed(reason: TxResult)

  function RewardOpsOf(config: Rewards.ChainConfig, h: Header): seq<Operation> {
    Rewards.RewardOps(Rewards.MiningReward(config, h.number), h.number, h.coinbase, h.uncles, |h.uncles|)
  }

  /** `txs` are the operations of the first transactions, one for each of `orders`. */
  ghost predicate Populates(txs: seq<seq<Operation>>, views: seq<TxView>, orders: seq<seq<Address>>)
    decreases |orders|
  {
    |txs| == |orders| <= |views|
    && (orders == []
        || (var n := |orders| - 1;
            Enumerates(orders[n], DestroyedIn(views[n]).Keys)
            && Populate(views[n], orders[n]) == Populated(txs[n])
            && Populates(txs[..n], views, orders[..n])))
  }

  ghost predicate Fails(v: TxView, order: seq<Address>, reason: TxResult) {
    Enumerates(order, DestroyedIn(v).Keys) && Populate(v, order) == reason && !reason.Populated?
  }

  /** A populated block is its reward transaction and then every transaction in
      order; otherwise the first transaction that cannot be populated is the reason. */
  ghost predicate Outcomes(config: Rewards.ChainConfig, h: Header, views: seq<TxView>, r: BlockResult,
                           orders: seq<seq<Address>>, last: seq<Address>) {
    match r
    case Transactions(rewards, txs) =>
      rewards == RewardOpsOf(config, h) && |orders| == |views| && Populates(txs, views, orders)
    case Failed(reason) =>
      |orders| < |views| && Fails(views[|orders|], last, reason) && exists done :: Populates(done, views, orders)
  }

  /** `owned` holds the disjoint call traces of the transactions. */
  ghost predicate Separate(owned: set<Call>, txs: seq<LoadedTransaction>)
    reads owned`Repr
  {
    (forall k :: 0 <= k < |txs| ==> txs[k].trace in owned && txs[k].trace.Repr <= owned)
    && (forall j, k :: 0 <= j < |txs| && 0 <= k < |txs| && j != k ==> txs[j].trace.Repr !! txs[k].trace.Repr)
  }

  /** Populates a block: its reward transaction and then the others in order. The
      first transaction that cannot be populated, with iteration order `last`,
      decides the outcome. The ghost parameters are the objects of the traces and
      the transactions as values. */
  method PopulateTransactions(config: Rewards.ChainConfig, header: Header, loaded: seq<LoadedTransaction>,
                              ghost owned: set<Call>, ghost views: seq<TxView>)
    returns (r: BlockResult, ghost orders: seq<seq<Address>>, ghost last: seq<Address>)
    requires Separate(owned, loaded) && forall k :: 0 <= k < |loaded| ==> loaded[k].trace.Valid()
    requires |views| == |loaded| && forall k :: 0 <= k < |loaded| ==> views[k] == View(loaded[k])
    modifies owned`revert, owned`errorMessage, owned`tree
    ensures Outcomes(config, header, views, r, orders, last)
  {
    var rewards := Rewards.BlockRewardTransaction(config, header.number, header.coinbase, header.uncles);
    var transactions: seq<seq<Operation>> := [];
    orders, last := [], [];
    var i := 0;
    while i < |loaded|
      invariant 0 <= i == |orders| <= |loaded|
      invariant forall k :: 0 <= k < |loaded| ==> loaded[k].trace.Valid()
      invariant forall k :: i <= k < |loaded| ==> views[k] == View(loaded[k])
      invariant Populates(transactions, views, orders)
    {
      var transaction, order := PopulateNext(loaded, i, owned, views, transactions, orders);
      if !transaction.Populated? {
        return Failed(transaction), orders, order;
      }
      transactions, orders := transactions + [transaction.ops], orders + [order];
      i := i + 1;
    }
    r := Transactions(rewards, transactions);
  }

  lemma {:induction false} OneMore(txs: seq<seq<Operation>>, views: seq<TxView>, orders: seq<seq<Address>>,
                                   ops: seq<Operation>, order: seq<Address>)
    requires Populates(txs, views, orders) && |orders| < |views|
    requires Enumerates(order, DestroyedIn(views[|orders|]).Keys)
    requires Populate(views[|orders|], order) == Populated(ops)
    ensures Populates(txs + [ops], views, orders + [order])
  {
    assert (txs + [ops])[..|orders|] == txs && (orders + [order])[..|orders|] == orders;
  }

  /** Populates one transaction and leaves the others alone. */
  method PopulateNext(loaded: seq<LoadedTransaction>, i: nat, ghost owned: set<Call>, ghost views: seq<TxView>,
                      ghost txs: seq<seq<Operation>>, ghost orders: seq<seq<Address>>)
    returns (r: TxResult, ghost order: seq<Address>)
    requires i < |loaded| == |views| && Separate(owned, loaded)
    requires forall k :: 0 <= k < |loaded| ==> loaded[k].trace.Valid()
    requires forall k :: i <= k < |loaded| ==> views[k] == View(loaded[k])
    requires |orders| == i && Populates(txs, views, orders)
    modifies loaded[i].trace.Repr`revert, loaded[i].trace.Repr`errorMessage, loaded[i].trace.Repr`tree
    ensures forall k :: 0 <= k < |loaded| ==> loaded[k].trace.Valid()
    ensures forall k :: i < k < |loaded| ==> views[k] == View(loaded[k])
    ensures r.Populated? ==> Populates(txs + [r.ops], views, orders + [order])
    ensures !r.Populated? ==> Fails(views[i], order, r)
  {
    r, order := PopulateTransaction(loaded[i]);
    if r.Populated? {
      OneMore(txs, views, orders, r.ops, order);
    }
  }

  /** Every transaction of a populated block, the reward transaction included, is
      indexed from 0, and relates operations to preceding ones only. */
  lemma {:induction false} BlockDisciplined(config: Rewards.ChainConfig, h: Header, views: seq<TxView>,
                                            r: BlockResult, orders: seq<seq<Address>>, last: seq<Address>)
    requires Outcomes(config, h, views, r, orders, last) && r.Transactions?
    ensures |r.rewards| == 1 + |h.uncles| && |r.txs| == |views|
    ensures forall ops :: ops in [r.rewards] + r.txs ==> Indexed(ops, 0) && RelatesBack(ops)
  {
    Rewards.RewardOpsIndexed(Rewards.MiningReward(config, h.number), h.number, h.coinbase, h.uncles, |h.uncles|);
    TransactionsDisciplined(r.txs, views, orders);
  }

  lemma {:induction false} TransactionsDisciplined(txs: seq<seq<Operation>>, views: seq<TxView>,
                                                   orders: seq<seq<Address>>)
    requires Populates(txs, views, orders)
    ensures forall ops :: ops in txs ==> Indexed(ops, 0) && RelatesBack(ops)
    decreases |orders|
  {
    if orders != [] {
      var n := |orders| - 1;
      TransactionsDisciplined(txs[..n], views, orders[..n]);
      TransactionDisciplined(views[n], orders[n]);
      assert txs == txs[..n] + [txs[n]];
    }
  }

  function BlockTotal(txs: seq<seq<Operation>>): int {
    if txs == [] then 0 else BlockTotal(txs[..|txs| - 1]) + Total(txs[|txs| - 1], Success)
  }

  /** What the transactions of a block take out of circulation. */
  ghost function BlockDestroyed(txs: seq<seq<Operation>>, views: seq<TxView>, orders: seq<seq<Address>>): int
    requires Populates(txs, views, orders)
    decreases |orders|
  {
    if orders == [] then 0
    else
      var n := |orders| - 1;
      BlockDestroyed(txs[..n], views, orders[..n]) + Destroyed(views[n], orders[n])
  }

  lemma {:induction false} TransactionsConservation(txs: seq<seq<Operation>>, views: seq<TxView>,
                                                    orders: seq<seq<Address>>)
    requires Populates(txs, views, orders)
    ensures BlockTotal(txs) == -BlockDestroyed(txs, views, orders)
    decreases |orders|
  {
    if orders != [] {
      var n := |orders| - 1;
      TransactionsConservation(txs[..n], views, orders[..n]);
      TransactionConservation(views[n], orders[n]);
    }
  }

  /** The rewards of a block. */
  function Issuance(config: Rewards.ChainConfig, h: Header): int {
    var reward := Rewards.MiningReward(config, h.number);
    Rewards.MinerReward(reward, |h.uncles|) + Rewards.UncleIssuance(reward, h.number, h.uncles, |h.uncles|)
  }

  lemma {:induction false} RewardsTotal(config: Rewards.ChainConfig, h: Header)
    requires Rewards.OlderUncles(h.number, h.uncles)
    ensures Total(RewardOpsOf(config, h), Success) == Issuance(config, h)
  {
    Rewards.RewardOpsTotal(Rewards.MiningReward(config, h.number), h.number, h.coinbase, h.uncles, |h.uncles|);
  }

  /** Whole-block conservation: the successful operations of a block add up to the
      miner's and uncles' rewards, less what its transactions take out of
      circulation as burned fees, self-targeted self-destructs and residues. */
  lemma {:induction false} BlockConservation(config: Rewards.ChainConfig, h: Header, txs: seq<seq<Operation>>,
                                             views: seq<TxView>, orders: seq<seq<Address>>)
    requires Populates(txs, views, orders)
    requires Rewards.OlderUncles(h.number, h.uncles)
    ensures Total(RewardOpsOf(config, h), Success) + BlockTotal(txs)
         == Issuance(config, h) - BlockDestroyed(txs, views, orders)
  {
    RewardsTotal(config, h);
    TransactionsConservation(txs, views, orders);
  }
}
