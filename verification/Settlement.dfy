/** Reference settlement of whole transactions and blocks, and when the populated
    operations, fees and rewards included, replay to exactly its balances. */
module Settlement {
  import opened Types
  import opened CallTrees
  import opened TraceOps
  import opened TraceLaws
  import opened Ledger
  import opened Fees
  import opened Blocks
  import Rewards

  // ---------- One transaction ----------

  /** Removing accounts takes away whatever they hold. */
  function Remove(bal: Balances, dead: set<Address>): Balances {
    map a | a in bal :: if a in dead then 0 else bal[a]
  }

  /** How the chain settles a transaction: the payer buys gas for `bought`, the
      frames run, the payer gets back what is left of that and the miner what is not
      burned, and then the condemned accounts are removed. */
  function Settle(bal: Balances, v: TxView, bought: int): Balances {
    var w := ExecuteAll(Move(bal, v.from, -bought), v.calls);
    var refunded := Move(w.bal, v.from, bought - v.feeAmount);
    Remove(Move(refunded, v.miner, v.feeAmount - Burned(v.feeBurned)), w.dead)
  }

  /** What is paid to an account between the last frame and the removals. */
  function LatePay(v: TxView, bought: int, a: Address): int {
    (if a == v.from then bought - v.feeAmount else 0)
    + if a == v.miner then v.feeAmount - Burned(v.feeBurned) else 0
  }

  /** What the chain guarantees of a transaction it accepts: gas is bought for at
      least the fee, which covers the burned part, and every step is affordable. */
  ghost predicate Accepted(bal: Balances, v: TxView, bought: int) {
    0 <= Burned(v.feeBurned) <= v.feeAmount <= bought && Solvent(Move(bal, v.from, -bought), v.calls)
  }

  /** Every account is settled, what it is paid late included. */
  ghost predicate AllSettled(v: TxView, bought: int) {
    forall a :: Settled(v.calls, a, LatePay(v, bought, a))
  }

  ghost predicate SameBalances(x: Balances, y: Balances) {
    forall a :: Bal(x, a) == Bal(y, a)
  }

  lemma {:induction false} SettleIs(bal: Balances, v: TxView, bought: int, a: Address)
    requires Accepted(bal, v, bought)
    ensures Residue(v.calls, a, true) >= 0
    ensures Bal(Settle(bal, v, bought), a)
         == Bal(bal, a) + Credited(FeesOf(v), a) + Flow(v.calls, a) - Residue(v.calls, a, true)
            - if Dead(v.calls, a, true) then LatePay(v, bought, a) else 0
  {
    WorldInvariant(Move(bal, v.from, -bought), v.calls, a);
    FeeOpsSplit(v.from, v.miner, v.feeAmount, v.feeBurned, a);
  }

  lemma {:induction false} PopulatedCredits(bal: Balances, v: TxView, order: seq<Address>, a: Address)
    requires Enumerates(order, DestroyedIn(v).Keys)
    requires Populate(v, order).Populated?
    ensures Bal(Replay(bal, Populate(v, order).ops), a)
         == Bal(bal, a) + Credited(FeesOf(v), a) + Flow(v.calls, a) - Residue(v.calls, a, false)
  {
    var traced := Result(v.calls, |FeesOf(v)|, order).ops;
    ReplayCredits(bal, FeesOf(v) + traced, a);
    CreditedConcat(FeesOf(v), traced, a);
    ResultCredited(v.calls, |FeesOf(v)|, order, a);
  }

  /** For one account: when the operations, replayed on balances that agree with the
      reference, agree with it again. */
  lemma {:induction false} SettledAgrees(bal: Balances, x: Balances, v: TxView, bought: int, order: seq<Address>,
                                         more: int, a: Address)
    requires Accepted(bal, v, bought)
    requires Enumerates(order, DestroyedIn(v).Keys) && Populate(v, order).Populated?
    requires Bal(x, a) == Bal(bal, a) + more
    ensures Bal(Replay(x, Populate(v, order).ops), a) == Bal(Settle(bal, v, bought), a) + more
       <==> Settled(v.calls, a, LatePay(v, bought, a))
  {
    SettleIs(bal, v, bought, a);
    PopulatedCredits(x, v, order, a);
    SettledResidues(v.calls, a, LatePay(v, bought, a));
  }

  lemma {:induction false} SettledPopulates(bal: Balances, v: TxView, bought: int, order: seq<Address>)
    requires Accepted(bal, v, bought) && AllSettled(v, bought)
    requires Enumerates(order, DestroyedIn(v).Keys)
    ensures Populate(v, order).Populated? <==> v.readable
  {
    forall a ensures Residue(v.calls, a, false) >= 0 {
      SettleIs(bal, v, bought, a);
      SettledResidues(v.calls, a, LatePay(v, bought, a));
    }
    CoveredCompletes(v.calls, |FeesOf(v)|, order);
  }

  /** A transaction is populated, with operations that replay to exactly its
      settlement, if and only if its metadata is readable and every account is
      settled. In particular no condemned account may be paid late. */
  lemma {:induction false} TransactionRefinement(bal: Balances, v: TxView, bought: int, order: seq<Address>)
    requires Accepted(bal, v, bought)
    requires Enumerates(order, DestroyedIn(v).Keys)
    ensures Populate(v, order).Populated? && SameBalances(Replay(bal, Populate(v, order).ops), Settle(bal, v, bought))
       <==> v.readable && AllSettled(v, bought)
  {
    if Populate(v, order).Populated? {
      forall a
        ensures Bal(Replay(bal, Populate(v, order).ops), a) == Bal(Settle(bal, v, bought), a)
           <==> Settled(v.calls, a, LatePay(v, bought, a))
      {
        SettledAgrees(bal, bal, v, bought, order, 0, a);
      }
    }
    if AllSettled(v, bought) {
      SettledPopulates(bal, v, bought, order);
    }
  }

  // ---------- A block ----------

  function SettleAll(bal: Balances, views: seq<TxView>, bought: seq<int>): Balances
    requires |views| == |bought|
  {
    if views == [] then bal else Settle(SettleAll(bal, Init(views), Init(bought)), Last(views), Last(bought))
  }

  function ReplayAll(bal: Balances, txs: seq<seq<Operation>>): Balances {
    if txs == [] then bal else Replay(ReplayAll(bal, Init(txs)), Last(txs))
  }

  /** Each transaction is accepted after the ones before it. */
  ghost predicate AllAccepted(bal: Balances, views: seq<TxView>, bought: seq<int>)
    requires |views| == |bought|
  {
    views == []
    || (AllAccepted(bal, Init(views), Init(bought))
        && Accepted(SettleAll(bal, Init(views), Init(bought)), Last(views), Last(bought)))
  }

  lemma {:induction false} AcceptedAt(bal: Balances, views: seq<TxView>, bought: seq<int>, k: nat)
    requires |views| == |bought| && AllAccepted(bal, views, bought) && k < |views|
    ensures Accepted(SettleAll(bal, views[..k], bought[..k]), views[k], bought[k])
  {
    if k < |views| - 1 {
      AcceptedAt(bal, Init(views), Init(bought), k);
      assert Init(views)[..k] == views[..k] && Init(bought)[..k] == bought[..k];
    }
  }

  /** What a block earns an account: as its miner the reward and a 32nd of it per
      uncle, and for each of its first `k` uncles, by depth, up to seven eighths. */
  function Earned(config: Rewards.ChainConfig, h: Header, k: nat, a: Address): int
    requires k <= |h.uncles|
  {
    var reward := Rewards.MiningReward(config, h.number);
    if k == 0 then
      if a == h.coinbase then reward + |h.uncles| * reward / 32 else 0
    else
      var u := h.uncles[k - 1];
      Earned(config, h, k - 1, a)
      + if a == u.coinbase then
          (8 - (h.number - u.number)) * reward / 8
        else 0
  }

  /** The rewards of a block with older uncles, as long as the miner's is an int64. */
  ghost predicate Payable(config: Rewards.ChainConfig, h: Header) {
    var reward := Rewards.MiningReward(config, h.number);
    Rewards.OlderUncles(h.number, h.uncles)
    && reward + |h.uncles| * reward / 32 < 0x8000_0000_0000_0000
  }

  lemma {:induction false} RewardsEarned(config: Rewards.ChainConfig, h: Header, k: nat, a: Address)
    requires Payable(config, h) && k <= |h.uncles|
    ensures Credited(Rewards.RewardOps(Rewards.MiningReward(config, h.number), h.number, h.coinbase, h.uncles, k), a)
         == Earned(config, h, k, a)
  {
    if k == 0 {
      MinerEarned(config, h, a);
    } else {
      RewardsEarned(config, h, k - 1, a);
      UncleEarned(config, h, k, a);
    }
  }

  lemma {:induction false} MinerEarned(config: Rewards.ChainConfig, h: Header, a: Address)
    requires Payable(config, h)
    ensures Credited(Rewards.RewardOps(Rewards.MiningReward(config, h.number), h.number, h.coinbase, h.uncles, 0), a)
         == Earned(config, h, 0, a)
  {
    var reward := Rewards.MiningReward(config, h.number);
    var op := Rewards.RewardOp(0, MinerRewardOpType, h.coinbase, Rewards.MinerReward(reward, |h.uncles|));
    SumsOfTwo(op, op, Success, a);
    Rewards.EthashRewardsExact(reward, |h.uncles|);
  }

  lemma {:induction false} UncleEarned(config: Rewards.ChainConfig, h: Header, k: nat, a: Address)
    requires Payable(config, h) && 0 < k <= |h.uncles|
    ensures var reward := Rewards.MiningReward(config, h.number);
            Credited(Rewards.RewardOps(reward, h.number, h.coinbase, h.uncles, k), a)
            - Credited(Rewards.RewardOps(reward, h.number, h.coinbase, h.uncles, k - 1), a)
            == Earned(config, h, k, a) - Earned(config, h, k - 1, a)
  {
    var reward, u := Rewards.MiningReward(config, h.number), h.uncles[k - 1];
    Rewards.UncleRewardExact(reward, u, h.number);
    CreditedSnoc(Rewards.RewardOps(reward, h.number, h.coinbase, h.uncles, k - 1),
                 Rewards.RewardOp(k, UncleRewardOpType, u.coinbase, Rewards.UncleReward(reward, u, h.number)), a);
  }

  /** After the reward transaction and the others, every balance is the settled one
      with the block's earnings on top. */
  ghost predicate Agrees(config: Rewards.ChainConfig, h: Header, bal: Balances, txs: seq<seq<Operation>>,
                         views: seq<TxView>, bought: seq<int>)
    requires |views| == |bought|
  {
    forall a :: Bal(ReplayAll(Replay(bal, RewardOpsOf(config, h)), txs), a)
             == Bal(SettleAll(bal, views, bought), a) + Earned(config, h, |h.uncles|, a)
  }

  lemma {:induction false} RewardsAgree(config: Rewards.ChainConfig, h: Header, bal: Balances)
    requires Payable(config, h)
    ensures Agrees(config, h, bal, [], [], [])
  {
    forall a
      ensures Bal(Replay(bal, RewardOpsOf(config, h)), a) == Bal(bal, a) + Earned(config, h, |h.uncles|, a)
    {
      ReplayCredits(bal, RewardOpsOf(config, h), a);
      RewardsEarned(config, h, |h.uncles|, a);
    }
  }

  /** One more transaction on balances that agree so far. */
  lemma {:induction false} AgreesOneMore(config: Rewards.ChainConfig, h: Header, bal: Balances,
                                         txs: seq<seq<Operation>>, views: seq<TxView>, bought: seq<int>,
                                         v: TxView, gas: int, order: seq<Address>)
    requires |views| == |bought| && Agrees(config, h, bal, txs, views, bought)
    requires Accepted(SettleAll(bal, views, bought), v, gas)
    requires Enumerates(order, DestroyedIn(v).Keys) && Populate(v, order).Populated?
    ensures Agrees(config, h, bal, txs + [Populate(v, order).ops], views + [v], bought + [gas]) <==> AllSettled(v, gas)
  {
    var settled, x := SettleAll(bal, views, bought), ReplayAll(Replay(bal, RewardOpsOf(config, h)), txs);
    SnocAll(bal, Replay(bal, RewardOpsOf(config, h)), txs, Populate(v, order).ops, views, bought, v, gas);
    forall a
      ensures Bal(Replay(x, Populate(v, order).ops), a)
              == Bal(Settle(settled, v, gas), a) + Earned(config, h, |h.uncles|, a)
         <==> Settled(v.calls, a, LatePay(v, gas, a))
    {
      SettledAgrees(settled, x, v, gas, order, Earned(config, h, |h.uncles|, a), a);
    }
  }

  lemma {:induction false} SnocAll(bal: Balances, start: Balances, txs: seq<seq<Operation>>, ops: seq<Operation>,
                                   views: seq<TxView>, bought: seq<int>, v: TxView, gas: int)
    requires |views| == |bought|
    ensures ReplayAll(start, txs + [ops]) == Replay(ReplayAll(start, txs), ops)
    ensures SettleAll(bal, views + [v], bought + [gas]) == Settle(SettleAll(bal, views, bought), v, gas)
  {
    assert Init(txs + [ops]) == txs && Init(views + [v]) == views && Init(bought + [gas]) == bought;
  }

  /** Agreement after each of the transactions, one after the other. */
  ghost predicate AgreesThroughout(config: Rewards.ChainConfig, h: Header, bal: Balances, txs: seq<seq<Operation>>,
                                   views: seq<TxView>, bought: seq<int>)
    requires |txs| == |views| == |bought|
    decreases |txs|
  {
    Agrees(config, h, bal, txs, views, bought)
    && (txs == [] || AgreesThroughout(config, h, bal, Init(txs), Init(views), Init(bought)))
  }

  lemma {:induction false} PopulatesFirst(txs: seq<seq<Operation>>, views: seq<TxView>, orders: seq<seq<Address>>,
                                          n: nat)
    requires Populates(txs, views, orders) && |orders| <= n <= |views|
    ensures Populates(txs, views[..n], orders)
    decreases |orders|
  {
    if orders != [] {
      PopulatesFirst(Init(txs), views, Init(orders), n);
    }
  }

  lemma {:induction false} PopulatesInit(txs: seq<seq<Operation>>, views: seq<TxView>, orders: seq<seq<Address>>)
    requires Populates(txs, views, orders) && |views| == |orders| > 0
    ensures Populates(Init(txs), Init(views), Init(orders))
    ensures Enumerates(Last(orders), DestroyedIn(Last(views)).Keys)
    ensures Populate(Last(views), Last(orders)) == Populated(Last(txs))
  {
    PopulatesFirst(Init(txs), views, Init(orders), |orders| - 1);
  }

  lemma {:induction false} AcceptedInit(bal: Balances, views: seq<TxView>, bought: seq<int>)
    requires |views| == |bought| > 0 && AllAccepted(bal, views, bought)
    ensures AllAccepted(bal, Init(views), Init(bought))
    ensures Accepted(SettleAll(bal, Init(views), Init(bought)), Last(views), Last(bought))
  {
  }

  lemma {:induction false} AgreesStep(config: Rewards.ChainConfig, h: Header, bal: Balances,
                                      txs: seq<seq<Operation>>, views: seq<TxView>, bought: seq<int>,
                                      order: seq<Address>)
    requires |txs| == |views| == |bought| && txs != []
    requires AgreesThroughout(config, h, bal, Init(txs), Init(views), Init(bought))
    requires Accepted(SettleAll(bal, Init(views), Init(bought)), Last(views), Last(bought))
    requires Enumerates(order, DestroyedIn(Last(views)).Keys) && Populate(Last(views), order) == Populated(Last(txs))
    ensures AgreesThroughout(config, h, bal, txs, views, bought) <==> AllSettled(Last(views), Last(bought))
  {
    InitLast(txs);
    InitLast(views);
    InitLast(bought);
    AgreesOneMore(config, h, bal, Init(txs), Init(views), Init(bought), Last(views), Last(bought), order);
  }

  ghost predicate EachSettled(views: seq<TxView>, bought: seq<int>)
    requires |views| == |bought|
  {
    forall k :: 0 <= k < |views| ==> AllSettled(views[k], bought[k])
  }

  lemma {:induction false} EachSettledInit(views: seq<TxView>, bought: seq<int>)
    requires |views| == |bought| && views != []
    ensures EachSettled(views, bought)
       <==> EachSettled(Init(views), Init(bought)) && AllSettled(Last(views), Last(bought))
  {
    forall k | 0 <= k < |views| - 1 ensures Init(views)[k] == views[k] && Init(bought)[k] == bought[k] {
    }
  }

  /** The operations of a populated block replay to the settled balances after each
      transaction if and only if every transaction is settled. */
  lemma {:induction false} PopulatedRefines(config: Rewards.ChainConfig, h: Header, bal: Balances,
                                            txs: seq<seq<Operation>>, views: seq<TxView>, bought: seq<int>,
                                            orders: seq<seq<Address>>)
    requires Payable(config, h)
    requires |views| == |bought| == |orders| && Populates(txs, views, orders)
    requires AllAccepted(bal, views, bought)
    ensures AgreesThroughout(config, h, bal, txs, views, bought) <==> EachSettled(views, bought)
    decreases |orders|
  {
    if orders == [] {
      RewardsAgree(config, h, bal);
    } else {
      PopulatesInit(txs, views, orders);
      AcceptedInit(bal, views, bought);
      PopulatedRefines(config, h, bal, Init(txs), Init(views), Init(bought), Init(orders));
      RefinesStep(config, h, bal, txs, views, bought, Last(orders));
    }
  }

  lemma {:induction false} RefinesStep(config: Rewards.ChainConfig, h: Header, bal: Balances,
                                       txs: seq<seq<Operation>>, views: seq<TxView>, bought: seq<int>,
                                       order: seq<Address>)
    requires |txs| == |views| == |bought| && txs != []
    requires AgreesThroughout(config, h, bal, Init(txs), Init(views), Init(bought))
        <==> EachSettled(Init(views), Init(bought))
    requires Accepted(SettleAll(bal, Init(views), Init(bought)), Last(views), Last(bought))
    requires Enumerates(order, DestroyedIn(Last(views)).Keys) && Populate(Last(views), order) == Populated(Last(txs))
    ensures AgreesThroughout(config, h, bal, txs, views, bought) <==> EachSettled(views, bought)
  {
    EachSettledInit(views, bought);
    if EachSettled(Init(views), Init(bought)) {
      AgreesStep(config, h, bal, txs, views, bought, order);
    }
  }

  // ---------- The outcome of populating a block ----------

  /** A block is populated, with operations that replay to the settled balances
      and the block's earnings after each of its transactions, if and only if every
      transaction's metadata is readable and all its accounts are settled. */
  lemma {:induction false} BlockRefinement(config: Rewards.ChainConfig, h: Header, bal: Balances,
                                           views: seq<TxView>, bought: seq<int>, r: BlockResult,
                                           orders: seq<seq<Address>>, last: seq<Address>)
    requires Payable(config, h)
    requires |views| == |bought| && AllAccepted(bal, views, bought)
    requires Outcomes(config, h, views, r, orders, last)
    ensures r.Transactions? && AgreesThroughout(config, h, bal, r.txs, views, bought)
       <==> (forall v :: v in views ==> v.readable) && EachSettled(views, bought)
  {
    if r.Transactions? {
      PopulatedRefines(config, h, bal, r.txs, views, bought, orders);
      PopulatedReadable(r.txs, views, orders);
    } else {
      var k := |orders|;
      assert views[k] in views;
      AcceptedAt(bal, views, bought, k);
      TransactionRefinement(SettleAll(bal, views[..k], bought[..k]), views[k], bought[k], last);
    }
  }

  lemma {:induction false} PopulatedReadable(txs: seq<seq<Operation>>, views: seq<TxView>, orders: seq<seq<Address>>)
    requires Populates(txs, views, orders)
    ensures forall k :: 0 <= k < |orders| ==> views[k].readable
    decreases |orders|
  {
    if orders != [] {
      PopulatedReadable(Init(txs), views, Init(orders));
    }
  }
}
