/** Block rewards: the miner's reward with its floating-point uncle bonus, and
    the rewards of the uncles' miners. */
module Rewards {
  import opened Types
  import opened Arithmetic

  const UNCLES_REWARD_MULTIPLIER := 32
  const MAX_UNCLE_DEPTH := 8
  const FRONTIER_REWARD: nat := 5_000_000_000_000_000_000
  const BYZANTIUM_REWARD: nat := 3_000_000_000_000_000_000
  const CONSTANTINOPLE_REWARD: nat := 2_000_000_000_000_000_000

  const TWO_53: nat := 0x20_0000_0000_0000
  const TWO_63: int := 0x8000_0000_0000_0000
  const TWO_64: int := 0x1_0000_0000_0000_0000

  // ---------- Machine arithmetic ----------

  /** The int64 that Go's wrapping arithmetic makes of `x`. */
  function Wrap(x: int): int {
    (x + TWO_63) % TWO_64 - TWO_63
  }

  function Pow2(k: nat): nat {
    if k == 0 then 1 else 2 * Pow2(k - 1)
  }

  function Scaled(m: nat, k: nat): nat {
    m * Pow2(k)
  }

  /** How many low bits of `x` do not fit into a 53-bit significand. */
  function Excess(x: nat): nat {
    if x < TWO_53 then 0 else 1 + Excess(x / 2)
  }

  /** `x` rounded to 53 significant bits, to nearest with ties to even. Dividing by
      a power of two does not change the significand, so this also rounds x/32. */
  function Round(x: nat): nat {
    var unit := Pow2(Excess(x));
    Pow2Positive(Excess(x));
    var q, rest := x / unit, x % unit;
    var up := 2 * rest > unit || (2 * rest == unit && q % 2 == 1);
    (if up then q + 1 else q) * unit
  }

  lemma {:induction false} Pow2Positive(k: nat)
    ensures Pow2(k) > 0
  {
    if k > 0 {
      Pow2Positive(k - 1);
    }
  }

  /** A number whose significant bits fit is not changed by rounding. */
  ghost predicate Fits53(x: nat) {
    exists m: nat, k: nat :: m < TWO_53 && x == Scaled(m, k)
  }

  lemma {:induction false} ExcessBound(m: nat, k: nat)
    requires m < TWO_53
    ensures Excess(Scaled(m, k)) <= k
  {
    if k > 0 {
      ExcessBound(m, k - 1);
      assert Scaled(m, k) == 2 * Scaled(m, k - 1);
      assert Scaled(m, k) / 2 == Scaled(m, k - 1);
    }
  }

  lemma {:induction false} Pow2Add(a: nat, b: nat)
    ensures Pow2(a + b) == Pow2(a) * Pow2(b)
  {
    if a > 0 {
      Pow2Add(a - 1, b);
      assert Pow2(a) * Pow2(b) == 2 * (Pow2(a - 1) * Pow2(b));
    }
  }

  lemma {:induction false} RoundExact(x: nat)
    requires Fits53(x)
    ensures Round(x) == x
  {
    var m: nat, k: nat :| m < TWO_53 && x == Scaled(m, k);
    ExcessBound(m, k);
    var e := Excess(x);
    Pow2Positive(e);
    Pow2Add(k - e, e);
    MulAssociates(m, Pow2(k - e), Pow2(e));
    MultipleDivides(m * Pow2(k - e), Pow2(e));
  }

  /** Rounding is to a nearest multiple of the unit in the last place, and its
      result fits a 53-bit significand. */
  lemma {:induction false} RoundNearest(x: nat)
    ensures 2 * (if Round(x) >= x then Round(x) - x else x - Round(x)) <= Pow2(Excess(x))
    ensures Fits53(Round(x))
  {
    var unit := Pow2(Excess(x));
    Pow2Positive(Excess(x));
    QuotientSmall(x, Excess(x));
    NearestMultiple(x, unit, x / unit, x % unit);
    RoundedFits(x / unit, Excess(x));
  }

  /** A number half way between two multiples is rounded to the even one. */
  lemma {:induction false} RoundTies(x: nat)
    requires 2 * (x % Pow2Of(x)) == Pow2Of(x)
    ensures exists m: nat :: Round(x) == 2 * m * Pow2Of(x)
  {
    var unit := Pow2Of(x);
    var q := x / unit;
    if q % 2 == 1 {
      assert q + 1 == 2 * ((q + 1) / 2);
      assert Round(x) == 2 * ((q + 1) / 2) * unit;
    } else {
      assert q == 2 * (q / 2);
      assert Round(x) == 2 * (q / 2) * unit;
    }
  }

  /** The unit in the last place of `x`. */
  function Pow2Of(x: nat): (unit: nat)
    ensures unit > 0
  {
    Pow2Positive(Excess(x));
    Pow2(Excess(x))
  }

  lemma {:induction false} NearestMultiple(x: nat, unit: nat, q: nat, rest: nat)
    requires x == q * unit + rest && rest < unit
    ensures (q + 1) * unit == q * unit + unit
    ensures 2 * rest <= unit ==> 0 <= 2 * (x - q * unit) <= unit
    ensures 2 * rest >= unit ==> 0 <= 2 * ((q + 1) * unit - x) <= unit
  {
  }

  lemma {:induction false} RoundedFits(q: nat, k: nat)
    requires q < TWO_53
    ensures Fits53(q * Pow2(k)) && Fits53((q + 1) * Pow2(k))
  {
    assert q * Pow2(k) == Scaled(q, k);
    if q + 1 == TWO_53 {
      Pow2At53();
      Pow2Add(53, k);
      assert (q + 1) * Pow2(k) == Scaled(1, 53 + k);
    } else {
      assert (q + 1) * Pow2(k) == Scaled(q + 1, k);
    }
  }

  lemma {:induction false} QuotientSmall(x: nat, k: nat)
    requires k == Excess(x)
    ensures Pow2(k) > 0 && x / Pow2(k) < TWO_53
  {
    if k > 0 {
      QuotientSmall(x / 2, k - 1);
      DivTwice(x, Pow2(k - 1));
    }
  }

  lemma {:induction false} DivTwice(x: nat, d: nat)
    requires d > 0
    ensures x / (2 * d) == x / 2 / d
  {
    var q := x / 2 / d;
    var r := x / 2 % d;
    assert x / 2 == q * d + r;
    assert x == q * (2 * d) + (2 * r + x % 2);
    DivModUnique(x, 2 * d, q, 2 * r + x % 2);
  }

  lemma {:induction false} Pow2At53()
    ensures Pow2(53) == TWO_53
  {
    Pow2At18();
    assert Pow2(17) == 131072 by { assert Pow2(18) == 2 * Pow2(17); }
    Pow2Add(18, 18);
    Pow2Add(36, 17);
  }

  lemma {:induction false} MultipleDivides(q: nat, d: nat)
    requires d > 0
    ensures (q * d) / d == q && (q * d) % d == 0
  {
    DivModUnique(q * d, d, q, 0);
  }

  // ---------- The miner ----------

  /** The blocks at which the reward changed, None where it never did. */
  datatype ChainConfig = ChainConfig(byzantium: Option<int>, constantinople: Option<int>)

  predicate Forked(at: Option<int>, number: int) {
    at.Some? && at.value <= number
  }

  function MiningReward(config: ChainConfig, number: int): nat {
    var reward := FRONTIER_REWARD;
    var reward := if Forked(config.byzantium, number) then BYZANTIUM_REWARD else reward;
    if Forked(config.constantinople, number) then CONSTANTINOPLE_REWARD else reward
  }

  /** With the forks in their order the reward steps down from 5 to 3 to 2 ether,
      at the forks and nowhere else. */
  lemma {:induction false} RewardSchedule(byzantium: int, constantinople: int, number: int)
    requires byzantium <= constantinople
    ensures MiningReward(ChainConfig(Some(byzantium), Some(constantinople)), number)
         == 1_000_000_000_000_000_000
            * (5 - (if number >= byzantium then 2 else 0) - (if number >= constantinople then 1 else 0))
    ensures MiningReward(ChainConfig(Some(byzantium), None), number)
         == 1_000_000_000_000_000_000 * (5 - (if number >= byzantium then 2 else 0))
    ensures MiningReward(ChainConfig(None, None), number) == 5_000_000_000_000_000_000
  {
  }

  function Saturate(x: nat): int {
    if x < TWO_63 then x else TWO_63 - 1
  }

  /** The bonus for `n` uncles as the program computes it: n is converted to a
      float and divided by 32, the reward is converted to a float, and the product,
      rounded to 53 bits, is truncated to an int64. */
  function UncleBonus(reward: nat, n: nat): int {
    Saturate(Round(Product(Round(n), Round(reward))) / UNCLES_REWARD_MULTIPLIER)
  }

  function Product(a: nat, b: nat): nat {
    a * b
  }

  function MinerReward(reward: nat, n: nat): int {
    if n == 0 then reward else Wrap(reward + UncleBonus(reward, n))
  }

  /** When nothing has to be rounded, the miner gets the reward plus a 32nd of it
      per uncle exactly when that is an int64. */
  lemma {:induction false} MinerRewardExact(reward: nat, n: nat)
    requires reward < TWO_63 && reward % 32 == 0
    requires Fits53(n) && Fits53(reward) && Fits53(n * reward)
    ensures MinerReward(reward, n) == reward + n * reward / 32
       <==> reward + n * reward / 32 < TWO_63
  {
    BonusExact(reward, n);
    if n == 0 {
      assert 0 * reward == 0;
    }
  }

  lemma {:induction false} BonusExact(reward: nat, n: nat)
    requires Fits53(n) && Fits53(reward) && Fits53(n * reward)
    ensures UncleBonus(reward, n) == Saturate(n * reward / 32)
  {
    RoundExact(n);
    RoundExact(reward);
    RoundExact(n * reward);
  }

  /** For the three rewards of the chain nothing has to be rounded before the sum
      leaves the int64 range: for every number of uncles the miner's reward is exact
      if and only if the sum is an int64. */
  lemma {:induction false} EthashRewardsExact(reward: nat, n: nat)
    requires reward in {FRONTIER_REWARD, BYZANTIUM_REWARD, CONSTANTINOPLE_REWARD}
    ensures MinerReward(reward, n) == reward + n * reward / 32
       <==> reward + n * reward / 32 < TWO_63
    ensures reward + n * reward / 32 < TWO_63 <==> n <= MostUncles(reward)
  {
    SumInRange(reward, n);
    if n <= MostUncles(reward) {
      var odd, k := EthashFactors(reward);
      FitsProduct(n, odd, k);
      FitsScaled(odd, k);
      FitsScaled(n, 0);
      MinerRewardExact(reward, n);
    } else {
      WrapInRange(reward + UncleBonus(reward, n));
    }
  }

  /** The most uncles for which the miner's reward is an int64. */
  function MostUncles(reward: nat): nat {
    if reward == FRONTIER_REWARD then 27 else if reward == BYZANTIUM_REWARD then 66 else 115
  }

  /** Wrapping adds or takes away multiples of 2^64 until the number is an int64. */
  lemma {:induction false} WrapInRange(x: int)
    ensures -0x8000_0000_0000_0000 <= Wrap(x) < 0x8000_0000_0000_0000
    ensures (x - Wrap(x)) % 0x1_0000_0000_0000_0000 == 0
  {
  }

  lemma {:induction false} SumInRange(reward: nat, n: nat)
    requires reward in {FRONTIER_REWARD, BYZANTIUM_REWARD, CONSTANTINOPLE_REWARD}
    ensures reward % 32 == 0
    ensures reward + n * reward / 32 < TWO_63 <==> n <= MostUncles(reward)
  {
    if n <= MostUncles(reward) {
      MulMonotone(reward, n, MostUncles(reward));
    } else {
      MulMonotone(reward, MostUncles(reward) + 1, n);
    }
  }

  lemma {:induction false} FitsProduct(n: nat, odd: nat, k: nat)
    requires n <= 115 && odd < TWO_53 / 115
    ensures Fits53(n * Scaled(odd, k))
  {
    MulAssociates(n, odd, Pow2(k));
    assert n * Scaled(odd, k) == Scaled(n * odd, k);
    MulMonotone(odd, n, 115);
  }

  lemma {:induction false} FitsScaled(m: nat, k: nat)
    requires m < TWO_53
    ensures Fits53(Scaled(m, k))
    ensures Scaled(m, 0) == m
  {
  }

  lemma {:induction false} EthashFactors(reward: nat) returns (odd: nat, k: nat)
    requires reward in {FRONTIER_REWARD, BYZANTIUM_REWARD, CONSTANTINOPLE_REWARD}
    ensures reward == Scaled(odd, k) && odd < TWO_53 / 115
  {
    Pow2At18();
    if reward == FRONTIER_REWARD {
      odd, k := 19_073_486_328_125, 18;
    } else if reward == BYZANTIUM_REWARD {
      odd, k := 11_444_091_796_875, 18;
    } else {
      odd, k := 7_629_394_531_250, 18;
    }
  }

  lemma {:induction false} Pow2At18()
    ensures Pow2(18) == 262144
  {
    assert Pow2(6) == 64;
    Pow2Add(6, 6);
    Pow2Add(6, 12);
  }

  /** With 28 uncles the Frontier reward no longer fits and turns negative. */
  lemma {:induction false} FrontierRewardWraps()
    ensures MinerReward(FRONTIER_REWARD, 28) == FRONTIER_REWARD + 28 * FRONTIER_REWARD / 32 - TWO_64 < 0
  {
    Pow2At18();
    FitsScaled(19_073_486_328_125, 18);
    FitsScaled(28 * 19_073_486_328_125, 18);
    FitsScaled(28, 0);
    BonusExact(FRONTIER_REWARD, 28);
  }

  /** With 60 uncles the bonus itself is no int64 any more: it is cut off at the largest
      one, and the sum wraps from there. */
  lemma {:induction false} FrontierBonusCutOff()
    ensures UncleBonus(FRONTIER_REWARD, 60) == 0x7fff_ffff_ffff_ffff
    ensures MinerReward(FRONTIER_REWARD, 60)
         == 5_000_000_000_000_000_000 + 0x7fff_ffff_ffff_ffff - 0x1_0000_0000_0000_0000
  {
    Pow2At18();
    FitsScaled(19_073_486_328_125, 18);
    FitsScaled(60 * 19_073_486_328_125, 18);
    FitsScaled(60, 0);
    BonusExact(FRONTIER_REWARD, 60);
  }

  // ---------- The uncles ----------

  datatype Uncle = Uncle(coinbase: Address, number: int)

  /** The factor is int64 arithmetic, the product is not. */
  function UncleReward(reward: nat, uncle: Uncle, blockIndex: int): int {
    Wrap(Wrap(uncle.number + MAX_UNCLE_DEPTH) - blockIndex) * (reward / MAX_UNCLE_DEPTH)
  }

  /** An uncle at depth d earns (8 - d) eighths of the reward. The program does
      not check the depth: beyond 8 the operation is a debit. */
  lemma {:induction false} UncleRewardExact(reward: nat, uncle: Uncle, blockIndex: int)
    requires reward > 0 && reward % 8 == 0
    requires 0 <= uncle.number < blockIndex < TWO_63
    ensures var depth := blockIndex - uncle.number;
            UncleReward(reward, uncle, blockIndex) == (8 - depth) * reward / 8
            && (UncleReward(reward, uncle, blockIndex) >= 0 <==> depth <= 8)
  {
    var factor, eighth := 8 - (blockIndex - uncle.number), reward / 8;
    assert Wrap(Wrap(uncle.number + 8) - blockIndex) == factor;
    MulAssociates(factor, eighth, 8);
    assert reward == eighth * 8;
    DivModUnique(factor * reward, 8, factor * eighth, 0);
    if factor < 0 {
      MulSteps(factor, eighth);
    }
  }

  // ---------- The operations ----------

  function RewardOp(index: int, kind: OpType, account: Address, amount: int): Operation {
    Operation(index, [], kind, Success, account, Some(amount), None)
  }

  function RewardOps(reward: nat, blockIndex: int, miner: Address, uncles: seq<Uncle>, k: nat): seq<Operation>
    requires k <= |uncles|
  {
    if k == 0 then [RewardOp(0, MinerRewardOpType, miner, MinerReward(reward, |uncles|))]
    else
      var u := uncles[k - 1];
      RewardOps(reward, blockIndex, miner, uncles, k - 1)
      + [RewardOp(k, UncleRewardOpType, u.coinbase, UncleReward(reward, u, blockIndex))]
  }

  lemma {:induction false} RewardOpsNext(reward: nat, blockIndex: int, miner: Address, uncles: seq<Uncle>, k: nat)
    requires k < |uncles|
    ensures RewardOps(reward, blockIndex, miner, uncles, k + 1)
         == RewardOps(reward, blockIndex, miner, uncles, k)
            + [RewardOp(k + 1, UncleRewardOpType, uncles[k].coinbase, UncleReward(reward, uncles[k], blockIndex))]
  {
  }

  method BlockRewardTransaction(config: ChainConfig, blockIndex: int, miner: Address, uncles: seq<Uncle>)
    returns (ops: seq<Operation>)
    ensures ops == RewardOps(MiningReward(config, blockIndex), blockIndex, miner, uncles, |uncles|)
  {
    ops := [];
    var miningReward := MiningReward(config, blockIndex);

    var minerReward: int := miningReward;
    var numUncles := |uncles|;
    if numUncles > 0 {
      var rewardInt := UncleBonus(miningReward, numUncles);
      minerReward := Wrap(minerReward + rewardInt);
    }
    ops := ops + [Operation(0, [], MinerRewardOpType, Success, miner, Some(minerReward), None)];

    var i := 0;
    while i < |uncles|
      invariant 0 <= i <= |uncles| && |ops| == i + 1
      invariant ops == RewardOps(miningReward, blockIndex, miner, uncles, i)
    {
      var b := uncles[i];
      var factor := Wrap(Wrap(b.number + MAX_UNCLE_DEPTH) - blockIndex);
      var uncleReward := factor * (miningReward / MAX_UNCLE_DEPTH);
      RewardOpsNext(miningReward, blockIndex, miner, uncles, i);
      ops := ops + [Operation(|ops|, [], UncleRewardOpType, Success, b.coinbase, Some(uncleReward), None)];
      i := i + 1;
    }
  }

  /** An uncle at depth 9, which the chain would not reward, is charged a quarter ether. */
  lemma {:induction false} OldUncleIsCharged(blockIndex: int, miner: Address, uncleMiner: Address)
    requires 9 <= blockIndex < TWO_63
    ensures var uncles := [Uncle(uncleMiner, blockIndex - 9)];
            RewardOps(CONSTANTINOPLE_REWARD, blockIndex, miner, uncles, 1)[1..]
            == [RewardOp(1, UncleRewardOpType, uncleMiner, -250_000_000_000_000_000)]
  {
    UncleRewardExact(CONSTANTINOPLE_REWARD, Uncle(uncleMiner, blockIndex - 9), blockIndex);
  }

  /** The operations one by one: the miner's first, then one per uncle in order, to the
      uncle's miner, with types of their own. */
  lemma {:induction false} RewardOpsAre(reward: nat, blockIndex: int, miner: Address, uncles: seq<Uncle>, k: nat,
                                        i: nat)
    requires k <= |uncles| && i <= k && reward > 0 && reward % 8 == 0
    requires OlderUncles(blockIndex, uncles)
    ensures var ops := RewardOps(reward, blockIndex, miner, uncles, k);
            |ops| == k + 1
            && ops[i]
               == if i == 0 then
                    Operation(0, [], MinerRewardOpType, Success, miner, Some(MinerReward(reward, |uncles|)), None)
                  else
                    Operation(i, [], UncleRewardOpType, Success, uncles[i - 1].coinbase,
                              Some((8 - (blockIndex - uncles[i - 1].number)) * reward / 8), None)
  {
    if k > 0 {
      if i < k {
        RewardOpsAre(reward, blockIndex, miner, uncles, k - 1, i);
      } else {
        RewardOpsIndexed(reward, blockIndex, miner, uncles, k - 1);
        UncleRewardExact(reward, uncles[k - 1], blockIndex);
      }
      RewardOpsIndexed(reward, blockIndex, miner, uncles, k - 1);
    }
  }

  /** What the first `k` uncles earn, all together. */
  function UncleIssuance(reward: nat, blockIndex: int, uncles: seq<Uncle>, k: nat): int
    requires k <= |uncles|
  {
    if k == 0 then 0
    else
      UncleIssuance(reward, blockIndex, uncles, k - 1)
      + (8 - (blockIndex - uncles[k - 1].number)) * reward / 8
  }

  ghost predicate OlderUncles(blockIndex: int, uncles: seq<Uncle>) {
    forall u :: u in uncles ==> 0 <= u.number < blockIndex < TWO_63
  }

  /** The reward operations are indexed from 0 and relate to nothing. */
  lemma {:induction false} RewardOpsIndexed(reward: nat, blockIndex: int, miner: Address, uncles: seq<Uncle>, k: nat)
    requires k <= |uncles|
    ensures var ops := RewardOps(reward, blockIndex, miner, uncles, k);
            |ops| == k + 1 && Indexed(ops, 0) && forall op :: op in ops ==> op.status == Success && op.related == []
  {
    if k > 0 {
      RewardOpsIndexed(reward, blockIndex, miner, uncles, k - 1);
    }
  }

  lemma {:induction false} RewardOpsTotal(reward: nat, blockIndex: int, miner: Address, uncles: seq<Uncle>, k: nat)
    requires k <= |uncles| && reward > 0 && reward % 8 == 0
    requires OlderUncles(blockIndex, uncles)
    ensures Total(RewardOps(reward, blockIndex, miner, uncles, k), Success)
         == MinerReward(reward, |uncles|) + UncleIssuance(reward, blockIndex, uncles, k)
  {
    if k == 0 {
      var op := RewardOp(0, MinerRewardOpType, miner, MinerReward(reward, |uncles|));
      SumsOfTwo(op, op, Success, miner);
    } else {
      var u := uncles[k - 1];
      RewardOpsTotal(reward, blockIndex, miner, uncles, k - 1);
      UncleRewardExact(reward, u, blockIndex);
      TotalSnoc(RewardOps(reward, blockIndex, miner, uncles, k - 1),
                RewardOp(k, UncleRewardOpType, u.coinbase, UncleReward(reward, u, blockIndex)), Success);
    }
  }

  /** The issuance of a block is the reward, a 32nd of it per uncle, and each
      uncle's share, if and only if what the miner gets of that is an int64. */
  lemma {:induction false} BlockIssuance(config: ChainConfig, blockIndex: int, miner: Address, uncles: seq<Uncle>)
    requires OlderUncles(blockIndex, uncles)
    ensures var reward := MiningReward(config, blockIndex);
            Total(RewardOps(reward, blockIndex, miner, uncles, |uncles|), Success)
            == reward + |uncles| * reward / 32
               + UncleIssuance(reward, blockIndex, uncles, |uncles|)
            <==> reward + |uncles| * reward / 32 < TWO_63
  {
    var reward := MiningReward(config, blockIndex);
    EthashRewardsExact(reward, |uncles|);
    RewardOpsTotal(reward, blockIndex, miner, uncles, |uncles|);
  }
}
