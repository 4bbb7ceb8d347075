/** Transaction fees: the price of gas, the part that is burned, and the
    operations that charge it. */
module Fees {
  import opened Types
  import opened Arithmetic

  const EIP1559_TX_TYPE := 2

  /** The pricing fields of a transaction. `gasPrice` is what geth's GasPrice()
      returns; the fee and tip caps matter for dynamic-fee transactions only. */
  datatype Pricing = Pricing(txType: nat, gasPrice: nat, feeCap: nat, tipCap: nat)

  /** A dynamic-fee transaction in a block without a base fee makes the program
      dereference nil. */
  datatype PriceResult = Price(price: int) | FeeCapTooLow | NilBaseFee

  function Min(a: int, b: int): int {
    if a <= b then a else b
  }

  function EffectiveGasPrice(tx: Pricing, baseFee: Option<nat>): PriceResult {
    if tx.txType != EIP1559_TX_TYPE then Price(tx.gasPrice)
    else if baseFee.None? then NilBaseFee
    else if tx.feeCap < baseFee.value then FeeCapTooLow
    else Price(Min(tx.tipCap, tx.feeCap - baseFee.value) + baseFee.value)
  }

  datatype GasResult = Gas(feeAmount: int, feeBurned: Option<int>) | NoPrice(reason: PriceResult)

  function CalculateGas(tx: Pricing, gasUsed: nat, baseFee: Option<nat>): GasResult {
    var p := EffectiveGasPrice(tx, baseFee);
    if !p.Price? then NoPrice(p)
    else Gas(gasUsed * p.price, if baseFee.Some? then Some(gasUsed * baseFee.value) else None)
  }

  function FeeOp(index: int, related: seq<int>, account: Address, amount: int): Operation {
    Operation(index, related, FeeOpType, Success, account, Some(amount), None)
  }

  function FeeOps(from: Address, miner: Address, feeAmount: int, feeBurned: Option<int>): seq<Operation> {
    var earned := if feeBurned.None? then feeAmount else feeAmount - feeBurned.value;
    var ops := [FeeOp(0, [], from, -earned), FeeOp(1, [0], miner, earned)];
    if feeBurned.None? then ops else ops + [FeeOp(2, [], from, -feeBurned.value)]
  }

  function Burned(feeBurned: Option<int>): int {
    if feeBurned.Some? then feeBurned.value else 0
  }

  /** The fee operations charge the payer the whole fee, pay the miner what is
      not burned, touch nobody else, and in total take away what is burned. */
  lemma {:induction false} FeeOpsSplit(from: Address, miner: Address, feeAmount: int, feeBurned: Option<int>,
                                       a: Address)
    ensures var ops := FeeOps(from, miner, feeAmount, feeBurned);
            Indexed(ops, 0)
            && Total(ops, Success) == -Burned(feeBurned) && Total(ops, Failure) == 0
            && Credited(ops, a) == (if a == from then -feeAmount else 0)
                                   + if a == miner then feeAmount - Burned(feeBurned) else 0
  {
    var ops := FeeOps(from, miner, feeAmount, feeBurned);
    SumsOfTwo(ops[0], ops[1], Success, a);
    SumsOfTwo(ops[0], ops[1], Failure, a);
    if feeBurned.Some? {
      assert ops[..2] == [ops[0], ops[1]];
    }
  }

  /** The fee operations one by one: a debit of the payer and the related credit of
      the miner, both of the fee without its burned part, and, exactly when the
      block has a base fee, a debit of the burned part. */
  lemma {:induction false} FeeOpsAre(from: Address, miner: Address, fee: int, burned: int)
    ensures FeeOps(from, miner, fee, None)
         == [Operation(0, [], FeeOpType, Success, from, Some(-fee), None),
             Operation(1, [0], FeeOpType, Success, miner, Some(fee), None)]
    ensures FeeOps(from, miner, fee, Some(burned))
         == [Operation(0, [], FeeOpType, Success, from, Some(burned - fee), None),
             Operation(1, [0], FeeOpType, Success, miner, Some(fee - burned), None),
             Operation(2, [], FeeOpType, Success, from, Some(-burned), None)]
  {
  }

  /** What a transaction is charged, from its fields alone. Gas costs the gas price,
      but in a dynamic-fee transaction (type 2) the smaller of the fee cap and tip
      cap plus base fee. The payer pays gas used times that, the miner gets it
      without gas used times base fee, and nobody else is touched. A dynamic-fee
      transaction needs a base fee within its cap; no other can fail. */
  lemma {:induction false} TransactionCharged(tx: Pricing, gasUsed: nat, baseFee: Option<nat>,
                                              from: Address, miner: Address, a: Address)
    ensures var r := CalculateGas(tx, gasUsed, baseFee);
            if tx.txType == 2 && baseFee.None? then r == NoPrice(NilBaseFee)
            else if tx.txType == 2 && tx.feeCap < baseFee.value then r == NoPrice(FeeCapTooLow)
            else
              var price := if tx.txType != 2 then tx.gasPrice
                           else if tx.feeCap <= tx.tipCap + baseFee.value then tx.feeCap
                           else tx.tipCap + baseFee.value;
              var burned := if baseFee.Some? then gasUsed * baseFee.value else 0;
              r.Gas?
              && (var ops := FeeOps(from, miner, r.feeAmount, r.feeBurned);
                  Credited(ops, a) == (if a == from then -(gasUsed * price) else 0)
                                      + (if a == miner then gasUsed * price - burned else 0)
                  && Total(ops, Success) == -burned)
  {
    var r := CalculateGas(tx, gasUsed, baseFee);
    if r.Gas? {
      FeeOpsSplit(from, miner, r.feeAmount, r.feeBurned, a);
    }
  }

  /** EIP-1559: exactly when a base fee is present and the fee cap reaches it does
      a dynamic-fee transaction have a price, the smaller of fee cap and tip plus
      base fee; and then the price is between base fee and fee cap, the miner's
      share is not negative and the payer pays at most the fee cap. */
  lemma {:induction false} DynamicFeeBounds(tx: Pricing, gasUsed: nat, baseFee: Option<nat>)
    requires tx.txType == 2
    ensures var r := CalculateGas(tx, gasUsed, baseFee);
            (r.Gas? <==> baseFee.Some? && baseFee.value <= tx.feeCap)
            && (r.Gas? ==>
                  var price := Min(tx.feeCap, tx.tipCap + baseFee.value);
                  EffectiveGasPrice(tx, baseFee) == Price(price)
                  && baseFee.value <= price <= tx.feeCap
                  && r.feeAmount == gasUsed * price
                  && r.feeBurned == Some(gasUsed * baseFee.value)
                  && r.feeAmount - Burned(r.feeBurned) == gasUsed * (price - baseFee.value)
                  && 0 <= r.feeAmount - Burned(r.feeBurned)
                  && r.feeAmount <= gasUsed * tx.feeCap)
  {
    var r := CalculateGas(tx, gasUsed, baseFee);
    if r.Gas? {
      var price := Min(tx.feeCap, tx.tipCap + baseFee.value);
      MulMonotone(gasUsed, baseFee.value, price);
      MulMonotone(gasUsed, price, tx.feeCap);
    }
  }

  /** The other transactions pay the gas price whatever the base fee, and nothing
      bounds it from below: the miner gets gas used times the difference, and is
      charged exactly when the gas price is under the base fee and gas is used. */
  lemma {:induction false} LegacyFeeShare(tx: Pricing, gasUsed: nat, baseFee: nat)
    requires tx.txType != 2
    ensures var r := CalculateGas(tx, gasUsed, Some(baseFee));
            r == Gas(gasUsed * tx.gasPrice, Some(gasUsed * baseFee))
            && r.feeAmount - Burned(r.feeBurned) == gasUsed * (tx.gasPrice - baseFee)
            && (r.feeAmount - Burned(r.feeBurned) < 0 <==> gasUsed > 0 && tx.gasPrice < baseFee)
  {
    var r := CalculateGas(tx, gasUsed, Some(baseFee));
    if tx.gasPrice < baseFee {
      MulMonotone(gasUsed, tx.gasPrice + 1, baseFee);
      assert gasUsed * (tx.gasPrice + 1) == gasUsed * tx.gasPrice + gasUsed;
    } else {
      MulMonotone(gasUsed, baseFee, tx.gasPrice);
    }
  }
}
