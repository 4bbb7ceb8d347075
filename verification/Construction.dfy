/** The offline construction flow: payloads, combine and parse. */
module Construction {
  import opened Types
  import opened Hex
  import opened Addresses
  import opened Wire

  const TRANSFER_GAS_LIMIT: Uint64 := 21000
  const SIGNATURE_LENGTH := 65

  /** A legacy transaction as geth keeps it; a contract creation has no recipient. */
  datatype EthTx = EthTx(
    nonce: Uint64,
    to: Option<Address>,
    value: int,
    gasLimit: Uint64,
    gasPrice: int,
    data: seq<Byte>)

  /** A transaction signed for a chain under EIP-155. */
  datatype SignedTx = SignedTx(tx: EthTx, chainID: int, signature: seq<Byte>)

  /** The cryptography the flow relies on: address casing, the EIP-155 signing
      hash, and the recovery of the signer. */
  datatype Crypto = Crypto(
    upper: Casing,
    signingHash: (EthTx, int) -> string,
    sender: SignedTx -> Option<Address>)

  datatype Failure =
    | UnclearIntent
    | UnableToParse(reason: Error)
    | UnableToRecover
    | InvalidAddress(text: string)
    | Panic

  datatype Reply<+T> = Done(value: T) | Refused(why: Failure)

  // ---------- Intents ----------

  /** An operation of an intent; the account and the amount may be missing. */
  datatype IntentOp = IntentOp(kind: OpType, account: Option<string>, amount: Option<int>, isEth: bool)

  predicate Transfers(op: IntentOp, positive: bool) {
    op.kind == CallOpType && op.account.Some? && op.amount.Some? && op.isEth
    && (if positive then op.amount.value > 0 else op.amount.value < 0)
  }

  /** The sending and the receiving operation of an intent: exactly one of each,
      in either order. */
  function MatchOperations(ops: seq<IntentOp>): Option<(IntentOp, IntentOp)> {
    if |ops| != 2 then None
    else if Transfers(ops[0], false) && Transfers(ops[1], true) then Some((ops[0], ops[1]))
    else if Transfers(ops[1], false) && Transfers(ops[0], true) then Some((ops[1], ops[0]))
    else None
  }

  /** `debit` takes ether from an account and `credit` gives some to one. */
  predicate DebitAndCredit(debit: IntentOp, credit: IntentOp) {
    debit.kind == CallOpType && debit.isEth && debit.account.Some? && debit.amount.Some? && debit.amount.value < 0
    && credit.kind == CallOpType && credit.isEth && credit.account.Some? && credit.amount.Some?
    && credit.amount.value > 0
  }

  /** Exactly a debit and a credit are matched, in either order, and nothing else is. */
  lemma {:induction false} MatchEitherOrder(ops: seq<IntentOp>, debit: IntentOp, credit: IntentOp)
    ensures MatchOperations(ops) == Some((debit, credit))
       <==> DebitAndCredit(debit, credit) && (ops == [debit, credit] || ops == [credit, debit])
  {
    if |ops| == 2 {
      assert ops == [ops[0], ops[1]];
    }
  }

  // ---------- Payloads ----------

  datatype Payloads = Payloads(unsigned: TransactionWire, signer: string, hash: string)

  function ConstructionPayloads(c: Crypto, chainID: nat, ops: seq<IntentOp>, meta: Json<MetadataWire>)
    : Reply<Payloads>
  {
    var matched := MatchOperations(ops);
    if matched.None? then Refused(UnclearIntent) else
    var metadata := DecodeMetadata(meta);
    if metadata.Err? then Refused(UnableToParse(metadata.error)) else
    var (fromOp, toOp) := matched.value;
    var amount := toOp.amount.value;
    var checkFrom := ChecksumAddress(fromOp.account.value, c.upper);
    if checkFrom.None? then Refused(InvalidAddress(fromOp.account.value)) else
    var checkTo := ChecksumAddress(toOp.account.value, c.upper);
    if checkTo.None? then Refused(InvalidAddress(toOp.account.value)) else
    Done(PayloadsFor(c, chainID, checkFrom.value, checkTo.value, amount, metadata.value))
  }

  /** The transaction to be signed, as the text handed out and as the hash to sign. */
  function PayloadsFor(c: Crypto, chainID: nat, from: string, to: string, amount: int, meta: MetaData): Payloads {
    var tx := EthTx(meta.nonce, Some(HexToAddress(to)), amount, TRANSFER_GAS_LIMIT, meta.gasPrice, []);
    var unsigned := TxData(from, to, amount, tx.data, tx.nonce, meta.gasPrice, tx.gasLimit, chainID);
    Payloads(MarshalTransaction(unsigned), from, c.signingHash(tx, chainID))
  }

  // ---------- Combine ----------

  /** A missing signature or one of the wrong length makes the program panic. */
  function ConstructionCombine(unsigned: Json<TransactionWire>, signatures: seq<seq<Byte>>): Reply<SignedTx> {
    var t := DecodeTransaction(unsigned);
    if t.Err? then Refused(UnableToParse(t.error))
    else if signatures == [] || |signatures[0]| != SIGNATURE_LENGTH then Refused(Panic)
    else
      var d := t.value;
      var tx := EthTx(d.nonce, Some(HexToAddress(d.to)), d.value, d.gasLimit, d.gasPrice, d.data);
      Done(SignedTx(tx, d.chainID, signatures[0]))
  }

  // ---------- Parse ----------

  /** What is to be parsed; None stands for a text that is no signed transaction. */
  datatype ParseRequest = Unsigned(text: Json<TransactionWire>) | Signed(tx: Option<SignedTx>)

  datatype ParsedOp = ParsedOp(index: int, related: seq<int>, kind: OpType, account: string, amount: int)

  datatype Parsed = Parsed(ops: seq<ParsedOp>, signers: seq<string>, metadata: ParseMetadataWire)

  /** The fields of the transaction a request is about. */
  function Requested(c: Crypto, request: ParseRequest): Reply<TxData> {
    match request
    case Unsigned(text) =>
      var t := DecodeTransaction(text);
      if t.Err? then Refused(UnableToParse(t.error)) else Done(t.value)
    case Signed(None) => Refused(UnableToParse(NotJson))
    case Signed(Some(s)) =>
      if s.tx.to.None? then Refused(Panic)
      else if c.sender(s).None? then Refused(UnableToRecover)
      else Done(TxData(Text(c.sender(s).value, c.upper), Text(s.tx.to.value, c.upper), s.tx.value, s.tx.data,
                       s.tx.nonce, s.tx.gasPrice, s.tx.gasLimit, s.chainID))
  }

  /** A transfer as a debit and a credit of the checksummed accounts. */
  function TransferOps(from: string, to: string, value: int): seq<ParsedOp> {
    [ParsedOp(0, [], CallOpType, from, -value), ParsedOp(1, [0], CallOpType, to, value)]
  }

  function ParseOf(c: Crypto, request: ParseRequest): Reply<Parsed> {
    var requested := Requested(c, request);
    if requested.Refused? then Refused(requested.why) else ReplyOf(c, request.Signed?, requested.value)
  }

  function ReplyOf(c: Crypto, signed: bool, tx: TxData): Reply<Parsed> {
    var checkFrom := ChecksumAddress(tx.from, c.upper);
    if checkFrom.None? then Refused(InvalidAddress(tx.from)) else
    var checkTo := ChecksumAddress(tx.to, c.upper);
    if checkTo.None? then Refused(InvalidAddress(tx.to)) else
    Done(Parsed(TransferOps(checkFrom.value, checkTo.value, tx.value),
                if signed then [checkFrom.value] else [],
                MarshalParseMetadata(tx.nonce, tx.gasPrice, tx.chainID)))
  }

  method ConstructionParse(c: Crypto, request: ParseRequest) returns (r: Reply<Parsed>)
    ensures r == ParseOf(c, request)
  {
    var tx := new Transaction();
    match request {
      case Unsigned(text) =>
        var err := tx.UnmarshalJSON(text);
        if err.Some? {
          return Refused(UnableToParse(err.value));
        }
      case Signed(t) =>
        if t.None? {
          return Refused(UnableToParse(NotJson));
        }
        var signed := t.value;
        if signed.tx.to.None? {
          return Refused(Panic);
        }
        tx.to := Text(signed.tx.to.value, c.upper);
        tx.value := signed.tx.value;
        tx.data := signed.tx.data;
        tx.nonce := signed.tx.nonce;
        tx.gasPrice := signed.tx.gasPrice;
        tx.gasLimit := signed.tx.gasLimit;
        tx.chainID := signed.chainID;
        var from := c.sender(signed);
        if from.None? {
          return Refused(UnableToRecover);
        }
        tx.from := Text(from.value, c.upper);
    }
    assert Requested(c, request) == Done(tx.Data());
    r := ParsedReply(c, request.Signed?, tx);
  }

  /** The second half of parsing: the operations and the metadata of the transaction `tx`. */
  method ParsedReply(c: Crypto, signed: bool, tx: Transaction) returns (r: Reply<Parsed>)
    ensures r == ReplyOf(c, signed, tx.Data())
  {
    var checkFrom := ChecksumAddress(tx.from, c.upper);
    if checkFrom.None? {
      return Refused(InvalidAddress(tx.from));
    }
    var checkTo := ChecksumAddress(tx.to, c.upper);
    if checkTo.None? {
      return Refused(InvalidAddress(tx.to));
    }
    var ops := [
      ParsedOp(0, [], CallOpType, checkFrom.value, -tx.value),
      ParsedOp(1, [0], CallOpType, checkTo.value, tx.value)];
    var metadata := MarshalParseMetadata(tx.nonce, tx.gasPrice, tx.chainID);
    if signed {
      r := Done(Parsed(ops, [checkFrom.value], metadata));
    } else {
      r := Done(Parsed(ops, [], metadata));
    }
  }

  // ---------- Round trips ----------

  /** A transfer with its metadata, by what it means: what the sender is debited and
      what the recipient is credited are given separately. */
  datatype Intent = Intent(from: Address, to: Address, debit: int, amount: int, nonce: Uint64, gasPrice: int)

  predicate Names(op: IntentOp, a: Address) {
    op.account.Some? && IsHexAddress(op.account.value) && HexToAddress(op.account.value) == a
  }

  /** One operation debits an account text that names the sender, the other credits
      one that names the recipient. */
  predicate Moves(debit: IntentOp, credit: IntentOp, i: Intent) {
    Transfers(debit, false) && Names(debit, i.from) && debit.amount.value == i.debit
    && Transfers(credit, true) && Names(credit, i.to) && credit.amount.value == i.amount
  }

  /** The operations, in either order, and the metadata text ask for the transfer `i`. */
  predicate Asks(ops: seq<IntentOp>, meta: Json<MetadataWire>, i: Intent) {
    |ops| == 2 && (Moves(ops[0], ops[1], i) || Moves(ops[1], ops[0], i))
    && meta.Encoded? && Is256(i.gasPrice)
    && LowerAll(meta.wire.nonce) == EncodeUint64(i.nonce) && LowerAll(meta.wire.gasPrice) == EncodeBig(i.gasPrice)
  }

  /** The transaction a transfer is carried out by, and its unsigned wire form. */
  function TransferOf(i: Intent): EthTx {
    EthTx(i.nonce, Some(i.to), i.amount, 21000, i.gasPrice, [])
  }

  function UnsignedOf(c: Crypto, chainID: nat, i: Intent): TxData {
    TxData(Text(i.from, c.upper), Text(i.to, c.upper), i.amount, [], i.nonce, i.gasPrice, 21000, chainID)
  }

  /** What is handed out for a transfer: the unsigned transaction, its sender and
      the hash to sign. */
  function PayloadsOf(c: Crypto, chainID: nat, i: Intent): Payloads {
    Payloads(MarshalTransaction(UnsignedOf(c, chainID, i)), Text(i.from, c.upper),
             c.signingHash(TransferOf(i), chainID))
  }

  /** Payloads are handed out exactly for requests that ask for a transfer, and then
      they are that transfer's: the order of the operations, the letter case of
      addresses and quantities, and the amount debited do not matter. */
  lemma {:induction false} PayloadsIff(c: Crypto, chainID: nat, ops: seq<IntentOp>, meta: Json<MetadataWire>,
                                       p: Payloads)
    ensures ConstructionPayloads(c, chainID, ops, meta) == Done(p)
       <==> exists i :: Asks(ops, meta, i) && p == PayloadsOf(c, chainID, i)
  {
    if ConstructionPayloads(c, chainID, ops, meta).Done? {
      var i := AskedFor(c, chainID, ops, meta);
    }
    forall j | Asks(ops, meta, j)
      ensures ConstructionPayloads(c, chainID, ops, meta) == Done(PayloadsOf(c, chainID, j))
    {
      AskedPayloads(c, chainID, ops, meta, j);
    }
  }

  lemma {:induction false} AskedFor(c: Crypto, chainID: nat, ops: seq<IntentOp>, meta: Json<MetadataWire>)
    returns (i: Intent)
    requires ConstructionPayloads(c, chainID, ops, meta).Done?
    ensures Asks(ops, meta, i)
  {
    var m := DecodeMetadata(meta).value;
    var (fromOp, toOp) := MatchOperations(ops).value;
    i := Intent(HexToAddress(fromOp.account.value), HexToAddress(toOp.account.value),
                fromOp.amount.value, toOp.amount.value, m.nonce, m.gasPrice);
    DecodeMetadataIff(meta.wire, m);
  }

  lemma {:induction false} AskedPayloads(c: Crypto, chainID: nat, ops: seq<IntentOp>, meta: Json<MetadataWire>,
                                         i: Intent)
    requires Asks(ops, meta, i)
    ensures ConstructionPayloads(c, chainID, ops, meta) == Done(PayloadsOf(c, chainID, i))
  {
    var m := MetaData(i.nonce, i.gasPrice);
    DecodeMetadataIff(meta.wire, m);
    PayloadsForTransfer(c, chainID, i);
    assert ConstructionPayloads(c, chainID, ops, meta)
        == Done(PayloadsFor(c, chainID, Text(i.from, c.upper), Text(i.to, c.upper), i.amount, m));
  }

  lemma {:induction false} PayloadsForTransfer(c: Crypto, chainID: nat, i: Intent)
    ensures PayloadsFor(c, chainID, Text(i.from, c.upper), Text(i.to, c.upper), i.amount, MetaData(i.nonce, i.gasPrice))
         == PayloadsOf(c, chainID, i)
  {
    TextRoundTrip(i.to, c.upper);
  }

  /** A request asks for at most one transfer. */
  lemma {:induction false} AsksOnce(ops: seq<IntentOp>, meta: Json<MetadataWire>, i: Intent, j: Intent)
    requires Asks(ops, meta, i) && Asks(ops, meta, j)
    ensures i == j
  {
    DecodeMetadataIff(meta.wire, MetaData(i.nonce, i.gasPrice));
    DecodeMetadataIff(meta.wire, MetaData(j.nonce, j.gasPrice));
  }

  /** The debit and the credit among two operations that ask for a transfer. */
  predicate Clear(ops: seq<IntentOp>) {
    |ops| == 2 && ((Transfers(ops[0], false) && Transfers(ops[1], true))
                   || (Transfers(ops[1], false) && Transfers(ops[0], true)))
  }

  function DebitText(ops: seq<IntentOp>): string
    requires Clear(ops)
  {
    if Transfers(ops[0], false) then ops[0].account.value else ops[1].account.value
  }

  function CreditText(ops: seq<IntentOp>): string
    requires Clear(ops)
  {
    if Transfers(ops[0], true) then ops[0].account.value else ops[1].account.value
  }

  /** Why a request is refused: first an unclear intent, then metadata that does not
      decode, with its first error, then the sender's text and then the recipient's. */
  lemma {:induction false} PayloadsRefused(c: Crypto, chainID: nat, ops: seq<IntentOp>, meta: Json<MetadataWire>,
                                           e: Error, text: string)
    ensures var r := ConstructionPayloads(c, chainID, ops, meta);
            (r == Refused(UnclearIntent) <==> !Clear(ops))
            && (r == Refused(UnableToParse(e)) <==> Clear(ops) && DecodeMetadata(meta) == Decoded.Err(e))
            && (r == Refused(InvalidAddress(text)) <==>
                  Clear(ops) && DecodeMetadata(meta).Ok? && !IsHexAddress(text)
                  && (text == DebitText(ops) || (text == CreditText(ops) && IsHexAddress(DebitText(ops)))))
  {
  }

  /** What is handed out says gas limit 21000 and no data, and so does the transaction
      behind the hash to sign, which is the one that combining rebuilds. */
  lemma {:induction false} HandedOut(c: Crypto, chainID: nat, ops: seq<IntentOp>, meta: Json<MetadataWire>,
                                     p: Payloads, signature: seq<Byte>)
    returns (tx: EthTx)
    requires ConstructionPayloads(c, chainID, ops, meta) == Done(p) && |signature| == 65
    ensures p.unsigned.gasLimit == "0x5208" && p.unsigned.data == "0x"
    ensures tx.gasLimit == 21000 && tx.data == [] && p.hash == c.signingHash(tx, chainID)
    ensures var r := ConstructionCombine(Encoded(p.unsigned), [signature]);
            r.Done? ==> r.value.tx == tx
  {
    var i := AskedFor(c, chainID, ops, meta);
    tx := TransferOf(i);
    AskedPayloads(c, chainID, ops, meta, i);
    TransferCombined(c, chainID, i, signature);
    TransferGas();
  }

  lemma {:induction false} TransferGas()
    ensures EncodeUint64(21000) == "0x5208" && EncodeBytes([]) == "0x"
  {
    assert Digits(5) == "5";
    assert Digits(82) == "52";
    assert Digits(1312) == "520";
    assert Digits(21000) == "5208";
  }

  /** Combining keeps every field of the unsigned text and uses the first signature. */
  lemma {:induction false} CombineKeeps(d: TxData, signature: seq<Byte>, more: seq<seq<Byte>>)
    requires Is256(d.value) && Is256(d.gasPrice) && Is256(d.chainID) && |signature| == 65
    ensures ConstructionCombine(Encoded(MarshalTransaction(d)), [signature] + more)
         == Done(SignedTx(EthTx(d.nonce, Some(HexToAddress(d.to)), d.value, d.gasLimit, d.gasPrice, d.data),
                          d.chainID, signature))
  {
    TransactionRoundTrip(d);
  }

  /** A text that does not decode is an error; after that a missing signature, or a
      first one that is not 65 bytes long, makes the program panic. */
  lemma {:induction false} CombineRefused(text: Json<TransactionWire>, signatures: seq<seq<Byte>>, e: Error)
    ensures var r := ConstructionCombine(text, signatures);
            (r == Refused(UnableToParse(e)) <==> DecodeTransaction(text) == Decoded.Err(e))
            && (r == Refused(Panic) <==>
                  DecodeTransaction(text).Ok? && (signatures == [] || |signatures[0]| != 65))
            && (r.Done? <==> DecodeTransaction(text).Ok? && signatures != [] && |signatures[0]| == 65)
  {
  }

  /** Combining a payload's unsigned text with a signature yields the intended
      transaction for the same chain, hence the transaction whose hash was handed
      out for signing, exactly when the amount and the chain id are 256-bit numbers. */
  lemma {:induction false} CombineRebuilds(c: Crypto, chainID: nat, ops: seq<IntentOp>, meta: Json<MetadataWire>,
                                           i: Intent, signature: seq<Byte>)
    requires Asks(ops, meta, i) && |signature| == SIGNATURE_LENGTH
    ensures ConstructionPayloads(c, chainID, ops, meta).Done?
    ensures var p := ConstructionPayloads(c, chainID, ops, meta).value;
            var r := ConstructionCombine(Encoded(p.unsigned), [signature]);
            (r.Done? <==> Is256(i.amount) && Is256(chainID))
            && (r.Done? ==> r.value == SignedTx(TransferOf(i), chainID, signature)
                            && c.signingHash(r.value.tx, r.value.chainID) == p.hash)
  {
    AskedPayloads(c, chainID, ops, meta, i);
    TransferCombined(c, chainID, i, signature);
  }

  lemma {:induction false} TransferCombined(c: Crypto, chainID: nat, i: Intent, signature: seq<Byte>)
    requires Is256(i.gasPrice) && |signature| == SIGNATURE_LENGTH
    ensures var r := ConstructionCombine(Encoded(MarshalTransaction(UnsignedOf(c, chainID, i))), [signature]);
            if Is256(i.amount) && Is256(chainID) then r == Done(SignedTx(TransferOf(i), chainID, signature))
            else r.Refused?
  {
    TextRoundTrip(i.to, c.upper);
    TransactionRoundTrip(UnsignedOf(c, chainID, i));
    if Is256(i.amount) && Is256(chainID) {
      CombineKeeps(UnsignedOf(c, chainID, i), signature, []);
      assert [signature] + [] == [signature];
    }
  }

  /** The debit and the credit a transfer asks for, with checksummed accounts. */
  function IntendedOps(c: Crypto, i: Intent): seq<ParsedOp> {
    [ParsedOp(0, [], CallOpType, Text(i.from, c.upper), i.debit),
     ParsedOp(1, [0], CallOpType, Text(i.to, c.upper), i.amount)]
  }

  /** The answer about a transfer: a debit of the sender and the related credit of the
      recipient, with checksummed accounts, nonce, gas price and chain id in hex, and
      the signer if there is one. */
  function Answer(c: Crypto, signed: bool, from: Address, to: Address, value: int, nonce: nat, gasPrice: int,
                  chainID: int): Parsed {
    Parsed([ParsedOp(0, [], CallOpType, Text(from, c.upper), -value),
            ParsedOp(1, [0], CallOpType, Text(to, c.upper), value)],
           if signed then [Text(from, c.upper)] else [],
           ParseMetadataWire(EncodeUint64(nonce), EncodeBig(gasPrice), EncodeBig(chainID)))
  }

  /** Parsing any unsigned transaction, sender's text before recipient's. */
  lemma {:induction false} UnsignedParsed(c: Crypto, d: TxData)
    requires Is256(d.value) && Is256(d.gasPrice) && Is256(d.chainID)
    ensures ParseOf(c, Unsigned(Encoded(MarshalTransaction(d))))
         == if !IsHexAddress(d.from) then Refused(InvalidAddress(d.from))
            else if !IsHexAddress(d.to) then Refused(InvalidAddress(d.to))
            else Done(Answer(c, false, HexToAddress(d.from), HexToAddress(d.to), d.value,
                             d.nonce, d.gasPrice, d.chainID))
  {
    TransactionRoundTrip(d);
  }

  /** Parsing any signed transaction: a contract creation makes the program panic, and
      the signer must be recoverable. */
  lemma {:induction false} SignedParsed(c: Crypto, s: SignedTx)
    ensures ParseOf(c, Signed(Some(s)))
         == if s.tx.to.None? then Refused(Panic)
            else if c.sender(s).None? then Refused(UnableToRecover)
            else Done(Answer(c, true, c.sender(s).value, s.tx.to.value, s.tx.value,
                             s.tx.nonce, s.tx.gasPrice, s.chainID))
  {
    if s.tx.to.Some? && c.sender(s).Some? {
      TextRoundTrip(c.sender(s).value, c.upper);
      TextRoundTrip(s.tx.to.value, c.upper);
    }
  }

  /** A text that is no transaction is an error of the text. */
  lemma {:induction false} ParseRefused(c: Crypto, text: Json<TransactionWire>, e: Error)
    ensures ParseOf(c, Unsigned(text)) == Refused(UnableToParse(e)) <==> DecodeTransaction(text) == Decoded.Err(e)
    ensures ParseOf(c, Signed(None)) == Refused(UnableToParse(NotJson))
  {
  }

  /** What is read back from a payload's unsigned text. */
  lemma {:induction false} TransferParsed(c: Crypto, chainID: nat, i: Intent)
    requires Is256(i.gasPrice) && Is256(i.amount) && Is256(chainID)
    ensures ParseOf(c, Unsigned(Encoded(MarshalTransaction(UnsignedOf(c, chainID, i)))))
         == Done(Answer(c, false, i.from, i.to, i.amount, i.nonce, i.gasPrice, chainID))
  {
    TextRoundTrip(i.from, c.upper);
    TextRoundTrip(i.to, c.upper);
    UnsignedParsed(c, UnsignedOf(c, chainID, i));
  }

  /** Parsing a payload's unsigned text returns, when the amount and the chain id
      are 256-bit numbers, the original nonce, gas price and chain id, and exactly
      when the two amounts asked for are opposite also the operations asked for: the
      amount of the sending operation is never looked at. */
  lemma {:induction false} UnsignedParseReturnsIntent(c: Crypto, chainID: nat, ops: seq<IntentOp>,
                                                      meta: Json<MetadataWire>, i: Intent)
    requires Asks(ops, meta, i) && Is256(i.amount) && Is256(chainID)
    ensures ConstructionPayloads(c, chainID, ops, meta).Done?
    ensures var p := ConstructionPayloads(c, chainID, ops, meta).value;
            var r := ParseOf(c, Unsigned(Encoded(p.unsigned)));
            r.Done? && r.value.signers == []
            && DecodeMetadata(Encoded(MetadataWire(r.value.metadata.nonce, r.value.metadata.gasPrice)))
               == Decoded.Ok(MetaData(i.nonce, i.gasPrice))
            && DecodeBig(r.value.metadata.chainID) == Hex.Ok(chainID)
            && (r.value.ops == IntendedOps(c, i) <==> i.debit == -i.amount)
  {
    AskedPayloads(c, chainID, ops, meta, i);
    TransferParsed(c, chainID, i);
    MetadataRoundTrip(MetaData(i.nonce, i.gasPrice));
    BigRoundTrip(chainID);
    OppositeAmounts(c, chainID, i);
  }

  lemma {:induction false} OppositeAmounts(c: Crypto, chainID: nat, i: Intent)
    ensures Answer(c, false, i.from, i.to, i.amount, i.nonce, i.gasPrice, chainID).ops == IntendedOps(c, i)
       <==> i.debit == -i.amount
  {
    assert IntendedOps(c, i)[0].amount == i.debit;
  }

  /** Parsing the combined transaction says the same as parsing the unsigned one,
      and names the signer, provided the signature is by the account that was
      asked to sign. */
  lemma {:induction false} SignedParseAgrees(c: Crypto, chainID: nat, ops: seq<IntentOp>, meta: Json<MetadataWire>,
                                             i: Intent, signature: seq<Byte>)
    requires Asks(ops, meta, i) && Is256(i.amount) && Is256(chainID) && |signature| == SIGNATURE_LENGTH
    ensures ConstructionPayloads(c, chainID, ops, meta).Done?
    ensures var p := ConstructionPayloads(c, chainID, ops, meta).value;
            var unsigned := ParseOf(c, Unsigned(Encoded(p.unsigned)));
            var signed := ConstructionCombine(Encoded(p.unsigned), [signature]);
            unsigned.Done? && signed.Done?
            && (c.sender(signed.value) == Some(HexToAddress(p.signer)) ==>
                  ParseOf(c, Signed(Some(signed.value))) == Done(unsigned.value.(signers := [p.signer])))
  {
    AskedPayloads(c, chainID, ops, meta, i);
    TransferCombined(c, chainID, i, signature);
    TransferParsed(c, chainID, i);
    TextRoundTrip(i.from, c.upper);
    SignedParsed(c, SignedTx(TransferOf(i), chainID, signature));
  }
}
