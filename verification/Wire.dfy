/** The JSON wire records of the construction API and their decoding. */
module Wire {
  import opened Types
  import opened Hex

  type Uint64 = n: nat | n < TWO_64

  /** A JSON text: either one from which the wire record can be read or not. */
  datatype Json<+W> = Malformed | Encoded(wire: W)

  datatype Error = NotJson | BadHex(error: HexError)

  datatype Decoded<+T> = Ok(value: T) | Err(error: Error)

  // ---------- Transactions ----------

  datatype TxData = TxData(
    from: string,
    to: string,
    value: int,
    data: seq<Byte>,
    nonce: Uint64,
    gasPrice: int,
    gasLimit: Uint64,
    chainID: int)

  datatype TransactionWire = TransactionWire(
    from: string,
    to: string,
    value: string,
    data: string,
    nonce: string,
    gasPrice: string,
    gasLimit: string,
    chainID: string)

  function MarshalTransaction(t: TxData): TransactionWire {
    TransactionWire(t.from, t.to, EncodeBig(t.value), EncodeBytes(t.data), EncodeUint64(t.nonce),
                    EncodeBig(t.gasPrice), EncodeUint64(t.gasLimit), EncodeBig(t.chainID))
  }

  /** What a text decodes to: the first field that does not decode is the error. */
  function DecodeTransaction(text: Json<TransactionWire>): Decoded<TxData> {
    if text.Malformed? then Decoded.Err(NotJson)
    else
      var w := text.wire;
      var value := DecodeBig(w.value);
      if value.Err? then Decoded.Err(BadHex(value.error)) else
      var data := DecodeBytes(w.data);
      if data.Err? then Decoded.Err(BadHex(data.error)) else
      var nonce := DecodeUint64(w.nonce);
      if nonce.Err? then Decoded.Err(BadHex(nonce.error)) else
      var gasPrice := DecodeBig(w.gasPrice);
      if gasPrice.Err? then Decoded.Err(BadHex(gasPrice.error)) else
      var gasLimit := DecodeUint64(w.gasLimit);
      if gasLimit.Err? then Decoded.Err(BadHex(gasLimit.error)) else
      var chainID := DecodeBig(w.chainID);
      if chainID.Err? then Decoded.Err(BadHex(chainID.error)) else
      DecodeUint64Iff(w.nonce, nonce.value);
      DecodeUint64Iff(w.gasLimit, gasLimit.value);
      Decoded.Ok(TxData(w.from, w.to, value.value, data.value, nonce.value, gasPrice.value,
                        gasLimit.value, chainID.value))
  }

  predicate Is256(n: int) {
    0 <= n < Pow16(64)
  }

  /** Decoding undoes encoding exactly for the transactions whose quantities are
      256-bit numbers; the others encode to a text that does not decode. */
  lemma {:induction false} TransactionRoundTrip(t: TxData)
    ensures var r := DecodeTransaction(Encoded(MarshalTransaction(t)));
            if Is256(t.value) && Is256(t.gasPrice) && Is256(t.chainID) then r == Decoded.Ok(t) else r.Err?
  {
    BigRoundTrip(t.value);
    BytesRoundTrip(t.data);
    Uint64RoundTrip(t.nonce);
    BigRoundTrip(t.gasPrice);
    Uint64RoundTrip(t.gasLimit);
    BigRoundTrip(t.chainID);
    var w := MarshalTransaction(t);
    if !Is256(t.value) {
      assert DecodeBig(w.value).Err?;
    } else if !Is256(t.gasPrice) {
      assert DecodeBig(w.gasPrice).Err?;
    } else if !Is256(t.chainID) {
      assert DecodeBig(w.chainID).Err?;
    }
  }

  /** A text decodes to `t` exactly when `t` has 256-bit quantities and the text is,
      apart from the letter case of its hex fields, the one text of `t`. */
  lemma {:induction false} DecodeTransactionIff(w: TransactionWire, t: TxData)
    ensures DecodeTransaction(Encoded(w)) == Decoded.Ok(t)
       <==> Is256(t.value) && Is256(t.gasPrice) && Is256(t.chainID)
            && w.from == t.from && w.to == t.to
            && LowerAll(w.value) == EncodeBig(t.value) && LowerAll(w.data) == EncodeBytes(t.data)
            && LowerAll(w.nonce) == EncodeUint64(t.nonce) && LowerAll(w.gasPrice) == EncodeBig(t.gasPrice)
            && LowerAll(w.gasLimit) == EncodeUint64(t.gasLimit) && LowerAll(w.chainID) == EncodeBig(t.chainID)
  {
    DecodeBytesIff(w.data, t.data);
    DecodeUint64Iff(w.nonce, t.nonce);
    DecodeUint64Iff(w.gasLimit, t.gasLimit);
    if t.value >= 0 {
      DecodeBigIff(w.value, t.value);
    }
    if t.gasPrice >= 0 {
      DecodeBigIff(w.gasPrice, t.gasPrice);
    }
    if t.chainID >= 0 {
      DecodeBigIff(w.chainID, t.chainID);
    }
  }

  /** What is wrong with each hex field of a text, in the order the fields are decoded. */
  function FieldErrors(w: TransactionWire): seq<Option<HexError>> {
    [if DecodeBig(w.value).Err? then Some(DecodeBig(w.value).error) else None,
     if DecodeBytes(w.data).Err? then Some(DecodeBytes(w.data).error) else None,
     if DecodeUint64(w.nonce).Err? then Some(DecodeUint64(w.nonce).error) else None,
     if DecodeBig(w.gasPrice).Err? then Some(DecodeBig(w.gasPrice).error) else None,
     if DecodeUint64(w.gasLimit).Err? then Some(DecodeUint64(w.gasLimit).error) else None,
     if DecodeBig(w.chainID).Err? then Some(DecodeBig(w.chainID).error) else None]
  }

  /** The first of them is reported, and a text without a wire record before any. */
  lemma {:induction false} FirstErrorReported(w: TransactionWire, k: nat)
    requires k < 6 && FieldErrors(w)[k].Some? && forall j :: 0 <= j < k ==> FieldErrors(w)[j].None?
    ensures DecodeTransaction(Encoded(w)) == Decoded.Err(BadHex(FieldErrors(w)[k].value))
    ensures DecodeTransaction(Malformed) == Decoded.Err(NotJson)
  {
    var errors := FieldErrors(w);
    assert k > 0 ==> errors[0].None?;
    assert k > 1 ==> errors[1].None?;
    assert k > 2 ==> errors[2].None?;
    assert k > 3 ==> errors[3].None?;
    assert k > 4 ==> errors[4].None?;
  }

  class Transaction {
    var from: string
    var to: string
    var value: int
    var data: seq<Byte>
    var nonce: Uint64
    var gasPrice: int
    var gasLimit: Uint64
    var chainID: int

    /** Go's zero value, with zero for the absent numbers. */
    constructor ()
      ensures Data() == TxData("", "", 0, [], 0, 0, 0, 0)
    {
      from, to, value, data, nonce, gasPrice, gasLimit, chainID := "", "", 0, [], 0, 0, 0, 0;
    }

    function Data(): TxData
      reads this
    {
      TxData(from, to, value, data, nonce, gasPrice, gasLimit, chainID)
    }

    /** Decodes everything before it assigns anything: on an error the receiver is
        left as it was. */
    method UnmarshalJSON(input: Json<TransactionWire>) returns (err: Option<Error>)
      modifies this
      ensures DecodeTransaction(input).Ok? ==> err == None && Data() == DecodeTransaction(input).value
      ensures DecodeTransaction(input).Err? ==> err == Some(DecodeTransaction(input).error) && unchanged(this)
    {
      if input.Malformed? {
        return Some(NotJson);
      }
      var tw := input.wire;
      var v := DecodeBig(tw.value);
      if v.Err? {
        return Some(BadHex(v.error));
      }
      var twData := DecodeBytes(tw.data);
      if twData.Err? {
        return Some(BadHex(twData.error));
      }
      var n := DecodeUint64(tw.nonce);
      if n.Err? {
        return Some(BadHex(n.error));
      }
      var price := DecodeBig(tw.gasPrice);
      if price.Err? {
        return Some(BadHex(price.error));
      }
      var limit := DecodeUint64(tw.gasLimit);
      if limit.Err? {
        return Some(BadHex(limit.error));
      }
      var chain := DecodeBig(tw.chainID);
      if chain.Err? {
        return Some(BadHex(chain.error));
      }
      DecodeUint64Iff(tw.nonce, n.value);
      DecodeUint64Iff(tw.gasLimit, limit.value);
      from := tw.from;
      to := tw.to;
      value := v.value;
      data := twData.value;
      nonce := n.value;
      gasPrice := price.value;
      gasLimit := limit.value;
      chainID := chain.value;
      return None;
    }
  }

  // ---------- Metadata ----------

  datatype MetaData = MetaData(nonce: Uint64, gasPrice: int)

  datatype MetadataWire = MetadataWire(nonce: string, gasPrice: string)

  function MarshalMetadata(m: MetaData): MetadataWire {
    MetadataWire(EncodeUint64(m.nonce), EncodeBig(m.gasPrice))
  }

  function DecodeMetadata(text: Json<MetadataWire>): Decoded<MetaData> {
    if text.Malformed? then Decoded.Err(NotJson)
    else
      var nonce := DecodeUint64(text.wire.nonce);
      if nonce.Err? then Decoded.Err(BadHex(nonce.error)) else
      var gasPrice := DecodeBig(text.wire.gasPrice);
      if gasPrice.Err? then Decoded.Err(BadHex(gasPrice.error)) else
      DecodeUint64Iff(text.wire.nonce, nonce.value);
      Decoded.Ok(MetaData(nonce.value, gasPrice.value))
  }

  lemma {:induction false} MetadataRoundTrip(m: MetaData)
    ensures var r := DecodeMetadata(Encoded(MarshalMetadata(m)));
            if Is256(m.gasPrice) then r == Decoded.Ok(m) else r.Err?
  {
    Uint64RoundTrip(m.nonce);
    BigRoundTrip(m.gasPrice);
  }

  /** The metadata text of given metadata, likewise. */
  lemma {:induction false} DecodeMetadataIff(w: MetadataWire, m: MetaData)
    ensures DecodeMetadata(Encoded(w)) == Decoded.Ok(m)
       <==> Is256(m.gasPrice)
            && LowerAll(w.nonce) == EncodeUint64(m.nonce) && LowerAll(w.gasPrice) == EncodeBig(m.gasPrice)
  {
    DecodeUint64Iff(w.nonce, m.nonce);
    if m.gasPrice >= 0 {
      DecodeBigIff(w.gasPrice, m.gasPrice);
    }
  }

  /** In a metadata text the nonce is decoded before the gas price. */
  lemma {:induction false} MetadataErrors(w: MetadataWire, e: HexError)
    ensures DecodeMetadata(Encoded(w)) == Decoded.Err(BadHex(e))
       <==> DecodeUint64(w.nonce) == Hex.Err(e) || (DecodeUint64(w.nonce).Ok? && DecodeBig(w.gasPrice) == Hex.Err(e))
    ensures DecodeMetadata(Malformed) == Decoded.Err(NotJson)
  {
  }

  class Metadata {
    var nonce: Uint64
    var gasPrice: int

    constructor ()
      ensures Data() == MetaData(0, 0)
    {
      nonce, gasPrice := 0, 0;
    }

    function Data(): MetaData
      reads this
    {
      MetaData(nonce, gasPrice)
    }

    method UnmarshalJSON(input: Json<MetadataWire>) returns (err: Option<Error>)
      modifies this
      ensures DecodeMetadata(input).Ok? ==> err == None && Data() == DecodeMetadata(input).value
      ensures DecodeMetadata(input).Err? ==> err == Some(DecodeMetadata(input).error) && unchanged(this)
    {
      if input.Malformed? {
        return Some(NotJson);
      }
      var n := DecodeUint64(input.wire.nonce);
      if n.Err? {
        return Some(BadHex(n.error));
      }
      var price := DecodeBig(input.wire.gasPrice);
      if price.Err? {
        return Some(BadHex(price.error));
      }
      DecodeUint64Iff(input.wire.nonce, n.value);
      gasPrice := price.value;
      nonce := n.value;
      return None;
    }
  }

  // ---------- Parse metadata ----------

  datatype ParseMetadataWire = ParseMetadataWire(nonce: string, gasPrice: string, chainID: string)

  function MarshalParseMetadata(nonce: Uint64, gasPrice: int, chainID: int): ParseMetadataWire {
    ParseMetadataWire(EncodeUint64(nonce), EncodeBig(gasPrice), EncodeBig(chainID))
  }
}
