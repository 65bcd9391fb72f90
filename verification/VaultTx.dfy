// The transaction that spends a vault coin: its outputs and the split of its value.
module VaultTx {
  import opened Wrappers
  import opened Bytes
  import opened Curve
  import opened Vault
  import opened Coins

  datatype TxOut = TxOut(value: u64, script: bytes)

  datatype VaultTx = VaultTx(index: nat, amount: u64, fee: u64, change: u64, input: Outpoint, outputs: seq<TxOut>)

  /** OP_1 and a push of the 32-byte output key. */
  function P2trScript(outputKey: bytes): bytes {
    [0x51, 0x20] + outputKey
  }

  /** The version and the program of a witness output script, BIP-141: one small number and one push of 2 to
      40 bytes. */
  function WitnessProgram(script: bytes): Option<(nat, bytes)> {
    if !(4 <= |script| <= 42) || script[1] as int != |script| - 2 then None
    else if script[0] == 0 then Some((0, script[2..]))
    else if 0x51 <= script[0] <= 0x60 then Some((script[0] as int - 0x50, script[2..]))
    else None
  }

  /** The script pays the output key as a version 1 witness program, and so is taproot's. */
  lemma ScriptPaysKey(outputKey: b32)
    ensures WitnessProgram(P2trScript(outputKey)) == Some((1, outputKey))
  {
    assert P2trScript(outputKey)[2..] == outputKey;
  }

  /** Estimated size of a taproot key-path spend with one input and two outputs. */
  const VSIZE: nat := 10 + 58 + 43 * 2

  function OutputTotal(outputs: seq<TxOut>): (t: nat) {
    if outputs == [] then 0 else outputs[0].value + OutputTotal(outputs[1..])
  }

  lemma OutputTotals(a: TxOut, b: TxOut)
    ensures OutputTotal([a]) == a.value && OutputTotal([a, b]) == a.value + b.value
  {
    assert [a][1..] == [] && [a, b][1..] == [b] && [b][1..] == [];
  }

  /**
   * When the value suffices, in exact arithmetic: it holds the amount and the estimated fee. The one
   * exception is a fee that saturates, which a coin of 2^64 - 1 pays if nothing is sent.
   */
  predicate Funds(value: u64, amount: u64, rate: u64) {
    || value >= amount + rate * 154
    || (amount == 0 && value == SATS_MAX && rate * 154 > SATS_MAX)
  }

  /** Everything paid in is paid out, and less than the dust limit is added to the estimated fee. */
  predicate Balanced(tx: VaultTx, value: u64, rate: u64) {
    && OutputTotal(tx.outputs) + tx.fee == value
    && tx.amount + tx.change + tx.fee == value
    && (tx.change == 0 || tx.change >= 546)
    && Clip(rate * 154) <= tx.fee < Clip(rate * 154) + 546
    && (tx.change > 0 ==> tx.fee == Clip(rate * 154))
  }

  /**
   * dest and txid are the parsed recipient script and transaction id, absent when they do not parse.
   * The spend is built exactly when all inputs are good and the coin funds it, and then nothing
   * goes anywhere but to the recipient, to the vault's own script and to the fee.
   */
  method BuildVaultTx(c: Crypto, v: VaultConfig, index: nat, dest: Option<bytes>, amount: u64, rate: u64,
                      txid: Option<b32>, vout: nat, value: u64)
    returns (r: Result<VaultTx, VaultError>)
    ensures r.Ok? <==> dest.Some? && Taproot(c, v, index).Ok? && Funds(value, amount, rate) && txid.Some?
    ensures r.Ok? ==>
      && Balanced(r.value, value, rate)
      && r.value.index == index && r.value.amount == amount && r.value.input == Outpoint(txid.value, vout)
      && r.value.outputs == [TxOut(amount, dest.value)]
           + if r.value.change == 0 then []
             else [TxOut(r.value.change, P2trScript(Taproot(c, v, index).value.output))]
    ensures dest.None? ==> r == Err(InvalidRecipient)
    ensures dest.Some? && Taproot(c, v, index).Err? ==> r == Err(Taproot(c, v, index).error)
    ensures dest.Some? && Taproot(c, v, index).Ok? && !Funds(value, amount, rate) ==> r == Err(InsufficientFunds)
  {
    hide Taproot;
    if dest.None? {
      return Err(InvalidRecipient);
    }
    var context := Taproot(c, v, index);
    if context.Err? {
      return Err(context.error);
    }
    var vaultScript := P2trScript(context.value.output);
    MulNonNegative(rate, VSIZE);
    var fee := SatMul(rate, VSIZE);
    if amount + fee > SATS_MAX {
      return Err(InsufficientFunds);
    }
    var total := amount + fee;
    if value < total {
      return Err(InsufficientFunds);
    }
    var change := value - total;
    if change < DUST {
      change := 0;
      if value < amount {
        return Err(InsufficientFunds);
      }
      fee := value - amount;
    }
    if txid.None? {
      return Err(InvalidUtxo);
    }
    var outputs := [TxOut(amount, dest.value)];
    if change > 0 {
      outputs := outputs + [TxOut(change, vaultScript)];
    }
    OutputTotals(TxOut(amount, dest.value), TxOut(change, vaultScript));
    r := Ok(VaultTx(index, amount, fee, change, Outpoint(txid.value, vout), outputs));
  }
}
