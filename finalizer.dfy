/** The finalization step of utils.ts: decide whether a change output is
    worth adding and compute the exact fee. */
module Finalizer {
  import opened Types
  import opened Sizes

  /** Byte cost of the prospective change output: the change address's own
      cost when a non-empty address is given, the blank output otherwise. */
  function ChangeFee(changeAddress: Option<string>): nat
  {
    if changeAddress.Some? && changeAddress.value != "" then OutputBytes(Target(changeAddress, None, None))
    else BlankOutput
  }

  /** What is left over once the targets and the fee for the transaction
      with one more output are paid. */
  function Remainder(inputs: seq<Utxo>, outputs: seq<Target>, feeRate: int, changeAddress: Option<string>): int
  {
    SumInputValues(inputs) - (SumOutputValues(outputs) + feeRate * (TransactionBytes(inputs, outputs) + ChangeFee(changeAddress)))
  }

  /** The change output appended when the remainder beats the dust threshold;
      its address is absent when no change address is given. */
  function ChangeOutput(inputs: seq<Utxo>, outputs: seq<Target>, feeRate: int, changeAddress: Option<string>): Target
  {
    Target(changeAddress, None, Some(Remainder(inputs, outputs, feeRate, changeAddress)))
  }

  predicate WantsChange(inputs: seq<Utxo>, outputs: seq<Target>, feeRate: int, changeAddress: Option<string>)
  {
    Remainder(inputs, outputs, feeRate, changeAddress) > DustThreshold(feeRate)
  }

  /** `finalize`; the `isFinite` fallback cannot be reached with integer
      values, so the result is always funded. */
  function Finalize(inputs: seq<Utxo>, outputs: seq<Target>, feeRate: int, changeAddress: Option<string>): (r: Selection)
    ensures r.Funded? && r.inputs == inputs
  {
    var finalOutputs :=
      if WantsChange(inputs, outputs, feeRate, changeAddress)
      then outputs + [ChangeOutput(inputs, outputs, feeRate, changeAddress)]
      else outputs;
    Funded(inputs, finalOutputs, SumInputValues(inputs) - SumOutputValues(finalOutputs))
  }

  /** The targets are kept in front and followed by one change output
      exactly when the remainder exceeds the dust threshold; the fee is
      whatever the inputs provide beyond the returned outputs. */
  lemma FinalizeShape(inputs: seq<Utxo>, outputs: seq<Target>, feeRate: int, changeAddress: Option<string>)
    ensures var r := Finalize(inputs, outputs, feeRate, changeAddress);
      && (|r.outputs| == |outputs| + 1 <==> WantsChange(inputs, outputs, feeRate, changeAddress))
      && |outputs| <= |r.outputs| <= |outputs| + 1
      && r.outputs[..|outputs|] == outputs
      && (|r.outputs| > |outputs| ==> r.outputs[|outputs|] == ChangeOutput(inputs, outputs, feeRate, changeAddress))
      && r.fee == SumInputValues(inputs) - SumOutputValues(r.outputs)
  {
    var r := Finalize(inputs, outputs, feeRate, changeAddress);
    assert r.outputs[..|outputs|] == outputs;
  }

  /** The change output costs exactly what `ChangeFee` charged for it,
      whether or not an address was given. */
  lemma ChangeFeeIsOutputBytes(changeAddress: Option<string>, value: Option<int>)
    ensures ChangeFee(changeAddress) == OutputBytes(Target(changeAddress, None, value))
  {
    if changeAddress.Some? && changeAddress.value == "" {
      AddressOutputBytes("", value);
    }
  }

  /** With change, the fee is exactly the fee rate times the size of the
      final transaction, and the change carries more than the dust
      threshold. */
  lemma {:induction false} FinalizeWithChange(inputs: seq<Utxo>, outputs: seq<Target>, feeRate: int, changeAddress: Option<string>)
    requires WantsChange(inputs, outputs, feeRate, changeAddress)
    ensures var r := Finalize(inputs, outputs, feeRate, changeAddress);
      && r.fee == feeRate * (TransactionBytes(inputs, outputs) + ChangeFee(changeAddress))
      && r.fee == feeRate * TransactionBytes(r.inputs, r.outputs)
      && TargetValue(r.outputs[|outputs|]) > DustThreshold(feeRate)
  {
    var c := ChangeOutput(inputs, outputs, feeRate, changeAddress);
    AddOutput(inputs, outputs, c);
    ChangeFeeIsOutputBytes(changeAddress, c.value);
  }

  /** Without change, the targets are returned as they are and the fee is
      the whole surplus, which is at most the fee with change plus the dust
      threshold. */
  lemma FinalizeWithoutChange(inputs: seq<Utxo>, outputs: seq<Target>, feeRate: int, changeAddress: Option<string>)
    requires !WantsChange(inputs, outputs, feeRate, changeAddress)
    ensures var r := Finalize(inputs, outputs, feeRate, changeAddress);
      && r.outputs == outputs
      && r.fee == SumInputValues(inputs) - SumOutputValues(outputs)
      && r.fee <= feeRate * (TransactionBytes(inputs, outputs) + ChangeFee(changeAddress)) + DustThreshold(feeRate)
  {
  }

  /** When the inputs cover the targets plus the fee for the current size,
      the returned fee pays at least the fee rate for the final
      transaction's size. */
  lemma FinalizeCoversFee(inputs: seq<Utxo>, outputs: seq<Target>, feeRate: int, changeAddress: Option<string>)
    requires SumInputValues(inputs) >= SumOutputValues(outputs) + feeRate * TransactionBytes(inputs, outputs)
    ensures var r := Finalize(inputs, outputs, feeRate, changeAddress);
      r.fee >= feeRate * TransactionBytes(r.inputs, r.outputs)
  {
    if WantsChange(inputs, outputs, feeRate, changeAddress) {
      FinalizeWithChange(inputs, outputs, feeRate, changeAddress);
    }
  }

  /** The fee choice of `Finalize` as arithmetic: pay for the bytes when
      the surplus left over beats the dust threshold, give up the whole
      surplus otherwise. */
  lemma {:induction false} FeeChoiceMonotonic(surplus: int, bytes: nat, low: int, high: int)
    requires 0 <= low <= high
    ensures (if surplus - low * bytes > DustThreshold(low) then low * bytes else surplus)
         <= (if surplus - high * bytes > DustThreshold(high) then high * bytes else surplus)
  {
    assert low * bytes <= high * bytes by {
      assert (high - low) * bytes >= 0;
    }
  }

  /** For fixed inputs and targets, a higher non-negative fee rate never
      yields a lower fee. */
  lemma FinalizeFeeMonotonic(inputs: seq<Utxo>, outputs: seq<Target>, low: int, high: int, changeAddress: Option<string>)
    requires 0 <= low <= high
    ensures Finalize(inputs, outputs, low, changeAddress).fee <= Finalize(inputs, outputs, high, changeAddress).fee
  {
    var surplus := SumInputValues(inputs) - SumOutputValues(outputs);
    var bytes := TransactionBytes(inputs, outputs) + ChangeFee(changeAddress);
    FeeAt(inputs, outputs, low, changeAddress);
    FeeAt(inputs, outputs, high, changeAddress);
    FeeChoiceMonotonic(surplus, bytes, low, high);
  }

  lemma FeeAt(inputs: seq<Utxo>, outputs: seq<Target>, feeRate: int, changeAddress: Option<string>)
    ensures var surplus := SumInputValues(inputs) - SumOutputValues(outputs);
      var bytes := TransactionBytes(inputs, outputs) + ChangeFee(changeAddress);
      Finalize(inputs, outputs, feeRate, changeAddress).fee
        == if surplus - feeRate * bytes > DustThreshold(feeRate) then feeRate * bytes else surplus
  {
    if WantsChange(inputs, outputs, feeRate, changeAddress) {
      FinalizeWithChange(inputs, outputs, feeRate, changeAddress);
    } else {
      FinalizeWithoutChange(inputs, outputs, feeRate, changeAddress);
    }
  }
}
