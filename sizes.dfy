/** The byte-cost model of utils.ts: per-input and per-output sizes, the
    transaction size, the dust threshold, and the value sums. Witness bytes
    are counted at a quarter, rounded up, as virtual size is defined in
    BIP 141, section "Transaction size calculations". */
module Sizes {
  import opened Types

  const TxEmptySize: nat := 4 + 1 + 1 + 4
  const TxInputBase: nat := 32 + 4 + 1 + 4
  const TxInputPubKeyHash: nat := 107
  const TxInputSegwit: nat := 27
  const TxInputTaproot: nat := 17
  const TxOutputBase: nat := 8 + 1
  const TxOutputPubKeyHash: nat := 25
  const TxOutputScriptHash: nat := 23
  const TxOutputSegwit: nat := 22
  const TxOutputSegwitScriptHash: nat := 34

  /** The cost of an extra output when no change address is known. */
  const BlankOutput: nat := TxOutputBase + TxOutputPubKeyHash

  /** The ceiling of n / 4 on a non-negative integer. */
  function CeilDiv4(n: nat): (r: nat)
    ensures n <= 4 * r < n + 4
  {
    (n + 3) / 4
  }

  /** Total byte length of the taproot witness-stack items. */
  function StackBytes(items: seq<nat>): nat
  {
    if items == [] then 0 else StackBytes(items[..|items| - 1]) + items[|items| - 1]
  }

  function RedeemLength(u: Utxo): nat
  {
    if u.redeemScript.Some? then u.redeemScript.value else 0
  }

  /** Serialized-size estimate of spending `u`. The redeem script's length is
      added whenever it is present; then exactly one of the witness-script,
      taproot and witness-utxo additions applies, in that order, and the
      legacy pubkey-hash addition applies only when none of them nor a redeem
      script is present. */
  function InputBytes(u: Utxo): (r: nat)
    ensures r >= TxInputBase
  {
    var extra :=
      if u.witnessScript.Some? then CeilDiv4(u.witnessScript.value)
      else if u.isTaproot then
        (if u.taprootWitness.Some?
         then CeilDiv4(TxInputTaproot * 4 + StackBytes(u.taprootWitness.value)) + 1
         else TxInputTaproot)
      else if u.witnessUtxo then TxInputSegwit
      else if u.redeemScript.None? then TxInputPubKeyHash
      else 0;
    TxInputBase + RedeemLength(u) + extra
  }

  predicate StartsWith(s: string, prefix: string)
  {
    |prefix| <= |s| && s[..|prefix|] == prefix
  }

  /** The bech32 human-readable parts the size model recognises (BIP 173);
      nothing else about the address is checked. */
  predicate IsBech32Prefixed(a: string)
  {
    StartsWith(a, "bc1") || StartsWith(a, "tb1") || StartsWith(a, "bcrt1")
  }

  predicate IsScriptHashPrefixed(a: string)
  {
    StartsWith(a, "3") || StartsWith(a, "2")
  }

  /** A string's length as JavaScript counts it, in UTF-16 code units: a
      character beyond U+FFFF takes two. */
  function Utf16Length(s: string): (r: nat)
    ensures |s| <= r <= 2 * |s|
  {
    if s == [] then 0
    else Utf16Length(s[..|s| - 1]) + (if s[|s| - 1] as int > 0xFFFF then 2 else 1)
  }

  /** For a string of Basic Multilingual Plane characters, which includes
      every ASCII address, the UTF-16 length is the character count. */
  lemma {:induction false} BmpUtf16Length(s: string)
    requires forall i :: 0 <= i < |s| ==> s[i] as int <= 0xFFFF
    ensures Utf16Length(s) == |s|
  {
    if s != [] {
      BmpUtf16Length(s[..|s| - 1]);
    }
  }

  /** Serialized-size estimate of an output: the script's own length when a
      script is given, otherwise a cost class sniffed from the address. */
  function OutputBytes(t: Target): (r: nat)
    ensures r >= TxOutputBase
  {
    TxOutputBase +
      if t.script.Some? then t.script.value
      else if t.address.Some? && IsBech32Prefixed(t.address.value) then
        (if Utf16Length(t.address.value) == 42 || Utf16Length(t.address.value) == 44
         then TxOutputSegwit else TxOutputSegwitScriptHash)
      else if t.address.Some? && IsScriptHashPrefixed(t.address.value) then TxOutputScriptHash
      else TxOutputPubKeyHash
  }

  /** Sum of the input sizes, left to right. */
  function SumInputBytes(inputs: seq<Utxo>): int
  {
    if inputs == [] then 0 else SumInputBytes(inputs[..|inputs| - 1]) + InputBytes(inputs[|inputs| - 1])
  }

  /** Sum of the output sizes, left to right. */
  function SumOutputBytes(outputs: seq<Target>): int
  {
    if outputs == [] then 0 else SumOutputBytes(outputs[..|outputs| - 1]) + OutputBytes(outputs[|outputs| - 1])
  }

  /** `sumValues` over inputs, whose value is always present. */
  function SumInputValues(inputs: seq<Utxo>): int
  {
    if inputs == [] then 0 else SumInputValues(inputs[..|inputs| - 1]) + inputs[|inputs| - 1].value
  }

  /** A target's value; a missing value counts as zero. */
  function TargetValue(t: Target): int
  {
    if t.value.Some? then t.value.value else 0
  }

  /** `sumValues` over targets. */
  function SumOutputValues(outputs: seq<Target>): int
  {
    if outputs == [] then 0 else SumOutputValues(outputs[..|outputs| - 1]) + TargetValue(outputs[|outputs| - 1])
  }

  /** Size of the transaction skeleton: the fixed overhead plus every
      input's and every output's cost. */
  function TransactionBytes(inputs: seq<Utxo>, outputs: seq<Target>): (r: int)
    ensures r >= TxEmptySize + TxInputBase * |inputs| + TxOutputBase * |outputs|
  {
    SumInputBytesAtLeast(inputs);
    SumOutputBytesAtLeast(outputs);
    TxEmptySize + SumInputBytes(inputs) + SumOutputBytes(outputs)
  }

  /** Value below which a change output is not worth creating. */
  function DustThreshold(feeRate: int): int
  {
    TxInputBase + TxInputPubKeyHash * feeRate
  }

  // ---------------------------------------------------------------------
  // Folds

  lemma {:induction false} SumInputBytesAtLeast(inputs: seq<Utxo>)
    ensures SumInputBytes(inputs) >= TxInputBase * |inputs|
  {
    if inputs != [] {
      SumInputBytesAtLeast(inputs[..|inputs| - 1]);
    }
  }

  lemma {:induction false} SumOutputBytesAtLeast(outputs: seq<Target>)
    ensures SumOutputBytes(outputs) >= TxOutputBase * |outputs|
  {
    if outputs != [] {
      SumOutputBytesAtLeast(outputs[..|outputs| - 1]);
    }
  }

  /** Appending one input grows the transaction by exactly that input's
      cost, which is what the selector's running byte count relies on. */
  lemma AddInputBytes(inputs: seq<Utxo>, u: Utxo, outputs: seq<Target>)
    ensures TransactionBytes(inputs + [u], outputs) == TransactionBytes(inputs, outputs) + InputBytes(u)
  {
    assert (inputs + [u])[..|inputs|] == inputs;
  }

  /** Appending one input adds exactly its value. */
  lemma AddInputValue(inputs: seq<Utxo>, u: Utxo)
    ensures SumInputValues(inputs + [u]) == SumInputValues(inputs) + u.value
  {
    assert (inputs + [u])[..|inputs|] == inputs;
  }

  /** Appending one target adds its value, or nothing when it has none. */
  lemma AddOutput(inputs: seq<Utxo>, outputs: seq<Target>, t: Target)
    ensures SumOutputValues(outputs + [t]) == SumOutputValues(outputs) + TargetValue(t)
    ensures TransactionBytes(inputs, outputs + [t]) == TransactionBytes(inputs, outputs) + OutputBytes(t)
  {
    assert (outputs + [t])[..|outputs|] == outputs;
  }

  /** The input size sum is additive over concatenation. */
  lemma {:induction false} SumInputBytesConcat(a: seq<Utxo>, b: seq<Utxo>)
    ensures SumInputBytes(a + b) == SumInputBytes(a) + SumInputBytes(b)
    decreases |b|
  {
    if b == [] {
      assert a + b == a;
    } else {
      var init := b[..|b| - 1];
      assert (a + b)[..|a + b| - 1] == a + init;
      SumInputBytesConcat(a, init);
    }
  }

  /** The input value sum is additive over concatenation. */
  lemma {:induction false} SumInputValuesConcat(a: seq<Utxo>, b: seq<Utxo>)
    ensures SumInputValues(a + b) == SumInputValues(a) + SumInputValues(b)
    decreases |b|
  {
    if b == [] {
      assert a + b == a;
    } else {
      var init := b[..|b| - 1];
      assert (a + b)[..|a + b| - 1] == a + init;
      SumInputValuesConcat(a, init);
    }
  }

  /** The target value sum is additive over concatenation. */
  lemma {:induction false} SumOutputValuesConcat(a: seq<Target>, b: seq<Target>)
    ensures SumOutputValues(a + b) == SumOutputValues(a) + SumOutputValues(b)
    decreases |b|
  {
    if b == [] {
      assert a + b == a;
    } else {
      var init := b[..|b| - 1];
      assert (a + b)[..|a + b| - 1] == a + init;
      SumOutputValuesConcat(a, init);
    }
  }

  /** Transaction size is additive over concatenation of inputs: the fixed
      overhead is counted once. */
  lemma TransactionBytesConcat(a: seq<Utxo>, b: seq<Utxo>, outputs: seq<Target>)
    ensures TransactionBytes(a + b, outputs) == TransactionBytes(a, outputs) + SumInputBytes(b)
  {
    SumInputBytesConcat(a, b);
  }

  // ---------------------------------------------------------------------
  // Input and output size classes

  /** A plain legacy input costs 148 bytes. */
  lemma LegacyInputBytes(u: Utxo)
    requires u.redeemScript.None? && u.witnessScript.None? && !u.isTaproot && !u.witnessUtxo
    ensures InputBytes(u) == 148
  {
  }

  /** A redeem script alone adds its length and suppresses the legacy
      addition. */
  lemma RedeemScriptInputBytes(u: Utxo)
    requires u.redeemScript.Some? && u.witnessScript.None? && !u.isTaproot && !u.witnessUtxo
    ensures InputBytes(u) == TxInputBase + u.redeemScript.value
  {
  }

  /** A witness script adds a quarter of its length, rounded up, and then
      the taproot and witness-utxo descriptors are ignored. */
  lemma WitnessScriptTakesPrecedence(u: Utxo, isTaproot: bool, taprootWitness: Option<seq<nat>>, witnessUtxo: bool)
    requires u.witnessScript.Some?
    ensures InputBytes(u) == TxInputBase + RedeemLength(u) + CeilDiv4(u.witnessScript.value)
    ensures InputBytes(u.(isTaproot := isTaproot, taprootWitness := taprootWitness, witnessUtxo := witnessUtxo))
         == InputBytes(u)
  {
  }

  /** Without a witness script a taproot input adds 17 bytes, or, with an
      explicit witness stack, a quarter of 68 plus the item lengths, rounded
      up, plus one; the witness-utxo descriptor is then ignored. */
  lemma TaprootInputBytes(u: Utxo, witnessUtxo: bool)
    requires u.witnessScript.None? && u.isTaproot
    ensures u.taprootWitness.None? ==> InputBytes(u) == TxInputBase + RedeemLength(u) + 17
    ensures u.taprootWitness.Some? ==>
      InputBytes(u) == TxInputBase + RedeemLength(u) + CeilDiv4(68 + StackBytes(u.taprootWitness.value)) + 1
    ensures InputBytes(u.(witnessUtxo := witnessUtxo)) == InputBytes(u)
  {
  }

  /** A plain witness utxo costs 68 bytes plus any redeem script. */
  lemma SegwitInputBytes(u: Utxo)
    requires u.witnessScript.None? && !u.isTaproot && u.witnessUtxo
    ensures InputBytes(u) == TxInputBase + RedeemLength(u) + 27
  {
  }

  /** A script decides the output size whatever the address. */
  lemma ScriptOutputBytes(t: Target, address: Option<string>)
    requires t.script.Some?
    ensures OutputBytes(t) == TxOutputBase + t.script.value
    ensures OutputBytes(t.(address := address)) == OutputBytes(t)
  {
  }

  /** The four address cost classes, and the absent address, which costs
      the same as the blank output. */
  lemma AddressOutputBytes(a: string, value: Option<int>)
    ensures var b := OutputBytes(Target(Some(a), None, value));
      (IsBech32Prefixed(a) && (Utf16Length(a) == 42 || Utf16Length(a) == 44) ==> b == 31) &&
      (IsBech32Prefixed(a) && Utf16Length(a) != 42 && Utf16Length(a) != 44 ==> b == 43) &&
      (IsScriptHashPrefixed(a) ==> b == 32) &&
      (!IsBech32Prefixed(a) && !IsScriptHashPrefixed(a) ==> b == 34 == BlankOutput)
    ensures OutputBytes(Target(None, None, value)) == BlankOutput
  {
    if IsScriptHashPrefixed(a) {
      assert a[0] == '3' || a[0] == '2';
    }
  }
}
