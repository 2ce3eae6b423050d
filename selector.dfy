/** The greedy accumulative selector of algo/accumulative.ts. */
module Selector {
  import opened Types
  import opened Sizes
  import opened Finalizer

  /** A candidate is spent only when its own input fee does not exceed its
      value. */
  predicate IsEconomic(u: Utxo, feeRate: int)
  {
    !(feeRate * InputBytes(u) > u.value)
  }

  /** `xs` occurs in `ys` in order, possibly with gaps. */
  predicate IsSubsequence(xs: seq<Utxo>, ys: seq<Utxo>)
    decreases |ys|
  {
    if xs == [] then true
    else if ys == [] then false
    else if xs[0] == ys[0] then IsSubsequence(xs[1..], ys[1..])
    else IsSubsequence(xs, ys[1..])
  }

  /** The candidates the loop does not skip, in their original order. */
  function Economic(utxos: seq<Utxo>, feeRate: int): seq<Utxo>
  {
    if utxos == [] then []
    else if IsEconomic(utxos[0], feeRate) then [utxos[0]] + Economic(utxos[1..], feeRate)
    else Economic(utxos[1..], feeRate)
  }

  /** `Economic` is the filter of the economic candidates: an in-order
      subsequence holding every economic candidate and nothing else. */
  lemma {:induction false} EconomicIsFilter(utxos: seq<Utxo>, feeRate: int)
    ensures var r := Economic(utxos, feeRate);
      && IsSubsequence(r, utxos)
      && (forall u :: u in r ==> u in utxos && IsEconomic(u, feeRate))
      && (forall u :: u in utxos && IsEconomic(u, feeRate) ==> u in r)
  {
    if utxos != [] {
      EconomicIsFilter(utxos[1..], feeRate);
      assert forall u :: u in utxos ==> u == utxos[0] || u in utxos[1..];
    }
  }

  /** The loop stops once the inputs cover the targets plus the fee. */
  predicate Covers(inputs: seq<Utxo>, outputs: seq<Target>, feeRate: int)
  {
    SumInputValues(inputs) >= SumOutputValues(outputs) + feeRate * TransactionBytes(inputs, outputs)
  }

  /** The short-circuit test on the mandatory inputs, which is strict. */
  predicate Exceeds(inputs: seq<Utxo>, outputs: seq<Target>, feeRate: int)
  {
    SumInputValues(inputs) > SumOutputValues(outputs) + feeRate * TransactionBytes(inputs, outputs)
  }

  /** The candidate loop from the state where `inputs` are already chosen and
      `rest` is still to be offered. */
  function Walk(inputs: seq<Utxo>, rest: seq<Utxo>, outputs: seq<Target>, feeRate: int, changeAddress: Option<string>): Selection
    decreases |rest|
  {
    if rest == [] then Unfunded(feeRate * TransactionBytes(inputs, outputs))
    else if !IsEconomic(rest[0], feeRate) then Walk(inputs, rest[1..], outputs, feeRate, changeAddress)
    else
      var next := inputs + [rest[0]];
      if Covers(next, outputs, feeRate) then Finalize(next, outputs, feeRate, changeAddress)
      else Walk(next, rest[1..], outputs, feeRate, changeAddress)
  }

  /** What `accumulative` returns, stated on whole input lists. */
  function AccumulativeSpec(preInputs: seq<Utxo>, utxos: seq<Utxo>, outputs: seq<Target>, feeRate: int, changeAddress: Option<string>): Selection
  {
    if Exceeds(preInputs, outputs, feeRate) then Finalize(preInputs, outputs, feeRate, changeAddress)
    else Walk(preInputs, utxos, outputs, feeRate, changeAddress)
  }

  /** The selector as the source runs it: running totals of bytes and input
      value, a copy of the mandatory inputs, a single pass over the
      candidates with skips and an early return. `changeOutput` is accepted
      and, as in the source, has no effect. */
  method Accumulative(preInputs: seq<Utxo>, utxos: seq<Utxo>, outputs: seq<Target>, feeRate: int,
                      changeAddress: Option<string>, changeOutput: bool) returns (r: Selection)
    ensures r == AccumulativeSpec(preInputs, utxos, outputs, feeRate, changeAddress)
  {
    var bytesAccum := TransactionBytes(preInputs, outputs);
    var inAccum := 0;
    var inputs: seq<Utxo> := [];
    var outAccum := SumOutputValues(outputs);

    for i := 0 to |preInputs|
      invariant inputs == preInputs[..i]
      invariant inAccum == SumInputValues(inputs)
    {
      AddInputValue(inputs, preInputs[i]);
      inAccum := inAccum + preInputs[i].value;
      PrefixStep(preInputs, i);
      inputs := inputs + [preInputs[i]];
    }
    assert preInputs[..|preInputs|] == preInputs;

    var fee := feeRate * bytesAccum;
    if inAccum > outAccum + fee {
      return Finalize(inputs, outputs, feeRate, changeAddress);
    }

    for j := 0 to |utxos|
      invariant bytesAccum == TransactionBytes(inputs, outputs)
      invariant inAccum == SumInputValues(inputs)
      invariant Walk(inputs, utxos[j..], outputs, feeRate, changeAddress)
             == AccumulativeSpec(preInputs, utxos, outputs, feeRate, changeAddress)
    {
      assert utxos[j..][1..] == utxos[j + 1..];
      var utxo := utxos[j];
      var utxoBytes := InputBytes(utxo);
      var utxoFee := feeRate * utxoBytes;
      var utxoValue := utxo.value;

      if utxoFee > utxoValue {
        SkipStep(inputs, utxos[j..], outputs, feeRate, changeAddress);
        continue;
      }

      TakeStep(inputs, utxos[j..], outputs, feeRate, changeAddress);
      AddInputBytes(inputs, utxo, outputs);
      AddInputValue(inputs, utxo);
      bytesAccum := bytesAccum + utxoBytes;
      inAccum := inAccum + utxoValue;
      inputs := inputs + [utxo];

      var fee := feeRate * bytesAccum;
      if inAccum < outAccum + fee {
        continue;
      }

      assert Covers(inputs, outputs, feeRate);
      return Finalize(inputs, outputs, feeRate, changeAddress);
    }

    assert utxos[|utxos|..] == [];
    return Unfunded(feeRate * bytesAccum);
  }

  lemma PrefixStep(s: seq<Utxo>, i: nat)
    requires i < |s|
    ensures s[..i + 1] == s[..i] + [s[i]]
  {
  }

  /** One loop step over an uneconomic candidate. */
  lemma SkipStep(inputs: seq<Utxo>, rest: seq<Utxo>, outputs: seq<Target>, feeRate: int, changeAddress: Option<string>)
    requires rest != [] && !IsEconomic(rest[0], feeRate)
    ensures Walk(inputs, rest, outputs, feeRate, changeAddress) == Walk(inputs, rest[1..], outputs, feeRate, changeAddress)
  {
  }

  /** One loop step over an economic candidate: it is added, and the loop
      stops exactly when the inputs now cover the targets and the fee. */
  lemma TakeStep(inputs: seq<Utxo>, rest: seq<Utxo>, outputs: seq<Target>, feeRate: int, changeAddress: Option<string>)
    requires rest != [] && IsEconomic(rest[0], feeRate)
    ensures Walk(inputs, rest, outputs, feeRate, changeAddress)
         == if Covers(inputs + [rest[0]], outputs, feeRate) then Finalize(inputs + [rest[0]], outputs, feeRate, changeAddress)
            else Walk(inputs + [rest[0]], rest[1..], outputs, feeRate, changeAddress)
  {
  }

  // ---------------------------------------------------------------------
  // What the loop computes

  lemma ShiftPrefix(inputs: seq<Utxo>, u: Utxo, e: seq<Utxo>, k: nat)
    requires k <= |e|
    ensures (inputs + [u]) + e[..k] == inputs + ([u] + e)[..k + 1]
  {
    assert ([u] + e)[..k + 1] == [u] + e[..k];
  }

  /** Moving one chosen candidate from the run into the inputs. */
  lemma ShiftInsufficient(inputs: seq<Utxo>, u: Utxo, e: seq<Utxo>, m: nat, outputs: seq<Target>, feeRate: int)
    requires m <= |e|
    requires !Covers(inputs + [u], outputs, feeRate)
    requires forall k :: 1 <= k <= m ==> !Covers((inputs + [u]) + e[..k], outputs, feeRate)
    ensures forall k :: 1 <= k <= m + 1 ==> !Covers(inputs + ([u] + e)[..k], outputs, feeRate)
  {
    forall k | 1 <= k <= m + 1 ensures !Covers(inputs + ([u] + e)[..k], outputs, feeRate) {
      ShiftPrefix(inputs, u, e, k - 1);
    }
  }

  /** What the loop computes from a state: it stops at the first
      non-skipped candidate after which the chosen inputs cover the targets
      and the fee, and finalizes those inputs; if there is none it returns
      the fee for every non-skipped candidate and nothing else. */
  ghost predicate WalkCharacterized(inputs: seq<Utxo>, rest: seq<Utxo>, outputs: seq<Target>, feeRate: int, changeAddress: Option<string>)
  {
    var r := Walk(inputs, rest, outputs, feeRate, changeAddress);
    var e := Economic(rest, feeRate);
    if r.Funded? then
      var n := |r.inputs| - |inputs|;
      && 1 <= n <= |e|
      && r.inputs == inputs + e[..n]
      && Covers(r.inputs, outputs, feeRate)
      && (forall k :: 1 <= k < n ==> !Covers(inputs + e[..k], outputs, feeRate))
      && r == Finalize(r.inputs, outputs, feeRate, changeAddress)
    else
      && r.fee == feeRate * TransactionBytes(inputs + e, outputs)
      && (forall k :: 1 <= k <= |e| ==> !Covers(inputs + e[..k], outputs, feeRate))
  }

  lemma {:induction false} WalkOutcome(inputs: seq<Utxo>, rest: seq<Utxo>, outputs: seq<Target>, feeRate: int, changeAddress: Option<string>)
    ensures WalkCharacterized(inputs, rest, outputs, feeRate, changeAddress)
    decreases |rest|
  {
    if rest == [] {
      assert inputs + Economic(rest, feeRate) == inputs;
    } else if !IsEconomic(rest[0], feeRate) {
      WalkOutcome(inputs, rest[1..], outputs, feeRate, changeAddress);
      WalkSkip(inputs, rest, outputs, feeRate, changeAddress);
    } else if Covers(inputs + [rest[0]], outputs, feeRate) {
      WalkStop(inputs, rest, outputs, feeRate, changeAddress);
    } else {
      WalkOutcome(inputs + [rest[0]], rest[1..], outputs, feeRate, changeAddress);
      if Walk(inputs, rest, outputs, feeRate, changeAddress).Funded? {
        WalkStepFunded(inputs, rest, outputs, feeRate, changeAddress);
      } else {
        WalkStepUnfunded(inputs, rest, outputs, feeRate, changeAddress);
      }
    }
  }

  lemma WalkSkip(inputs: seq<Utxo>, rest: seq<Utxo>, outputs: seq<Target>, feeRate: int, changeAddress: Option<string>)
    requires rest != [] && !IsEconomic(rest[0], feeRate)
    requires WalkCharacterized(inputs, rest[1..], outputs, feeRate, changeAddress)
    ensures WalkCharacterized(inputs, rest, outputs, feeRate, changeAddress)
  {
    assert Economic(rest, feeRate) == Economic(rest[1..], feeRate);
  }

  lemma WalkStop(inputs: seq<Utxo>, rest: seq<Utxo>, outputs: seq<Target>, feeRate: int, changeAddress: Option<string>)
    requires rest != [] && IsEconomic(rest[0], feeRate)
    requires Covers(inputs + [rest[0]], outputs, feeRate)
    ensures WalkCharacterized(inputs, rest, outputs, feeRate, changeAddress)
  {
    var e := Economic(rest, feeRate);
    assert e == [rest[0]] + Economic(rest[1..], feeRate);
    assert inputs + [rest[0]] == inputs + e[..1];
  }

  lemma WalkStepFunded(inputs: seq<Utxo>, rest: seq<Utxo>, outputs: seq<Target>, feeRate: int, changeAddress: Option<string>)
    requires rest != [] && IsEconomic(rest[0], feeRate)
    requires !Covers(inputs + [rest[0]], outputs, feeRate)
    requires WalkCharacterized(inputs + [rest[0]], rest[1..], outputs, feeRate, changeAddress)
    requires Walk(inputs, rest, outputs, feeRate, changeAddress).Funded?
    ensures WalkCharacterized(inputs, rest, outputs, feeRate, changeAddress)
  {
    var u, e' := rest[0], Economic(rest[1..], feeRate);
    assert Economic(rest, feeRate) == [u] + e';
    var r := Walk(inputs, rest, outputs, feeRate, changeAddress);
    var n' := |r.inputs| - |inputs + [u]|;
    ShiftPrefix(inputs, u, e', n');
    ShiftInsufficient(inputs, u, e', n' - 1, outputs, feeRate);
  }

  lemma WalkStepUnfunded(inputs: seq<Utxo>, rest: seq<Utxo>, outputs: seq<Target>, feeRate: int, changeAddress: Option<string>)
    requires rest != [] && IsEconomic(rest[0], feeRate)
    requires !Covers(inputs + [rest[0]], outputs, feeRate)
    requires WalkCharacterized(inputs + [rest[0]], rest[1..], outputs, feeRate, changeAddress)
    requires Walk(inputs, rest, outputs, feeRate, changeAddress).Unfunded?
    ensures WalkCharacterized(inputs, rest, outputs, feeRate, changeAddress)
  {
    var u, e' := rest[0], Economic(rest[1..], feeRate);
    assert Economic(rest, feeRate) == [u] + e';
    assert (inputs + [u]) + e' == inputs + ([u] + e');
    ShiftInsufficient(inputs, u, e', |e'|, outputs, feeRate);
  }

  lemma {:induction false} SubsequencePrefix(xs: seq<Utxo>, ys: seq<Utxo>, k: nat)
    requires IsSubsequence(xs, ys) && k <= |xs|
    ensures IsSubsequence(xs[..k], ys)
    decreases |ys|
  {
    if k == 0 || xs == [] {
    } else if xs[0] == ys[0] {
      assert xs[..k][1..] == xs[1..][..k - 1];
      SubsequencePrefix(xs[1..], ys[1..], k - 1);
    } else {
      SubsequencePrefix(xs, ys[1..], k);
    }
  }

  // ---------------------------------------------------------------------
  // What the selector returns

  /** The mandatory inputs alone are finalized exactly when they strictly
      exceed the targets plus the fee for their size; otherwise at least one
      candidate is added or the selection fails. */
  lemma AccumulativeShortCircuit(preInputs: seq<Utxo>, utxos: seq<Utxo>, outputs: seq<Target>, feeRate: int, changeAddress: Option<string>)
    ensures var r := AccumulativeSpec(preInputs, utxos, outputs, feeRate, changeAddress);
      && (Exceeds(preInputs, outputs, feeRate) ==> r == Finalize(preInputs, outputs, feeRate, changeAddress))
      && (r.Funded? && |r.inputs| == |preInputs| <==> Exceeds(preInputs, outputs, feeRate))
  {
    if !Exceeds(preInputs, outputs, feeRate) {
      WalkOutcome(preInputs, utxos, outputs, feeRate, changeAddress);
    }
  }

  /** Every successful selection starts with the mandatory inputs, in their
      order, followed by a leading run of the non-skipped candidates; so no
      chosen candidate is uneconomic and the chosen candidates keep their
      relative order in `utxos`. */
  lemma AccumulativeChoosesEconomicPrefix(preInputs: seq<Utxo>, utxos: seq<Utxo>, outputs: seq<Target>, feeRate: int, changeAddress: Option<string>)
    ensures var r := AccumulativeSpec(preInputs, utxos, outputs, feeRate, changeAddress);
      r.Funded? ==>
        && |preInputs| <= |r.inputs|
        && r.inputs[..|preInputs|] == preInputs
        && |r.inputs| <= |preInputs| + |Economic(utxos, feeRate)|
        && r.inputs[|preInputs|..] == Economic(utxos, feeRate)[..|r.inputs| - |preInputs|]
        && IsSubsequence(r.inputs[|preInputs|..], utxos)
        && (forall i :: |preInputs| <= i < |r.inputs| ==> IsEconomic(r.inputs[i], feeRate))
  {
    var r := AccumulativeSpec(preInputs, utxos, outputs, feeRate, changeAddress);
    if r.Funded? && !Exceeds(preInputs, outputs, feeRate) {
      WalkOutcome(preInputs, utxos, outputs, feeRate, changeAddress);
      RunOfEconomic(preInputs, utxos, feeRate, r.inputs, |r.inputs| - |preInputs|);
    } else if r.Funded? {
      assert r.inputs[|preInputs|..] == [];
    }
  }

  /** Inputs made of the mandatory ones and a leading run of the
      non-skipped candidates: a subsequence of the candidates, all
      economic. */
  lemma RunOfEconomic(preInputs: seq<Utxo>, utxos: seq<Utxo>, feeRate: int, inputs: seq<Utxo>, n: nat)
    requires n <= |Economic(utxos, feeRate)|
    requires inputs == preInputs + Economic(utxos, feeRate)[..n]
    ensures inputs[..|preInputs|] == preInputs
    ensures inputs[|preInputs|..] == Economic(utxos, feeRate)[..n]
    ensures IsSubsequence(inputs[|preInputs|..], utxos)
    ensures forall i :: |preInputs| <= i < |inputs| ==> IsEconomic(inputs[i], feeRate)
  {
    var e := Economic(utxos, feeRate);
    assert inputs[|preInputs|..] == e[..n];
    EconomicIsFilter(utxos, feeRate);
    SubsequencePrefix(e, utxos, n);
    forall i | |preInputs| <= i < |inputs| ensures IsEconomic(inputs[i], feeRate) {
      assert inputs[i] == e[i - |preInputs|];
      assert inputs[i] in e;
    }
  }

  /** When candidates were added, the loop stopped at the first one that
      made the inputs cover the targets and the fee (non-strictly), and the
      mandatory inputs alone did not strictly exceed them. */
  lemma AccumulativeStopsAtFirstCover(preInputs: seq<Utxo>, utxos: seq<Utxo>, outputs: seq<Target>, feeRate: int, changeAddress: Option<string>)
    ensures var r := AccumulativeSpec(preInputs, utxos, outputs, feeRate, changeAddress);
      r.Funded? && |r.inputs| > |preInputs| ==>
        && !Exceeds(preInputs, outputs, feeRate)
        && Covers(r.inputs, outputs, feeRate)
        && (forall k :: |preInputs| < k < |r.inputs| ==> !Covers(r.inputs[..k], outputs, feeRate))
  {
    var r := AccumulativeSpec(preInputs, utxos, outputs, feeRate, changeAddress);
    if !Exceeds(preInputs, outputs, feeRate) {
      WalkOutcome(preInputs, utxos, outputs, feeRate, changeAddress);
      if r.Funded? {
        var e := Economic(utxos, feeRate);
        forall k | |preInputs| < k < |r.inputs| ensures !Covers(r.inputs[..k], outputs, feeRate) {
          assert r.inputs[..k] == preInputs + e[..k - |preInputs|];
        }
      }
    } else {
      AccumulativeShortCircuit(preInputs, utxos, outputs, feeRate, changeAddress);
    }
  }

  /** No leading run of `e`, added to `inputs`, covers the targets and the
      fee. */
  predicate NoRunCovers(inputs: seq<Utxo>, e: seq<Utxo>, outputs: seq<Target>, feeRate: int)
  {
    forall k :: 1 <= k <= |e| ==> !Covers(inputs + e[..k], outputs, feeRate)
  }

  /** The selection fails exactly when the mandatory inputs do not strictly
      exceed their cost and no leading run of non-skipped candidates covers
      the targets and the fee; the failure then reports the fee for the
      mandatory inputs with every non-skipped candidate. */
  lemma AccumulativeUnfunded(preInputs: seq<Utxo>, utxos: seq<Utxo>, outputs: seq<Target>, feeRate: int, changeAddress: Option<string>)
    ensures AccumulativeSpec(preInputs, utxos, outputs, feeRate, changeAddress).Unfunded?
        <==> !Exceeds(preInputs, outputs, feeRate) && NoRunCovers(preInputs, Economic(utxos, feeRate), outputs, feeRate)
    ensures var r := AccumulativeSpec(preInputs, utxos, outputs, feeRate, changeAddress);
      r.Unfunded? ==> r.fee == feeRate * TransactionBytes(preInputs + Economic(utxos, feeRate), outputs)
  {
    var r := AccumulativeSpec(preInputs, utxos, outputs, feeRate, changeAddress);
    var e := Economic(utxos, feeRate);
    if !Exceeds(preInputs, outputs, feeRate) {
      WalkOutcome(preInputs, utxos, outputs, feeRate, changeAddress);
      if r.Funded? {
        var n := |r.inputs| - |preInputs|;
        assert 1 <= n <= |e| && r.inputs == preInputs + e[..n];
        assert Covers(preInputs + e[..n], outputs, feeRate);
        assert !(forall k :: 1 <= k <= |e| ==> !Covers(preInputs + e[..k], outputs, feeRate));
      } else {
        assert forall k :: 1 <= k <= |e| ==> !Covers(preInputs + e[..k], outputs, feeRate);
      }
    }
  }

  lemma {:induction false} NoEconomicCandidates(utxos: seq<Utxo>, feeRate: int)
    requires forall u :: u in utxos ==> !IsEconomic(u, feeRate)
    ensures Economic(utxos, feeRate) == []
  {
    if utxos != [] {
      assert utxos[0] in utxos;
      NoEconomicCandidates(utxos[1..], feeRate);
    }
  }

  /** Mandatory inputs that pay the targets and the fee exactly are not
      finalized on their own: the short-circuit test is strict, so with no
      economic candidate the selection fails. */
  lemma ExactPreInputsWithoutCandidatesFail(preInputs: seq<Utxo>, utxos: seq<Utxo>, outputs: seq<Target>, feeRate: int, changeAddress: Option<string>)
    requires SumInputValues(preInputs) == SumOutputValues(outputs) + feeRate * TransactionBytes(preInputs, outputs)
    requires forall u :: u in utxos ==> !IsEconomic(u, feeRate)
    ensures AccumulativeSpec(preInputs, utxos, outputs, feeRate, changeAddress)
         == Unfunded(feeRate * TransactionBytes(preInputs, outputs))
  {
    var e := Economic(utxos, feeRate);
    NoEconomicCandidates(utxos, feeRate);
    AccumulativeUnfunded(preInputs, utxos, outputs, feeRate, changeAddress);
    assert preInputs + e == preInputs;
  }

  /** A successful selection keeps the targets in front, adds at most one
      change output, and its fee is the input value not paid out, which is
      at least the fee rate times the final transaction's size. */
  lemma AccumulativeFeeCovers(preInputs: seq<Utxo>, utxos: seq<Utxo>, outputs: seq<Target>, feeRate: int, changeAddress: Option<string>)
    ensures var r := AccumulativeSpec(preInputs, utxos, outputs, feeRate, changeAddress);
      r.Funded? ==>
        && |outputs| <= |r.outputs| <= |outputs| + 1
        && r.outputs[..|outputs|] == outputs
        && r.fee == SumInputValues(r.inputs) - SumOutputValues(r.outputs)
        && r.fee >= feeRate * TransactionBytes(r.inputs, r.outputs)
  {
    var r := AccumulativeSpec(preInputs, utxos, outputs, feeRate, changeAddress);
    if Exceeds(preInputs, outputs, feeRate) {
      FinalizeShape(preInputs, outputs, feeRate, changeAddress);
      FinalizeCoversFee(preInputs, outputs, feeRate, changeAddress);
    } else if r.Funded? {
      WalkOutcome(preInputs, utxos, outputs, feeRate, changeAddress);
      FinalizeShape(r.inputs, outputs, feeRate, changeAddress);
      FinalizeCoversFee(r.inputs, outputs, feeRate, changeAddress);
    }
  }
}
