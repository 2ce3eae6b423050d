/** The entry point of index.ts: order the candidates by score, then run
    the accumulative selector. */
module CoinSelection {
  import opened Types
  import opened Sizes
  import opened Scoring
  import opened Finalizer
  import opened Selector

  /** A candidate is spent exactly when its score is not negative. */
  lemma EconomicIffScoreNonNegative(u: Utxo, feeRate: int)
    ensures IsEconomic(u, feeRate) <==> UtxoScore(u, feeRate) >= 0
  {
  }

  /** Once the best-scoring candidate is uneconomic, every candidate is. */
  lemma UneconomicHead(s: seq<Utxo>, feeRate: int)
    requires ScoreOrdered(s, feeRate) && s != [] && !IsEconomic(s[0], feeRate)
    ensures Economic(s, feeRate) == []
  {
    HeadScoresHighest(s, feeRate);
    EconomicIffScoreNonNegative(s[0], feeRate);
    forall u | u in s ensures !IsEconomic(u, feeRate) {
      EconomicIffScoreNonNegative(u, feeRate);
    }
    NoEconomicCandidates(s, feeRate);
  }

  /** In score order the economic candidates come first, so the ones the
      selector keeps form a prefix of the ordered list. */
  lemma {:induction false} EconomicOfOrderedIsPrefix(s: seq<Utxo>, feeRate: int)
    requires ScoreOrdered(s, feeRate)
    ensures |Economic(s, feeRate)| <= |s|
    ensures Economic(s, feeRate) == s[..|Economic(s, feeRate)|]
  {
    if s == [] {
    } else if IsEconomic(s[0], feeRate) {
      var tail := s[1..];
      assert ScoreOrdered(tail, feeRate);
      EconomicOfOrderedIsPrefix(tail, feeRate);
      var m := |Economic(tail, feeRate)|;
      assert Economic(s, feeRate) == [s[0]] + tail[..m];
      assert s[..m + 1] == [s[0]] + tail[..m];
    } else {
      UneconomicHead(s, feeRate);
    }
  }

  lemma PrefixOrdered(s: seq<Utxo>, n: nat, feeRate: int)
    requires ScoreOrdered(s, feeRate) && n <= |s|
    ensures ScoreOrdered(s[..n], feeRate)
  {
    assert forall i :: 0 <= i < n ==> s[..n][i] == s[i];
  }

  /** After the mandatory inputs, a funded result holds a leading run of
      the ordered candidates, all economic and in non-increasing score. */
  predicate TakesLeadingRun(preInputs: seq<Utxo>, ordered: seq<Utxo>, feeRate: int, r: Selection)
  {
    && r.Funded?
    && |preInputs| <= |r.inputs| <= |preInputs| + |ordered|
    && r.inputs == preInputs + ordered[..|r.inputs| - |preInputs|]
    && ScoreOrdered(r.inputs[|preInputs|..], feeRate)
    && (forall i :: |preInputs| <= i < |r.inputs| ==> IsEconomic(r.inputs[i], feeRate))
  }

  /** Over score-ordered candidates, a funded selection takes a leading run
      of them after the mandatory inputs. */
  lemma OrderedSelectionTakesBestCandidates(preInputs: seq<Utxo>, ordered: seq<Utxo>, outputs: seq<Target>, feeRate: int, changeAddress: Option<string>)
    requires ScoreOrdered(ordered, feeRate)
    ensures var r := AccumulativeSpec(preInputs, ordered, outputs, feeRate, changeAddress);
      r.Funded? ==> TakesLeadingRun(preInputs, ordered, feeRate, r)
  {
    var r := AccumulativeSpec(preInputs, ordered, outputs, feeRate, changeAddress);
    AccumulativeChoosesEconomicPrefix(preInputs, ordered, outputs, feeRate, changeAddress);
    if r.Funded? {
      EconomicOfOrderedIsPrefix(ordered, feeRate);
      var n := |r.inputs| - |preInputs|;
      var e := Economic(ordered, feeRate);
      assert e[..n] == ordered[..n];
      assert r.inputs == r.inputs[..|preInputs|] + r.inputs[|preInputs|..];
      PrefixOrdered(ordered, n, feeRate);
    }
  }

  /** Every input of a selection over a permutation of the candidates is a
      mandatory input or one of the candidates. */
  lemma SelectionDrawsFromCandidates(preInputs: seq<Utxo>, utxos: seq<Utxo>, ordered: seq<Utxo>, n: nat)
    requires multiset(ordered) == multiset(utxos) && n <= |ordered|
    ensures multiset(preInputs + ordered[..n]) <= multiset(preInputs) + multiset(utxos)
  {
    assert ordered == ordered[..n] + ordered[n..];
  }

  /** Every input is a mandatory input or one of the candidates. */
  predicate DrawsFromCandidates(preInputs: seq<Utxo>, utxos: seq<Utxo>, r: Selection)
  {
    r.Funded? && multiset(r.inputs) <= multiset(preInputs) + multiset(utxos)
  }

  /** The fee is the input value not paid out, and it is at least the fee
      rate times the final transaction's size. */
  predicate PaysForItsSize(feeRate: int, r: Selection)
  {
    && r.Funded?
    && r.fee == SumInputValues(r.inputs) - SumOutputValues(r.outputs)
    && r.fee >= feeRate * TransactionBytes(r.inputs, r.outputs)
  }

  lemma CoinSelectDrawsFromCandidates(preInputs: seq<Utxo>, utxos: seq<Utxo>, outputs: seq<Target>, feeRate: int, changeAddress: Option<string>)
    ensures var r := AccumulativeSpec(preInputs, SortUtxoBasedOnScore(utxos, feeRate), outputs, feeRate, changeAddress);
      r.Funded? ==> DrawsFromCandidates(preInputs, utxos, r)
  {
    var ordered := SortUtxoBasedOnScore(utxos, feeRate);
    var r := AccumulativeSpec(preInputs, ordered, outputs, feeRate, changeAddress);
    OrderedSelectionTakesBestCandidates(preInputs, ordered, outputs, feeRate, changeAddress);
    if r.Funded? {
      var n := |r.inputs| - |preInputs|;
      assert TakesLeadingRun(preInputs, ordered, feeRate, r);
      assert 0 <= n <= |ordered| && r.inputs == preInputs + ordered[..n];
      SelectionDrawsFromCandidates(preInputs, utxos, ordered, n);
    }
  }

  lemma CoinSelectPaysForItsSize(preInputs: seq<Utxo>, utxos: seq<Utxo>, outputs: seq<Target>, feeRate: int, changeAddress: Option<string>)
    ensures var r := AccumulativeSpec(preInputs, SortUtxoBasedOnScore(utxos, feeRate), outputs, feeRate, changeAddress);
      r.Funded? ==> PaysForItsSize(feeRate, r)
  {
    AccumulativeFeeCovers(preInputs, SortUtxoBasedOnScore(utxos, feeRate), outputs, feeRate, changeAddress);
  }

  /** `coinSelect`: sort the candidates by descending score (on a copy),
      then select; a funded result is drawn from the best-scoring
      candidates and pays for its size. `changeOutput` has no effect, as in
      the source. */
  method CoinSelect(preInputs: seq<Utxo>, utxos: seq<Utxo>, outputs: seq<Target>, feeRate: int,
                    changeAddress: Option<string>, changeOutput: bool) returns (r: Selection)
    ensures r == AccumulativeSpec(preInputs, SortUtxoBasedOnScore(utxos, feeRate), outputs, feeRate, changeAddress)
    ensures r.Funded? ==> TakesLeadingRun(preInputs, SortUtxoBasedOnScore(utxos, feeRate), feeRate, r)
    ensures r.Funded? ==> DrawsFromCandidates(preInputs, utxos, r)
    ensures r.Funded? ==> PaysForItsSize(feeRate, r)
  {
    var orderedUtxos := SortUtxoBasedOnScore(utxos, feeRate);
    r := Accumulative(preInputs, orderedUtxos, outputs, feeRate, changeAddress, changeOutput);
    OrderedSelectionTakesBestCandidates(preInputs, orderedUtxos, outputs, feeRate, changeAddress);
    CoinSelectDrawsFromCandidates(preInputs, utxos, outputs, feeRate, changeAddress);
    CoinSelectPaysForItsSize(preInputs, utxos, outputs, feeRate, changeAddress);
  }

  /** One legacy candidate of 100000 units paying a 50000-unit target at one
      unit per byte: the 192-byte transaction is funded, a change output of
      49774 units is added, and the fee is 226, the rate times the size with
      the change output. */
  lemma SingleLegacyCandidateExample()
    ensures var u := Utxo("tx", 0, 100000, false, None, None, false, None);
      var t := Target(None, None, Some(50000));
      AccumulativeSpec([], SortUtxoBasedOnScore([u], 1), [t], 1, None)
        == Funded([u], [t, Target(None, None, Some(49774))], 226)
  {
    var u := Utxo("tx", 0, 100000, false, None, None, false, None);
    var t := Target(None, None, Some(50000));
    assert SortUtxoBasedOnScore([u], 1) == [u];
    assert [] + [u] == [u];
    assert InputBytes(u) == 148;
    assert SumInputBytes([u]) == 148 by { assert [u][..0] == []; }
    assert SumOutputBytes([t]) == 34 by { assert [t][..0] == []; }
    assert TransactionBytes([u], [t]) == 192;
    assert SumInputValues([u]) == 100000 by { assert [u][..0] == []; }
    assert SumOutputValues([t]) == 50000 by { assert [t][..0] == []; }
    var c := Target(None, None, Some(49774));
    assert SumOutputValues([t, c]) == 99774 by { assert [t, c][..1] == [t]; }
  }
}
