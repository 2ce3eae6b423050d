/** UTXO scoring and the descending-score ordering of candidates. */
module Scoring {
  import opened Types
  import opened Sizes

  /** A candidate's value net of the fee for spending it. */
  function UtxoScore(u: Utxo, feeRate: int): int
  {
    u.value - feeRate * InputBytes(u)
  }

  /** Non-increasing score from front to back. */
  predicate ScoreOrdered(s: seq<Utxo>, feeRate: int)
  {
    forall i, j :: 0 <= i < j < |s| ==> UtxoScore(s[i], feeRate) >= UtxoScore(s[j], feeRate)
  }

  /** Putting an element in front of an ordered list that scores no higher
      keeps the list ordered. */
  lemma ConsOrdered(a: Utxo, t: seq<Utxo>, feeRate: int)
    requires ScoreOrdered(t, feeRate)
    requires forall y :: y in t ==> UtxoScore(a, feeRate) >= UtxoScore(y, feeRate)
    ensures ScoreOrdered([a] + t, feeRate)
  {
    var s := [a] + t;
    forall i, j | 0 <= i < j < |s| ensures UtxoScore(s[i], feeRate) >= UtxoScore(s[j], feeRate) {
      assert s[j] == t[j - 1];
      if i == 0 {
        assert s[j] in t;
      } else {
        assert s[i] == t[i - 1];
      }
    }
  }

  /** In an ordered list the first element scores highest. */
  lemma HeadScoresHighest(s: seq<Utxo>, feeRate: int)
    requires ScoreOrdered(s, feeRate) && s != []
    ensures forall y :: y in s ==> UtxoScore(s[0], feeRate) >= UtxoScore(y, feeRate)
  {
    forall y | y in s ensures UtxoScore(s[0], feeRate) >= UtxoScore(y, feeRate) {
      var k :| 0 <= k < |s| && s[k] == y;
      assert k == 0 || UtxoScore(s[0], feeRate) >= UtxoScore(s[k], feeRate);
    }
  }

  /** Inserts `x` after the leading elements that score at least as high,
      so that elements of equal score keep the order in which they were
      inserted. */
  function InsertByScore(x: Utxo, s: seq<Utxo>, feeRate: int): (r: seq<Utxo>)
    ensures multiset(r) == multiset(s) + multiset{x}
  {
    if s == [] then [x]
    else if UtxoScore(s[0], feeRate) >= UtxoScore(x, feeRate) then
      assert s == [s[0]] + s[1..];
      [s[0]] + InsertByScore(x, s[1..], feeRate)
    else
      [x] + s
  }

  /** Insertion into an ordered list keeps it ordered. */
  lemma {:induction false} InsertByScoreOrdered(x: Utxo, s: seq<Utxo>, feeRate: int)
    requires ScoreOrdered(s, feeRate)
    ensures ScoreOrdered(InsertByScore(x, s, feeRate), feeRate)
  {
    if s == [] {
    } else if UtxoScore(s[0], feeRate) >= UtxoScore(x, feeRate) {
      var tail := s[1..];
      var rest := InsertByScore(x, tail, feeRate);
      assert ScoreOrdered(tail, feeRate);
      InsertByScoreOrdered(x, tail, feeRate);
      HeadScoresHighest(s, feeRate);
      forall y | y in rest ensures UtxoScore(s[0], feeRate) >= UtxoScore(y, feeRate) {
        assert y in multiset(rest);
        assert y == x || y in tail;
      }
      ConsOrdered(s[0], rest, feeRate);
    } else {
      HeadScoresHighest(s, feeRate);
      ConsOrdered(x, s, feeRate);
    }
  }

  /** A stable sort
      by descending score, on a copy. */
  function SortUtxoBasedOnScore(utxos: seq<Utxo>, feeRate: int): (r: seq<Utxo>)
    ensures ScoreOrdered(r, feeRate)
    ensures multiset(r) == multiset(utxos)
    ensures |r| == |utxos|
  {
    if utxos == [] then []
    else
      var init := utxos[..|utxos| - 1];
      assert utxos == init + [utxos[|utxos| - 1]];
      var sorted := SortUtxoBasedOnScore(init, feeRate);
      var r := InsertByScore(utxos[|utxos| - 1], sorted, feeRate);
      InsertByScoreOrdered(utxos[|utxos| - 1], sorted, feeRate);
      assert |r| == |multiset(r)|;
      r
  }

  /** An element scoring no higher than everything in `s` goes at the end. */
  lemma {:induction false} InsertLowest(x: Utxo, s: seq<Utxo>, feeRate: int)
    requires forall i :: 0 <= i < |s| ==> UtxoScore(s[i], feeRate) >= UtxoScore(x, feeRate)
    ensures InsertByScore(x, s, feeRate) == s + [x]
  {
    if s != [] {
      InsertLowest(x, s[1..], feeRate);
      assert s == [s[0]] + s[1..];
    }
  }

  /** Dropping the last element of an ordered list leaves it ordered, and
      that element scores no higher than any before it. */
  lemma LastScoresLowest(init: seq<Utxo>, last: Utxo, feeRate: int)
    requires ScoreOrdered(init + [last], feeRate)
    ensures ScoreOrdered(init, feeRate)
    ensures forall i :: 0 <= i < |init| ==> UtxoScore(init[i], feeRate) >= UtxoScore(last, feeRate)
  {
    var s := init + [last];
    assert forall i :: 0 <= i < |init| ==> s[i] == init[i];
    assert s[|init|] == last;
  }

  /** Sorting a list that is already in score order leaves it unchanged. */
  lemma {:induction false} SortOrderedIsIdentity(s: seq<Utxo>, feeRate: int)
    requires ScoreOrdered(s, feeRate)
    ensures SortUtxoBasedOnScore(s, feeRate) == s
  {
    if s != [] {
      var init := s[..|s| - 1];
      var last := s[|s| - 1];
      assert init + [last] == s;
      LastScoresLowest(init, last, feeRate);
      SortOrderedIsIdentity(init, feeRate);
      InsertLowest(last, init, feeRate);
    }
  }

  /** Sorting twice is the same as sorting once. */
  lemma SortIdempotent(s: seq<Utxo>, feeRate: int)
    ensures SortUtxoBasedOnScore(SortUtxoBasedOnScore(s, feeRate), feeRate) == SortUtxoBasedOnScore(s, feeRate)
  {
    SortOrderedIsIdentity(SortUtxoBasedOnScore(s, feeRate), feeRate);
  }
}
