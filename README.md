# bitcoin-utxo-select in Dafny

A model of the coin-selection pipeline of the bitcoin-utxo-select TypeScript
library, and proofs about it.

- **Size model** (`Sizes`). It estimates the serialized size of each input and output, and of a transaction built from them. It also defines the dust threshold and the value sums.
- **Scoring** (`Scoring`). A candidate's score is its value minus the fee for spending it. Candidates are sorted by descending score.
- **Finalizer** (`Finalizer`). It decides whether a change output is worth adding and computes the exact fee.
- **Accumulative selector** (`Selector`):
  1. It takes the mandatory inputs.
  2. It finalizes at once if they already strictly exceed the targets plus the fee.
  3. Otherwise it walks the candidates once, skipping the uneconomic ones, until the inputs cover the targets plus the fee.
  4. If the candidates run out first, it reports only a fee.
- **Entry point** (`CoinSelection`). It sorts, then selects.

All values, fee rates and sizes are unbounded integers. Byte arrays are represented by their lengths.

The size, scoring and finalize code is written as functions. The selector is a method whose two loops keep running byte and value totals; it is proved equal to a functional specification, `AccumulativeSpec`. `CoinSelect` is a method because it invokes that method. Every property of a selection is proved about `AccumulativeSpec`.

`changeOutput` has no effect: `finalize` takes only four parameters (utils.ts:102-107), so the flag is dropped. `DustThreshold` is 41 + 107 × feeRate (utils.ts:82-85).

## Model

| member | source | states |
|---|---|---|
| Sizes.CeilDiv4 | utils.ts:24 | the result is the ceiling of n/4: `n <= 4r < n + 4` |
| Sizes.InputBytes | utils.ts:16-43 | every input costs at least the 41-byte base |
| Sizes.LegacyInputBytes | utils.ts:16-43 | an input with no redeem script, witness script, taproot flag or witness utxo costs exactly 148 bytes |
| Sizes.RedeemScriptInputBytes | utils.ts:19-40 | a redeem script alone adds its exact length and suppresses the 107-byte legacy addition |
| Sizes.WitnessScriptTakesPrecedence | utils.ts:23-40 | a witness script adds ceil(len/4), and changing the taproot flag, taproot witness or witness utxo then leaves the size unchanged |
| Sizes.TaprootInputBytes | utils.ts:25-35 | taproot without a witness stack adds 17; with stack item lengths L it adds ceil((68 + ΣL)/4) + 1; the witness utxo is then ignored |
| Sizes.SegwitInputBytes | utils.ts:36-37 | a plain witness utxo adds 27 bytes to the base and any redeem script |
| Sizes.Utf16Length | utils.ts:55 | the address length as JavaScript counts it, in UTF-16 code units; between the character count and twice it |
| Sizes.BmpUtf16Length | utils.ts:55 | for characters up to U+FFFF (every ASCII address) the UTF-16 length is the character count |
| Sizes.StartsWith | utils.ts:51-61 | computes whether the string begins with the prefix |
| Sizes.IsBech32Prefixed | utils.ts:51-53 | computes whether the address begins with bc1, tb1 or bcrt1 |
| Sizes.IsScriptHashPrefixed | utils.ts:61 | computes whether the address begins with 3 or 2 |
| Sizes.OutputBytes | utils.ts:45-68 | every output costs at least the 9-byte base |
| Sizes.ScriptOutputBytes | utils.ts:48-49 | with a script the cost is 9 plus its length, whatever the address |
| Sizes.AddressOutputBytes | utils.ts:50-68 | a bech32-prefixed address of length 42 or 44 costs 31; other lengths cost 43; prefix 3 or 2 costs 32; anything else, or no address, costs 34 = BLANK_OUTPUT |
| Sizes.RedeemLength | utils.ts:19-21 | computes the redeem script's length, 0 when there is none |
| Sizes.StackBytes | utils.ts:30 | computes the total byte length of the taproot witness-stack items |
| Sizes.SumInputBytes | utils.ts:90 | computes the sum of the input sizes |
| Sizes.SumOutputBytes | utils.ts:91 | computes the sum of the output sizes |
| Sizes.SumInputValues | utils.ts:98-100 | computes the sum of the input values |
| Sizes.TargetValue | utils.ts:99 | computes a target's value, 0 when it has none |
| Sizes.SumOutputValues | utils.ts:98-100 | computes the sum of the target values, missing values as 0 |
| Sizes.DustThreshold | utils.ts:82-85 | computes 41 + 107 × feeRate |
| Sizes.TransactionBytes | utils.ts:87-93 | the size is at least 10 + 41 per input + 9 per output |
| Sizes.SumInputBytesAtLeast | utils.ts:90 | the input size sum is at least 41 per input |
| Sizes.SumOutputBytesAtLeast | utils.ts:91 | the output size sum is at least 9 per output |
| Sizes.AddInputBytes | utils.ts:87-93 | appending one input grows the transaction by exactly that input's size |
| Sizes.AddInputValue | utils.ts:98-100 | appending one input adds exactly its value to the input sum |
| Sizes.AddOutput | utils.ts:87-100 | appending one target adds its value, or 0 when it has none, and grows the transaction by its output size |
| Sizes.SumInputBytesConcat | utils.ts:90 | the input size sum is additive over concatenation |
| Sizes.SumInputValuesConcat | utils.ts:98-100 | the input value sum is additive over concatenation |
| Sizes.SumOutputValuesConcat | utils.ts:98-100 | the target value sum, with missing values as 0, is additive over concatenation |
| Sizes.TransactionBytesConcat | utils.ts:87-93 | concatenating inputs adds their sizes; the 10-byte overhead is counted once |
| Scoring.UtxoScore | utils.ts:71-73 | computes the value minus feeRate × the input size |
| Scoring.ScoreOrdered | utils.ts:76-80 | holds when scores do not increase from front to back |
| Scoring.InsertByScore | utils.ts:76-80 | inserting adds exactly the one element: the multiset grows by `x` |
| Scoring.InsertByScoreOrdered | utils.ts:76-80 | insertion into a score-ordered list keeps it ordered |
| Scoring.SortUtxoBasedOnScore | utils.ts:76-80 | the result is a permutation of the argument (same multiset and length) with non-increasing score |
| Scoring.InsertLowest | utils.ts:76-80 | an element scoring no higher than all others is placed last |
| Scoring.SortOrderedIsIdentity | utils.ts:76-80 | sorting an already score-ordered list returns it unchanged, so ties keep their order |
| Scoring.SortIdempotent | utils.ts:76-80 | sorting twice equals sorting once |
| Finalizer.ChangeFee | utils.ts:112-115 | computes the change output's size: from the change address when it is non-empty, else 34 |
| Finalizer.Remainder | utils.ts:117-119 | computes Σin − (Σout + feeRate × (bytes + changeFee)) |
| Finalizer.ChangeOutput | utils.ts:123-126 | builds the change output: the change address and the remainder as value |
| Finalizer.WantsChange | utils.ts:122 | holds when the remainder exceeds the dust threshold |
| Finalizer.Finalize | utils.ts:102-137 | the result is funded and returns the given inputs unchanged |
| Finalizer.FinalizeShape | utils.ts:112-136 | outputs are the targets, plus exactly one change output carrying the remainder iff the remainder exceeds 41 + 107·feeRate; fee = Σin − Σreturned outputs |
| Finalizer.ChangeFeeIsOutputBytes | utils.ts:112-126 | the change fee charged equals the size of the change output actually appended, with or without an address |
| Finalizer.FinalizeWithChange | utils.ts:117-129 | with change, fee = feeRate·(bytes + changeFee) = feeRate × final transaction size, and the change exceeds the dust threshold |
| Finalizer.FinalizeWithoutChange | utils.ts:119-129 | without change, the targets are returned as given and the fee is the whole surplus, bounded by the fee with change plus dust |
| Finalizer.FinalizeCoversFee | utils.ts:117-136 | if the inputs cover targets plus fee for the current size, the fee is at least feeRate × the final size |
| Finalizer.FeeAt | utils.ts:117-129 | the fee is feeRate·(bytes + changeFee) when the surplus beyond it beats dust, else the whole surplus |
| Finalizer.FinalizeFeeMonotonic | utils.ts:117-129 | for fixed inputs and targets, a higher non-negative fee rate never gives a lower fee |
| Selector.IsEconomic | algo/accumulative.ts:28-33 | holds when the candidate's input fee does not exceed its value |
| Selector.Economic | algo/accumulative.ts:28-33 | computes the candidates not skipped, in order |
| Selector.Covers | algo/accumulative.ts:39-42 | holds when the input value is at least the target value plus feeRate × size |
| Selector.Exceeds | algo/accumulative.ts:22-23 | holds when the input value strictly exceeds the target value plus feeRate × size |
| Selector.Walk | algo/accumulative.ts:27-49 | computes the candidate loop's result from a state: skip uneconomic candidates, add the others, finalize at the first covering state, else report feeRate × size |
| Selector.AccumulativeSpec | algo/accumulative.ts:22-49 | computes the selector's result: finalize the mandatory inputs on strict excess, else the candidate loop from them |
| Selector.EconomicIsFilter | algo/accumulative.ts:28-33 | the non-skipped candidates are an in-order subsequence holding every economic candidate and nothing else |
| Selector.Accumulative | algo/accumulative.ts:4-50 | the two-loop method returns exactly `AccumulativeSpec`; the mandatory-input loop keeps `inAccum == sumValues(inputs)` and the candidate loop keeps `bytesAccum == transactionBytes(inputs, outputs)` and `inAccum == sumValues(inputs)` |
| Selector.SkipStep | algo/accumulative.ts:28-33 | an uneconomic candidate is passed over without changing the state |
| Selector.TakeStep | algo/accumulative.ts:35-44 | an economic candidate is added; the loop finalizes exactly when the inputs then cover the targets and fee |
| Selector.WalkOutcome | algo/accumulative.ts:27-49 | the loop stops at the first non-skipped candidate whose addition covers the targets and fee; every earlier state fell short; failure reports feeRate × size of all inputs plus every non-skipped candidate |
| Selector.AccumulativeShortCircuit | algo/accumulative.ts:22-25 | with strict excess the mandatory inputs alone are finalized, and a funded result adds no candidate iff there is strict excess |
| Selector.AccumulativeChoosesEconomicPrefix | algo/accumulative.ts:14-37 | a funded result starts with the mandatory inputs in order, then a leading run of the non-skipped candidates: a subsequence of `utxos`, all economic |
| Selector.AccumulativeStopsAtFirstCover | algo/accumulative.ts:39-44 | when candidates were added, the final inputs cover (non-strictly) and no shorter accepted state did |
| Selector.AccumulativeUnfunded | algo/accumulative.ts:47-49 | the result is fee-only iff there is no strict excess and no run of non-skipped candidates covers; its fee is feeRate × size of mandatory plus all non-skipped candidates |
| Selector.ExactPreInputsWithoutCandidatesFail | algo/accumulative.ts:22-49 | mandatory inputs paying exactly, with no economic candidate, give a fee-only result: the short-circuit test is strict |
| Selector.AccumulativeFeeCovers | algo/accumulative.ts:24-44 | a funded result keeps the targets in front plus at most one output; fee = Σin − Σout ≥ feeRate × final size |
| CoinSelection.EconomicIffScoreNonNegative | algo/accumulative.ts:28-33 | a candidate is spent exactly when its score is non-negative |
| CoinSelection.UneconomicHead | utils.ts:71-80 | if the best-scoring candidate is uneconomic, no candidate is economic |
| CoinSelection.EconomicOfOrderedIsPrefix | index.ts:13-14 | on score-ordered candidates the non-skipped ones are a prefix of the list |
| CoinSelection.OrderedSelectionTakesBestCandidates | index.ts:13-14 | over score-ordered candidates a funded result is the mandatory inputs, then a leading run of the ordered candidates, all economic and in score order |
| CoinSelection.CoinSelectDrawsFromCandidates | index.ts:13-14 | every chosen input is a mandatory input or a candidate, with multiplicity |
| CoinSelection.CoinSelectPaysForItsSize | index.ts:13-14 | a funded result's fee is Σin − Σout and pays at least feeRate × its size |
| CoinSelection.CoinSelect | index.ts:5-15 | equals `accumulative` on the score-sorted candidates with the mandatory inputs unreordered; a funded result takes the best candidates, draws only from the inputs given, and pays for its size |
| CoinSelection.SingleLegacyCandidateExample | index.ts:5-15 | one 100000 legacy candidate paying 50000 at rate 1 gives the 192-byte transaction plus a 49774 change output and a fee of 226 |

## Left out

- Floating point. `value` and `feeRate` are unbounded integers, and `Math.ceil(x/4)` is integer ceiling division. The `isFinite` fallback (utils.ts:130) cannot be reached with integers, so `Finalize` always returns a funded result.
- Byte contents and identifiers. Byte arrays appear only as lengths. `txid` and `vout` are carried but never read. `nonWitnessUtxo` is omitted because no code reads it. `witnessUtxo` is a presence flag.
- Scoring.SortUtxoBasedOnScore: does not model the in-place mutation of the caller's array by `Array.prototype.sort`. The model sorts a copy, so aliasing is not captured. Ties are fixed by a stable insertion order, as in a stable sort; no property relies on the order of ties beyond `SortOrderedIsIdentity`.
- `taprootWitness` is read by `inputBytes` but not declared in types.ts. It is modelled as an optional sequence of item lengths.
- `changeOutput` and its default of `true`. It is a parameter of `Accumulative` and `CoinSelect` with no effect, because `finalize` ignores it.
- Change address. Without one, the change output has no address. An empty string costs the blank output, since JavaScript treats it as falsy. No validation is added.
- Real address parsing (bech32, base58). Only the prefix and length tests of `outputBytes` are modelled. The length is counted in UTF-16 code units, as JavaScript does.
- The re-exports of index.ts:17-19 and the type-only declarations of types.ts, beyond the datatypes.
