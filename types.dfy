/** The data shapes of the library: spendable outputs, payment targets and
    the two-shaped selection result. Byte arrays are represented by their
    lengths, since only their lengths are ever read. */
module Types {

  datatype Option<+T> = None | Some(value: T)

  /** A spendable prior output. The optional descriptor fields decide its
      input size; `witnessUtxo` matters only by its presence, and
      `taprootWitness` holds the byte lengths of the witness-stack items. */
  datatype Utxo = Utxo(
    txid: string,
    vout: int,
    value: int,
    witnessUtxo: bool,
    redeemScript: Option<nat>,
    witnessScript: Option<nat>,
    isTaproot: bool,
    taprootWitness: Option<seq<nat>>)

  /** A payment output: a raw script (by length) or an address, and an
      optional value. */
  datatype Target = Target(address: Option<string>, script: Option<nat>, value: Option<int>)

  /** Inputs, outputs and fee on success; the fee alone on failure. */
  datatype Selection =
    | Funded(inputs: seq<Utxo>, outputs: seq<Target>, fee: int)
    | Unfunded(fee: int)
}
