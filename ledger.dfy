/**
 The ledger records of the UTXO pallet (pallets/utxo/src/lib.rs):
 transaction inputs, outputs and transactions, with the equality, order
 and defaults their `derive` attributes give them.

 Hashes are fixed-width byte arrays compared byte by byte; nothing about
 how they are computed is modelled here.
 */
module Ledger {
  import opened Ordering
  import opened Widths

  type Byte = b: int | 0 <= b < 256
  /** `H256`: 32 bytes. */
  type H256 = s: seq<Byte> | |s| == 32 witness seq(32, _ => 0)
  /** `H512`: 64 bytes (a signature). */
  type H512 = s: seq<Byte> | |s| == 64 witness seq(64, _ => 0)

  /** `Value = u128`. */
  type Value = U128

  datatype TransactionInput = TransactionInput(
    /** the output this input spends */
    outpoint: H256,
    /** proof that the spender may spend it */
    sigscript: H512)

  datatype TransactionOutput = TransactionOutput(
    /** the amount held */
    value: Value,
    /** the owner's key */
    pubkey: H256)

  datatype Transaction = Transaction(
    inputs: seq<TransactionInput>,
    outputs: seq<TransactionOutput>)

  // ---------------------------------------------------------------------
  // Derived `Default`: zero hashes, zero value, no inputs or outputs.

  const ZERO_H256: H256 := seq(32, _ => 0)
  const ZERO_H512: H512 := seq(64, _ => 0)
  const DEFAULT_INPUT := TransactionInput(ZERO_H256, ZERO_H512)
  const DEFAULT_OUTPUT := TransactionOutput(0, ZERO_H256)
  const DEFAULT_TRANSACTION := Transaction([], [])

  // ---------------------------------------------------------------------
  // Derived `PartialOrd`/`Ord`: fields compared in declaration order,
  // hashes and vectors lexicographically.

  function CompareByte(a: Byte, b: Byte): (r: Ordering)
    ensures r == Equal <==> a == b
  {
    CompareNat(a, b)
  }

  /** Byte strings (hashes, signatures) compare lexicographically, `Equal` only when identical. */
  function CompareBytes(a: seq<Byte>, b: seq<Byte>): (r: Ordering)
    ensures r == Equal <==> a == b
  {
    LexEqualMeansSame(a, b, CompareByte);
    Lex(a, b, CompareByte)
  }

  /**
   The first differing byte decides: byte strings that agree before
   position `k` and differ at `k` compare as their bytes at `k` do.
   */
  lemma BytesFirstDifference(a: seq<Byte>, b: seq<Byte>, k: nat)
    requires k < |a| && k < |b|
    requires a[..k] == b[..k] && a[k] != b[k]
    ensures CompareBytes(a, b) == CompareNat(a[k], b[k])
  {
    assert forall i :: 0 <= i < k ==> a[i] == a[..k][i] == b[..k][i] == b[i];
    LexFirstDifference(a, b, CompareByte, k);
  }

  /** `outpoint` decides, then `sigscript`; `Equal` is the derived `PartialEq`. */
  function CompareInputs(a: TransactionInput, b: TransactionInput): (r: Ordering)
    ensures r == Equal <==> a == b
    ensures a.outpoint != b.outpoint ==> r == CompareBytes(a.outpoint, b.outpoint)
    ensures a.outpoint == b.outpoint ==> r == CompareBytes(a.sigscript, b.sigscript)
  {
    CompareBytes(a.outpoint, b.outpoint).Then(CompareBytes(a.sigscript, b.sigscript))
  }

  /** `value` decides, then `pubkey`; `Equal` is the derived `PartialEq`. */
  function CompareOutputs(a: TransactionOutput, b: TransactionOutput): (r: Ordering)
    ensures r == Equal <==> a == b
    ensures a.value < b.value ==> r == Less
    ensures a.value > b.value ==> r == Greater
    ensures a.value == b.value ==> r == CompareBytes(a.pubkey, b.pubkey)
  {
    CompareNat(a.value, b.value).Then(CompareBytes(a.pubkey, b.pubkey))
  }

  /** `inputs` decide lexicographically, then `outputs`; `Equal` is the derived `PartialEq`. */
  function CompareTransactions(a: Transaction, b: Transaction): (r: Ordering)
    ensures r == Equal <==> a == b
    ensures a.inputs != b.inputs ==> r == Lex(a.inputs, b.inputs, CompareInputs)
    ensures a.inputs == b.inputs ==> r == Lex(a.outputs, b.outputs, CompareOutputs)
  {
    LexEqualMeansSame(a.inputs, b.inputs, CompareInputs);
    LexEqualMeansSame(a.outputs, b.outputs, CompareOutputs);
    Lex(a.inputs, b.inputs, CompareInputs).Then(Lex(a.outputs, b.outputs, CompareOutputs))
  }

  lemma ByteOrderIsTotal()
    ensures TotalOrder(CompareByte)
  {
  }

  /** Byte strings are totally ordered, and compare `Equal` only when identical. */
  lemma BytesOrderIsTotal()
    ensures TotalOrder(CompareBytes)
  {
    ByteOrderIsTotal();
    LexIsTotalOrder(CompareByte);
  }

  /** The input order is total and agrees with field-wise equality. */
  lemma InputOrderIsTotal()
    ensures TotalOrder(CompareInputs)
  {
    BytesOrderIsTotal();
  }

  /** The output order is total and agrees with field-wise equality. */
  lemma OutputOrderIsTotal()
    ensures TotalOrder(CompareOutputs)
  {
    BytesOrderIsTotal();
  }

  /** The transaction order is total and agrees with field-wise equality. */
  lemma TransactionOrderIsTotal()
    ensures TotalOrder(CompareTransactions)
  {
    InputOrderIsTotal();
    OutputOrderIsTotal();
    LexIsTotalOrder(CompareInputs);
    LexIsTotalOrder(CompareOutputs);
  }

  /** The zero hash is the least hash. */
  lemma ZeroHashIsLeast(h: H256)
    ensures CompareBytes(ZERO_H256, h) != Greater
  {
    LexLeastElementsFirst(ZERO_H256, h, 0, CompareByte);
  }

  /** The default input is below or equal to every input. */
  lemma DefaultInputIsLeast(i: TransactionInput)
    ensures CompareInputs(DEFAULT_INPUT, i) != Greater
  {
    ZeroHashIsLeast(i.outpoint);
    LexLeastElementsFirst(ZERO_H512, i.sigscript, 0, CompareByte);
  }

  /** The default output is below or equal to every output. */
  lemma DefaultOutputIsLeast(o: TransactionOutput)
    ensures CompareOutputs(DEFAULT_OUTPUT, o) != Greater
  {
    ZeroHashIsLeast(o.pubkey);
  }

  /** The default transaction is below or equal to every transaction. */
  lemma DefaultTransactionIsLeast(t: Transaction)
    ensures CompareTransactions(DEFAULT_TRANSACTION, t) != Greater
  {
  }
}
