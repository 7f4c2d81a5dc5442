# UTXO pallet: issuance policy and ledger records

A Dafny model of the two logic-bearing pieces of the UTXO pallet of a
Substrate-based UTXO chain:

- **The block-subsidy (issuance) policy** (`pallets/utxo/src/issuance.rs`):
  the null policy, which never issues anything, and the Bitcoin-style
  halving policy. The halving policy pays 50 per block and halves every
  210,000 blocks. It pays 0 once 64 or more halvings have happened.
  The `Issuance` trait is modelled by its common signature, block number
  to `u128` balance. The trait impl for `HalvingIssuance` does not compile
  as written: it uses `Issuance` without type arguments and names
  `BlockNumber`/`Balance`, which are not in scope. It is therefore
  modelled as `u32 -> u128`, the types of the policy's constants and of
  the null impl for `u32`.
- **The ledger records and genesis seeding** (`pallets/utxo/src/lib.rs`):
  `TransactionInput`, `TransactionOutput` and `Transaction`, with the
  equality, order and defaults their derives give them. `Value` is
  `u128`. The `UtxoStore` map from `H256` to `Option<TransactionOutput>`
  is seeded at genesis with each configured output keyed by its own hash.

Files:

- `wrappers.dfy`: `Option`.
- `widths.dfy`: the unsigned widths `U32`, `U64` and `U128`.
- `ordering.dfy`: three-way comparison (`Ordering`), Rust's
  `Ordering::then`, and the lexicographic order on sequences. The lemmas
  show that the lexicographic order inherits a total order from its
  elements.
- `issuance.dfy`: both policies, the shift as a mathematical operation,
  the intended reference value `50 / 2^halvings`, the `u32` shift as
  written, and their properties.
- `ledger.dfy`: the records, their derived order and defaults.
- `genesis.dfy`: the store, the genesis entry list and the seeding.

Integers are unbounded in Dafny. The source's widths are subset types:
`U32`, `U64` and `U128`, each `0 <= v < 2^width`, and `Value` is
`U128`. So every
output value lies in `[0, 2^128)` by its type, and every subsidy fits
in `u128`. Hashes are fixed-width byte strings: `H256` is 32 bytes and
`H512` is 64. `BlakeTwo256::hash_of` is not modelled; it is the function
parameter `hashOf`. Every genesis property holds for any `hashOf`,
except `GenesisOutputsPresent` and `GenesisStoreSize`. Those two assume
the configured outputs have distinct hashes.

The pallet's code has no dispatchable calls and no errors:
`decl_module!` and `decl_error!` are empty. So there is no spend or
block-finalisation logic to model (see below).

## Model

| member | source | states |
|---|---|---|
| `Issuance.NoIssuance32` | pallets/utxo/src/issuance.rs:8-12 | The null policy for `u32` block numbers returns 0 for every block. |
| `Issuance.NoIssuance64` | pallets/utxo/src/issuance.rs:14-16 | The null policy for `u64` block numbers returns 0 for every block. |
| `Issuance.Halvings` | pallets/utxo/src/issuance.rs:29 | The halving count `h` is the era of the block: `h * 210000 <= block < (h + 1) * 210000`. |
| `Issuance.HalvingIssuance` | pallets/utxo/src/issuance.rs:27-39 | The halving policy, with the shift taken as a mathematical shift. Its result never exceeds the initial issuance of 50, so it fits in `u32` before being widened to `u128`. |
| `Issuance.ShrIsDivision` | pallets/utxo/src/issuance.rs:38 | Shifting right by `n` bits is floor division by `2^n`. |
| `Issuance.HalvingMatchesIntended` | pallets/utxo/src/issuance.rs:29-38 | At every block, the policy pays exactly `50 / 2^halvings`, rounded down. This includes the guarded range of 64 or more halvings. |
| `Issuance.EraConstancy` | pallets/utxo/src/issuance.rs:24-38 | Every block in era `h` (blocks `h*210000` to `(h+1)*210000 - 1`) has `h` halvings and pays what the era's first block pays. |
| `Issuance.FirstEraPaysInitial` | pallets/utxo/src/issuance.rs:24-38 | Blocks 0 to 209,999 pay exactly 50. |
| `Issuance.SubsidyAtFirstHalving` | pallets/utxo/src/issuance.rs:24-38 | Block 209,999 pays 50 and block 210,000 pays 25. |
| `Issuance.HalvesEachEra` | pallets/utxo/src/issuance.rs:24-38 | The block 210,000 later pays half the subsidy, rounded down. This holds across the 64-halving guard too. |
| `Issuance.NonIncreasing` | pallets/utxo/src/issuance.rs:25-38 | A later block never pays more than an earlier one. |
| `Issuance.EventuallyZero` | pallets/utxo/src/issuance.rs:29-38 | From block 1,260,000 (six halvings) on, the subsidy is 0. The 64-halving guard is one special case of this. |
| `Issuance.IntendedSubsidyVanishes` | pallets/utxo/src/issuance.rs:32-38 | After six or more halvings, both the shift of 50 and the intended value are 0. So the 64-halving guard returns the same 0 the shift would give. |
| `Issuance.ShrU32` | pallets/utxo/src/issuance.rs:38 | Rust's `u32 >> n`, stated against division. It panics (`None`) exactly when overflow checks are on and `n >= 32`. For `n < 32` it is `x / 2^n`. Without overflow checks it is always `x / 2^(n % 32)`. |
| `Issuance.HalvingIssuanceAsWritten` | pallets/utxo/src/issuance.rs:27-39 | The policy with the `u32` shift as written. It equals `HalvingIssuance` wherever the shift is defined (fewer than 32 halvings) and wherever the 64-halving guard applies. |
| `Issuance.ShiftOverflowRange` | pallets/utxo/src/issuance.rs:32-38 | For every block with 32 to 63 halvings, the code as written panics when overflow checks are on. Without them it pays the subsidy of era `halvings - 32` again. The intended subsidy is 0 throughout. |
| `Issuance.ShiftOverflowAtEra32` | pallets/utxo/src/issuance.rs:32-38 | At block 6,720,000 (32 halvings), the code as written panics, or without overflow checks pays 50 right after an era that paid 0. The intended subsidy there is 0. |
| `Ordering.Lex` | pallets/utxo/src/lib.rs:51-55 | The derived order of `Vec` and of byte arrays. `Equal` means equal lengths and every pair of elements `Equal`. When the common prefix compares `Equal`, the shorter sequence is the smaller. That the first differing pair decides is `Ordering.LexFirstDifference`. Its total-order laws are `Ordering.LexIsTotalOrder`. |
| `Ordering.LexFirstDifference` | pallets/utxo/src/lib.rs:51-55 | The first position where the elements differ decides: sequences whose elements compare `Equal` before `k` and differ at `k` compare as their elements at `k` do. |
| `Ordering.LexIsTotalOrder` | pallets/utxo/src/lib.rs:51-55 | If the element comparison is a total order whose `Equal` is equality, so is the lexicographic order on vectors. This is the derived `Ord` of `Vec`. |
| `Ledger.CompareBytes` | pallets/utxo/src/lib.rs:29-35 | The derived order of `H256`/`H512`: byte-wise lexicographic. It is `Equal` exactly for identical byte strings. The first differing byte decides (`Ledger.BytesFirstDifference`). Its total-order laws are `Ledger.BytesOrderIsTotal`. |
| `Ledger.BytesFirstDifference` | pallets/utxo/src/lib.rs:29-35 | Byte strings that agree before position `k` and differ at `k` compare as their bytes at `k` do. |
| `Ledger.CompareInputs` | pallets/utxo/src/lib.rs:28-36 | The derived order of `TransactionInput`. It is `Equal` exactly for equal inputs (the derived `PartialEq`). A differing `outpoint` decides; with equal `outpoint`s the `sigscript`s decide. Its total-order laws are `Ledger.InputOrderIsTotal`. |
| `Ledger.CompareOutputs` | pallets/utxo/src/lib.rs:40-48 | The derived order of `TransactionOutput`. It is `Equal` exactly for equal outputs. A smaller `value` is `Less` and a larger one `Greater`, whatever the `pubkey`; with equal `value`s the `pubkey`s decide. Its total-order laws are `Ledger.OutputOrderIsTotal`. |
| `Ledger.CompareTransactions` | pallets/utxo/src/lib.rs:50-55 | The derived order of `Transaction`. It is `Equal` exactly for equal transactions. Differing `inputs` decide lexicographically; with equal `inputs` the `outputs` decide lexicographically. Its total-order laws are `Ledger.TransactionOrderIsTotal`. |
| `Ledger.BytesOrderIsTotal` | pallets/utxo/src/lib.rs:30-35 | Byte-wise comparison of hashes is a total order. It answers `Equal` exactly for identical hashes. |
| `Ledger.InputOrderIsTotal` | pallets/utxo/src/lib.rs:28-36 | The derived order on `TransactionInput` compares `outpoint` first, then `sigscript`. It is total, and `Equal` holds iff both fields are equal (the derived `PartialEq`). |
| `Ledger.OutputOrderIsTotal` | pallets/utxo/src/lib.rs:40-48 | The derived order on `TransactionOutput` compares `value` first, then `pubkey`. It is total, and `Equal` holds iff both fields are equal. |
| `Ledger.TransactionOrderIsTotal` | pallets/utxo/src/lib.rs:50-55 | The derived order on `Transaction` compares `inputs`, then `outputs`, lexicographically. It is total, and `Equal` holds iff both are equal. |
| `Ledger.ZeroHashIsLeast` | pallets/utxo/src/lib.rs:29-32 | The default (all-zero) hash is below or equal to every hash. |
| `Ledger.DefaultInputIsLeast` | pallets/utxo/src/lib.rs:29-36 | The default input (zero outpoint, zero sigscript) is below or equal to every input. |
| `Ledger.DefaultOutputIsLeast` | pallets/utxo/src/lib.rs:41-48 | The default output (value 0, zero pubkey) is below or equal to every output. |
| `Ledger.DefaultTransactionIsLeast` | pallets/utxo/src/lib.rs:51-55 | The default transaction (no inputs, no outputs) is below or equal to every transaction. |
| `Genesis.UtxoAt` | pallets/utxo/src/lib.rs:68 | Reading the store gives `Some(output)` exactly for keys present, and `None` for any other key. |
| `Genesis.HashedEntries` | pallets/utxo/src/lib.rs:63-67 | The mapped list has one pair per output, in the same order. Pair `i` is `(hashOf(outputs[i]), outputs[i])`. |
| `Genesis.GenesisEntries` | pallets/utxo/src/lib.rs:62-68 | The build closure yields one entry per configured output, in order. Each entry is keyed by the hash of its own output. |
| `Genesis.Insert` | pallets/utxo/src/lib.rs:62-68 | Writing the entries one by one gives a store whose keys are exactly the entries' keys. |
| `Genesis.InsertHoldsEntries` | pallets/utxo/src/lib.rs:62-68 | Every stored `(key, output)` pair is one of the entries written. |
| `Genesis.InsertLastWriteWins` | pallets/utxo/src/lib.rs:62-68 | A key holds the output of the last entry written under it. |
| `Genesis.GenesisStore` | pallets/utxo/src/lib.rs:62-68 | The store after genesis. Its keys are exactly the hashes of the configured outputs, and every key is the hash of the output it holds. What each key holds is stated by `GenesisLastWriteWins` and `GenesisOutputsPresent`, and the absent keys by `UnseededKeyIsAbsent`. |
| `Genesis.UnseededKeyIsAbsent` | pallets/utxo/src/lib.rs:62-68 | A key that no configured output hashes to reads as `None` after genesis. |
| `Genesis.GenesisLastWriteWins` | pallets/utxo/src/lib.rs:62-68 | A configured output whose hash no later configured output shares is stored under its hash. This holds for any hash function. |
| `Genesis.GenesisOutputsPresent` | pallets/utxo/src/lib.rs:62-68 | If the configured outputs have distinct hashes, every configured output is stored under its hash. |
| `Genesis.GenesisStoreSize` | pallets/utxo/src/lib.rs:62-68 | If the configured outputs have distinct hashes, identical outputs share one entry. The store then has exactly one entry per distinct configured output. |

## Left out

- Transaction validation, spend application, the fee (reward) accumulator, reward dispersal and block-author lookup: none of them appears in these source files. `decl_module!` and `decl_error!` are empty (pallets/utxo/src/lib.rs:87-100).
- `decl_event!`, `decl_error!`, `decl_module!` and the `Config` trait: host-runtime plumbing with no logic here.
- SCALE `Encode`/`Decode`, serde, and the derived `Hash`, `Debug` and `Clone`: foreign serialisation and formatting with no behaviour to state.
- `BlakeTwo256` hashing: foreign cryptography. It is the parameter `hashOf`.
- sr25519 `Public`/`Signature`: foreign cryptography, unused by the code shown.
- The storage trie and `hasher(identity)`: the store is a Dafny `map`. A key that is absent reads as `None`.
- The halving policy for `u64` block numbers: the source gives the halving impl no concrete types. Only the `u32` instance is modelled. The null policy is modelled for both widths.
- Genesis.GenesisOutputsPresent: assumes the configured outputs have distinct hashes, because hash collision resistance is not modelled. `Genesis.GenesisLastWriteWins` states the collision case: the last write wins.
- Genesis.GenesisStoreSize: assumes distinct hashes for the configured outputs, for the same reason.

## Findings

| source | as written | input that shows it | evidently intended | confidence | as-written member | corrected member |
|---|---|---|---|---|---|---|
| pallets/utxo/src/issuance.rs:25-38 | `INITIAL_ISSUANCE` is a `u32`, so `INITIAL_ISSUANCE >> halvings` overflows for 32 to 63 halvings. The guard copied from 64-bit code only catches 64 or more. | Block 6,720,000 (32 halvings): the shift panics with overflow checks on. With them off it shifts by 0 and pays 50, after era 31 paid 0. | A subsidy of `50 / 2^halvings`, which is 0 from the sixth halving on. | not executed; follows from Rust's rule for shifts of at least the type's width | `Issuance.HalvingIssuanceAsWritten` (exhibited by `Issuance.ShiftOverflowRange` and `Issuance.ShiftOverflowAtEra32`) | `Issuance.HalvingIssuance` (proved by `Issuance.HalvingMatchesIntended`, `Issuance.NonIncreasing`) |
