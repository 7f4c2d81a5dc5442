/**
 The unsigned integer widths of the UTXO pallet, each the range
 `0 <= n < 2^width`: block numbers (`u32`, `u64`) and balances (`u128`).
 */
module Widths {
  type U32 = n: nat | n < 0x1_0000_0000
  type U64 = n: nat | n < 0x1_0000_0000_0000_0000
  type U128 = n: nat | n < 0x1_0000_0000_0000_0000_0000_0000_0000_0000
}
