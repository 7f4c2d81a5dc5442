/**
 The block-subsidy policies of the UTXO pallet (pallets/utxo/src/issuance.rs).

 The `Issuance` trait is one signature, block number to balance; its
 implementations are the functions below. Block numbers of the halving
 policy are `u32` and balances `u128`, the types of the null
 implementation for `u32` and of the policy's own constants.
 */
module Issuance {
  import opened Wrappers
  import opened Widths

  const HALVING_EVERY_BLOCKS: U32 := 210_000
  const INITIAL_ISSUANCE: U32 := 50
  /** Halvings from which the policy pays nothing without shifting. */
  const MAX_HALVINGS: nat := 64
  /** Width of the shifted value, `u32`. */
  const SHIFT_WIDTH: nat := 32

  // ---------------------------------------------------------------------
  // The null policy: no issuance at all.

  /** `impl Issuance<u32, u128> for ()`. */
  function NoIssuance32(block: U32): (r: U128)
    ensures r == 0
  {
    0
  }

  /** `impl Issuance<u64, u128> for ()`. */
  function NoIssuance64(block: U64): (r: U128)
    ensures r == 0
  {
    0
  }

  // ---------------------------------------------------------------------
  // The halving policy.

  function Pow2(n: nat): (r: nat)
    ensures r >= 1
  {
    if n == 0 then 1 else 2 * Pow2(n - 1)
  }

  /** Right shift of an unbounded unsigned value: each further bit halves it. */
  function Shr(x: nat, n: nat): (r: nat)
    ensures r <= x
  {
    if n == 0 then x else Shr(x, n - 1) / 2
  }

  /** Number of halvings that have happened by `block`, and the era it lies in. */
  function Halvings(block: U32): (h: nat)
    ensures h * HALVING_EVERY_BLOCKS <= block < (h + 1) * HALVING_EVERY_BLOCKS
  {
    block / HALVING_EVERY_BLOCKS
  }

  /** The `u32` shift in the source is defined only for these blocks. */
  predicate ShiftDefined(block: U32) {
    Halvings(block) < SHIFT_WIDTH
  }

  /**
   `HalvingIssuance::issuance`: 50 per block, halved every 210,000 blocks,
   and 0 once 64 or more halvings have happened. The shift is the
   mathematical one, so for 32 to 63 halvings it gives the intended 0
   (see `HalvingIssuanceAsWritten` for the `u32` shift as written).
   */
  function HalvingIssuance(block: U32): (r: U128)
    ensures r <= INITIAL_ISSUANCE
  {
    var halvings := Halvings(block);
    if halvings >= MAX_HALVINGS then 0 else Shr(INITIAL_ISSUANCE, halvings)
  }

  /** The intended subsidy of era `h`: the initial issuance divided by 2^h, rounded down. */
  function IntendedSubsidy(h: nat): int {
    var divisor := Pow2(h);
    INITIAL_ISSUANCE / divisor
  }

  // ---------------------------------------------------------------------
  // Arithmetic facts behind the shift.

  lemma {:induction false} Pow2Monotone(m: nat, n: nat)
    requires m <= n
    ensures Pow2(m) <= Pow2(n)
    decreases n
  {
    if m < n {
      Pow2Monotone(m, n - 1);
    }
  }

  lemma MulGrows(d: nat, a: nat, b: nat)
    requires a < b
    ensures d * a + d <= d * b
  {
    var k: nat := b - a - 1;
    assert d * b == d * (a + 1 + k);
    assert d * (a + 1 + k) == d * a + d + d * k;
  }

  lemma DivUnique(x: nat, d: nat, q: nat, r: nat)
    requires d > 0 && x == d * q + r && r < d
    ensures x / d == q
  {
    var q', r' := x / d, x % d;
    assert x == d * q' + r';
    if q' < q {
      MulGrows(d, q', q);
    } else if q' > q {
      MulGrows(d, q, q');
    }
  }

  /** Halving after dividing by `b` is dividing by `2 * b`. */
  lemma DivThenHalve(x: nat, b: nat)
    requires b > 0
    ensures (x / b) / 2 == x / (2 * b)
  {
    var q, r := x / b, x % b;
    var q2, r2 := q / 2, q % 2;
    assert x == b * q + r;
    assert q == 2 * q2 + r2;
    assert x == (2 * b) * q2 + (b * r2 + r);
    assert b * r2 + r < 2 * b by {
      if r2 == 1 { assert b * r2 == b; } else { assert b * r2 == 0; }
    }
    DivUnique(x, 2 * b, q2, b * r2 + r);
  }

  /** The shift is the floor of division by a power of two. */
  lemma {:induction false} ShrIsDivision(x: nat, n: nat)
    ensures Shr(x, n) == x / Pow2(n)
  {
    if n > 0 {
      ShrIsDivision(x, n - 1);
      DivThenHalve(x, Pow2(n - 1));
    }
  }

  lemma {:induction false} ShrAntitone(x: nat, m: nat, n: nat)
    requires m <= n
    ensures Shr(x, n) <= Shr(x, m)
    decreases n
  {
    if m < n {
      ShrAntitone(x, m, n - 1);
    }
  }

  /** 50 shifted right by six or more bits is 0. */
  lemma IntendedSubsidyVanishes(h: nat)
    requires h >= 6
    ensures IntendedSubsidy(h) == 0
    ensures Shr(INITIAL_ISSUANCE, h) == 0
  {
    Pow2Monotone(6, h);
    assert Pow2(6) == 64;
    ShrIsDivision(INITIAL_ISSUANCE, h);
  }

  // ---------------------------------------------------------------------
  // Properties of the halving policy.

  /** The policy pays the intended `50 / 2^halvings` at every block. */
  lemma HalvingMatchesIntended(block: U32)
    ensures HalvingIssuance(block) == IntendedSubsidy(Halvings(block))
  {
    var h := Halvings(block);
    if h >= MAX_HALVINGS {
      IntendedSubsidyVanishes(h);
    } else {
      ShrIsDivision(INITIAL_ISSUANCE, h);
    }
  }

  /** Every block of era `h` pays what the era's first block pays. */
  lemma EraConstancy(h: nat, block: U32)
    requires h * HALVING_EVERY_BLOCKS <= block < (h + 1) * HALVING_EVERY_BLOCKS
    ensures Halvings(block) == h
    ensures HalvingIssuance(block) == HalvingIssuance(h * HALVING_EVERY_BLOCKS)
  {
    var first: U32 := h * HALVING_EVERY_BLOCKS;
    assert Halvings(first) == h;
  }

  /** The first era pays the full initial issuance. */
  lemma FirstEraPaysInitial(block: U32)
    requires block < HALVING_EVERY_BLOCKS
    ensures HalvingIssuance(block) == INITIAL_ISSUANCE
  {
  }

  /** The subsidy around the first halving. */
  lemma SubsidyAtFirstHalving()
    ensures HalvingIssuance(209_999) == 50
    ensures HalvingIssuance(210_000) == 25
  {
    assert Halvings(210_000) == 1;
  }

  /** The next era pays half of this one, rounded down. */
  lemma HalvesEachEra(block: U32)
    requires block + HALVING_EVERY_BLOCKS < 0x1_0000_0000
    ensures HalvingIssuance(block + HALVING_EVERY_BLOCKS) == HalvingIssuance(block) / 2
  {
    var h := Halvings(block);
    var next: U32 := block + HALVING_EVERY_BLOCKS;
    assert Halvings(next) == h + 1;
    if h == MAX_HALVINGS - 1 {
      IntendedSubsidyVanishes(h);
    }
  }

  /** A later block never pays more than an earlier one. */
  lemma NonIncreasing(earlier: U32, later: U32)
    requires earlier <= later
    ensures HalvingIssuance(later) <= HalvingIssuance(earlier)
  {
    var h1, h2 := Halvings(earlier), Halvings(later);
    assert h1 <= h2;
    if h2 < MAX_HALVINGS {
      ShrAntitone(INITIAL_ISSUANCE, h1, h2);
    }
  }

  /** From the sixth halving on, the subsidy is 0 (well before the 64-halving guard). */
  lemma EventuallyZero(block: U32)
    requires block >= 6 * HALVING_EVERY_BLOCKS
    ensures HalvingIssuance(block) == 0
  {
    var h := Halvings(block);
    if h < MAX_HALVINGS {
      IntendedSubsidyVanishes(h);
    }
  }

  // ---------------------------------------------------------------------
  // The `u32` shift as written.

  /**
   Rust's `x >> n` on a `u32`. A shift by 32 or more bits overflows: with
   overflow checks on it panics (`None`), with them off the amount is
   taken modulo 32.
   */
  function ShrU32(x: U32, n: nat, overflowChecks: bool): (r: Option<U32>)
    ensures r.None? <==> overflowChecks && n >= SHIFT_WIDTH
    ensures n < SHIFT_WIDTH ==> r == Some(x / Pow2(n))
    ensures !overflowChecks ==> r == Some(x / Pow2(n % SHIFT_WIDTH))
  {
    ShrIsDivision(x, n);
    ShrIsDivision(x, n % SHIFT_WIDTH);
    if n < SHIFT_WIDTH then Some(Shr(x, n))
    else if overflowChecks then None
    else Some(Shr(x, n % SHIFT_WIDTH))
  }

  /**
   The halving policy with the source's `INITIAL_ISSUANCE >> halvings` on a
   `u32`; `None` is a panic. It agrees with `HalvingIssuance` wherever the
   shift is defined and wherever the 64-halving guard applies.
   */
  function HalvingIssuanceAsWritten(block: U32, overflowChecks: bool): (r: Option<U128>)
    ensures ShiftDefined(block) || Halvings(block) >= MAX_HALVINGS ==> r == Some(HalvingIssuance(block))
  {
    var halvings := Halvings(block);
    if halvings >= MAX_HALVINGS then Some(0)
    else
      ShrIsDivision(INITIAL_ISSUANCE, halvings);
      match ShrU32(INITIAL_ISSUANCE, halvings, overflowChecks)
      case None => None
      case Some(v) => Some(v)
  }

  /**
   Block 6,720,000 starts era 32. As written, the shift there panics, or,
   without overflow checks, pays the full 50 again although the era
   before paid 0; the intended subsidy is 0.
   */
  lemma ShiftOverflowAtEra32()
    ensures Halvings(6_720_000) == 32 && !ShiftDefined(6_720_000)
    ensures HalvingIssuanceAsWritten(6_720_000, true) == None
    ensures HalvingIssuanceAsWritten(6_720_000, false) == Some(50)
    ensures HalvingIssuanceAsWritten(6_719_999, false) == Some(0)
    ensures HalvingIssuance(6_720_000) == 0
  {
    assert Halvings(6_720_000) == 32;
    assert Halvings(6_719_999) == 31;
    IntendedSubsidyVanishes(31);
    IntendedSubsidyVanishes(32);
  }

  /**
   Across the whole overflow range, eras 32 to 63, the shift as written
   panics with overflow checks on; with them off it pays the subsidy of
   era `halvings - 32` over again. The intended subsidy is 0 throughout.
   */
  lemma ShiftOverflowRange(block: U32)
    requires SHIFT_WIDTH <= Halvings(block) < MAX_HALVINGS
    ensures !ShiftDefined(block)
    ensures HalvingIssuanceAsWritten(block, true) == None
    ensures HalvingIssuanceAsWritten(block, false) == Some(IntendedSubsidy(Halvings(block) - SHIFT_WIDTH))
    ensures HalvingIssuance(block) == 0
  {
    IntendedSubsidyVanishes(Halvings(block));
  }
}
