/** The `initialize_pool` instruction: the fee-tier and identical-mint
    checks, then every field of the new pool written in turn. */
module InitializePool {
  import opened Primitives
  import opened Errors
  import opened State

  /** Accepted fee tiers, in basis points. */
  const MIN_FEE_TIER: nat := 5
  const MAX_FEE_TIER: nat := 100

  /** The keys of the accounts the instruction is given. */
  datatype PoolAccounts = PoolAccounts(
    authority: Pubkey,
    tokenAMint: Pubkey,
    tokenBMint: Pubkey,
    tokenAVault: Pubkey,
    tokenBVault: Pubkey,
    lpMint: Pubkey)

  /** What the instruction does with the pool address: the account exists
      already and `init` refuses it, the handler refuses, or the pool is
      created. */
  datatype InitOutcome = AccountInUse | Rejected(error: SwapError) | Created(pool: PoolRecord)

  /** The record the handler writes: the supplied keys, empty reserves, the
      fee tier as base fee, a zeroed history and counters, the clock's slot
      and timestamp, initialized and unlocked. */
  function FreshPool(accounts: PoolAccounts, feeTier: u16, slot: u64, unixTimestamp: i64, bump: u8): (r: PoolRecord)
    ensures WellFormed(r) && r.isInitialized && !r.isLocked
    ensures r.authority == accounts.authority && r.tokenAMint == accounts.tokenAMint && r.tokenBMint == accounts.tokenBMint
    ensures r.tokenAVault == accounts.tokenAVault && r.tokenBVault == accounts.tokenBVault && r.lpMint == accounts.lpMint
    ensures r.reserveA == 0 && r.reserveB == 0
    ensures r.baseFeeBps == feeTier && r.volatilityFeeBps == 0 && r.lastPrice == 0
    ensures forall i | 0 <= i < HISTORY_LEN :: r.priceHistory[i] == 0
    ensures r.historyIndex == 0 && r.totalVolumeUsd == 0 && r.totalFeesCollected == 0
    ensures r.lastUpdateSlot == slot && r.createdAt == unixTimestamp && r.bump == bump
  {
    PoolRecord(accounts.authority, accounts.tokenAMint, accounts.tokenBMint,
               accounts.tokenAVault, accounts.tokenBVault, accounts.lpMint,
               0, 0, feeTier, 0, 0, slot, seq(HISTORY_LEN, _ => 0), 0, 0, 0,
               unixTimestamp, true, false, bump)
  }

  /** The whole instruction: `init` first, then the handler's two checks in
      their order, then the fresh record. */
  function Initialize(accountInUse: bool, accounts: PoolAccounts, feeTier: u16, slot: u64, unixTimestamp: i64, bump: u8)
    : (r: InitOutcome)
    ensures accountInUse ==> r == AccountInUse
    ensures r.Created? <==> !accountInUse && MIN_FEE_TIER <= feeTier <= MAX_FEE_TIER && accounts.tokenAMint != accounts.tokenBMint
  {
    if accountInUse then AccountInUse
    else if !(MIN_FEE_TIER <= feeTier <= MAX_FEE_TIER) then Rejected(InvalidFeeTier)
    else if accounts.tokenAMint == accounts.tokenBMint then Rejected(IdenticalAddresses)
    else Created(FreshPool(accounts, feeTier, slot, unixTimestamp, bump))
  }

  /** `initialize_pool::handler` on the account `init` has just allocated.
      Every field is written, so what the account held before is irrelevant. */
  method Handler(pool: LiquidityPool, accounts: PoolAccounts, feeTier: u16, slot: u64, unixTimestamp: i64, bump: u8)
    returns (r: Result<()>)
    requires pool.Valid()
    modifies pool, pool.priceHistory
    ensures pool.Valid()
    ensures var s := Initialize(false, accounts, feeTier, slot, unixTimestamp, bump);
      && (r.Ok? <==> s.Created?)
      && (s.Rejected? ==> r.Err? && r.error == s.error && pool.Record() == old(pool.Record()))
      && (s.Created? ==> pool.Record() == s.pool)
  {
    if !(feeTier >= 5 && feeTier <= 100) {
      return Err(InvalidFeeTier);
    }
    if !(accounts.tokenAMint != accounts.tokenBMint) {
      return Err(IdenticalAddresses);
    }
    WriteFreshPool(pool, accounts, feeTier, slot, unixTimestamp, bump);
    r := Ok(());
  }

  /** The write phase of the handler: the account keys, the numeric state
      and the cleared history. */
  method WriteFreshPool(pool: LiquidityPool, accounts: PoolAccounts, feeTier: u16, slot: u64, unixTimestamp: i64, bump: u8)
    requires pool.Valid()
    modifies pool, pool.priceHistory
    ensures pool.Valid()
    ensures pool.Record() == FreshPool(accounts, feeTier, slot, unixTimestamp, bump)
  {
    WriteKeys(pool, accounts);
    WriteReservesAndFees(pool, feeTier, slot);
    WriteCounters(pool, unixTimestamp, bump);
    pool.ClearPriceHistory();
  }

  /** The reserves, fees and clock of a fresh pool. */
  method WriteReservesAndFees(pool: LiquidityPool, feeTier: u16, slot: u64)
    modifies pool
    ensures pool.Record() == old(pool.Record()).(reserveA := 0, reserveB := 0, baseFeeBps := feeTier,
      volatilityFeeBps := 0, lastPrice := 0, lastUpdateSlot := slot)
  {
    pool.reserveA := 0;
    pool.reserveB := 0;
    pool.baseFeeBps := feeTier;
    pool.volatilityFeeBps := 0;
    pool.lastPrice := 0;
    pool.lastUpdateSlot := slot;
  }

  /** The counters, timestamp, flags and bump of a fresh pool. */
  method WriteCounters(pool: LiquidityPool, unixTimestamp: i64, bump: u8)
    modifies pool
    ensures pool.Record() == old(pool.Record()).(historyIndex := 0, totalVolumeUsd := 0, totalFeesCollected := 0,
      createdAt := unixTimestamp, isInitialized := true, isLocked := false, bump := bump)
  {
    pool.historyIndex := 0;
    pool.totalVolumeUsd := 0;
    pool.totalFeesCollected := 0;
    pool.createdAt := unixTimestamp;
    pool.isInitialized := true;
    pool.isLocked := false;
    pool.bump := bump;
  }

  /** The account keys the handler copies into the pool. */
  method WriteKeys(pool: LiquidityPool, accounts: PoolAccounts)
    modifies pool
    ensures pool.Record() == old(pool.Record()).(authority := accounts.authority,
      tokenAMint := accounts.tokenAMint, tokenBMint := accounts.tokenBMint,
      tokenAVault := accounts.tokenAVault, tokenBVault := accounts.tokenBVault, lpMint := accounts.lpMint)
  {
    pool.authority := accounts.authority;
    pool.tokenAMint := accounts.tokenAMint;
    pool.tokenBMint := accounts.tokenBMint;
    pool.tokenAVault := accounts.tokenAVault;
    pool.tokenBVault := accounts.tokenBVault;
    pool.lpMint := accounts.lpMint;
  }

  /** The fee tier is checked first: an out-of-range tier is reported even
      when the two mints are the same. */
  lemma FeeTierCheckedFirst(accounts: PoolAccounts, feeTier: u16, slot: u64, unixTimestamp: i64, bump: u8)
    ensures var r := Initialize(false, accounts, feeTier, slot, unixTimestamp, bump);
      && (!(MIN_FEE_TIER <= feeTier <= MAX_FEE_TIER) ==> r == Rejected(InvalidFeeTier))
      && (MIN_FEE_TIER <= feeTier <= MAX_FEE_TIER && accounts.tokenAMint == accounts.tokenBMint ==> r == Rejected(IdenticalAddresses))
  {
  }
}
