/** The `update_fees` instruction: a slot-gated refresh of the stored
    volatility fee, written only when it changes. */
module UpdateFees {
  import opened Primitives
  import opened Errors
  import opened State
  import Swap

  /** Slots that must pass between two fee updates. */
  const FEE_UPDATE_INTERVAL: nat := 100

  /** `(new_fee as i32 - volatility_fee_bps as i32).abs()`. */
  function FeeDistance(newFee: u16, storedFee: u16): (d: nat)
    ensures d == 0 <==> newFee == storedFee
  {
    if newFee >= storedFee then newFee - storedFee else storedFee - newFee
  }

  /** `update_fees::handler` as a transition of the pool record. The slot
      gate reports `InvalidAuthority`; a changed fee is stored with the slot,
      an unchanged one leaves the record as it was. */
  function FeeUpdate(p: PoolRecord, currentSlot: u64, volatility: real): (r: Result<PoolRecord>)
    requires 0.0 <= volatility
    ensures r.Ok? ==> r.value.volatilityFeeBps == AdaptiveFee(p.baseFeeBps, p.historyIndex, volatility)
    ensures r.Ok? ==> r.value == p.(volatilityFeeBps := r.value.volatilityFeeBps, lastUpdateSlot := r.value.lastUpdateSlot)
    ensures r.Ok? ==> (r.value == p <==> p.volatilityFeeBps == AdaptiveFee(p.baseFeeBps, p.historyIndex, volatility))
    ensures r.Ok? && r.value != p ==> r.value.lastUpdateSlot == currentSlot
  {
    if !p.isInitialized then Err(PoolNotInitialized)
    else if currentSlot <= p.lastUpdateSlot + FEE_UPDATE_INTERVAL then Err(InvalidAuthority)
    else
      var newFee := AdaptiveFee(p.baseFeeBps, p.historyIndex, volatility);
      if FeeDistance(newFee, p.volatilityFeeBps) >= 1 then
        Ok(p.(volatilityFeeBps := newFee, lastUpdateSlot := currentSlot))
      else Ok(p)
  }

  /** `update_fees::handler` on the in-memory pool. */
  method Handler(pool: LiquidityPool, currentSlot: u64, volatility: real) returns (r: Result<()>)
    requires pool.Valid() && 0.0 <= volatility
    modifies pool
    ensures pool.Valid()
    ensures var s := FeeUpdate(old(pool.Record()), currentSlot, volatility);
      && (r.Ok? <==> s.Ok?)
      && (s.Err? ==> r.error == s.error && pool.Record() == old(pool.Record()))
      && (s.Ok? ==> pool.Record() == s.value)
  {
    if !pool.isInitialized {
      return Err(PoolNotInitialized);
    }
    if !(currentSlot > pool.lastUpdateSlot + FEE_UPDATE_INTERVAL) {
      return Err(InvalidAuthority);
    }
    var newFee := pool.CalculateAdaptiveFee(volatility);
    if FeeDistance(newFee, pool.volatilityFeeBps) >= 1 {
      pool.volatilityFeeBps := newFee;
      pool.lastUpdateSlot := currentSlot;
    }
    r := Ok(());
  }

  /** The two refusals, in their order; neither changes anything. */
  lemma FeeUpdateRejections(p: PoolRecord, currentSlot: u64, volatility: real)
    requires 0.0 <= volatility
    ensures var r := FeeUpdate(p, currentSlot, volatility);
      && (!p.isInitialized ==> r == Err(PoolNotInitialized))
      && (p.isInitialized ==> (r == Err(InvalidAuthority) <==> currentSlot <= p.lastUpdateSlot + FEE_UPDATE_INTERVAL))
      && (p.isInitialized && currentSlot > p.lastUpdateSlot + FEE_UPDATE_INTERVAL ==> r.Ok?)
  {
  }

  /** An update that changed the fee stamps the slot, so every further
      update within the next 100 slots is refused, whatever the volatility. */
  lemma FeeUpdateRateLimited(p: PoolRecord, currentSlot: u64, volatility: real, laterSlot: u64, laterVolatility: real)
    requires 0.0 <= volatility && 0.0 <= laterVolatility
    requires FeeUpdate(p, currentSlot, volatility).Ok? && FeeUpdate(p, currentSlot, volatility).value != p
    requires laterSlot <= currentSlot + FEE_UPDATE_INTERVAL
    ensures FeeUpdate(FeeUpdate(p, currentSlot, volatility).value, laterSlot, laterVolatility) == Err(InvalidAuthority)
  {
  }

  /** Once the stored fee matches the adaptive fee, a later update with the
      same volatility changes nothing. */
  lemma FeeUpdateSettles(p: PoolRecord, currentSlot: u64, volatility: real, laterSlot: u64)
    requires 0.0 <= volatility
    requires FeeUpdate(p, currentSlot, volatility).Ok?
    requires laterSlot > FeeUpdate(p, currentSlot, volatility).value.lastUpdateSlot + FEE_UPDATE_INTERVAL
    ensures var q := FeeUpdate(p, currentSlot, volatility).value;
      FeeUpdate(q, laterSlot, volatility) == Ok(q)
  {
  }

  /** The stored `volatility_fee_bps` plays no part in a swap: the swap
      prices with `calculate_adaptive_fee` directly. */
  lemma SwapIgnoresStoredFee(p: PoolRecord, storedFee: u16, tokenInMint: Pubkey, amountIn: u64, minimumAmountOut: u64, volatility: real)
    requires 0.0 <= volatility
    ensures Swap.SwapQuote(p.(volatilityFeeBps := storedFee), tokenInMint, amountIn, minimumAmountOut, volatility)
         == Swap.SwapQuote(p, tokenInMint, amountIn, minimumAmountOut, volatility)
  {
  }
}
