/** The `swap` instruction: constant-product pricing with the adaptive fee,
    the slippage guard, the reserve update, the price sample and the fee
    counter. */
module Swap {
  import opened Primitives
  import opened Errors
  import opened State

  /** Fees are expressed in basis points of 10000. */
  const BPS_DENOMINATOR: nat := 10000
  /** Fixed-point scale of a recorded price. */
  const PRICE_SCALE: nat := 1_000_000_000

  /** `amount_in_with_fee`: the input kept after the fee, rounded down.
      The u128 product never overflows and the `as u64` cast never truncates. */
  function AmountInWithFee(amountIn: u64, feeBps: u16): (w: u64)
    ensures w <= amountIn
    ensures w * BPS_DENOMINATOR <= amountIn * SaturatingSub(BPS_DENOMINATOR, feeBps) < (w + 1) * BPS_DENOMINATOR
  {
    var factor := SaturatingSub(BPS_DENOMINATOR, feeBps);
    MulLeftMonotone(amountIn, factor, BPS_DENOMINATOR);
    DivMonotone(amountIn * factor, amountIn * BPS_DENOMINATOR, BPS_DENOMINATOR);
    FloorDivBounds(amountIn * factor, BPS_DENOMINATOR);
    amountIn * factor / BPS_DENOMINATOR
  }

  /** The constant-product quotient w * reserveOut / (reserveIn + w), rounded
      down, on unbounded naturals: the output that keeps
      reserveIn * reserveOut from falling when w enters and the quotient leaves. */
  function ConstantProductOut(w: nat, reserveIn: nat, reserveOut: nat): (out: nat)
    requires 0 < reserveIn
    ensures out * (reserveIn + w) <= w * reserveOut
    ensures w * reserveOut < out * (reserveIn + w) + (reserveIn + w)
    ensures out <= reserveOut
    ensures 0 < reserveOut ==> out < reserveOut
  {
    QuotientFacts(w * reserveOut, reserveIn + w, w, reserveOut);
    w * reserveOut / (reserveIn + w)
  }

  /** The floor quotient of w * reserveOut by a divisor above w stays
      within reserveOut, strictly when reserveOut is positive. */
  lemma QuotientFacts(x: nat, d: nat, w: nat, reserveOut: nat)
    requires w < d && x == w * reserveOut
    ensures (x / d) * d <= x < (x / d) * d + d
    ensures x / d <= reserveOut
    ensures 0 < reserveOut ==> x / d < reserveOut
  {
    FloorDivBounds(x, d);
    MulLeftMonotone(reserveOut, w, d);
    if reserveOut > 0 {
      assert x < reserveOut * d;
      DivUpperBound(x, d, reserveOut - 1);
    } else {
      assert x == 0;
    }
  }

  /** `amount_out`: the constant-product output of the u64 handler, computed
      in u128 and cast back; the cast never truncates because the output is
      strictly below the output reserve whenever that reserve is positive. */
  function AmountOut(withFee: u64, reserveIn: u64, reserveOut: u64): (out: u64)
    requires 0 < reserveIn
    ensures out * (reserveIn + withFee) <= withFee * reserveOut
    ensures withFee * reserveOut < out * (reserveIn + withFee) + (reserveIn + withFee)
    ensures 0 < reserveOut ==> out < reserveOut
  {
    ConstantProductOut(withFee, reserveIn, reserveOut)
  }

  /** The price sample: reserve B per reserve A at scale 10^9, truncated to
      64 bits by `as u64`, or 0 when reserve A is empty. */
  function SpotPrice(reserveA: u64, reserveB: u64): (price: u64)
    ensures reserveA == 0 ==> price == 0
    ensures 0 < reserveA && reserveB * PRICE_SCALE / reserveA < U64_LIMIT ==>
      price * reserveA <= reserveB * PRICE_SCALE < (price + 1) * reserveA
  {
    if reserveA > 0 then
      FloorDivBounds(reserveB * PRICE_SCALE, reserveA);
      AsU64(reserveB * PRICE_SCALE / reserveA)
    else 0
  }

  /** What an accepted swap does: its direction, the input, the input kept
      after the fee, the output and the fee rate used. */
  datatype Fill = Fill(aToB: bool, amountIn: u64, amountInWithFee: u64, amountOut: u64, feeBps: u16)

  /** The fill fits the pool: the fee part is non-negative, the output is
      below the output reserve and no counter overflows. */
  predicate Applicable(p: PoolRecord, f: Fill) {
    var reserveIn := if f.aToB then p.reserveA else p.reserveB;
    var reserveOut := if f.aToB then p.reserveB else p.reserveA;
    && f.amountInWithFee <= f.amountIn
    && f.amountOut < reserveOut
    && reserveIn + f.amountIn < U64_LIMIT
    && p.totalFeesCollected + (f.amountIn - f.amountInWithFee) < U64_LIMIT
  }

  /** The checks of `swap::handler` in their order, and the fill they accept. */
  function SwapQuote(p: PoolRecord, tokenInMint: Pubkey, amountIn: u64, minimumAmountOut: u64, volatility: real): (r: Result<Fill>)
    requires 0.0 <= volatility
    ensures r.Ok? ==> Applicable(p, r.value) && r.value.amountIn == amountIn
    ensures r.Ok? ==> r.value.amountOut >= minimumAmountOut
    ensures r.Ok? ==> (tokenInMint == p.tokenAMint || tokenInMint == p.tokenBMint) && 0 < p.reserveA && 0 < p.reserveB
    ensures r.Ok? ==>
      var aToB := tokenInMint == p.tokenAMint;
      && r.value.aToB == aToB
      && r.value.feeBps == AdaptiveFee(p.baseFeeBps, p.historyIndex, volatility)
      && r.value.amountInWithFee == AmountInWithFee(amountIn, r.value.feeBps)
      && r.value.amountOut == AmountOut(r.value.amountInWithFee, if aToB then p.reserveA else p.reserveB,
                                        if aToB then p.reserveB else p.reserveA)
  {
    if !p.isInitialized then Err(PoolNotInitialized)
    else if amountIn == 0 then Err(InsufficientAmount)
    else if tokenInMint != p.tokenAMint && tokenInMint != p.tokenBMint then Err(InvalidTokenMint)
    else
      var aToB := tokenInMint == p.tokenAMint;
      var reserveIn := if aToB then p.reserveA else p.reserveB;
      var reserveOut := if aToB then p.reserveB else p.reserveA;
      if reserveIn == 0 || reserveOut == 0 then Err(InsufficientLiquidity)
      else
        var feeBps := AdaptiveFee(p.baseFeeBps, p.historyIndex, volatility);
        var withFee := AmountInWithFee(amountIn, feeBps);
        var out := AmountOut(withFee, reserveIn, reserveOut);
        if out < minimumAmountOut then Err(SlippageExceeded)
        else if out >= reserveOut then Err(InsufficientLiquidity)
        else if reserveIn + amountIn >= U64_LIMIT then Err(MathOverflow)
        else if p.totalFeesCollected + (amountIn - withFee) >= U64_LIMIT then Err(MathOverflow)
        else Ok(Fill(aToB, amountIn, withFee, out, feeBps))
  }

  /** The committed effect of an accepted fill: reserves move, a price
      sample of the new reserves is recorded, the slot and the fee counter
      are updated, and the lock is released. */
  function ApplySwap(p: PoolRecord, f: Fill, slot: u64): (r: PoolRecord)
    requires WellFormed(p) && Applicable(p, f)
    ensures WellFormed(r)
  {
    var newA := if f.aToB then p.reserveA + f.amountIn else p.reserveA - f.amountOut;
    var newB := if f.aToB then p.reserveB - f.amountOut else p.reserveB + f.amountIn;
    var moved := p.(reserveA := newA, reserveB := newB, isLocked := true);
    RecordPriceSample(moved, SpotPrice(newA, newB))
      .(lastUpdateSlot := slot,
        totalFeesCollected := p.totalFeesCollected + (f.amountIn - f.amountInWithFee),
        isLocked := false)
  }

  /** The whole instruction as a transition of the pool record. */
  function SwapSpec(p: PoolRecord, tokenInMint: Pubkey, amountIn: u64, minimumAmountOut: u64, volatility: real, slot: u64): (r: Result<PoolRecord>)
    requires WellFormed(p) && 0.0 <= volatility
    ensures r.Ok? ==> WellFormed(r.value) && r.value.isInitialized && !r.value.isLocked
    ensures r.Ok? ==> 0 < r.value.reserveA && 0 < r.value.reserveB && r.value.lastUpdateSlot == slot
    ensures r.Ok? ==> r.value.historyIndex == (p.historyIndex + 1) % HISTORY_LEN
  {
    match SwapQuote(p, tokenInMint, amountIn, minimumAmountOut, volatility)
    case Err(e) => Err(e)
    case Ok(f) => Ok(ApplySwap(p, f, slot))
  }

  /** `swap::handler` on the in-memory pool. Every check runs before the
      first write, so a rejected swap leaves the pool as it was. */
  method Handler(pool: LiquidityPool, tokenInMint: Pubkey, amountIn: u64, minimumAmountOut: u64, volatility: real, clockSlot: u64)
    returns (r: Result<()>)
    requires pool.Valid() && 0.0 <= volatility
    modifies pool, pool.priceHistory
    ensures pool.Valid()
    ensures var s := SwapSpec(old(pool.Record()), tokenInMint, amountIn, minimumAmountOut, volatility, clockSlot);
      && (r.Ok? <==> s.Ok?)
      && (s.Err? ==> r.error == s.error && pool.Record() == old(pool.Record()))
      && (s.Ok? ==> pool.Record() == s.value)
  {
    if !pool.isInitialized {
      return Err(PoolNotInitialized);
    }
    if amountIn == 0 {
      return Err(InsufficientAmount);
    }

    var reserveIn, reserveOut, isAToB;
    if tokenInMint == pool.tokenAMint {
      reserveIn, reserveOut, isAToB := pool.reserveA, pool.reserveB, true;
    } else if tokenInMint == pool.tokenBMint {
      reserveIn, reserveOut, isAToB := pool.reserveB, pool.reserveA, false;
    } else {
      return Err(InvalidTokenMint);
    }
    if !(reserveIn > 0 && reserveOut > 0) {
      return Err(InsufficientLiquidity);
    }

    var feeBps := pool.CalculateAdaptiveFee(volatility);
    var amountInWithFee := AmountInWithFee(amountIn, feeBps);
    var amountOut := AmountOut(amountInWithFee, reserveIn, reserveOut);

    if amountOut < minimumAmountOut {
      return Err(SlippageExceeded);
    }
    if amountOut >= reserveOut {
      return Err(InsufficientLiquidity);
    }
    // reserve_in.checked_add(amount_in); the subtraction on the other side cannot fail
    if reserveIn + amountIn >= U64_LIMIT {
      return Err(MathOverflow);
    }
    var feeAmount := amountIn - amountInWithFee;
    if pool.totalFeesCollected + feeAmount >= U64_LIMIT {
      return Err(MathOverflow);
    }

    var f := Fill(isAToB, amountIn, amountInWithFee, amountOut, feeBps);
    assert SwapQuote(old(pool.Record()), tokenInMint, amountIn, minimumAmountOut, volatility) == Ok(f);
    Settle(pool, f, clockSlot);
    r := Ok(());
  }

  /** The write phase of `swap::handler`: lock, move the reserves in the
      fill's direction, record the price of the new reserves, stamp the slot,
      add the fee to the counter, unlock. */
  method Settle(pool: LiquidityPool, f: Fill, clockSlot: u64)
    requires pool.Valid() && Applicable(pool.Record(), f)
    modifies pool, pool.priceHistory
    ensures pool.Valid()
    ensures pool.Record() == ApplySwap(old(pool.Record()), f, clockSlot)
  {
    ghost var p := pool.Record();
    MoveReserves(pool, f);
    ghost var moved := pool.Record();
    var currentPrice := SpotPrice(pool.reserveA, pool.reserveB);
    pool.UpdatePriceHistory(currentPrice);
    ghost var sampled := RecordPriceSample(moved, currentPrice);
    assert pool.Record() == sampled;
    pool.lastUpdateSlot := clockSlot;
    pool.totalFeesCollected := pool.totalFeesCollected + (f.amountIn - f.amountInWithFee);
    pool.Unlock();
  }

  /** Lock the pool and move its reserves in the fill's direction. */
  method MoveReserves(pool: LiquidityPool, f: Fill)
    requires pool.Valid() && Applicable(pool.Record(), f)
    modifies pool
    ensures pool.Valid()
    ensures var p := old(pool.Record());
      pool.Record() == p.(reserveA := if f.aToB then p.reserveA + f.amountIn else p.reserveA - f.amountOut,
                          reserveB := if f.aToB then p.reserveB - f.amountOut else p.reserveB + f.amountIn,
                          isLocked := true)
  {
    pool.Lock();
    if f.aToB {
      pool.reserveA := pool.reserveA + f.amountIn;
      pool.reserveB := pool.reserveB - f.amountOut;
    } else {
      pool.reserveB := pool.reserveB + f.amountIn;
      pool.reserveA := pool.reserveA - f.amountOut;
    }
  }

  /** The checks that reject a swap before any arithmetic, in their order. */
  lemma SwapRejections(p: PoolRecord, tokenInMint: Pubkey, amountIn: u64, minimumAmountOut: u64, volatility: real)
    requires 0.0 <= volatility
    ensures var r := SwapQuote(p, tokenInMint, amountIn, minimumAmountOut, volatility);
      && (!p.isInitialized ==> r == Err(PoolNotInitialized))
      && (p.isInitialized && amountIn == 0 ==> r == Err(InsufficientAmount))
      && (p.isInitialized && amountIn > 0 && tokenInMint != p.tokenAMint && tokenInMint != p.tokenBMint ==>
            r == Err(InvalidTokenMint))
      && ((p.isInitialized && amountIn > 0 && (tokenInMint == p.tokenAMint || tokenInMint == p.tokenBMint) &&
           (p.reserveA == 0 || p.reserveB == 0)) ==> r == Err(InsufficientLiquidity))
  {
  }

  /** Once the early checks pass, the swap is refused for slippage exactly
      when the constant-product output is below the caller's minimum, and the
      second InsufficientLiquidity guard (`amount_out < reserve_out`) can
      never fire: the swap then succeeds exactly when the output meets the
      minimum and the two `checked_add`s (the input reserve and the fee
      counter) stay within 64 bits, and otherwise a met minimum is refused
      with MathOverflow. */
  lemma SwapSlippageGuard(p: PoolRecord, tokenInMint: Pubkey, amountIn: u64, minimumAmountOut: u64, volatility: real)
    requires 0.0 <= volatility
    requires p.isInitialized && amountIn > 0 && 0 < p.reserveA && 0 < p.reserveB
    requires tokenInMint == p.tokenAMint || tokenInMint == p.tokenBMint
    ensures var aToB := tokenInMint == p.tokenAMint;
      var reserveIn := if aToB then p.reserveA else p.reserveB;
      var reserveOut := if aToB then p.reserveB else p.reserveA;
      var withFee := AmountInWithFee(amountIn, AdaptiveFee(p.baseFeeBps, p.historyIndex, volatility));
      var out := AmountOut(withFee, reserveIn, reserveOut);
      var r := SwapQuote(p, tokenInMint, amountIn, minimumAmountOut, volatility);
      && (r == Err(SlippageExceeded) <==> out < minimumAmountOut)
      && (r.Ok? <==> minimumAmountOut <= out && reserveIn + amountIn < U64_LIMIT
                     && p.totalFeesCollected + (amountIn - withFee) < U64_LIMIT)
      && (minimumAmountOut <= out && !r.Ok? ==> r == Err(MathOverflow))
  {
  }

  /** The fee kept by the pool is the fee rate applied to the input,
      rounded up: ceil(amount_in * fee / 10000). */
  lemma FeeAmountIsCeiling(amountIn: u64, feeBps: u16)
    requires feeBps <= BPS_DENOMINATOR
    ensures var fee := amountIn - AmountInWithFee(amountIn, feeBps);
      amountIn * feeBps <= fee * BPS_DENOMINATOR < amountIn * feeBps + BPS_DENOMINATOR
  {
    var w := AmountInWithFee(amountIn, feeBps);
    assert amountIn * SaturatingSub(BPS_DENOMINATOR, feeBps) == amountIn * BPS_DENOMINATOR - amountIn * feeBps;
    assert (amountIn - w) * BPS_DENOMINATOR == amountIn * BPS_DENOMINATOR - w * BPS_DENOMINATOR;
  }

  /** The x*y=k step: paying in at least the fee-reduced input and taking
      out the floored output never shrinks the reserve product. */
  lemma {:induction false} ConstantProductGrows(reserveIn: nat, reserveOut: nat, amountIn: nat, withFee: nat, out: nat)
    requires 0 < reserveIn && withFee <= amountIn && out <= reserveOut
    requires out * (reserveIn + withFee) <= withFee * reserveOut
    ensures (reserveIn + amountIn) * (reserveOut - out) >= reserveIn * reserveOut
    ensures (reserveOut - out) * (reserveIn + amountIn) >= reserveOut * reserveIn
  {
    calc {
      (reserveOut - out) * (reserveIn + withFee);
    ==
      reserveOut * reserveIn + reserveOut * withFee - out * (reserveIn + withFee);
    >=
      reserveIn * reserveOut;
    }
    MulLeftMonotone(reserveOut - out, reserveIn + withFee, reserveIn + amountIn);
  }

  /** A successful swap never decreases reserve_a * reserve_b. */
  lemma SwapKeepsProduct(p: PoolRecord, tokenInMint: Pubkey, amountIn: u64, minimumAmountOut: u64, volatility: real, slot: u64)
    requires WellFormed(p) && 0.0 <= volatility
    requires SwapSpec(p, tokenInMint, amountIn, minimumAmountOut, volatility, slot).Ok?
    ensures var q := SwapSpec(p, tokenInMint, amountIn, minimumAmountOut, volatility, slot).value;
      q.reserveA * q.reserveB >= p.reserveA * p.reserveB
  {
    var f := SwapQuote(p, tokenInMint, amountIn, minimumAmountOut, volatility).value;
    var q := ApplySwap(p, f, slot);
    assert SwapSpec(p, tokenInMint, amountIn, minimumAmountOut, volatility, slot) == Ok(q);
    var newA, newB := q.reserveA, q.reserveB;
    if f.aToB {
      assert newA == p.reserveA + f.amountIn && newB == p.reserveB - f.amountOut;
      ConstantProductGrows(p.reserveA, p.reserveB, f.amountIn, f.amountInWithFee, f.amountOut);
    } else {
      assert newB == p.reserveB + f.amountIn && newA == p.reserveA - f.amountOut;
      ConstantProductGrows(p.reserveB, p.reserveA, f.amountIn, f.amountInWithFee, f.amountOut);
    }
  }

  /** What a successful swap commits: the input reserve grows by exactly
      amount_in and the output reserve shrinks by exactly the output, in the
      chosen direction; the fee counter grows by exactly the fee kept; the
      new reserves' price is sampled into the ring and `last_update_slot` is
      the current slot; keys, fee settings and the other counters stay. */
  lemma SwapEffects(p: PoolRecord, tokenInMint: Pubkey, amountIn: u64, minimumAmountOut: u64, volatility: real, slot: u64)
    requires WellFormed(p) && 0.0 <= volatility
    requires SwapSpec(p, tokenInMint, amountIn, minimumAmountOut, volatility, slot).Ok?
    ensures var f := SwapQuote(p, tokenInMint, amountIn, minimumAmountOut, volatility).value;
      var q := SwapSpec(p, tokenInMint, amountIn, minimumAmountOut, volatility, slot).value;
      && f.aToB == (tokenInMint == p.tokenAMint)
      && (f.aToB ==> q.reserveA == p.reserveA + amountIn && q.reserveB == p.reserveB - f.amountOut)
      && (!f.aToB ==> q.reserveB == p.reserveB + amountIn && q.reserveA == p.reserveA - f.amountOut)
      && q.totalFeesCollected == p.totalFeesCollected + (amountIn - f.amountInWithFee)
      && 0 < q.reserveA && q.lastPrice == AsU64(q.reserveB * PRICE_SCALE / q.reserveA)
      && q.priceHistory == p.priceHistory[WriteSlot(p) := q.lastPrice]
      && q.historyIndex == (p.historyIndex + 1) % HISTORY_LEN
      && q.lastUpdateSlot == slot
      && q == p.(reserveA := q.reserveA, reserveB := q.reserveB, totalFeesCollected := q.totalFeesCollected,
                 lastPrice := q.lastPrice, priceHistory := q.priceHistory, historyIndex := q.historyIndex,
                 lastUpdateSlot := slot, isLocked := false)
  {
  }
}
