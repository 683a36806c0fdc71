/** The `remove_liquidity` instruction: the balance and supply checks, the
    pro-rata amounts, the LP burn and the reserve decrease. */
module RemoveLiquidity {
  import opened Primitives
  import opened Errors
  import opened State
  import opened SplToken

  /** What an accepted withdrawal pays out. */
  datatype Withdrawal = Withdrawal(amountA: u64, amountB: u64)

  /** `liquidity * reserve / total_supply`, computed in u128 and cast with
      `as u64`. The product of two u64 values never overflows u128. */
  function ProRata(liquidity: u64, reserve: u64, lpSupply: nat): (amount: u64)
    requires 0 < lpSupply
    ensures amount * lpSupply <= liquidity * reserve
    ensures liquidity <= lpSupply ==> liquidity * reserve < amount * lpSupply + lpSupply && amount <= reserve
  {
    var x := liquidity * reserve;
    var q := x / lpSupply;
    ShareOfReserve(liquidity, reserve, lpSupply, x, q);
    AsU64(q)
  }

  /** The 64-bit truncation of floor(x / s), where x = l * r, is covered
      by x; while l <= s it is floor(x / s) itself, at most r. */
  lemma ShareOfReserve(liquidity: nat, reserve: u64, lpSupply: nat, x: nat, q: nat)
    requires 0 < lpSupply && x == liquidity * reserve && q == x / lpSupply
    ensures AsU64(q) * lpSupply <= x
    ensures liquidity <= lpSupply ==> x < AsU64(q) * lpSupply + lpSupply && AsU64(q) <= reserve
  {
    FloorDivBounds(x, lpSupply);
    MulLeftMonotone(lpSupply, AsU64(q), q);
    if liquidity <= lpSupply {
      MulLeftMonotone(reserve, liquidity, lpSupply);
      DivUpperBound(x, lpSupply, reserve);
      assert AsU64(q) == q;
      assert (q + 1) * lpSupply == q * lpSupply + lpSupply;
    }
  }

  /** The checks and amounts of `remove_liquidity::handler`, in their order. */
  function WithdrawQuote(p: PoolRecord, lpSupply: nat, userLp: nat, liquidity: u64, amountAMin: u64, amountBMin: u64)
    : (r: Result<Withdrawal>)
    ensures r.Ok? ==> 0 < liquidity <= userLp && 0 < lpSupply
    ensures r.Ok? ==> amountAMin <= r.value.amountA <= p.reserveA && amountBMin <= r.value.amountB <= p.reserveB
  {
    if !p.isInitialized then Err(PoolNotInitialized)
    else if liquidity == 0 then Err(InsufficientLiquidityBurned)
    else if lpSupply == 0 then Err(InsufficientLiquidity)
    else if userLp < liquidity then Err(InsufficientLiquidityBurned)
    else
      var amountA := ProRata(liquidity, p.reserveA, lpSupply);
      var amountB := ProRata(liquidity, p.reserveB, lpSupply);
      if amountA < amountAMin then Err(InsufficientAAmount)
      else if amountB < amountBMin then Err(InsufficientBAmount)
      else if amountA > p.reserveA || amountB > p.reserveB then Err(InsufficientLiquidity)
      else Ok(Withdrawal(amountA, amountB))
  }

  /** The committed effect on the pool record: both reserves fall by the
      amounts paid out. */
  function ApplyWithdrawal(p: PoolRecord, w: Withdrawal): (r: PoolRecord)
    requires w.amountA <= p.reserveA && w.amountB <= p.reserveB
    ensures r.reserveA + w.amountA == p.reserveA && r.reserveB + w.amountB == p.reserveB
    ensures r == p.(reserveA := r.reserveA, reserveB := r.reserveB)
  {
    p.(reserveA := p.reserveA - w.amountA, reserveB := p.reserveB - w.amountB)
  }

  /** `remove_liquidity::handler` on the in-memory pool, the LP mint and the
      holder's LP account. An SPL balance never exceeds its mint's supply.
      Every check runs before the first write, so a rejected withdrawal
      changes nothing. */
  method Handler(pool: LiquidityPool, lpMint: Mint, userLp: TokenAccount, liquidity: u64, amountAMin: u64, amountBMin: u64)
    returns (r: Result<()>)
    requires pool.Valid() && userLp.amount <= lpMint.supply
    modifies pool, lpMint, userLp
    ensures pool.Valid() && userLp.amount <= lpMint.supply
    ensures var q := WithdrawQuote(old(pool.Record()), old(lpMint.supply), old(userLp.amount), liquidity, amountAMin, amountBMin);
      && (r.Ok? <==> q.Ok?)
      && (q.Err? ==>
            && r.error == q.error && pool.Record() == old(pool.Record())
            && lpMint.supply == old(lpMint.supply) && userLp.amount == old(userLp.amount))
      && (q.Ok? ==>
            && pool.Record() == ApplyWithdrawal(old(pool.Record()), q.value)
            && lpMint.supply == old(lpMint.supply) - liquidity
            && userLp.amount == old(userLp.amount) - liquidity)
  {
    if !pool.isInitialized {
      return Err(PoolNotInitialized);
    }
    if !(liquidity > 0) {
      return Err(InsufficientLiquidityBurned);
    }
    var totalSupply := lpMint.supply;
    if !(totalSupply > 0) {
      return Err(InsufficientLiquidity);
    }
    if !(userLp.amount >= liquidity) {
      return Err(InsufficientLiquidityBurned);
    }

    var amountA := ProRata(liquidity, pool.reserveA, totalSupply);
    var amountB := ProRata(liquidity, pool.reserveB, totalSupply);
    if !(amountA >= amountAMin) {
      return Err(InsufficientAAmount);
    }
    if !(amountB >= amountBMin) {
      return Err(InsufficientBAmount);
    }
    if !(amountA <= pool.reserveA && amountB <= pool.reserveB) {
      return Err(InsufficientLiquidity);
    }

    Burn(lpMint, userLp, liquidity);
    // the two vault transfers are not modelled
    pool.reserveA := pool.reserveA - amountA;
    pool.reserveB := pool.reserveB - amountB;
    r := Ok(());
  }

  /** The checks that refuse a withdrawal before any amount is computed, in
      their order. */
  lemma WithdrawRejections(p: PoolRecord, lpSupply: nat, userLp: nat, liquidity: u64, amountAMin: u64, amountBMin: u64)
    ensures var r := WithdrawQuote(p, lpSupply, userLp, liquidity, amountAMin, amountBMin);
      && (!p.isInitialized ==> r == Err(PoolNotInitialized))
      && (p.isInitialized && liquidity == 0 ==> r == Err(InsufficientLiquidityBurned))
      && (p.isInitialized && 0 < liquidity && lpSupply == 0 ==> r == Err(InsufficientLiquidity))
      && (p.isInitialized && 0 < liquidity && 0 < lpSupply && userLp < liquidity ==> r == Err(InsufficientLiquidityBurned))
  {
  }

  /** With the holder's balance within the supply, the payout is the floor
      of the holder's share of each reserve; it is refused only for the
      caller's minimums, never by the reserve guard. */
  lemma WithdrawProRata(p: PoolRecord, lpSupply: nat, userLp: nat, liquidity: u64, amountAMin: u64, amountBMin: u64)
    requires p.isInitialized && 0 < liquidity <= userLp <= lpSupply
    ensures var r := WithdrawQuote(p, lpSupply, userLp, liquidity, amountAMin, amountBMin);
      var a := ProRata(liquidity, p.reserveA, lpSupply);
      var b := ProRata(liquidity, p.reserveB, lpSupply);
      && a * lpSupply <= liquidity * p.reserveA < a * lpSupply + lpSupply
      && b * lpSupply <= liquidity * p.reserveB < b * lpSupply + lpSupply
      && (r == Err(InsufficientAAmount) <==> a < amountAMin)
      && (r == Err(InsufficientBAmount) <==> amountAMin <= a && b < amountBMin)
      && (r.Ok? <==> amountAMin <= a && amountBMin <= b)
      && (r.Ok? ==> r.value == Withdrawal(a, b))
  {
  }

  /** Withdrawing every LP token pays out both reserves in full. */
  lemma FullWithdrawalEmptiesPool(p: PoolRecord, lpSupply: nat, liquidity: u64)
    requires p.isInitialized && 0 < liquidity && lpSupply == liquidity
    ensures WithdrawQuote(p, lpSupply, lpSupply, liquidity, 0, 0) == Ok(Withdrawal(p.reserveA, p.reserveB))
  {
    ProRataOfWhole(liquidity, p.reserveA);
    ProRataOfWhole(liquidity, p.reserveB);
  }

  /** The whole supply's share of a reserve is the reserve. */
  lemma ProRataOfWhole(liquidity: u64, reserve: u64)
    requires 0 < liquidity
    ensures ProRata(liquidity, reserve, liquidity) == reserve
  {
    var x := liquidity * reserve;
    assert reserve * liquidity <= x < (reserve + 1) * liquidity;
    DivLowerBound(x, liquidity, reserve);
    DivUpperBound(x, liquidity, reserve);
  }

  /** The holders who stay are not diluted: per LP token, each reserve
      after a withdrawal is at least what it was before,
      (r - a) / (S - L) >= r / S, written without division. */
  lemma WithdrawNoDilution(p: PoolRecord, lpSupply: nat, userLp: nat, liquidity: u64, amountAMin: u64, amountBMin: u64)
    requires WithdrawQuote(p, lpSupply, userLp, liquidity, amountAMin, amountBMin).Ok?
    ensures var w := WithdrawQuote(p, lpSupply, userLp, liquidity, amountAMin, amountBMin).value;
      && (p.reserveA - w.amountA) * lpSupply >= p.reserveA * (lpSupply - liquidity)
      && (p.reserveB - w.amountB) * lpSupply >= p.reserveB * (lpSupply - liquidity)
  {
    var w := WithdrawQuote(p, lpSupply, userLp, liquidity, amountAMin, amountBMin).value;
    ShareShrink(p.reserveA, w.amountA, lpSupply, liquidity);
    ShareShrink(p.reserveB, w.amountB, lpSupply, liquidity);
  }

  /** a * S <= L * r gives (r - a) * S >= r * (S - L). */
  lemma ShareShrink(reserve: int, amount: int, supply: int, burned: int)
    requires amount * supply <= burned * reserve
    ensures (reserve - amount) * supply >= reserve * (supply - burned)
  {
    assert (reserve - amount) * supply == reserve * supply - amount * supply;
    assert reserve * (supply - burned) == reserve * supply - burned * reserve;
  }
}
