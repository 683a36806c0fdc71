/** The pool across instructions: the pool record together with the LP
    mint's supply, the four state-changing instructions as one transition,
    and the invariant they keep between them — a live pool either holds
    nothing and has no LP outstanding, or holds both tokens and has LP
    outstanding. */
module Lifecycle {
  import opened Primitives
  import opened Errors
  import opened State
  import Swap
  import AddLiquidity
  import RemoveLiquidity
  import UpdateFees
  import InitializePool

  /** The pool account and the supply of its LP mint. */
  datatype Market = Market(pool: PoolRecord, lpSupply: nat)

  /** An instruction sent to an existing pool, with the arguments and the
      context (clock, off-chain volatility, holder's LP balance) it runs in. */
  datatype Instruction =
    | SwapIx(tokenInMint: Pubkey, amountIn: u64, minimumAmountOut: u64, volatility: real, slot: u64)
    | AddLiquidityIx(amountADesired: u64, amountBDesired: u64, amountAMin: u64, amountBMin: u64)
    | RemoveLiquidityIx(holding: nat, liquidity: u64, amountAMin: u64, amountBMin: u64)
    | UpdateFeesIx(currentSlot: u64, volatility: real)

  /** What the runtime guarantees around an instruction: the volatility
      score is non-negative and an SPL balance never exceeds its mint's
      supply. */
  predicate Admissible(m: Market, ix: Instruction) {
    match ix
    case SwapIx(_, _, _, volatility, _) => 0.0 <= volatility
    case AddLiquidityIx(_, _, _, _) => true
    case RemoveLiquidityIx(holding, _, _, _) => holding <= m.lpSupply
    case UpdateFeesIx(_, volatility) => 0.0 <= volatility
  }

  /** One instruction as a transition: the handler's checks, and on success
      the new record and the LP minted or burned. */
  function Step(m: Market, ix: Instruction): (r: Result<Market>)
    requires WellFormed(m.pool) && Admissible(m, ix)
    ensures r.Ok? ==> WellFormed(r.value.pool)
    ensures !m.pool.isInitialized ==> r == Err(PoolNotInitialized)
  {
    var p := m.pool;
    match ix
    case SwapIx(tokenInMint, amountIn, minimumAmountOut, volatility, slot) =>
      (match Swap.SwapSpec(p, tokenInMint, amountIn, minimumAmountOut, volatility, slot)
       case Err(e) => Err(e)
       case Ok(q) => Ok(Market(q, m.lpSupply)))
    case AddLiquidityIx(amountADesired, amountBDesired, amountAMin, amountBMin) =>
      (match AddLiquidity.DepositQuote(p, m.lpSupply, amountADesired, amountBDesired, amountAMin, amountBMin)
       case Err(e) => Err(e)
       case Ok(d) => Ok(Market(AddLiquidity.ApplyDeposit(p, d), m.lpSupply + d.liquidity)))
    case RemoveLiquidityIx(holding, liquidity, amountAMin, amountBMin) =>
      (match RemoveLiquidity.WithdrawQuote(p, m.lpSupply, holding, liquidity, amountAMin, amountBMin)
       case Err(e) => Err(e)
       case Ok(w) => Ok(Market(RemoveLiquidity.ApplyWithdrawal(p, w), m.lpSupply - liquidity)))
    case UpdateFeesIx(currentSlot, volatility) =>
      (match UpdateFees.FeeUpdate(p, currentSlot, volatility)
       case Err(e) => Err(e)
       case Ok(q) => Ok(Market(q, m.lpSupply)))
  }

  /** A failed instruction's writes are discarded: the state stays. */
  function Next(m: Market, ix: Instruction): (r: Market)
    requires WellFormed(m.pool) && Admissible(m, ix)
    ensures WellFormed(r.pool)
    ensures Step(m, ix).Err? ==> r == m
  {
    match Step(m, ix)
    case Err(_) => m
    case Ok(m') => m'
  }

  /** Every instruction of the sequence runs under the runtime's guarantees
      in the state the earlier ones left. */
  predicate AdmissibleRun(m: Market, ixs: seq<Instruction>)
    requires WellFormed(m.pool)
    decreases |ixs|
  {
    |ixs| == 0 || (Admissible(m, ixs[0]) && AdmissibleRun(Next(m, ixs[0]), ixs[1..]))
  }

  /** The state after a sequence of instructions, each committed or
      discarded in turn. */
  function Run(m: Market, ixs: seq<Instruction>): (r: Market)
    requires WellFormed(m.pool) && AdmissibleRun(m, ixs)
    ensures WellFormed(r.pool)
    decreases |ixs|
  {
    if |ixs| == 0 then m else Run(Next(m, ixs[0]), ixs[1..])
  }

  /** The pool is live and its reserves are backed by LP in step: both
      empty with no LP outstanding, or both non-empty with LP outstanding. */
  predicate Backed(m: Market) {
    && m.pool.isInitialized
    && (|| (m.pool.reserveA == 0 && m.pool.reserveB == 0 && m.lpSupply == 0)
        || (0 < m.pool.reserveA && 0 < m.pool.reserveB && 0 < m.lpSupply))
  }

  /** A pool just created by `initialize_pool`, with its new LP mint. */
  lemma CreatedIsBacked(accounts: InitializePool.PoolAccounts, feeTier: u16, slot: u64, unixTimestamp: i64, bump: u8)
    requires InitializePool.Initialize(false, accounts, feeTier, slot, unixTimestamp, bump).Created?
    ensures var q := InitializePool.Initialize(false, accounts, feeTier, slot, unixTimestamp, bump).pool;
      WellFormed(q) && Backed(Market(q, 0))
  {
  }

  /** Every successful instruction keeps the pool backed. */
  lemma StepKeepsBacked(m: Market, ix: Instruction)
    requires WellFormed(m.pool) && Admissible(m, ix) && Backed(m)
    ensures Step(m, ix).Ok? ==> Backed(Step(m, ix).value)
  {
    if Step(m, ix).Ok? {
      var p := m.pool;
      match ix
      case SwapIx(tokenInMint, amountIn, minimumAmountOut, volatility, slot) =>
        Swap.SwapEffects(p, tokenInMint, amountIn, minimumAmountOut, volatility, slot);
      case AddLiquidityIx(amountADesired, amountBDesired, amountAMin, amountBMin) =>
        DepositKeepsBacked(m, amountADesired, amountBDesired, amountAMin, amountBMin);
      case RemoveLiquidityIx(holding, liquidity, amountAMin, amountBMin) =>
        WithdrawalKeepsBacked(m, holding, liquidity, amountAMin, amountBMin);
      case UpdateFeesIx(_, _) =>
    }
  }

  /** A deposit takes both tokens and mints LP: into an empty pool both
      desired amounts are non-zero, into a stocked one the reserves only
      grow. */
  lemma DepositKeepsBacked(m: Market, amountADesired: u64, amountBDesired: u64, amountAMin: u64, amountBMin: u64)
    requires WellFormed(m.pool) && Backed(m)
    requires AddLiquidity.DepositQuote(m.pool, m.lpSupply, amountADesired, amountBDesired, amountAMin, amountBMin).Ok?
    ensures var d := AddLiquidity.DepositQuote(m.pool, m.lpSupply, amountADesired, amountBDesired, amountAMin, amountBMin).value;
      Backed(Market(AddLiquidity.ApplyDeposit(m.pool, d), m.lpSupply + d.liquidity))
  {
    var p := m.pool;
    if p.reserveA == 0 && p.reserveB == 0 {
      var d := AddLiquidity.FirstDeposit(amountADesired, amountBDesired).value;
      assert d.amountA == amountADesired && d.amountB == amountBDesired;
    }
  }

  /** A withdrawal of the whole supply empties both reserves; a partial one
      leaves part of each reserve behind. */
  lemma WithdrawalKeepsBacked(m: Market, holding: nat, liquidity: u64, amountAMin: u64, amountBMin: u64)
    requires WellFormed(m.pool) && Backed(m) && holding <= m.lpSupply
    requires RemoveLiquidity.WithdrawQuote(m.pool, m.lpSupply, holding, liquidity, amountAMin, amountBMin).Ok?
    ensures var w := RemoveLiquidity.WithdrawQuote(m.pool, m.lpSupply, holding, liquidity, amountAMin, amountBMin).value;
      Backed(Market(RemoveLiquidity.ApplyWithdrawal(m.pool, w), m.lpSupply - liquidity))
  {
    var p := m.pool;
    var w := RemoveLiquidity.WithdrawQuote(p, m.lpSupply, holding, liquidity, amountAMin, amountBMin).value;
    RemoveLiquidity.WithdrawProRata(p, m.lpSupply, holding, liquidity, amountAMin, amountBMin);
    if liquidity == m.lpSupply {
      RemoveLiquidity.ProRataOfWhole(liquidity, p.reserveA);
      RemoveLiquidity.ProRataOfWhole(liquidity, p.reserveB);
    } else {
      PartialShareBelowWhole(liquidity, p.reserveA, m.lpSupply, w.amountA);
      PartialShareBelowWhole(liquidity, p.reserveB, m.lpSupply, w.amountB);
    }
  }

  /** An amount covered by a proper part of the supply's claim on a
      non-empty reserve is less than that reserve. */
  lemma PartialShareBelowWhole(liquidity: nat, reserve: nat, lpSupply: nat, amount: nat)
    requires liquidity < lpSupply && 0 < reserve && amount * lpSupply <= liquidity * reserve
    ensures amount < reserve
  {
    assert liquidity * reserve < lpSupply * reserve by {
      MulLeftMonotone(reserve, liquidity + 1, lpSupply);
    }
    MulCancelLess(amount, reserve, lpSupply);
  }

  /** From a backed pool, every admissible sequence of instructions leaves
      it backed, whichever of them fail. */
  lemma {:induction false} RunKeepsBacked(m: Market, ixs: seq<Instruction>)
    requires WellFormed(m.pool) && Backed(m) && AdmissibleRun(m, ixs)
    ensures Backed(Run(m, ixs))
    decreases |ixs|
  {
    if |ixs| > 0 {
      StepKeepsBacked(m, ixs[0]);
      RunKeepsBacked(Next(m, ixs[0]), ixs[1..]);
    }
  }

  /** The pool `LiquidityPool::default()` describes is refused by every
      instruction as not initialized. */
  lemma DefaultRefusesAll(lpSupply: nat, ix: Instruction)
    requires Admissible(Market(DefaultRecord(), lpSupply), ix)
    ensures Step(Market(DefaultRecord(), lpSupply), ix) == Err(PoolNotInitialized)
  {
  }
}
