/** The `add_liquidity` instruction: the first deposit priced by the integer
    square root of the product, later deposits priced by `quote` against the
    reserves, the LP amount minted, and the reserve update. */
module AddLiquidity {
  import opened Primitives
  import opened Errors
  import opened State
  import opened SplToken

  /** LP tokens withheld from the first provider. */
  const MINIMUM_LIQUIDITY: nat := 1000

  /** `quote`: the amount of B worth `amountA` of A at the reserve ratio,
      rounded down and cast with `as u64`, which keeps only the low 64 bits. */
  function Quote(amountA: u64, reserveA: u64, reserveB: u64): (r: Result<u64>)
    ensures r.Ok? <==> 0 < amountA && 0 < reserveA && 0 < reserveB
    ensures amountA == 0 ==> r == Err(InsufficientAmount)
    ensures 0 < amountA && (reserveA == 0 || reserveB == 0) ==> r == Err(InsufficientLiquidity)
    ensures r.Ok? ==> r.value * reserveA <= amountA * reserveB
    ensures r.Ok? && amountA * reserveB / reserveA < U64_LIMIT ==>
      amountA * reserveB < r.value * reserveA + reserveA
  {
    if amountA == 0 then Err(InsufficientAmount)
    else if reserveA == 0 || reserveB == 0 then Err(InsufficientLiquidity)
    else
      var x := amountA * reserveB;
      FloorDivBounds(x, reserveA);
      var q := AsU64(x / reserveA);
      MulLeftMonotone(reserveA, q, x / reserveA);
      Ok(q)
  }

  /** The `as u64` in `quote` wraps: a quote of 2^64 + 5 comes out as 5. */
  lemma QuoteWraps()
    ensures Quote(6148914691236517207, 1, 3) == Ok(5)
  {
    assert 6148914691236517207 * 3 / 1 == U64_LIMIT + 5;
  }

  /** The floor square root, by the digit recurrence on n / 4: the reference
      the Newton iteration is proved against. */
  function FloorSqrt(n: nat): (r: nat)
    ensures r * r <= n < (r + 1) * (r + 1)
    decreases n
  {
    if n < 4 then (if n == 0 then 0 else 1)
    else
      var t := FloorSqrt(n / 4);
      SqrtStep(n, t);
      if (2 * t + 1) * (2 * t + 1) <= n then 2 * t + 1 else 2 * t
  }

  /** A floor square root of n / 4, doubled, is within one of a floor square
      root of n. */
  lemma SqrtStep(n: nat, t: nat)
    requires t * t <= n / 4 < (t + 1) * (t + 1)
    ensures (2 * t) * (2 * t) <= n < (2 * t + 2) * (2 * t + 2)
  {
    FloorDivBounds(n, 4);
    assert (2 * t) * (2 * t) == 4 * (t * t);
    assert (2 * t + 2) * (2 * t + 2) == 4 * ((t + 1) * (t + 1));
  }

  /** Squaring is strictly monotone on the naturals, read backwards. */
  lemma SquareLess(a: nat, b: nat)
    requires a * a < b * b
    ensures a < b
  {
    if b < a {
      MulMonotone(b, b, a, a);
    }
  }

  /** The floor square root is the only r with r^2 <= n < (r + 1)^2. */
  lemma SqrtUnique(n: nat, r: nat)
    requires r * r <= n < (r + 1) * (r + 1)
    ensures r == FloorSqrt(n)
  {
    var s := FloorSqrt(n);
    SquareLess(r, s + 1);
    SquareLess(s, r + 1);
  }

  /** The Newton step never drops below the floor square root:
      floor((x + floor(n / x)) / 2) >= floor(sqrt(n)) for every x > 0. */
  lemma NewtonStepAbove(n: nat, x: nat)
    requires 0 < x
    ensures FloorSqrt(n) <= (x + n / x) / 2
  {
    FloorDivBounds(n, x);
    SumCoversTwiceRoot(n, x, FloorSqrt(n), n / x);
  }

  /** If s^2 <= n < (q + 1) * x then x + q >= 2s (the integer AM-GM step). */
  lemma SumCoversTwiceRoot(n: nat, x: nat, s: nat, q: nat)
    requires 0 < x && s * s <= n < (q + 1) * x
    ensures 2 * s <= x + q
  {
    if x < 2 * s {
      var k := 2 * s - x;
      SquareGap(s, x);
      assert k * x < (q + 1) * x;
      MulCancelLess(k, q + 1, x);
    }
  }

  /** (2s - x) * x falls short of s * s by the square (s - x)^2. */
  lemma SquareGap(s: int, x: int)
    ensures (2 * s - x) * x + (s - x) * (s - x) == s * s
    ensures 0 <= (s - x) * (s - x)
  {
  }

  /** The root of a product of two u64 values fits in 64 bits. */
  lemma SqrtOfProductFits(a: u64, b: u64)
    ensures FloorSqrt(a * b) < U64_LIMIT
  {
    var s := FloorSqrt(a * b);
    WideProductFits(a, b);
    assert U128_LIMIT == U64_LIMIT * U64_LIMIT;
    SquareLess(s, U64_LIMIT);
  }

  /** `integer_sqrt`: Newton's iteration from x = n, y = (n + 1) / 2 while y
      keeps falling. `n + 1` is a u128 addition, so n must be below 2^128 - 1. */
  method IntegerSqrt(n: u128) returns (r: nat)
    requires n + 1 < U128_LIMIT
    ensures r * r <= n < (r + 1) * (r + 1)
    ensures r == FloorSqrt(n)
  {
    if n == 0 {
      return 0;
    }
    var x: nat := n;
    var y: nat := (n + 1) / 2;
    assert n / n == 1;
    RootBounds(n);
    while y < x
      invariant 0 < x <= n
      invariant y == (x + n / x) / 2
      invariant FloorSqrt(n) <= x
      decreases x
    {
      NewtonStepAbove(n, x);
      x := y;
      y := (y + n / y) / 2;
    }
    NewtonFixpoint(n, x);
    r := x;
  }

  /** The floor root of a positive n lies in [1, n]. */
  lemma RootBounds(n: nat)
    requires 0 < n
    ensures 1 <= FloorSqrt(n) <= n
  {
    var s := FloorSqrt(n);
    MulLeftMonotone(s, 1, s);
  }

  /** Once the Newton step stops falling the iterate is the floor root:
      (x + n / x) / 2 >= x gives x * x <= n. */
  lemma NewtonFixpoint(n: nat, x: nat)
    requires 0 < x && FloorSqrt(n) <= x <= (x + n / x) / 2
    ensures x == FloorSqrt(n)
  {
    var q := n / x;
    FloorDivBounds(n, x);
    MulLeftMonotone(x, x, q);
    assert x * x <= n;
    SquareLess(x, FloorSqrt(n) + 1);
  }

  /** What an accepted deposit takes from the provider and mints to them. */
  datatype Deposit = Deposit(amountA: u64, amountB: u64, liquidity: u64)

  /** The first provider's deposit: both desired amounts, and the floor root
      of their product less the 1000 withheld LP tokens. */
  function FirstDeposit(amountADesired: u64, amountBDesired: u64): (r: Result<Deposit>)
    ensures r.Ok? <==> MINIMUM_LIQUIDITY < FloorSqrt(amountADesired * amountBDesired)
    ensures r.Err? ==> r.error == InsufficientLiquidity
    ensures r.Ok? ==> r.value.amountA == amountADesired && r.value.amountB == amountBDesired
    ensures r.Ok? ==> var root := r.value.liquidity + MINIMUM_LIQUIDITY;
      root * root <= amountADesired * amountBDesired < (root + 1) * (root + 1)
  {
    var root := FloorSqrt(amountADesired * amountBDesired);
    SqrtOfProductFits(amountADesired, amountBDesired);
    if root <= MINIMUM_LIQUIDITY then Err(InsufficientLiquidity)
    else Ok(Deposit(amountADesired, amountBDesired, root - MINIMUM_LIQUIDITY))
  }

  /** The amounts a later provider deposits: all the A offered and the B it
      quotes to, or, when that is more B than offered, all the B offered and
      the A it quotes to. Only the second branch checks `amount_a_min`. */
  function OptimalAmounts(p: PoolRecord, amountADesired: u64, amountBDesired: u64, amountAMin: u64, amountBMin: u64)
    : (r: Result<(u64, u64)>)
    requires 0 < amountADesired && 0 < amountBDesired
    ensures r.Ok? ==> 0 < p.reserveA && 0 < p.reserveB
    ensures r.Ok? ==> r.value.0 <= amountADesired && r.value.1 <= amountBDesired
    ensures r.Ok? ==>
      || (r.value.0 == amountADesired && amountBMin <= r.value.1 && r.value.1 * p.reserveA <= amountADesired * p.reserveB)
      || (r.value.1 == amountBDesired && amountAMin <= r.value.0 && r.value.0 * p.reserveB <= amountBDesired * p.reserveA)
  {
    match Quote(amountADesired, p.reserveA, p.reserveB)
    case Err(e) => Err(e)
    case Ok(bOptimal) =>
      if bOptimal <= amountBDesired then
        if bOptimal >= amountBMin then Ok((amountADesired, bOptimal)) else Err(InsufficientBAmount)
      else
        match Quote(amountBDesired, p.reserveB, p.reserveA)
        case Err(e) => Err(e)
        case Ok(aOptimal) =>
          if aOptimal > amountADesired then Err(InsufficientAmount)
          else if aOptimal < amountAMin then Err(InsufficientAAmount)
          else Ok((aOptimal, amountBDesired))
  }

  /** The LP minted for a later deposit: the smaller of a * S / ra and
      b * S / rb, cast with `as u64`; zero is refused. It is the largest
      amount whose share of the new supply is covered by both deposits
      whenever the smaller quotient fits in 64 bits, that is, whenever one
      of a * S and b * S is below 2^64 times its reserve. */
  function MintedLiquidity(amountA: u64, amountB: u64, reserveA: u64, reserveB: u64, lpSupply: nat): (r: Result<u64>)
    requires 0 < reserveA && 0 < reserveB
    ensures lpSupply < U64_LIMIT ==> r != Err(MathOverflow)
    ensures r.Err? ==> r.error == MathOverflow || r.error == InsufficientLiquidityBurned
    ensures r.Ok? ==> 0 < r.value && r.value * reserveA <= amountA * lpSupply && r.value * reserveB <= amountB * lpSupply
    ensures r.Ok? && (amountA * lpSupply < U64_LIMIT * reserveA || amountB * lpSupply < U64_LIMIT * reserveB) ==>
      amountA * lpSupply < (r.value + 1) * reserveA || amountB * lpSupply < (r.value + 1) * reserveB
    ensures lpSupply < U64_LIMIT && 0 < MinShare(amountA, amountB, reserveA, reserveB, lpSupply) ==>
      r == Ok(MinShare(amountA, amountB, reserveA, reserveB, lpSupply))
  {
    SupplyProductFits(amountA, lpSupply);
    SupplyProductFits(amountB, lpSupply);
    var xA, xB := amountA * lpSupply, amountB * lpSupply;
    if xA >= U128_LIMIT || xB >= U128_LIMIT then Err(MathOverflow)
    else
      var liquidity := MinShare(amountA, amountB, reserveA, reserveB, lpSupply);
      MintBounds(xA, reserveA, xB, reserveB, xA / reserveA, xB / reserveB, liquidity);
      if liquidity == 0 then Err(InsufficientLiquidityBurned) else Ok(liquidity)
  }

  /** The smaller of the two supply shares a * S / ra and b * S / rb,
      cast with `as u64`. */
  function MinShare(amountA: u64, amountB: u64, reserveA: u64, reserveB: u64, lpSupply: nat): u64
    requires 0 < reserveA && 0 < reserveB
  {
    SupplyProductFits(amountA, lpSupply);
    SupplyProductFits(amountB, lpSupply);
    AsU64(Min(amountA * lpSupply / reserveA, amountB * lpSupply / reserveB))
  }

  /** The truncated minimum l of floor(xA / rA) and floor(xB / rB) is
      covered by both dividends, and while that minimum fits in 64 bits
      (one dividend is below 2^64 times its divisor) it is the largest such. */
  lemma MintBounds(xA: nat, rA: nat, xB: nat, rB: nat, qA: nat, qB: nat, l: nat)
    requires 0 < rA && 0 < rB && qA == xA / rA && qB == xB / rB && l == AsU64(Min(qA, qB))
    ensures l * rA <= xA && l * rB <= xB
    ensures xA < U64_LIMIT * rA || xB < U64_LIMIT * rB ==> xA < (l + 1) * rA || xB < (l + 1) * rB
  {
    ShareBounds(xA, rA, l, qA);
    ShareBounds(xB, rB, l, qB);
    if xA < U64_LIMIT * rA || xB < U64_LIMIT * rB {
      QuotientFits(xA, rA, qA);
      QuotientFits(xB, rB, qB);
    }
  }

  /** The smaller of the two quotients fits in 64 bits exactly when one
      dividend is below 2^64 times its divisor: the condition under which
      `MintedLiquidity` is the largest covered amount. */
  lemma MinQuotientFits(xA: nat, rA: nat, xB: nat, rB: nat)
    requires 0 < rA && 0 < rB
    ensures Min(xA / rA, xB / rB) < U64_LIMIT <==> xA < U64_LIMIT * rA || xB < U64_LIMIT * rB
  {
    QuotientFits(xA, rA, xA / rA);
    QuotientFits(xB, rB, xB / rB);
  }

  /** floor(x / d) is below 2^64 exactly when x is below 2^64 * d. */
  lemma QuotientFits(x: nat, d: nat, q: nat)
    requires 0 < d && q == x / d
    ensures q < U64_LIMIT <==> x < U64_LIMIT * d
  {
    FloorDivBounds(x, d);
    if q < U64_LIMIT {
      MulLeftMonotone(d, q + 1, U64_LIMIT);
    } else {
      MulLeftMonotone(d, U64_LIMIT, q);
    }
  }

  /** With an LP supply that fits in 64 bits, the u128 `checked_mul` by
      the supply never overflows. */
  lemma SupplyProductFits(amount: u64, lpSupply: nat)
    ensures 0 <= amount * lpSupply
    ensures lpSupply < U64_LIMIT ==> amount * lpSupply < U128_LIMIT
  {
    if lpSupply < U64_LIMIT {
      WideProductFits(amount, lpSupply);
    }
  }

  /** A share no larger than floor(x / d) is covered by x; one equal to it
      is the largest such. */
  lemma ShareBounds(x: nat, d: nat, share: nat, quotient: nat)
    requires 0 < d && quotient == x / d && share <= quotient
    ensures share * d <= x
    ensures share == quotient ==> x < (share + 1) * d
  {
    FloorDivBounds(x, d);
    MulLeftMonotone(d, share, quotient);
  }

  /** Both reserve additions fit in 64 bits. */
  predicate Fits(p: PoolRecord, d: Deposit) {
    p.reserveA + d.amountA < U64_LIMIT && p.reserveB + d.amountB < U64_LIMIT
  }

  /** The terms of a later deposit: the optimal amounts and the LP minted. */
  function LaterDeposit(p: PoolRecord, lpSupply: nat, amountADesired: u64, amountBDesired: u64, amountAMin: u64, amountBMin: u64)
    : (r: Result<Deposit>)
    requires 0 < amountADesired && 0 < amountBDesired
    ensures r.Ok? ==> 0 < r.value.liquidity && r.value.amountA <= amountADesired && r.value.amountB <= amountBDesired
  {
    match OptimalAmounts(p, amountADesired, amountBDesired, amountAMin, amountBMin)
    case Err(e) => Err(e)
    case Ok((a, b)) =>
      match MintedLiquidity(a, b, p.reserveA, p.reserveB, lpSupply)
      case Err(e) => Err(e)
      case Ok(liquidity) => Ok(Deposit(a, b, liquidity))
  }

  /** The checks and amounts of `add_liquidity::handler`, in their order. */
  function DepositQuote(p: PoolRecord, lpSupply: nat, amountADesired: u64, amountBDesired: u64, amountAMin: u64, amountBMin: u64)
    : (r: Result<Deposit>)
    ensures r.Ok? ==> Fits(p, r.value) && 0 < r.value.liquidity
    ensures r.Ok? ==> r.value.amountA <= amountADesired && r.value.amountB <= amountBDesired
  {
    if !p.isInitialized then Err(PoolNotInitialized)
    else if amountADesired == 0 || amountBDesired == 0 then Err(InsufficientAmount)
    else
      var terms :=
        if p.reserveA == 0 && p.reserveB == 0 then FirstDeposit(amountADesired, amountBDesired)
        else LaterDeposit(p, lpSupply, amountADesired, amountBDesired, amountAMin, amountBMin);
      match terms
      case Err(e) => Err(e)
      case Ok(d) => if Fits(p, d) then Ok(d) else Err(MathOverflow)
  }

  /** The committed effect of an accepted deposit on the pool record: both
      reserves grow by the amounts taken, so their product does not fall. */
  function ApplyDeposit(p: PoolRecord, d: Deposit): (r: PoolRecord)
    requires Fits(p, d)
    ensures r.reserveA >= p.reserveA && r.reserveB >= p.reserveB
    ensures r.reserveA * r.reserveB >= p.reserveA * p.reserveB
  {
    MulMonotone(p.reserveA, p.reserveB, p.reserveA + d.amountA, p.reserveB + d.amountB);
    p.(reserveA := p.reserveA + d.amountA, reserveB := p.reserveB + d.amountB)
  }

  /** `add_liquidity::handler` on the in-memory pool, the LP mint and the
      provider's LP account. Every check runs before the first write, so a
      rejected deposit changes nothing. */
  method Handler(pool: LiquidityPool, lpMint: Mint, userLp: TokenAccount,
                 amountADesired: u64, amountBDesired: u64, amountAMin: u64, amountBMin: u64)
    returns (r: Result<()>)
    requires pool.Valid()
    modifies pool, lpMint, userLp
    ensures pool.Valid()
    ensures var q := DepositQuote(old(pool.Record()), old(lpMint.supply), amountADesired, amountBDesired, amountAMin, amountBMin);
      && (r.Ok? <==> q.Ok?)
      && (q.Err? ==>
            && r.error == q.error && pool.Record() == old(pool.Record())
            && lpMint.supply == old(lpMint.supply) && userLp.amount == old(userLp.amount))
      && (q.Ok? ==>
            && pool.Record() == ApplyDeposit(old(pool.Record()), q.value)
            && lpMint.supply == old(lpMint.supply) + q.value.liquidity
            && userLp.amount == old(userLp.amount) + q.value.liquidity)
  {
    if !pool.isInitialized {
      return Err(PoolNotInitialized);
    }
    if !(amountADesired > 0 && amountBDesired > 0) {
      return Err(InsufficientAmount);
    }

    var terms;
    if pool.reserveA == 0 && pool.reserveB == 0 {
      terms := FirstDepositTerms(amountADesired, amountBDesired);
    } else {
      terms := LaterDepositTerms(pool, lpMint.supply, amountADesired, amountBDesired, amountAMin, amountBMin);
    }
    if terms.Err? {
      return Err(terms.error);
    }
    var d := terms.value;

    // reserve_a / reserve_b checked_add
    if pool.reserveA + d.amountA >= U64_LIMIT || pool.reserveB + d.amountB >= U64_LIMIT {
      return Err(MathOverflow);
    }

    MintTo(lpMint, userLp, d.liquidity);
    pool.reserveA := pool.reserveA + d.amountA;
    pool.reserveB := pool.reserveB + d.amountB;
    r := Ok(());
  }

  /** The first-provider branch of the handler, with `integer_sqrt`. */
  method FirstDepositTerms(amountADesired: u64, amountBDesired: u64) returns (r: Result<Deposit>)
    ensures r == FirstDeposit(amountADesired, amountBDesired)
  {
    // the u128 product cannot overflow
    WideProductFits(amountADesired, amountBDesired);
    var sqrtProduct := IntegerSqrt(amountADesired * amountBDesired);
    if !(sqrtProduct > MINIMUM_LIQUIDITY) {
      return Err(InsufficientLiquidity);
    }
    SqrtOfProductFits(amountADesired, amountBDesired);
    r := Ok(Deposit(amountADesired, amountBDesired, sqrtProduct - MINIMUM_LIQUIDITY));
  }

  /** The later-provider branch of the handler: the amounts, then the LP
      amount from the smaller of the two supply shares. */
  method LaterDepositTerms(pool: LiquidityPool, totalSupply: nat,
                           amountADesired: u64, amountBDesired: u64, amountAMin: u64, amountBMin: u64)
    returns (r: Result<Deposit>)
    requires 0 < amountADesired && 0 < amountBDesired
    ensures r == LaterDeposit(pool.Record(), totalSupply, amountADesired, amountBDesired, amountAMin, amountBMin)
  {
    var amounts := ChooseAmounts(pool, amountADesired, amountBDesired, amountAMin, amountBMin);
    if amounts.Err? {
      return Err(amounts.error);
    }
    var (amountA, amountB) := amounts.value;
    ghost var minted := MintedLiquidity(amountA, amountB, pool.reserveA, pool.reserveB, totalSupply);
    assert LaterDeposit(pool.Record(), totalSupply, amountADesired, amountBDesired, amountAMin, amountBMin)
      == if minted.Ok? then Ok(Deposit(amountA, amountB, minted.value)) else Err(minted.error);

    if amountA * totalSupply >= U128_LIMIT || amountB * totalSupply >= U128_LIMIT {
      return Err(MathOverflow);
    }
    var liquidityA := amountA * totalSupply / pool.reserveA;
    var liquidityB := amountB * totalSupply / pool.reserveB;
    var liquidity := AsU64(Min(liquidityA, liquidityB));
    if !(liquidity > 0) {
      return Err(InsufficientLiquidityBurned);
    }
    r := Ok(Deposit(amountA, amountB, liquidity));
  }

  /** The two quotes and the minimum checks of a later deposit. */
  method ChooseAmounts(pool: LiquidityPool, amountADesired: u64, amountBDesired: u64, amountAMin: u64, amountBMin: u64)
    returns (r: Result<(u64, u64)>)
    requires 0 < amountADesired && 0 < amountBDesired
    ensures r == OptimalAmounts(pool.Record(), amountADesired, amountBDesired, amountAMin, amountBMin)
  {
    var bOptimal := Quote(amountADesired, pool.reserveA, pool.reserveB);
    if bOptimal.Err? {
      return Err(bOptimal.error);
    }
    if bOptimal.value <= amountBDesired {
      if !(bOptimal.value >= amountBMin) {
        return Err(InsufficientBAmount);
      }
      return Ok((amountADesired, bOptimal.value));
    }
    // the first quote succeeded, so the reserves are positive and this one cannot fail
    var aOptimal := Quote(amountBDesired, pool.reserveB, pool.reserveA);
    assert aOptimal.Ok?;
    if !(aOptimal.value <= amountADesired) {
      return Err(InsufficientAmount);
    }
    if !(aOptimal.value >= amountAMin) {
      return Err(InsufficientAAmount);
    }
    r := Ok((aOptimal.value, amountBDesired));
  }

  /** The checks that refuse a deposit before any amount is computed, in
      their order; a pool with exactly one empty reserve refuses in `quote`. */
  lemma DepositRejections(p: PoolRecord, lpSupply: nat, amountADesired: u64, amountBDesired: u64, amountAMin: u64, amountBMin: u64)
    ensures var r := DepositQuote(p, lpSupply, amountADesired, amountBDesired, amountAMin, amountBMin);
      && (!p.isInitialized ==> r == Err(PoolNotInitialized))
      && (p.isInitialized && (amountADesired == 0 || amountBDesired == 0) ==> r == Err(InsufficientAmount))
      && ((p.isInitialized && 0 < amountADesired && 0 < amountBDesired && (p.reserveA == 0) != (p.reserveB == 0))
            ==> r == Err(InsufficientLiquidity))
  {
  }

  /** The first deposit into an empty pool takes both desired amounts and
      mints floor(sqrt(a * b)) - 1000 LP, whatever the minimums and the
      supply; a root of at most 1000 is refused. */
  lemma FirstDepositMintsRoot(p: PoolRecord, lpSupply: nat, amountADesired: u64, amountBDesired: u64, amountAMin: u64, amountBMin: u64)
    requires p.isInitialized && 0 < amountADesired && 0 < amountBDesired && p.reserveA == 0 && p.reserveB == 0
    ensures var r := DepositQuote(p, lpSupply, amountADesired, amountBDesired, amountAMin, amountBMin);
      var root := FloorSqrt(amountADesired * amountBDesired);
      && (r.Ok? <==> MINIMUM_LIQUIDITY < root)
      && (r.Err? ==> r.error == InsufficientLiquidity)
      && (r.Ok? ==> r.value.amountA == amountADesired && r.value.amountB == amountBDesired
                    && r.value.liquidity == root - MINIMUM_LIQUIDITY)
  {
    var root := FloorSqrt(amountADesired * amountBDesired);
    var first := FirstDeposit(amountADesired, amountBDesired);
    if first.Ok? {
      SqrtUnique(amountADesired * amountBDesired, first.value.liquidity + MINIMUM_LIQUIDITY);
    }
  }

  /** A later deposit never takes more than offered, mints a positive
      amount, and honours the minimum of the side it quotes: either all the
      A and at least `amount_b_min` of B, or all the B and at least
      `amount_a_min` of A. */
  lemma DepositWithinLimits(p: PoolRecord, lpSupply: nat, amountADesired: u64, amountBDesired: u64, amountAMin: u64, amountBMin: u64)
    requires DepositQuote(p, lpSupply, amountADesired, amountBDesired, amountAMin, amountBMin).Ok?
    requires 0 < p.reserveA || 0 < p.reserveB
    ensures var d := DepositQuote(p, lpSupply, amountADesired, amountBDesired, amountAMin, amountBMin).value;
      && d.amountA <= amountADesired && d.amountB <= amountBDesired && 0 < d.liquidity
      && ((d.amountA == amountADesired && amountBMin <= d.amountB) || (d.amountB == amountBDesired && amountAMin <= d.amountA))
  {
    var amounts := OptimalAmounts(p, amountADesired, amountBDesired, amountAMin, amountBMin);
    assert amounts.Ok?;
  }

  /** The branch a later deposit takes and the amounts it settles on. When
      the B quoted for all the A offered is within the B offered, the deposit
      takes all the A and exactly that B, and is refused with
      InsufficientBAmount exactly when that B is below `amount_b_min`.
      Otherwise it takes all the B and exactly the A quoted for it, refused
      with InsufficientAmount when that A exceeds the A offered and with
      InsufficientAAmount when it is below `amount_a_min`. */
  lemma OptimalAmountsChoice(p: PoolRecord, amountADesired: u64, amountBDesired: u64, amountAMin: u64, amountBMin: u64)
    requires 0 < amountADesired && 0 < amountBDesired && 0 < p.reserveA && 0 < p.reserveB
    ensures Quote(amountADesired, p.reserveA, p.reserveB).Ok? && Quote(amountBDesired, p.reserveB, p.reserveA).Ok?
    ensures var r := OptimalAmounts(p, amountADesired, amountBDesired, amountAMin, amountBMin);
      var bOptimal := Quote(amountADesired, p.reserveA, p.reserveB).value;
      var aOptimal := Quote(amountBDesired, p.reserveB, p.reserveA).value;
      && (bOptimal <= amountBDesired ==>
            && (r == Err(InsufficientBAmount) <==> bOptimal < amountBMin)
            && (r.Ok? <==> amountBMin <= bOptimal)
            && (r.Ok? ==> r.value == (amountADesired, bOptimal)))
      && (amountBDesired < bOptimal ==>
            && (r == Err(InsufficientAmount) <==> amountADesired < aOptimal)
            && (r == Err(InsufficientAAmount) <==> aOptimal <= amountADesired && aOptimal < amountAMin)
            && (r.Ok? <==> amountAMin <= aOptimal <= amountADesired)
            && (r.Ok? ==> r.value == (aOptimal, amountBDesired)))
  {
  }

  /** When a later deposit into a stocked pool succeeds: the amounts pass
      their checks, the LP amount min(a * S / ra, b * S / rb) cast to 64 bits
      is positive (else InsufficientLiquidityBurned), and both reserve
      additions fit (else MathOverflow). The deposit is then exactly those
      amounts and that LP amount. */
  lemma LaterDepositAccepted(p: PoolRecord, lpSupply: nat, amountADesired: u64, amountBDesired: u64, amountAMin: u64, amountBMin: u64)
    requires p.isInitialized && 0 < amountADesired && 0 < amountBDesired && 0 < p.reserveA && 0 < p.reserveB
    requires lpSupply < U64_LIMIT
    ensures var amounts := OptimalAmounts(p, amountADesired, amountBDesired, amountAMin, amountBMin);
      var r := DepositQuote(p, lpSupply, amountADesired, amountBDesired, amountAMin, amountBMin);
      && (amounts.Err? ==> r == Err(amounts.error))
      && (amounts.Ok? ==>
            var (a, b) := amounts.value;
            var minted := MinShare(a, b, p.reserveA, p.reserveB, lpSupply);
            && (r.Ok? <==> 0 < minted && Fits(p, Deposit(a, b, minted)))
            && (minted == 0 ==> r == Err(InsufficientLiquidityBurned))
            && (0 < minted && !Fits(p, Deposit(a, b, minted)) ==> r == Err(MathOverflow))
            && (r.Ok? ==> r.value == Deposit(a, b, minted)))
  {
  }

  /** When the B quote fits, `amount_a_min` plays no part: the outcome is
      the same whatever minimum of A the provider asked for, even one above
      the amount of A taken. */
  lemma MinimumAIgnoredWhenQuoteFits(p: PoolRecord, lpSupply: nat, amountADesired: u64, amountBDesired: u64,
                                     amountAMin: u64, otherAMin: u64, amountBMin: u64)
    requires p.isInitialized && 0 < amountADesired && 0 < amountBDesired
    requires Quote(amountADesired, p.reserveA, p.reserveB).Ok?
    requires Quote(amountADesired, p.reserveA, p.reserveB).value <= amountBDesired
    ensures DepositQuote(p, lpSupply, amountADesired, amountBDesired, amountAMin, amountBMin)
         == DepositQuote(p, lpSupply, amountADesired, amountBDesired, otherAMin, amountBMin)
  {
    assert OptimalAmounts(p, amountADesired, amountBDesired, amountAMin, amountBMin)
        == OptimalAmounts(p, amountADesired, amountBDesired, otherAMin, amountBMin);
  }

  /** A later deposit does not dilute the existing holders: per LP token,
      each reserve after the deposit is at least what it was before,
      (r + a) / (S + L) >= r / S, written without division. */
  lemma DepositNoDilution(p: PoolRecord, lpSupply: nat, amountADesired: u64, amountBDesired: u64, amountAMin: u64, amountBMin: u64)
    requires DepositQuote(p, lpSupply, amountADesired, amountBDesired, amountAMin, amountBMin).Ok?
    requires 0 < p.reserveA || 0 < p.reserveB
    ensures var d := DepositQuote(p, lpSupply, amountADesired, amountBDesired, amountAMin, amountBMin).value;
      && (p.reserveA + d.amountA) * lpSupply >= p.reserveA * (lpSupply + d.liquidity)
      && (p.reserveB + d.amountB) * lpSupply >= p.reserveB * (lpSupply + d.liquidity)
  {
    var d := DepositQuote(p, lpSupply, amountADesired, amountBDesired, amountAMin, amountBMin).value;
    var amounts := OptimalAmounts(p, amountADesired, amountBDesired, amountAMin, amountBMin);
    assert amounts.Ok? && amounts.value == (d.amountA, d.amountB);
    assert MintedLiquidity(d.amountA, d.amountB, p.reserveA, p.reserveB, lpSupply) == Ok(d.liquidity);
    ShareGrowth(p.reserveA, d.amountA, lpSupply, d.liquidity);
    ShareGrowth(p.reserveB, d.amountB, lpSupply, d.liquidity);
  }

  /** L * r <= a * S gives (r + a) * S >= r * (S + L). */
  lemma ShareGrowth(reserve: nat, amount: nat, supply: nat, minted: nat)
    requires minted * reserve <= amount * supply
    ensures (reserve + amount) * supply >= reserve * (supply + minted)
  {
    assert (reserve + amount) * supply == reserve * supply + amount * supply;
    assert reserve * (supply + minted) == reserve * supply + minted * reserve;
  }
}
