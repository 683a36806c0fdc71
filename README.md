# solanaswift in Dafny

A model of solanaswift. It is a Solana program for a constant-product (x·y = k) automated market maker. Each pool holds two token reserves. Swaps are charged an adaptive fee. Liquidity providers hold LP tokens that give them a pro-rata claim on the reserves. The model also covers the pure helpers of the web client.

The model follows the program's own structure:

- `primitives.dfy`: the Rust integer widths as subset types, 32-byte public keys, the `as u64` cast (`AsU64`, which keeps the low 64 bits) and small arithmetic lemmas.
- `errors.dfy`: the `SwapError` enum and a `Result` type. A failed instruction returns the error variant that the Rust `require!` or `checked_*` call reports.
- `state.dfy`: the `LiquidityPool` account.
  - `PoolRecord` is the account as a value. `LiquidityPool` is a class with the same fields and a 50-slot `array` holding the price history. Handlers mutate this class in place.
  - The file also holds the price-history ring buffer (`update_price_history`) and `Default`.
  - It also holds the integer part of `calculate_adaptive_fee`. The floating-point volatility is an input here.
- `swap.dfy`, `add_liquidity.dfy`, `remove_liquidity.dfy`, `initialize_pool.dfy`, `update_fees.dfy`: one module per instruction.
  - Each `Handler` method changes the pool object, and where needed the LP mint and the holder's LP account. It is proved against a pure transition function over `PoolRecord`: `SwapSpec`, `DepositQuote`/`ApplyDeposit`, `WithdrawQuote`/`ApplyWithdrawal`, `Initialize`, `FeeUpdate`.
  - The lemmas state what the program promises about those functions.
  - `integer_sqrt` is a `while` loop proved against a reference floor square root.
- `spl_token.dfy`: the only effects of the SPL token program that the handlers depend on. `mint_to` and `burn` change the LP mint's supply and the holder's balance.
- `lifecycle.dfy`: the four instructions on an existing pool, as one transition over (pool, LP supply). A failed instruction leaves the state unchanged. The invariant proved over any sequence of instructions is this: either both reserves are empty and no LP is outstanding, or both reserves are non-empty and some LP is outstanding.
- `anchor.dfy`: the client's program-derived-address seeds and its bn.js estimate of a swap's output. The address hash is a function parameter.
- `anchor_format.dfy`: the client's fixed-point text codec for token amounts (`formatTokenAmount` and `parseTokenAmount`), and the amount field's input filter.

Behaviour of the program worth knowing:

- A fee tier must lie in [5, 100].
- A swap is priced with `calculate_adaptive_fee()` computed afresh. The stored `volatility_fee_bps` plays no part in a swap (`UpdateFees.SwapIgnoresStoredFee`).
- The first deposit mints isqrt(a·b) − 1000 LP. The 1000 withheld tokens are never minted anywhere.
- A later deposit mints the smaller of a·S/ra and b·S/rb.
- `update_fees` needs the pool authority's signature. It reports its slot gate as `InvalidAuthority`.
- Creating a pool twice fails inside Anchor's `init`, before the handler runs. `PoolAlreadyInitialized` is never raised.
- `lock()`, `unlock()` and `is_locked` are used by the handlers but are not defined in `state.rs`. They are modelled as a flag that is set during a swap and cleared again before it returns.
- The `as u64` cast in `quote` wraps around (`AddLiquidity.QuoteWraps`).
- The client orders the two mints by their base58 text before deriving a pool address. The program derives the address from the mints in the order the creating instruction named them. The two agree only when the pool was created with its mints in base58 order (`Anchor.ClientSeedsMatchProgram`).

## Model

| member | source | states |
|---|---|---|
| State.DefaultRecord | programs/solanaswift/src/state.rs:87-111 | `Default`: every key, number, counter and history slot is zero; the pool is neither initialized nor locked |
| State.RecordPriceSample | programs/solanaswift/src/state.rs:79-84 | the sample goes to slot `history_index % 50`; the other 49 slots are unchanged; the index advances modulo 50, so it stays below 50; `last_price` becomes the sample; no other field changes |
| State.RecentAfterSample | programs/solanaswift/src/state.rs:79-84 | after one sample, the most recent entry is that sample and every older entry moves back one place |
| State.RingIndexAdvances | programs/solanaswift/src/state.rs:82 | after n samples the history index has advanced by n, modulo 50 |
| State.RingKeepsLatest | programs/solanaswift/src/state.rs:79-82 | after n samples, the k-th most recent of the last 50 is the k-th sample from the end; older places keep what the ring held before |
| State.WarmupRecurs | programs/solanaswift/src/state.rs:37-39 | from a fresh history, the fee falls back to the base fee after n samples exactly when n mod 50 < 5, because the index wraps |
| State.VolatilityMultiplier | programs/solanaswift/src/state.rs:42 | `(1 + 2v).min(3)` lies in [1, 3] for any volatility v ≥ 0 |
| State.VolatilityMultiplierMonotone | programs/solanaswift/src/state.rs:42 | a larger volatility never gives a smaller multiplier |
| State.ScaledFee | programs/solanaswift/src/state.rs:44 | the base fee scaled by a multiplier in [1, 3] and truncated lies between the base fee and three times the base fee |
| State.ScaledFeeMonotone | programs/solanaswift/src/state.rs:44 | a larger multiplier never gives a smaller scaled fee |
| State.AdaptiveFee | programs/solanaswift/src/state.rs:36-46 | during warm-up (index < 5) the fee is the base fee; after it, the fee lies between min(base, 100) and min(3·base, 100) |
| State.AdaptiveFeeMonotone | programs/solanaswift/src/state.rs:41-45 | a more volatile history never lowers the adaptive fee |
| State.LiquidityPool.CalculateAdaptiveFee | programs/solanaswift/src/state.rs:36-46 | on the pool object: the base fee while `history_index < 5`; after that between min(base, 100) and min(3·base, 100) |
| State.LiquidityPool.Record | programs/solanaswift/src/state.rs:4-31 | the object's fields, read as the account value; a valid object has exactly 50 history slots |
| State.LiquidityPool.Default | programs/solanaswift/src/state.rs:87-111 | a new object holds `DefaultRecord` |
| State.LiquidityPool.UpdatePriceHistory | programs/solanaswift/src/state.rs:79-84 | writing the array slot in place yields exactly `RecordPriceSample` of the old account |
| State.LiquidityPool.ClearPriceHistory | programs/solanaswift/src/instructions/initialize_pool.rs:82 | every history slot becomes 0; nothing else changes |
| State.LiquidityPool.Lock | programs/solanaswift/src/instructions/swap.rs:66 | sets the reentrancy flag; nothing else changes |
| State.LiquidityPool.Unlock | programs/solanaswift/src/instructions/swap.rs:174 | clears the reentrancy flag; nothing else changes |
| Swap.AmountInWithFee | programs/solanaswift/src/instructions/swap.rs:83-87 | the kept input is floor(amount_in·(10000 ⊖ fee)/10000), at most amount_in; the u128 product never overflows and the cast never truncates |
| Swap.ConstantProductOut | programs/solanaswift/src/instructions/swap.rs:89-99 | the output is the floor of w·r_out/(r_in + w), characterised by its two division bounds; it is below r_out when r_out > 0 |
| Swap.AmountOut | programs/solanaswift/src/instructions/swap.rs:89-99 | the u64 `amount_out` is that floor quotient; the `as u64` cast cannot truncate because the result is below the output reserve |
| Swap.SpotPrice | programs/solanaswift/src/instructions/swap.rs:148-156 | the sample is floor(reserve_b·10^9/reserve_a) when it fits in 64 bits, and 0 when reserve_a is 0 |
| Swap.SwapQuote | programs/solanaswift/src/instructions/swap.rs:60-102 | an accepted fill keeps amount_in, pays at least minimum_amount_out, and fits the pool: the output is below its reserve and no counter overflows; it names one of the pool's mints, both reserves are positive, and its direction, fee rate, fee-reduced input and output are the adaptive fee of the pool and the constant-product output over the input and output reserves of that direction |
| Swap.ApplySwap | programs/solanaswift/src/instructions/swap.rs:139-163 | the committed record keeps a 50-slot history |
| Swap.SwapSpec | programs/solanaswift/src/instructions/swap.rs:59-177 | a successful swap leaves a well-formed, initialized, unlocked pool with both reserves positive, `last_update_slot` the current slot and the history index advanced by one modulo 50 |
| Swap.Handler | programs/solanaswift/src/instructions/swap.rs:59-177 | succeeds exactly when `SwapSpec` does; on error the pool is unchanged and the same error is returned; on success the pool holds the `SwapSpec` record |
| Swap.Settle | programs/solanaswift/src/instructions/swap.rs:139-163 | the in-place write phase produces exactly `ApplySwap` of the old record |
| Swap.MoveReserves | programs/solanaswift/src/instructions/swap.rs:139-145 | the input reserve grows by amount_in and the output reserve shrinks by amount_out, in the chosen direction only; the pool is locked |
| Swap.SwapRejections | programs/solanaswift/src/instructions/swap.rs:60-77 | in order: uninitialized → PoolNotInitialized; zero input → InsufficientAmount; foreign mint → InvalidTokenMint; an empty reserve → InsufficientLiquidity |
| Swap.SwapSlippageGuard | programs/solanaswift/src/instructions/swap.rs:101-163 | once the early checks pass: SlippageExceeded exactly when amount_out < minimum_amount_out; the `amount_out < reserve_out` guard never fires; the swap succeeds exactly when the minimum is met and both `checked_add`s (input reserve, fee counter) fit in 64 bits, and a met minimum is otherwise refused with MathOverflow |
| Swap.FeeAmountIsCeiling | programs/solanaswift/src/instructions/swap.rs:162 | the fee kept, amount_in − amount_in_with_fee, is ceil(amount_in·fee/10000) |
| Swap.ConstantProductGrows | programs/solanaswift/src/instructions/swap.rs:82-99 | paying in at least the fee-reduced input and taking out the floored output never lowers the reserve product |
| Swap.SwapKeepsProduct | programs/solanaswift/src/instructions/swap.rs:139-145 | reserve_a·reserve_b after a successful swap is at least its value before |
| Swap.SwapEffects | programs/solanaswift/src/instructions/swap.rs:139-163 | after success: the reserves move by exactly amount_in and amount_out in the chosen direction; fees grow by exactly the fee kept; the new price is sampled into the ring; `last_update_slot` is the current slot; every other field is unchanged |
| AddLiquidity.Quote | programs/solanaswift/src/instructions/add_liquidity.rs:191-202 | zero amount → InsufficientAmount; an empty reserve → InsufficientLiquidity; otherwise floor(a·rb/ra), exactly when the quotient fits in 64 bits |
| AddLiquidity.QuoteWraps | programs/solanaswift/src/instructions/add_liquidity.rs:195-199 | the cast keeps the low 64 bits: a quotient of 2^64 + 5 is returned as 5 |
| AddLiquidity.FloorSqrt | programs/solanaswift/src/instructions/add_liquidity.rs:209-224 | the reference floor square root: r² ≤ n < (r+1)² |
| AddLiquidity.SqrtUnique | programs/solanaswift/src/instructions/add_liquidity.rs:209-224 | only one r satisfies r² ≤ n < (r+1)² |
| AddLiquidity.NewtonStepAbove | programs/solanaswift/src/instructions/add_liquidity.rs:220 | a Newton step `(y + n/y)/2` never falls below the floor root |
| AddLiquidity.NewtonFixpoint | programs/solanaswift/src/instructions/add_liquidity.rs:218-223 | when the step stops falling, the iterate is the floor root |
| AddLiquidity.RootBounds | programs/solanaswift/src/instructions/add_liquidity.rs:211-216 | for n > 0 the floor root lies in [1, n] |
| AddLiquidity.SqrtOfProductFits | programs/solanaswift/src/instructions/add_liquidity.rs:87-90 | the root of a product of two u64 values fits in 64 bits |
| AddLiquidity.IntegerSqrt | programs/solanaswift/src/instructions/add_liquidity.rs:210-224 | the loop returns the floor square root, 0 for 0 |
| AddLiquidity.FirstDeposit | programs/solanaswift/src/instructions/add_liquidity.rs:85-97 | takes both desired amounts and mints isqrt(a·b) − 1000; fails with InsufficientLiquidity exactly when the root is at most 1000 |
| AddLiquidity.OptimalAmounts | programs/solanaswift/src/instructions/add_liquidity.rs:100-110 | the amounts are at most those desired; either all of A and at most the proportional B, at least amount_b_min, or all of B and at most the proportional A, at least amount_a_min |
| AddLiquidity.OptimalAmountsChoice | programs/solanaswift/src/instructions/add_liquidity.rs:100-110 | with q = quote(a, ra, rb) ≤ b: InsufficientBAmount exactly when q < amount_b_min, else exactly (a, q); with q > b and q' = quote(b, rb, ra): InsufficientAmount exactly when q' > a, InsufficientAAmount exactly when q' ≤ a and q' < amount_a_min, else exactly (q', b) |
| AddLiquidity.MintedLiquidity | programs/solanaswift/src/instructions/add_liquidity.rs:113-127 | the LP minted is positive and covered by both deposits' shares of the supply; whenever the smaller quotient fits in 64 bits (one of a·S and b·S is below 2^64 times its reserve), it is the largest such amount; zero → InsufficientLiquidityBurned; with a 64-bit supply, a positive min(a·S/ra, b·S/rb) cast to u64 is minted as is |
| AddLiquidity.MinQuotientFits | programs/solanaswift/src/instructions/add_liquidity.rs:113-127 | the smaller of the two u128 quotients survives the `as u64` cast exactly when one product is below 2^64 times its reserve |
| AddLiquidity.LaterDeposit | programs/solanaswift/src/instructions/add_liquidity.rs:99-130 | a later deposit mints a positive amount and takes no more than offered |
| AddLiquidity.DepositQuote | programs/solanaswift/src/instructions/add_liquidity.rs:80-130 | an accepted deposit mints LP, takes no more than offered, and both reserve additions fit in 64 bits |
| AddLiquidity.ApplyDeposit | programs/solanaswift/src/instructions/add_liquidity.rs:176-178 | both reserves grow, so their product does not fall |
| AddLiquidity.Handler | programs/solanaswift/src/instructions/add_liquidity.rs:73-188 | succeeds exactly when `DepositQuote` does; on error nothing changes; on success the reserves grow by the amounts taken, and the LP supply and the provider's balance grow by the amount minted |
| AddLiquidity.FirstDepositTerms | programs/solanaswift/src/instructions/add_liquidity.rs:85-97 | the branch computed with the square-root loop equals `FirstDeposit` |
| AddLiquidity.LaterDepositTerms | programs/solanaswift/src/instructions/add_liquidity.rs:99-130 | the imperative branch equals `LaterDeposit` |
| AddLiquidity.ChooseAmounts | programs/solanaswift/src/instructions/add_liquidity.rs:100-110 | the imperative branch equals `OptimalAmounts` |
| AddLiquidity.DepositRejections | programs/solanaswift/src/instructions/add_liquidity.rs:80-81 | in order: uninitialized → PoolNotInitialized; a zero desired amount → InsufficientAmount; exactly one empty reserve → InsufficientLiquidity |
| AddLiquidity.FirstDepositMintsRoot | programs/solanaswift/src/instructions/add_liquidity.rs:85-97 | into an empty pool, whatever the minimums: both amounts are taken and root − 1000 LP is minted; otherwise InsufficientLiquidity |
| AddLiquidity.DepositWithinLimits | programs/solanaswift/src/instructions/add_liquidity.rs:100-110 | a later deposit takes no more than offered, mints a positive amount, and honours the minimum of the side it quotes |
| AddLiquidity.LaterDepositAccepted | programs/solanaswift/src/instructions/add_liquidity.rs:99-178 | into a stocked pool with a 64-bit supply: a refusal of the amounts is passed on; otherwise the deposit succeeds exactly when the LP amount min(a·S/ra, b·S/rb) is positive and both reserve additions fit, with InsufficientLiquidityBurned for a zero LP amount and MathOverflow for an addition that does not fit; it is then exactly those amounts and that LP amount |
| AddLiquidity.MinimumAIgnoredWhenQuoteFits | programs/solanaswift/src/instructions/add_liquidity.rs:102-104 | when the B quote fits, the outcome does not depend on amount_a_min |
| AddLiquidity.DepositNoDilution | programs/solanaswift/src/instructions/add_liquidity.rs:113-127 | existing holders are not diluted: each reserve per LP token does not fall |
| RemoveLiquidity.ProRata | programs/solanaswift/src/instructions/remove_liquidity.rs:93-97 | the payout is covered by the share l·r/S; when l ≤ S it is exactly floor(l·r/S) and at most the reserve |
| RemoveLiquidity.WithdrawQuote | programs/solanaswift/src/instructions/remove_liquidity.rs:80-111 | an accepted withdrawal burns 0 < l ≤ balance from a positive supply, and pays at least the minimums and at most the reserves |
| RemoveLiquidity.ApplyWithdrawal | programs/solanaswift/src/instructions/remove_liquidity.rs:161-163 | both reserves fall by exactly the amounts paid; nothing else changes |
| RemoveLiquidity.Handler | programs/solanaswift/src/instructions/remove_liquidity.rs:74-173 | succeeds exactly when `WithdrawQuote` does; on error nothing changes; on success the reserves fall by the payouts, and the supply and the holder's balance fall by l |
| RemoveLiquidity.WithdrawRejections | programs/solanaswift/src/instructions/remove_liquidity.rs:80-90 | in order: uninitialized → PoolNotInitialized; l = 0 → InsufficientLiquidityBurned; zero supply → InsufficientLiquidity; balance below l → InsufficientLiquidityBurned |
| RemoveLiquidity.WithdrawProRata | programs/solanaswift/src/instructions/remove_liquidity.rs:93-111 | the payouts are floor(l·r_a/S) and floor(l·r_b/S); InsufficientAAmount and InsufficientBAmount exactly at their minimums; the reserve guard never fires |
| RemoveLiquidity.FullWithdrawalEmptiesPool | programs/solanaswift/src/instructions/remove_liquidity.rs:93-111 | burning the whole supply pays out both reserves in full |
| RemoveLiquidity.ProRataOfWhole | programs/solanaswift/src/instructions/remove_liquidity.rs:93-97 | the whole supply's share of a reserve is the reserve |
| RemoveLiquidity.WithdrawNoDilution | programs/solanaswift/src/instructions/remove_liquidity.rs:93-103 | remaining holders are not diluted: each reserve per LP token does not fall |
| InitializePool.FreshPool | programs/solanaswift/src/instructions/initialize_pool.rs:66-91 | the keys are the supplied accounts; reserves, the volatility fee, price, history and counters are zero; the base fee is the tier; the slot, timestamp and bump come from the context; the pool is initialized and unlocked |
| InitializePool.Initialize | programs/solanaswift/src/instructions/initialize_pool.rs:12-18 | an existing address fails in `init`; creation succeeds exactly when the tier is in [5, 100] and the mints differ |
| InitializePool.Handler | programs/solanaswift/src/instructions/initialize_pool.rs:59-95 | succeeds exactly when `Initialize` creates; a rejection leaves the account unchanged; success writes exactly `FreshPool` |
| InitializePool.WriteFreshPool | programs/solanaswift/src/instructions/initialize_pool.rs:68-91 | the field-by-field writes produce exactly `FreshPool` |
| InitializePool.WriteKeys | programs/solanaswift/src/instructions/initialize_pool.rs:68-73 | the six keys are copied from the accounts; nothing else changes |
| InitializePool.WriteReservesAndFees | programs/solanaswift/src/instructions/initialize_pool.rs:75-81 | reserves, fees and last price are set and the slot is stamped; nothing else changes |
| InitializePool.WriteCounters | programs/solanaswift/src/instructions/initialize_pool.rs:83-91 | the index and counters are zeroed; the timestamp and bump are written; the pool is initialized and unlocked |
| InitializePool.FeeTierCheckedFirst | programs/solanaswift/src/instructions/initialize_pool.rs:60-64 | a tier outside [5, 100] gives InvalidFeeTier even for identical mints; identical mints give IdenticalAddresses |
| UpdateFees.FeeDistance | programs/solanaswift/src/instructions/update_fees.rs:35 | the i32 distance is zero exactly when the fees are equal |
| UpdateFees.FeeUpdate | programs/solanaswift/src/instructions/update_fees.rs:19-45 | on success the stored fee is the adaptive fee; only that fee and the slot may change; the record is unchanged exactly when the fee already matched; a changed fee stamps `last_update_slot` with the current slot |
| UpdateFees.Handler | programs/solanaswift/src/instructions/update_fees.rs:19-45 | succeeds exactly when `FeeUpdate` does; on error nothing changes; on success the pool holds the `FeeUpdate` record |
| UpdateFees.FeeUpdateRejections | programs/solanaswift/src/instructions/update_fees.rs:20-29 | uninitialized → PoolNotInitialized; an initialized pool fails with InvalidAuthority exactly when current_slot ≤ last_update_slot + 100 |
| UpdateFees.FeeUpdateRateLimited | programs/solanaswift/src/instructions/update_fees.rs:26-37 | after a fee change, every update within the next 100 slots is refused |
| UpdateFees.FeeUpdateSettles | programs/solanaswift/src/instructions/update_fees.rs:32-42 | once the stored fee matches, a later update at the same volatility changes nothing |
| UpdateFees.SwapIgnoresStoredFee | programs/solanaswift/src/instructions/swap.rs:80 | a swap's outcome does not depend on the stored `volatility_fee_bps` |
| SplToken.MintTo | programs/solanaswift/src/instructions/add_liquidity.rs:162-174 | minting raises the supply and the receiver's balance by the amount |
| SplToken.Burn | programs/solanaswift/src/instructions/remove_liquidity.rs:114-122 | burning lowers the supply and the holder's balance by the amount |
| Lifecycle.Step | programs/solanaswift/src/lib.rs:28-63 | each instruction on an existing pool keeps a 50-slot history; every instruction refuses an uninitialized pool with PoolNotInitialized |
| Lifecycle.Next | programs/solanaswift/src/lib.rs:28-63 | a failed instruction leaves pool and supply as they were |
| Lifecycle.CreatedIsBacked | programs/solanaswift/src/instructions/initialize_pool.rs:75-76 | a newly created pool holds nothing and no LP is outstanding |
| Lifecycle.StepKeepsBacked | programs/solanaswift/src/lib.rs:28-63 | every successful instruction keeps a pool either empty with no LP, or stocked on both sides with LP outstanding |
| Lifecycle.DepositKeepsBacked | programs/solanaswift/src/instructions/add_liquidity.rs:85-130 | a deposit into an empty pool stocks both sides; a later one only adds |
| Lifecycle.WithdrawalKeepsBacked | programs/solanaswift/src/instructions/remove_liquidity.rs:93-111 | burning the whole supply empties both reserves; a partial burn leaves part of each |
| Lifecycle.RunKeepsBacked | programs/solanaswift/src/lib.rs:21-63 | the invariant holds after any sequence of instructions, whichever of them fail |
| Lifecycle.DefaultRefusesAll | programs/solanaswift/src/state.rs:87-111 | the default account is refused by every instruction with PoolNotInitialized |
| Anchor.AsciiBytes | frontend/src/lib/anchor.ts:66 | `Buffer.from` of an ASCII string has one byte per character, of that character's code |
| Anchor.LexTrichotomy | frontend/src/lib/anchor.ts:61 | of two different strings exactly one is below the other under `<` |
| Anchor.OrderedMints | frontend/src/lib/anchor.ts:61-63 | the pair is the two mints, in some order, with the smaller base58 text first |
| Anchor.GetPoolAddress | frontend/src/lib/anchor.ts:59-69 | the address is derived from the bytes of "pool", then the mint with the smaller base58 text, then the other |
| Anchor.GetLpMintAddress | frontend/src/lib/anchor.ts:71-76 | the address is derived from the bytes of "lp_mint" and the pool key |
| Anchor.GetUserPositionAddress | frontend/src/lib/anchor.ts:78-86 | the address is derived from the bytes of "user_position", the pool key and the user key |
| Anchor.PoolAddressSymmetric | frontend/src/lib/anchor.ts:59-69 | `getPoolAddress(a, b) == getPoolAddress(b, a)` for any derivation function |
| Anchor.ClientSeedsMatchProgram | frontend/src/lib/anchor.ts:59-69 | the client's seeds equal the program's `[b"pool", a, b]` exactly when a's text sorts before b's (or a = b) |
| Anchor.SeedKindsDisjoint | frontend/src/lib/anchor.ts:59-86 | the pool, `"lp_mint"‖pool` and `"user_position"‖pool‖user` seed lists never coincide |
| Anchor.TruncDiv | frontend/src/lib/anchor.ts:100 | bn.js `div` rounds toward zero in every sign case |
| Anchor.CalculateSwapOutput | frontend/src/lib/anchor.ts:94-104 | no result (bn.js throws) exactly when the divisor is zero |
| Anchor.ClientMatchesProgram | frontend/src/lib/anchor.ts:94-104 | for fee ≤ 10000 and a positive input reserve, the estimate equals the on-chain amount_out |
| Anchor.SwapOutputFeeMonotone | frontend/src/lib/anchor.ts:94-104 | for fees in [0, 10000], a higher fee never raises the estimate |
| Anchor.FeeAboveRangeNotMonotone | frontend/src/lib/anchor.ts:94-104 | above 10000 bps monotonicity fails: reserves 1 and 1 and input 100 give 0 at 10000 bps and 1 at 30000 bps |
| Anchor.OutputMonotoneInInput | frontend/src/lib/anchor.ts:101-103 | the constant-product quotient does not fall as the input grows |
| Anchor.SwapOutputExamples | frontend/src/lib/__tests__/anchor.test.ts:57-78 | 10 tokens into 1000/500: at 30 bps the output is positive and below the input; at 25 bps it is larger than at 50 bps |
| AnchorFormat.Pow10Monotone | frontend/src/lib/anchor.ts:120 | 10^m ≤ 10^n for m ≤ n |
| AnchorFormat.DigitsValueBound | frontend/src/lib/anchor.ts:135 | an n-digit string denotes a number below 10^n |
| AnchorFormat.DigitsConcat | frontend/src/lib/anchor.ts:135 | concatenating digit strings shifts the left value by the right length |
| AnchorFormat.NatToString | frontend/src/lib/anchor.ts:125 | `toString()` gives a non-empty digit string |
| AnchorFormat.NatToStringValue | frontend/src/lib/anchor.ts:125 | the digits denote n, with no superfluous leading zero |
| AnchorFormat.DigitCountBound | frontend/src/lib/anchor.ts:128 | a positive remainder below 10^d has at most d digits |
| AnchorFormat.PadStartValue | frontend/src/lib/anchor.ts:128 | `padStart` with zeros keeps the value |
| AnchorFormat.PadEndValue | frontend/src/lib/anchor.ts:134 | `padEnd` with zeros keeps the prefix and multiplies the value by 10 per zero |
| AnchorFormat.TrimTrailingZeros | frontend/src/lib/anchor.ts:129 | `replace(/0+$/, '')` gives a string no longer than its input that does not end in '0' |
| AnchorFormat.TrimmedZeros | frontend/src/lib/anchor.ts:129 | only a run of zeros at the end is removed |
| AnchorFormat.Split | frontend/src/lib/anchor.ts:133 | `split('.')` gives at least one piece, none containing a dot |
| AnchorFormat.SplitJoin | frontend/src/lib/anchor.ts:133 | joining the pieces with dots gives the string back |
| AnchorFormat.FormatTokenAmount | frontend/src/lib/anchor.ts:119-130 | the text starts with a digit; it has a dot exactly when the amount is not a multiple of 10^d; then it ends in a non-zero digit |
| AnchorFormat.ParseTokenAmount | frontend/src/lib/anchor.ts:132-136 | a parsed amount is below 10^(digits of the whole part + d) |
| AnchorFormat.AmountInput | frontend/src/components/swap/TokenInput.tsx:44 | the filter `/^\d*\.?\d*$/` accepts exactly the strings of digits and dots with at most one dot |
| AnchorFormat.WholeTextValue | frontend/src/lib/anchor.ts:120-125 | the whole part is a digit string denoting floor(amount/10^d) |
| AnchorFormat.FractionTextValue | frontend/src/lib/anchor.ts:122-129 | with a remainder, the fraction has 1 to d digits, ends in a non-zero digit, and scales back to the remainder |
| AnchorFormat.FormatShape | frontend/src/lib/anchor.ts:119-130 | there is a dot exactly when the amount is not a whole number of tokens; the parts denote the quotient and the remainder |
| AnchorFormat.ParseWhole | frontend/src/lib/anchor.ts:132-136 | a dot-free digit string parses to its value times 10^d |
| AnchorFormat.ParseFraction | frontend/src/lib/anchor.ts:132-136 | "w.f" parses to w·10^d plus the first d digits of f, padded with zeros or cut |
| AnchorFormat.InputAlwaysParses | frontend/src/components/swap/TokenInput.tsx:44 | every string the `/^\d*\.?\d*$/` filter accepts parses to a number |
| AnchorFormat.FormatParseRoundTrip | frontend/src/lib/anchor.ts:119-136 | `parseTokenAmount(formatTokenAmount(n, d), d) == n`, and the formatted text passes the input filter |
| AnchorFormat.FormatExamples | frontend/src/lib/__tests__/anchor.test.ts:106-127 | 10^9 at 9 decimals gives "1"; 1.5·10^9 gives "1.5"; 10^6 at 6 decimals gives "1" |
| AnchorFormat.ParseExamples | frontend/src/lib/__tests__/anchor.test.ts:129-150 | "1" at 9 decimals gives 10^9; "1.5" gives 1.5·10^9 at 9 decimals and 1.5·10^6 at 6 |

## Left out

- The floating-point volatility (`calculate_volatility`, and the f64 arithmetic in `calculate_adaptive_fee`). The volatility is a non-negative real input and the multiplier is exact real arithmetic. IEEE rounding is not modelled.
- `calculatePrice` and `calculatePriceImpact`: JavaScript floating point.
- Token transfers between user accounts and vaults. The SPL programs are external; only LP `mint_to` and `burn` are modelled, through their effect on supply and balance. Vault balances are not tracked.
- Anchor's account constraints. These cover PDA seeds, `associated_token`, the `address = pool.authority` signer check of `update_fees`, and the vault pinning of `swap`. The framework enforces them before a handler runs. `init` is modelled only as "the address is already in use". The two vaults are `init` associated token accounts of (mint, pool) (initialize_pool.rs:27-41): with one mint given twice the second `init` finds its account in use, so `IdenticalAddresses` is not reachable in a real transaction; the model checks it in the handler as the code does (InitializePool.FeeTierCheckedFirst).
- `total_volume_usd` is never updated by any handler. It is only carried along as a field.
- `UserPosition` and the `LEN` size constants: no instruction writes them.
- The `msg!` logging and the clock sysvar. The slot and the timestamp are inputs.
- Lifecycle.Admissible: the SPL guarantee that a holder's balance never exceeds its mint's supply is assumed, not derived. LP supply and balances are unbounded naturals. SPL's own u64 overflow check on `mint_to` is not modelled.
- UpdateFees.FeeUpdate: `last_update_slot + 100` is computed on unbounded integers. The u64 overflow of that addition, only possible within 100 slots of 2^64, is not modelled.
- AddLiquidity.IntegerSqrt: the argument must be below 2^128 − 1. There `self + 1` would overflow u128. The handler only ever passes the product of two u64 values, which is smaller.
- PDA hashing and the bump search (`findProgramAddressSync`) and base58 encoding are function parameters. Distinct keys are assumed to have distinct base58 text.
- Anchor.CalculateSwapOutput: `feeBps` is an integer. A fractional JavaScript number is not modelled. Above 10000 the client and the program disagree (the program saturates at zero and the client's fee-reduced input goes negative), so Anchor.ClientMatchesProgram requires fee ≤ 10000. Above 10000 the estimate is not monotone in the fee either (with reserves 1 and 1 and input 100 it is 0 at 10000 bps and 1 at 30000 bps, `Anchor.FeeAboveRangeNotMonotone`), so Anchor.SwapOutputFeeMonotone covers fees in [0, 10000] only.
- AnchorFormat.ParseTokenAmount: bn.js's handling of a leading '-' and of other non-digit characters is modelled as no result.
- The fetch, provider and connection helpers of `anchor.ts`, and the React components, stores, hooks and test mocks: UI and I/O.
