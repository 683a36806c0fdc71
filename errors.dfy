/** The program's error codes (`SwapError`) and the result of an instruction
    or of a fallible helper. */
module Errors {

  datatype SwapError =
    | PoolNotInitialized
    | InsufficientLiquidity
    | SlippageExceeded
    | InvalidTokenMint
    | InsufficientAmount
    | MathOverflow
    | IdenticalAddresses
    | InsufficientAAmount
    | InsufficientBAmount
    | InsufficientLiquidityBurned
    | InvalidAuthority
    | PoolAlreadyInitialized
    | InvalidFeeTier

  /** Anchor's `Result<T>` restricted to this program's own error codes. */
  datatype Result<+T> = Ok(value: T) | Err(error: SwapError)
}
