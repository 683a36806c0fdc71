/** The pure helpers of the web client: the program-derived addresses it
    asks for, and its estimate of a swap's output in arbitrary-precision
    (bn.js) integers. */
module Anchor {
  import opened Primitives
  import Swap

  datatype Option<+T> = None | Some(value: T)

  /** Every character is 7-bit ASCII. */
  predicate IsAscii(s: string) {
    forall i | 0 <= i < |s| :: s[i] as int < 128
  }

  /** `Buffer.from(s)` on an ASCII string: one byte per character. */
  function AsciiBytes(s: string): (b: seq<u8>)
    requires IsAscii(s)
    ensures |b| == |s|
    ensures forall i | 0 <= i < |s| :: b[i] == s[i] as int
  {
    if |s| == 0 then [] else [s[0] as int as u8] + AsciiBytes(s[1..])
  }

  /** JavaScript's `<` on strings: lexicographic order of code units, a
      proper prefix first. */
  predicate LexLess(a: string, b: string)
    decreases |a|
  {
    if |a| == 0 then 0 < |b|
    else if |b| == 0 then false
    else if a[0] != b[0] then a[0] < b[0]
    else LexLess(a[1..], b[1..])
  }

  /** Of two different strings exactly one is below the other. */
  lemma {:induction false} LexTrichotomy(a: string, b: string)
    ensures LexLess(a, b) ==> !LexLess(b, a)
    ensures a != b ==> LexLess(a, b) || LexLess(b, a)
    decreases |a|
  {
    if 0 < |a| && 0 < |b| && a[0] == b[0] {
      LexTrichotomy(a[1..], b[1..]);
      if a != b {
        assert a == [a[0]] + a[1..] && b == [b[0]] + b[1..];
      }
    }
  }

  /** `PublicKey.findProgramAddressSync(seeds, PROGRAM_ID)`: the off-curve
      hash search is a parameter; the bump is a byte. */
  type Derivation = seq<seq<u8>> -> (Pubkey, u8)

  /** The two mints in the order `getPoolAddress` uses: the one whose
      base58 text is smaller first. */
  function OrderedMints(text: Pubkey -> string, tokenAMint: Pubkey, tokenBMint: Pubkey): (pair: (Pubkey, Pubkey))
    ensures pair == (tokenAMint, tokenBMint) || pair == (tokenBMint, tokenAMint)
    ensures !LexLess(text(pair.1), text(pair.0))
  {
    LexTrichotomy(text(tokenAMint), text(tokenBMint));
    if LexLess(text(tokenAMint), text(tokenBMint)) then (tokenAMint, tokenBMint) else (tokenBMint, tokenAMint)
  }

  /** The seeds of `getPoolAddress`: "pool" and the two mints in order. */
  function PoolSeeds(text: Pubkey -> string, tokenAMint: Pubkey, tokenBMint: Pubkey): seq<seq<u8>> {
    var pair := OrderedMints(text, tokenAMint, tokenBMint);
    [AsciiBytes("pool"), pair.0, pair.1]
  }

  /** The seeds the program derives a pool from at creation: "pool" and
      the two mints in the order the instruction names them. */
  function ProgramPoolSeeds(tokenAMint: Pubkey, tokenBMint: Pubkey): seq<seq<u8>> {
    [AsciiBytes("pool"), tokenAMint, tokenBMint]
  }

  /** The seeds of `getLpMintAddress`: "lp_mint" and the pool. */
  function LpMintSeeds(pool: Pubkey): seq<seq<u8>> {
    [AsciiBytes("lp_mint"), pool]
  }

  /** The seeds of `getUserPositionAddress`: "user_position", the pool and
      the user. */
  function UserPositionSeeds(pool: Pubkey, user: Pubkey): seq<seq<u8>> {
    [AsciiBytes("user_position"), pool, user]
  }

  /** `getPoolAddress`: derived from the bytes of "pool" and the two mints,
      the one with the smaller base58 text first. */
  function GetPoolAddress(derive: Derivation, text: Pubkey -> string, tokenAMint: Pubkey, tokenBMint: Pubkey)
    : (address: (Pubkey, u8))
    ensures LexLess(text(tokenAMint), text(tokenBMint)) ==>
      address == derive([[112, 111, 111, 108], tokenAMint, tokenBMint])
    ensures !LexLess(text(tokenAMint), text(tokenBMint)) ==>
      address == derive([[112, 111, 111, 108], tokenBMint, tokenAMint])
  {
    EncodesAs("pool", [112, 111, 111, 108]);
    derive(PoolSeeds(text, tokenAMint, tokenBMint))
  }

  /** `getLpMintAddress`: derived from the bytes of "lp_mint" and the pool. */
  function GetLpMintAddress(derive: Derivation, pool: Pubkey): (address: (Pubkey, u8))
    ensures address == derive([[108, 112, 95, 109, 105, 110, 116], pool])
  {
    EncodesAs("lp_mint", [108, 112, 95, 109, 105, 110, 116]);
    derive(LpMintSeeds(pool))
  }

  /** `getUserPositionAddress`: derived from the bytes of "user_position",
      the pool and the user. */
  function GetUserPositionAddress(derive: Derivation, pool: Pubkey, user: Pubkey): (address: (Pubkey, u8))
    ensures address == derive([[117, 115, 101, 114, 95, 112, 111, 115, 105, 116, 105, 111, 110], pool, user])
  {
    EncodesAs("user_position", [117, 115, 101, 114, 95, 112, 111, 115, 105, 116, 105, 111, 110]);
    derive(UserPositionSeeds(pool, user))
  }

  /** The bytes of an ASCII string, given character by character. */
  lemma EncodesAs(s: string, bytes: seq<u8>)
    requires |bytes| == |s| && forall i | 0 <= i < |s| :: s[i] as int == bytes[i] as int < 128
    ensures IsAscii(s) && AsciiBytes(s) == bytes
  {
  }

  /** The pool address does not depend on the order the two mints are
      given in, whatever the derivation, as long as different keys have
      different base58 texts. */
  lemma PoolAddressSymmetric(derive: Derivation, text: Pubkey -> string, tokenAMint: Pubkey, tokenBMint: Pubkey)
    requires tokenAMint != tokenBMint ==> text(tokenAMint) != text(tokenBMint)
    ensures PoolSeeds(text, tokenAMint, tokenBMint) == PoolSeeds(text, tokenBMint, tokenAMint)
    ensures GetPoolAddress(derive, text, tokenAMint, tokenBMint) == GetPoolAddress(derive, text, tokenBMint, tokenAMint)
  {
    LexTrichotomy(text(tokenAMint), text(tokenBMint));
  }

  /** The client's pool seeds are the ones the program created the pool
      under exactly when the pool was created with its mints in base58
      order (or with one mint twice). */
  lemma ClientSeedsMatchProgram(text: Pubkey -> string, tokenAMint: Pubkey, tokenBMint: Pubkey)
    requires tokenAMint != tokenBMint ==> text(tokenAMint) != text(tokenBMint)
    ensures PoolSeeds(text, tokenAMint, tokenBMint) == ProgramPoolSeeds(tokenAMint, tokenBMint)
      <==> tokenAMint == tokenBMint || LexLess(text(tokenAMint), text(tokenBMint))
  {
    LexTrichotomy(text(tokenAMint), text(tokenBMint));
    var s := PoolSeeds(text, tokenAMint, tokenBMint);
    if s == ProgramPoolSeeds(tokenAMint, tokenBMint) && tokenAMint != tokenBMint {
      assert s[1] == tokenAMint;
    }
  }

  /** The three kinds of seed list never coincide, so a pool, an LP mint
      and a user position are never asked for under the same seeds. */
  lemma SeedKindsDisjoint(text: Pubkey -> string, tokenAMint: Pubkey, tokenBMint: Pubkey, pool: Pubkey, user: Pubkey, other: Pubkey)
    ensures PoolSeeds(text, tokenAMint, tokenBMint) != LpMintSeeds(pool)
    ensures PoolSeeds(text, tokenAMint, tokenBMint) != UserPositionSeeds(pool, user)
    ensures LpMintSeeds(other) != UserPositionSeeds(pool, user)
  {
    PoolSeedsNotPosition(text, tokenAMint, tokenBMint, pool, user);
    assert |LpMintSeeds(other)| == 2 && |UserPositionSeeds(pool, user)| == 3;
  }

  /** A pool's first seed is four bytes long, a position's thirteen. */
  lemma PoolSeedsNotPosition(text: Pubkey -> string, tokenAMint: Pubkey, tokenBMint: Pubkey, pool: Pubkey, user: Pubkey)
    ensures PoolSeeds(text, tokenAMint, tokenBMint)[0] != UserPositionSeeds(pool, user)[0]
  {
    LengthsApart("pool", "user_position");
  }

  /** Encodings of strings of different lengths differ; stated over any two
      strings so that the seed literals need not be unfolded byte by byte. */
  lemma LengthsApart(s: string, t: string)
    requires IsAscii(s) && IsAscii(t) && |s| != |t|
    ensures AsciiBytes(s) != AsciiBytes(t)
  {
  }

  /** bn.js `div`: the quotient truncated toward zero. */
  function TruncDiv(a: int, b: int): (q: int)
    requires b != 0
    ensures 0 <= a && 0 < b ==> q == a / b
    ensures 0 <= a && b < 0 ==> q == -(a / -b)
    ensures a < 0 && 0 < b ==> q == -(-a / b)
    ensures a < 0 && b < 0 ==> q == -a / -b
  {
    var m := Abs(a) / Abs(b);
    if (a < 0) == (b < 0) then m else -m
  }

  function Abs(x: int): (r: nat)
    ensures r == x || r == -x
  {
    if x < 0 then -x else x
  }

  /** `calculateSwapOutput`: the input less the fee, then the
      constant-product quotient, in signed arbitrary-precision integers.
      A zero divisor makes bn.js throw; that is `None`. */
  function CalculateSwapOutput(amountIn: nat, reserveIn: nat, reserveOut: nat, feeBps: int): (r: Option<int>)
    ensures r.None? <==> reserveIn + TruncDiv(amountIn * (10000 - feeBps), 10000) == 0
  {
    var withFee := TruncDiv(amountIn * (10000 - feeBps), 10000);
    var numerator := withFee * reserveOut;
    var denominator := reserveIn + withFee;
    if denominator == 0 then None else Some(TruncDiv(numerator, denominator))
  }

  /** For a fee of at most 100%, the client's estimate is exactly the
      output the program pays for the same fee rate. */
  lemma ClientMatchesProgram(amountIn: u64, reserveIn: u64, reserveOut: u64, feeBps: u16)
    requires 0 < reserveIn && feeBps <= Swap.BPS_DENOMINATOR
    ensures CalculateSwapOutput(amountIn, reserveIn, reserveOut, feeBps)
      == Some(Swap.AmountOut(Swap.AmountInWithFee(amountIn, feeBps), reserveIn, reserveOut) as int)
  {
    var w := Swap.AmountInWithFee(amountIn, feeBps);
    var x := amountIn * (10000 - feeBps);
    assert SaturatingSub(Swap.BPS_DENOMINATOR, feeBps) == 10000 - feeBps;
    DivLowerBound(x, 10000, w);
    DivUpperBound(x, 10000, w);
    var out := Swap.AmountOut(w, reserveIn, reserveOut);
    var n, d := w * reserveOut, reserveIn + w;
    DivLowerBound(n, d, out);
    DivUpperBound(n, d, out);
  }

  /** A higher fee never raises the estimate. */
  lemma SwapOutputFeeMonotone(amountIn: nat, reserveIn: nat, reserveOut: nat, lowFee: int, highFee: int)
    requires 0 < reserveIn && 0 <= lowFee <= highFee <= 10000
    ensures CalculateSwapOutput(amountIn, reserveIn, reserveOut, lowFee).Some?
    ensures CalculateSwapOutput(amountIn, reserveIn, reserveOut, highFee).Some?
    ensures CalculateSwapOutput(amountIn, reserveIn, reserveOut, highFee).value
      <= CalculateSwapOutput(amountIn, reserveIn, reserveOut, lowFee).value
  {
    var wLow := amountIn * (10000 - lowFee) / 10000;
    var wHigh := amountIn * (10000 - highFee) / 10000;
    MulLeftMonotone(amountIn, 10000 - highFee, 10000 - lowFee);
    DivMonotone(amountIn * (10000 - highFee), amountIn * (10000 - lowFee), 10000);
    OutputMonotoneInInput(reserveIn, reserveOut, wHigh, wLow);
  }

  /** The constant-product quotient grows with the input kept. */
  lemma OutputMonotoneInInput(reserveIn: nat, reserveOut: nat, w1: nat, w2: nat)
    requires 0 < reserveIn && w1 <= w2
    ensures w1 * reserveOut / (reserveIn + w1) <= w2 * reserveOut / (reserveIn + w2)
  {
    var a, c := w1 * reserveOut, w2 * reserveOut;
    assert a * (reserveIn + w2) == w1 * reserveOut * reserveIn + w1 * w2 * reserveOut;
    assert c * (reserveIn + w1) == w2 * reserveOut * reserveIn + w1 * w2 * reserveOut;
    MulLeftMonotone(reserveOut * reserveIn, w1, w2);
    CrossDivMonotone(a, reserveIn + w1, c, reserveIn + w2);
  }

  /** Above 10000 bps the estimate is not monotone in the fee: with
      reserves 1 and 1 and an input of 100 it is 0 at 10000 bps and 1 at
      30000 bps, where the fee-reduced input is -200. */
  lemma FeeAboveRangeNotMonotone()
    ensures CalculateSwapOutput(100, 1, 1, 10000) == Some(0)
    ensures CalculateSwapOutput(100, 1, 1, 30000) == Some(1)
  {
    assert TruncDiv(100 * (10000 - 30000), 10000) == -200;
    assert TruncDiv(-200 * 1, 1 + -200) == 1;
  }

  /** A 10-token swap into 1000/500-token reserves: positive and below the
      input at 30 bps, and larger at 25 bps than at 50 bps. */
  lemma SwapOutputExamples()
    ensures var out := CalculateSwapOutput(10_000_000_000, 1_000_000_000_000, 500_000_000_000, 30);
      out.Some? && 0 < out.value < 10_000_000_000
    ensures CalculateSwapOutput(10_000_000_000, 1_000_000_000_000, 500_000_000_000, 25).value
      > CalculateSwapOutput(10_000_000_000, 1_000_000_000_000, 500_000_000_000, 50).value
  {
    ExampleOutput(30, 9_970_000_000, 4_935_790_171);
    ExampleOutput(25, 9_975_000_000, 4_938_241_045);
    ExampleOutput(50, 9_950_000_000, 4_925_986_434);
  }

  /** The estimate for the 10-token swap at one fee rate, step by step. */
  lemma ExampleOutput(feeBps: int, withFee: nat, out: nat)
    requires 0 <= feeBps <= 10000
    requires withFee * 10000 <= 10_000_000_000 * (10000 - feeBps) < withFee * 10000 + 10000
    requires out * (1_000_000_000_000 + withFee) <= withFee * 500_000_000_000
    requires withFee * 500_000_000_000 < out * (1_000_000_000_000 + withFee) + (1_000_000_000_000 + withFee)
    ensures CalculateSwapOutput(10_000_000_000, 1_000_000_000_000, 500_000_000_000, feeBps) == Some(out)
  {
    var x := 10_000_000_000 * (10000 - feeBps);
    DivLowerBound(x, 10000, withFee);
    DivUpperBound(x, 10000, withFee);
    var n, d := withFee * 500_000_000_000, 1_000_000_000_000 + withFee;
    DivLowerBound(n, d, out);
    DivUpperBound(n, d, out);
  }
}
