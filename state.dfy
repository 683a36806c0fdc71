/** The `LiquidityPool` account: its value (`PoolRecord`), the in-memory
    object a handler mutates (`LiquidityPool`), the 50-slot price-history ring
    buffer and the integer shell of the adaptive fee. */
module State {
  import opened Primitives

  /** Length of the price-history ring buffer. */
  const HISTORY_LEN: nat := 50
  /** The adaptive fee is capped at 100 basis points (1%). */
  const MAX_FEE_BPS: nat := 100
  /** Below this history index the adaptive fee is the base fee. */
  const FEE_WARMUP: nat := 5

  /** The value of a `LiquidityPool` account. `isLocked` is the reentrancy
      flag that `lock()` and `unlock()` act on. */
  datatype PoolRecord = PoolRecord(
    authority: Pubkey,
    tokenAMint: Pubkey,
    tokenBMint: Pubkey,
    tokenAVault: Pubkey,
    tokenBVault: Pubkey,
    lpMint: Pubkey,
    reserveA: u64,
    reserveB: u64,
    baseFeeBps: u16,
    volatilityFeeBps: u16,
    lastPrice: u64,
    lastUpdateSlot: u64,
    priceHistory: seq<u64>,
    historyIndex: u8,
    totalVolumeUsd: u128,
    totalFeesCollected: u64,
    createdAt: i64,
    isInitialized: bool,
    isLocked: bool,
    bump: u8)

  /** The history is a fixed array of 50 samples. */
  predicate WellFormed(p: PoolRecord) {
    |p.priceHistory| == HISTORY_LEN
  }

  /** `LiquidityPool::default()`: every key zero, every number zero, an
      all-zero history and not initialized. */
  function DefaultRecord(): (p: PoolRecord)
    ensures WellFormed(p) && !p.isInitialized && !p.isLocked
    ensures p.reserveA == 0 && p.reserveB == 0
    ensures p.baseFeeBps == 0 && p.volatilityFeeBps == 0
    ensures p.lastPrice == 0 && p.lastUpdateSlot == 0 && p.historyIndex == 0
    ensures p.totalVolumeUsd == 0 && p.totalFeesCollected == 0 && p.createdAt == 0 && p.bump == 0
    ensures forall i | 0 <= i < HISTORY_LEN :: p.priceHistory[i] == 0
    ensures p.authority == p.tokenAMint == p.tokenBMint == p.tokenAVault == p.tokenBVault == p.lpMint == ZeroKey()
  {
    PoolRecord(ZeroKey(), ZeroKey(), ZeroKey(), ZeroKey(), ZeroKey(), ZeroKey(),
               0, 0, 0, 0, 0, 0, seq(HISTORY_LEN, _ => 0), 0, 0, 0, 0, false, false, 0)
  }

  /** The write slot of the ring buffer. */
  function WriteSlot(p: PoolRecord): (i: nat)
    ensures i < HISTORY_LEN
  {
    p.historyIndex % HISTORY_LEN
  }

  /** `update_price_history`: store the sample at `history_index % 50`,
      advance the index modulo 50 and remember the sample as `last_price`. */
  function RecordPriceSample(p: PoolRecord, price: u64): (r: PoolRecord)
    requires WellFormed(p)
    ensures WellFormed(r)
    ensures r.priceHistory[WriteSlot(p)] == price
    ensures forall j | 0 <= j < HISTORY_LEN && j != WriteSlot(p) :: r.priceHistory[j] == p.priceHistory[j]
    ensures r.historyIndex < HISTORY_LEN && r.historyIndex == (p.historyIndex + 1) % HISTORY_LEN
    ensures r.lastPrice == price
    ensures r == p.(priceHistory := r.priceHistory, historyIndex := r.historyIndex, lastPrice := price)
  {
    var i := WriteSlot(p);
    p.(priceHistory := p.priceHistory[i := price],
       historyIndex := (p.historyIndex + 1) % HISTORY_LEN,
       lastPrice := price)
  }

  /** The record after a sequence of samples, oldest first. */
  function RecordSamples(p: PoolRecord, prices: seq<u64>): (r: PoolRecord)
    requires WellFormed(p)
    ensures WellFormed(r)
    decreases |prices|
  {
    if |prices| == 0 then p
    else RecordPriceSample(RecordSamples(p, prices[..|prices| - 1]), prices[|prices| - 1])
  }

  /** The k-th most recent sample of the ring (k = 0 is the latest): the
      slot k + 1 places behind the write index. */
  function RecentSample(p: PoolRecord, k: nat): u64
    requires WellFormed(p) && k < HISTORY_LEN
  {
    p.priceHistory[(p.historyIndex + HISTORY_LEN - 1 - k) % HISTORY_LEN]
  }

  /** One sample shifts every recent sample back by one place. */
  lemma RecentAfterSample(p: PoolRecord, price: u64, k: nat)
    requires WellFormed(p) && p.historyIndex < HISTORY_LEN && k < HISTORY_LEN
    ensures RecentSample(RecordPriceSample(p, price), k) == if k == 0 then price else RecentSample(p, k - 1)
  {
    var q := RecordPriceSample(p, price);
    var slot := (q.historyIndex + HISTORY_LEN - 1 - k) % HISTORY_LEN;
    if k == 0 {
      assert slot == WriteSlot(p);
    } else {
      assert slot == (p.historyIndex + HISTORY_LEN - 1 - (k - 1)) % HISTORY_LEN;
      assert slot != WriteSlot(p);
    }
  }

  /** After n samples the write index has advanced by n, modulo 50. */
  lemma {:induction false} RingIndexAdvances(p: PoolRecord, prices: seq<u64>)
    requires WellFormed(p) && p.historyIndex < HISTORY_LEN
    ensures RecordSamples(p, prices).historyIndex == (p.historyIndex + |prices|) % HISTORY_LEN
  {
    var n := |prices|;
    if n > 0 {
      RingIndexAdvances(p, prices[..n - 1]);
      ModSuccessor(p.historyIndex + n - 1);
    }
  }

  /** The ring buffer keeps the most recent samples: after n samples the
      k-th most recent of the last 50 is the k-th from the end of the input,
      and the older places still hold what the history held before. */
  lemma {:induction false} RingKeepsLatest(p: PoolRecord, prices: seq<u64>)
    requires WellFormed(p) && p.historyIndex < HISTORY_LEN
    ensures var q, n := RecordSamples(p, prices), |prices|;
      && (forall k | 0 <= k < n && k < HISTORY_LEN :: RecentSample(q, k) == prices[n - 1 - k])
      && (forall k | n <= k < HISTORY_LEN :: RecentSample(q, k) == RecentSample(p, k - n))
  {
    var n := |prices|;
    if n > 0 {
      var init := prices[..n - 1];
      var q0 := RecordSamples(p, init);
      RingKeepsLatest(p, init);
      RingIndexAdvances(p, init);
      var last := prices[n - 1];
      assert RecordSamples(p, prices) == RecordPriceSample(q0, last);
      forall k | 0 <= k < n && k < HISTORY_LEN
        ensures RecentSample(RecordPriceSample(q0, last), k) == prices[n - 1 - k]
      {
        RecentAfterSample(q0, last, k);
        if k > 0 {
          assert init[n - 2 - (k - 1)] == prices[n - 1 - k];
        }
      }
      forall k | n <= k < HISTORY_LEN
        ensures RecentSample(RecordPriceSample(q0, last), k) == RecentSample(p, k - n)
      {
        RecentAfterSample(q0, last, k);
        assert k - 1 - (n - 1) == k - n;
      }
    }
  }

  lemma ModSuccessor(a: nat)
    ensures (a % HISTORY_LEN + 1) % HISTORY_LEN == (a + 1) % HISTORY_LEN
  {
  }

  /** The adaptive fee falls back to the base fee exactly while the history
      index is below 5; since the index wraps at 50, starting from a fresh
      history that is the case after n samples exactly when n mod 50 < 5. */
  lemma WarmupRecurs(p: PoolRecord, prices: seq<u64>)
    requires WellFormed(p) && p.historyIndex == 0
    ensures (RecordSamples(p, prices).historyIndex < FEE_WARMUP) == (|prices| % HISTORY_LEN < FEE_WARMUP)
  {
    RingIndexAdvances(p, prices);
  }

  /** The multiplier `(1 + 2 volatility).min(3)`. */
  function VolatilityMultiplier(volatility: real): (m: real)
    requires 0.0 <= volatility
    ensures 1.0 <= m <= 3.0
  {
    if 1.0 + volatility * 2.0 < 3.0 then 1.0 + volatility * 2.0 else 3.0
  }

  lemma VolatilityMultiplierMonotone(v1: real, v2: real)
    requires 0.0 <= v1 <= v2
    ensures VolatilityMultiplier(v1) <= VolatilityMultiplier(v2)
  {
  }

  /** The base fee scaled by the multiplier, truncated toward zero. */
  function ScaledFee(baseFeeBps: u16, m: real): (scaled: int)
    requires 1.0 <= m <= 3.0
    ensures baseFeeBps <= scaled <= 3 * baseFeeBps
  {
    ScaledFloorBetween(baseFeeBps, m);
    (baseFeeBps as real * m).Floor
  }

  lemma ScaledFloorBetween(b: nat, m: real)
    requires 1.0 <= m <= 3.0
    ensures b <= (b as real * m).Floor <= 3 * b
  {
    var x := b as real * m;
    NonNegativeProduct(b as real, m - 1.0);
    NonNegativeProduct(b as real, 3.0 - m);
    assert b as real <= x;
    assert (3 * b) as real == 3.0 * b as real;
    FloorWithin(b, 3 * b, x);
  }

  lemma NonNegativeProduct(x: real, y: real)
    requires 0.0 <= x && 0.0 <= y
    ensures 0.0 <= x * y
  {
  }

  lemma FloorWithin(lo: int, hi: int, x: real)
    requires lo as real <= x <= hi as real
    ensures lo <= x.Floor <= hi
  {
    assert x < x.Floor as real + 1.0;
  }

  lemma FloorMonotone(x: real, y: real)
    requires x <= y
    ensures x.Floor <= y.Floor
  {
    assert x.Floor as real <= x && y < y.Floor as real + 1.0;
  }

  /** `calculate_adaptive_fee`, with the floating-point volatility supplied
      as a non-negative real: the base fee during warm-up, otherwise the base
      fee scaled by the multiplier, cast to u16 (saturating) and capped at
      100 basis points. */
  function AdaptiveFee(baseFeeBps: u16, historyIndex: u8, volatility: real): (fee: u16)
    requires 0.0 <= volatility
    ensures historyIndex < FEE_WARMUP ==> fee == baseFeeBps
    ensures historyIndex >= FEE_WARMUP ==>
      Min(baseFeeBps, MAX_FEE_BPS) <= fee <= Min(3 * baseFeeBps, MAX_FEE_BPS)
  {
    if historyIndex < FEE_WARMUP then baseFeeBps
    else
      var scaled := ScaledFee(baseFeeBps, VolatilityMultiplier(volatility));
      var saturated := if scaled < U16_LIMIT then scaled else U16_LIMIT - 1;
      Min(saturated, MAX_FEE_BPS)
  }

  /** A more volatile history never lowers the fee. */
  lemma AdaptiveFeeMonotone(baseFeeBps: u16, historyIndex: u8, v1: real, v2: real)
    requires 0.0 <= v1 <= v2
    ensures AdaptiveFee(baseFeeBps, historyIndex, v1) <= AdaptiveFee(baseFeeBps, historyIndex, v2)
  {
    if historyIndex >= FEE_WARMUP {
      var m1, m2 := VolatilityMultiplier(v1), VolatilityMultiplier(v2);
      VolatilityMultiplierMonotone(v1, v2);
      ScaledFeeMonotone(baseFeeBps, m1, m2);
    }
  }

  lemma ScaledFeeMonotone(baseFeeBps: u16, m1: real, m2: real)
    requires 1.0 <= m1 <= m2 <= 3.0
    ensures ScaledFee(baseFeeBps, m1) <= ScaledFee(baseFeeBps, m2)
  {
    var b := baseFeeBps as real;
    NonNegativeProduct(b, m2 - m1);
    FloorMonotone(b * m1, b * m2);
  }

  /** The in-memory `LiquidityPool` a handler mutates through `&mut`. */
  class LiquidityPool {
    var authority: Pubkey
    var tokenAMint: Pubkey
    var tokenBMint: Pubkey
    var tokenAVault: Pubkey
    var tokenBVault: Pubkey
    var lpMint: Pubkey
    var reserveA: u64
    var reserveB: u64
    var baseFeeBps: u16
    var volatilityFeeBps: u16
    var lastPrice: u64
    var lastUpdateSlot: u64
    const priceHistory: array<u64>
    var historyIndex: u8
    var totalVolumeUsd: u128
    var totalFeesCollected: u64
    var createdAt: i64
    var isInitialized: bool
    var isLocked: bool
    var bump: u8

    ghost predicate Valid()
      reads this
    {
      priceHistory.Length == HISTORY_LEN
    }

    /** The account value this object holds. */
    function Record(): (p: PoolRecord)
      reads this, priceHistory
      ensures Valid() ==> WellFormed(p)
    {
      PoolRecord(authority, tokenAMint, tokenBMint, tokenAVault, tokenBVault, lpMint,
                 reserveA, reserveB, baseFeeBps, volatilityFeeBps, lastPrice, lastUpdateSlot,
                 priceHistory[..], historyIndex, totalVolumeUsd, totalFeesCollected,
                 createdAt, isInitialized, isLocked, bump)
    }

    /** `LiquidityPool::default()`. */
    constructor Default()
      ensures Valid() && fresh(priceHistory)
      ensures Record() == DefaultRecord()
    {
      authority, tokenAMint, tokenBMint := ZeroKey(), ZeroKey(), ZeroKey();
      tokenAVault, tokenBVault, lpMint := ZeroKey(), ZeroKey(), ZeroKey();
      reserveA, reserveB := 0, 0;
      baseFeeBps, volatilityFeeBps := 0, 0;
      lastPrice, lastUpdateSlot := 0, 0;
      priceHistory := new u64[HISTORY_LEN](_ => 0);
      historyIndex := 0;
      totalVolumeUsd, totalFeesCollected, createdAt := 0, 0, 0;
      isInitialized, isLocked, bump := false, false, 0;
    }

    /** `calculate_adaptive_fee` on this pool. */
    function CalculateAdaptiveFee(volatility: real): (fee: u16)
      reads this
      requires 0.0 <= volatility
      ensures historyIndex < FEE_WARMUP ==> fee == baseFeeBps
      ensures historyIndex >= FEE_WARMUP ==>
        Min(baseFeeBps, MAX_FEE_BPS) <= fee <= Min(3 * baseFeeBps, MAX_FEE_BPS)
    {
      AdaptiveFee(baseFeeBps, historyIndex, volatility)
    }

    /** `update_price_history`, writing the array slot in place. */
    method UpdatePriceHistory(newPrice: u64)
      requires Valid()
      modifies this, priceHistory
      ensures Valid()
      ensures Record() == RecordPriceSample(old(Record()), newPrice)
    {
      var index := historyIndex % HISTORY_LEN;
      priceHistory[index] := newPrice;
      historyIndex := (historyIndex + 1) % HISTORY_LEN;
      lastPrice := newPrice;
    }

    /** `price_history = [0; 50]`. */
    method ClearPriceHistory()
      requires Valid()
      modifies priceHistory
      ensures Record() == old(Record()).(priceHistory := seq(HISTORY_LEN, _ => 0))
    {
      forall i | 0 <= i < priceHistory.Length {
        priceHistory[i] := 0;
      }
      assert priceHistory[..] == seq(HISTORY_LEN, _ => 0);
    }

    /** The reentrancy guard's `lock()`. */
    method Lock()
      modifies this
      ensures Record() == old(Record()).(isLocked := true)
    {
      isLocked := true;
    }

    /** The reentrancy guard's `unlock()`. */
    method Unlock()
      modifies this
      ensures Record() == old(Record()).(isLocked := false)
    {
      isLocked := false;
    }
  }
}
