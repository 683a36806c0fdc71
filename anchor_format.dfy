/** The client's fixed-point text codec for token amounts:
    `formatTokenAmount` renders base units as a decimal string without
    trailing fractional zeros, `parseTokenAmount` reads one back, and the
    amount field's input filter (`/^\d*\.?\d*$/`) says which strings reach
    the parser. */
module AnchorFormat {
  import opened Primitives
  import opened Anchor

  function Pow10(n: nat): (r: nat)
    ensures 0 < r
  {
    if n == 0 then 1 else 10 * Pow10(n - 1)
  }

  lemma {:induction false} Pow10Monotone(m: nat, n: nat)
    requires m <= n
    ensures Pow10(m) <= Pow10(n)
    decreases n
  {
    if m < n {
      Pow10Monotone(m, n - 1);
    }
  }

  predicate IsDigit(c: char) {
    '0' <= c <= '9'
  }

  predicate AllDigits(s: string) {
    forall i | 0 <= i < |s| :: IsDigit(s[i])
  }

  /** A string of n zeros. */
  function Zeros(n: nat): (z: string)
    ensures |z| == n && AllDigits(z)
  {
    seq(n, _ => '0')
  }

  function DigitChar(d: nat): (c: char)
    requires d < 10
    ensures IsDigit(c) && c as int - '0' as int == d
  {
    (d + '0' as int) as char
  }

  /** The number a decimal digit string denotes, as `new BN(s)` reads it;
      the empty string is 0. */
  function DigitsValue(s: string): nat
    requires AllDigits(s)
    decreases |s|
  {
    if |s| == 0 then 0
    else DigitsValue(s[..|s| - 1]) * 10 + (s[|s| - 1] as int - '0' as int)
  }

  /** A digit string of length n denotes a number below 10^n. */
  lemma {:induction false} DigitsValueBound(s: string)
    requires AllDigits(s)
    ensures DigitsValue(s) < Pow10(|s|)
    decreases |s|
  {
    if |s| > 0 {
      DigitsValueBound(s[..|s| - 1]);
      AppendDigitBound(DigitsValue(s[..|s| - 1]), s[|s| - 1] as int - '0' as int, Pow10(|s| - 1));
    }
  }

  lemma AppendDigitBound(v: nat, d: nat, p: nat)
    requires v < p && d < 10
    ensures v * 10 + d < 10 * p
  {
    MulLeftMonotone(10, v + 1, p);
  }

  /** The value of a concatenation: the left part shifted by the right
      part's length. */
  lemma {:induction false} DigitsConcat(a: string, b: string)
    requires AllDigits(a) && AllDigits(b)
    ensures AllDigits(a + b)
    ensures DigitsValue(a + b) == DigitsValue(a) * Pow10(|b|) + DigitsValue(b)
    decreases |b|
  {
    if |b| > 0 {
      var b0 := b[..|b| - 1];
      var d := b[|b| - 1] as int - '0' as int;
      assert (a + b)[..|a + b| - 1] == a + b0;
      DigitsConcat(a, b0);
      assert DigitsValue(a + b) == DigitsValue(a + b0) * 10 + d;
      assert DigitsValue(b) == DigitsValue(b0) * 10 + d;
      ShiftStep(DigitsValue(a), Pow10(|b0|), DigitsValue(b0), d);
    } else {
      assert a + b == a;
    }
  }

  lemma ShiftStep(va: nat, p: nat, vb: nat, d: int)
    ensures (va * p + vb) * 10 + d == va * (10 * p) + (vb * 10 + d)
  {
  }

  /** Zeros are worth nothing. */
  lemma {:induction false} ZerosValue(n: nat)
    ensures DigitsValue(Zeros(n)) == 0
  {
    if n > 0 {
      assert Zeros(n)[..n - 1] == Zeros(n - 1);
      ZerosValue(n - 1);
    }
  }

  /** `BN.toString()`: the decimal digits of n, without leading zeros,
      "0" for zero. */
  function NatToString(n: nat): (s: string)
    ensures AllDigits(s) && 0 < |s|
  {
    if n < 10 then [DigitChar(n)] else NatToString(n / 10) + [DigitChar(n % 10)]
  }

  /** The digits denote n, and the leading one is not a superfluous zero. */
  lemma {:induction false} NatToStringValue(n: nat)
    ensures DigitsValue(NatToString(n)) == n
    ensures |NatToString(n)| == 1 || Pow10(|NatToString(n)| - 1) <= n
  {
    var s := NatToString(n);
    if n >= 10 {
      NatToStringValue(n / 10);
      assert s[..|s| - 1] == NatToString(n / 10);
      LeadingDigitBound(n, |s|);
    }
  }

  lemma LeadingDigitBound(n: nat, len: nat)
    requires 10 <= n && 2 <= len && (len == 2 || Pow10(len - 2) <= n / 10)
    ensures Pow10(len - 1) <= n
  {
    if len == 2 {
      assert Pow10(1) == 10;
    } else {
      MulLeftMonotone(10, Pow10(len - 2), n / 10);
    }
  }

  /** A positive number below 10^d needs at most d digits. */
  lemma DigitCountBound(n: nat, d: nat)
    requires 0 < n < Pow10(d)
    ensures |NatToString(n)| <= d
  {
    var len := |NatToString(n)|;
    NatToStringValue(n);
    if d < len {
      Pow10Monotone(d, len - 1);
    }
  }

  /** `s.padStart(width, '0')`: zeros in front up to the width. Leading
      zeros keep a digit string's value. */
  function PadStart(s: string, width: nat): (r: string)
    ensures |r| == if |s| < width then width else |s|
  {
    if |s| < width then Zeros(width - |s|) + s else s
  }

  lemma PadStartValue(s: string, width: nat)
    requires AllDigits(s)
    ensures AllDigits(PadStart(s, width)) && DigitsValue(PadStart(s, width)) == DigitsValue(s)
  {
    if |s| < width {
      DigitsConcat(Zeros(width - |s|), s);
      ZerosValue(width - |s|);
    }
  }

  /** `s.padEnd(width, '0')`: zeros behind up to the width. Trailing zeros
      shift a digit string's value. */
  function PadEnd(s: string, width: nat): (r: string)
    ensures |r| == if |s| < width then width else |s|
  {
    if |s| < width then s + Zeros(width - |s|) else s
  }

  lemma PadEndValue(s: string, width: nat)
    requires AllDigits(s)
    ensures PadEnd(s, width)[..|s|] == s
    ensures AllDigits(PadEnd(s, width))
    ensures DigitsValue(PadEnd(s, width)) == DigitsValue(s) * Pow10(|PadEnd(s, width)| - |s|)
  {
    var r := PadEnd(s, width);
    assert r[..|s|] == s;
    DigitsConcat(s, Zeros(|r| - |s|));
    ZerosValue(|r| - |s|);
    assert r == s + Zeros(|r| - |s|);
  }

  /** `s.replace(/0+$/, '')`: the run of zeros at the end removed. */
  function TrimTrailingZeros(s: string): (t: string)
    ensures |t| <= |s|
    ensures |t| == 0 || t[|t| - 1] != '0'
  {
    if 0 < |s| && s[|s| - 1] == '0' then TrimTrailingZeros(s[..|s| - 1]) else s
  }

  /** Only zeros are removed, and only from the end. */
  lemma {:induction false} TrimmedZeros(s: string)
    ensures s == TrimTrailingZeros(s) + Zeros(|s| - |TrimTrailingZeros(s)|)
    ensures AllDigits(s) ==> AllDigits(TrimTrailingZeros(s))
    decreases |s|
  {
    var t := TrimTrailingZeros(s);
    if 0 < |s| && s[|s| - 1] == '0' {
      TrimmedZeros(s[..|s| - 1]);
      assert s == s[..|s| - 1] + ['0'];
      assert Zeros(|s| - 1 - |t|) + ['0'] == Zeros(|s| - |t|);
    } else {
      assert s == s + Zeros(0);
    }
    assert forall j | 0 <= j < |t| :: t[j] == s[j];
  }

  /** A non-zero digit followed by zeros trims to that digit. */
  lemma {:induction false} TrimDigitZeros(c: char, k: nat)
    requires c != '0'
    ensures TrimTrailingZeros([c] + Zeros(k)) == [c]
  {
    if k > 0 {
      var s := [c] + Zeros(k);
      assert s[..|s| - 1] == [c] + Zeros(k - 1);
      TrimDigitZeros(c, k - 1);
    }
  }

  /** The text of a digit times a power of ten: the digit, then zeros. */
  lemma {:induction false} NatToStringPow10(d: nat, k: nat)
    requires 1 <= d <= 9
    ensures NatToString(d * Pow10(k)) == [DigitChar(d)] + Zeros(k)
  {
    if k > 0 {
      var n := d * Pow10(k);
      assert n == (d * Pow10(k - 1)) * 10;
      assert n / 10 == d * Pow10(k - 1) && n % 10 == 0;
      NatToStringPow10(d, k - 1);
      assert Zeros(k - 1) + [DigitChar(0)] == Zeros(k);
    }
  }

  /** The index of the first '.', or the length when there is none. */
  function FirstDot(s: string): (i: nat)
    ensures i <= |s|
    ensures forall j | 0 <= j < i :: s[j] != '.'
    ensures i < |s| ==> s[i] == '.'
  {
    if |s| == 0 || s[0] == '.' then 0 else 1 + FirstDot(s[1..])
  }

  /** `s.split('.')`: the pieces between the dots, at least one. */
  function Split(s: string): (parts: seq<string>)
    ensures 0 < |parts|
    ensures forall k | 0 <= k < |parts| :: '.' !in parts[k]
    decreases |s|
  {
    var i := FirstDot(s);
    if i == |s| then [s] else [s[..i]] + Split(s[i + 1..])
  }

  /** The pieces joined back with dots. */
  function JoinDots(parts: seq<string>): string
    requires 0 < |parts|
  {
    if |parts| == 1 then parts[0] else parts[0] + "." + JoinDots(parts[1..])
  }

  /** Splitting on dots and joining with dots gives the string back. */
  lemma {:induction false} SplitJoin(s: string)
    ensures JoinDots(Split(s)) == s
    decreases |s|
  {
    var i := FirstDot(s);
    if i < |s| {
      SplitJoin(s[i + 1..]);
      assert s == s[..i] + "." + s[i + 1..];
    }
  }

  lemma SplitNoDot(s: string)
    requires '.' !in s
    ensures Split(s) == [s]
  {
    assert forall j | 0 <= j < |s| :: s[j] in s;
  }

  lemma SplitOneDot(a: string, b: string)
    requires '.' !in a && '.' !in b
    ensures Split(a + "." + b) == [a, b]
  {
    var s := a + "." + b;
    var i := FirstDot(s);
    assert forall j | 0 <= j < |a| :: s[j] == a[j] && a[j] in a;
    assert s[|a|] == '.';
    assert i == |a|;
    assert s[..i] == a && s[i + 1..] == b;
    SplitNoDot(b);
  }

  lemma DigitsHaveNoDot(s: string)
    requires AllDigits(s)
    ensures '.' !in s
  {
    assert forall i | 0 <= i < |s| :: s[i] != '.';
  }

  /** `quotient.toString()`: the whole tokens. */
  function WholeText(amount: nat, decimals: nat): string {
    DivSplit(amount, Pow10(decimals));
    NatToString(amount / Pow10(decimals))
  }

  /** Euclid's split of a natural number by a positive divisor. */
  lemma DivSplit(a: nat, b: nat)
    requires 0 < b
    ensures 0 <= a / b && a == (a / b) * b + a % b
  {
  }

  /** `remainder.toString().padStart(decimals, '0')` with the trailing
      zeros removed: the fraction digits. */
  function FractionText(amount: nat, decimals: nat): string {
    TrimTrailingZeros(PadStart(NatToString(amount % Pow10(decimals)), decimals))
  }

  /** `formatTokenAmount`: the whole units, and when there is a remainder a
      dot and the remainder's `decimals` digits without trailing zeros. */
  function FormatTokenAmount(amount: nat, decimals: nat): (r: string)
    ensures 0 < |r| && IsDigit(r[0])
    ensures '.' in r <==> amount % Pow10(decimals) != 0
    ensures amount % Pow10(decimals) != 0 ==> IsDigit(r[|r| - 1]) && r[|r| - 1] != '0'
  {
    WholeTextValue(amount, decimals);
    if amount % Pow10(decimals) == 0 then WholeText(amount, decimals)
    else
      FractionTextValue(amount, decimals);
      WholeText(amount, decimals) + "." + FractionText(amount, decimals)
  }

  /** `parseTokenAmount`: the text before the first dot, then the text
      between the first and second dot (or "0" when there is no dot)
      padded or cut to `decimals` digits, read as one integer. A non-digit
      character is modelled as no result, `None`. */
  function ParseTokenAmount(amount: string, decimals: nat): (r: Option<nat>)
    ensures r.Some? ==> r.value < Pow10(|Split(amount)[0]| + decimals)
  {
    var parts := Split(amount);
    var fraction := if |parts| > 1 then parts[1] else "0";
    ReadPartsBound(parts[0], fraction, decimals);
    ReadParts(parts[0], fraction, decimals)
  }

  /** The number read has at most as many digits as the whole part and the
      `decimals` fraction digits together. */
  lemma ReadPartsBound(whole: string, fraction: string, decimals: nat)
    ensures ReadParts(whole, fraction, decimals).Some? ==>
      ReadParts(whole, fraction, decimals).value < Pow10(|whole| + decimals)
  {
    var padded := PadEnd(fraction, decimals)[..decimals];
    if AllDigits(whole + padded) {
      DigitsValueBound(whole + padded);
    }
  }

  /** The whole text followed by the fraction text padded or cut to
      `decimals` digits, read as one integer. */
  function ReadParts(whole: string, fraction: string, decimals: nat): Option<nat> {
    var padded := PadEnd(fraction, decimals)[..decimals];
    if AllDigits(whole + padded) then Some(DigitsValue(whole + padded)) else None
  }

  /** The amount field's filter `/^\d*\.?\d*$/`: digits, at most one dot,
      digits. */
  predicate AmountInput(s: string)
    ensures AmountInput(s) <==>
      && (forall k | 0 <= k < |s| :: IsDigit(s[k]) || s[k] == '.')
      && (forall j, k | 0 <= j < k < |s| && s[j] == '.' :: s[k] != '.')
  {
    var i := FirstDot(s);
    InputShape(s, i);
    AllDigits(s[..i]) && (i == |s| || AllDigits(s[i + 1..]))
  }

  /** Digits, then at most one dot and digits, around the first dot i: the
      characters are digits or dots and no dot follows another. */
  lemma InputShape(s: string, i: nat)
    requires i == FirstDot(s)
    ensures (AllDigits(s[..i]) && (i == |s| || AllDigits(s[i + 1..]))) <==>
      && (forall k | 0 <= k < |s| :: IsDigit(s[k]) || s[k] == '.')
      && (forall j, k | 0 <= j < k < |s| && s[j] == '.' :: s[k] != '.')
  {
    if AllDigits(s[..i]) && (i == |s| || AllDigits(s[i + 1..])) {
      forall k | 0 <= k < |s| ensures IsDigit(s[k]) || s[k] == '.' {
        if k < i { assert s[..i][k] == s[k]; }
        else if k > i { assert s[i + 1..][k - i - 1] == s[k]; }
      }
      forall k | i < k < |s| ensures s[k] != '.' {
        assert s[i + 1..][k - i - 1] == s[k];
      }
    }
  }

  /** The whole part denotes the whole tokens. */
  lemma WholeTextValue(amount: nat, decimals: nat)
    ensures AllDigits(WholeText(amount, decimals)) && '.' !in WholeText(amount, decimals)
    ensures DigitsValue(WholeText(amount, decimals)) == amount / Pow10(decimals)
  {
    DivSplit(amount, Pow10(decimals));
    NatToStringValue(amount / Pow10(decimals));
    DigitsHaveNoDot(WholeText(amount, decimals));
  }

  /** With a remainder, the fraction has between 1 and `decimals` digits,
      ends in a non-zero digit, and scales back to the remainder. */
  lemma FractionTextValue(amount: nat, decimals: nat)
    requires amount % Pow10(decimals) != 0
    ensures var t := FractionText(amount, decimals);
      && AllDigits(t) && '.' !in t
      && 0 < |t| <= decimals && t[|t| - 1] != '0'
      && DigitsValue(t) * Pow10(decimals - |t|) == amount % Pow10(decimals)
  {
    var rem := amount % Pow10(decimals);
    var digits := NatToString(rem);
    NatToStringValue(rem);
    DigitCountBound(rem, decimals);
    var padded := PadStart(digits, decimals);
    PadStartValue(digits, decimals);
    var t := TrimTrailingZeros(padded);
    TrimmedZeros(padded);
    DigitsHaveNoDot(t);
    DigitsConcat(t, Zeros(decimals - |t|));
    ZerosValue(decimals - |t|);
    if |t| == 0 {
      assert padded == Zeros(decimals);
      ZerosValue(decimals);
    }
  }

  /** The shape of a formatted amount: without a dot exactly when it is a
      whole number of tokens; otherwise whole units, a dot, and at most
      `decimals` fraction digits ending in a non-zero digit that scale back
      to the remainder. */
  lemma FormatShape(amount: nat, decimals: nat)
    ensures var r := FormatTokenAmount(amount, decimals);
      var unit := Pow10(decimals);
      && ('.' in r <==> amount % unit != 0)
      && (amount % unit == 0 ==> AllDigits(r) && DigitsValue(r) * unit == amount)
      && (amount % unit != 0 ==>
            var parts := Split(r);
            && |parts| == 2 && AllDigits(parts[0]) && AllDigits(parts[1])
            && DigitsValue(parts[0]) == amount / unit
            && 0 < |parts[1]| <= decimals && parts[1][|parts[1]| - 1] != '0'
            && DigitsValue(parts[1]) * Pow10(decimals - |parts[1]|) == amount % unit)
  {
    var unit := Pow10(decimals);
    var r := FormatTokenAmount(amount, decimals);
    WholeTextValue(amount, decimals);
    DivSplit(amount, unit);
    if amount % unit != 0 {
      var w, t := WholeText(amount, decimals), FractionText(amount, decimals);
      FractionTextValue(amount, decimals);
      SplitOneDot(w, t);
      assert r[|w|] == '.';
    }
  }

  /** A string of digits alone is whole tokens. */
  lemma ParseWhole(s: string, decimals: nat)
    requires AllDigits(s)
    ensures ParseTokenAmount(s, decimals) == Some(DigitsValue(s) * Pow10(decimals))
  {
    DigitsHaveNoDot(s);
    SplitNoDot(s);
    var padded := PadEnd("0", decimals)[..decimals];
    if decimals == 0 {
      assert padded == Zeros(0);
    } else {
      assert padded == Zeros(decimals);
    }
    DigitsConcat(s, Zeros(decimals));
    ZerosValue(decimals);
  }

  /** Whole digits, a dot and fraction digits: the whole part in units of
      10^-decimals plus the first `decimals` fraction digits, the missing
      ones read as zeros and the extra ones dropped. */
  lemma ParseFraction(w: string, f: string, decimals: nat)
    requires AllDigits(w) && AllDigits(f)
    ensures ParseTokenAmount(w + "." + f, decimals) == Some(DigitsValue(w) * Pow10(decimals) +
      if |f| <= decimals then DigitsValue(f) * Pow10(decimals - |f|) else DigitsValue(f[..decimals]))
  {
    DigitsHaveNoDot(w);
    DigitsHaveNoDot(f);
    SplitOneDot(w, f);
    ReadDigits(w, f, decimals);
  }

  lemma ReadDigits(w: string, f: string, decimals: nat)
    requires AllDigits(w) && AllDigits(f)
    ensures ReadParts(w, f, decimals) == Some(DigitsValue(w) * Pow10(decimals) +
      if |f| <= decimals then DigitsValue(f) * Pow10(decimals - |f|) else DigitsValue(f[..decimals]))
  {
    var extended := PadEnd(f, decimals);
    PadEndValue(f, decimals);
    var padded := extended[..decimals];
    if |f| <= decimals {
      assert padded == extended;
    } else {
      assert padded == f[..decimals];
    }
    DigitsConcat(w, padded);
  }

  /** Every string the amount field lets through parses to a number. */
  lemma InputAlwaysParses(s: string, decimals: nat)
    requires AmountInput(s)
    ensures ParseTokenAmount(s, decimals).Some?
  {
    var i := FirstDot(s);
    if i == |s| {
      assert s[..i] == s;
      ParseWhole(s, decimals);
    } else {
      assert s == s[..i] + "." + s[i + 1..];
      ParseFraction(s[..i], s[i + 1..], decimals);
    }
  }

  /** Formatting an amount and parsing the text at the same number of
      decimals gives the amount back; the text passes the input filter. */
  lemma FormatParseRoundTrip(amount: nat, decimals: nat)
    ensures AmountInput(FormatTokenAmount(amount, decimals))
    ensures ParseTokenAmount(FormatTokenAmount(amount, decimals), decimals) == Some(amount)
  {
    var unit := Pow10(decimals);
    var w, q, rem := WholeText(amount, decimals), amount / unit, amount % unit;
    WholeTextValue(amount, decimals);
    DivSplit(amount, unit);
    if rem == 0 {
      RoundTripWhole(w, q, amount, decimals);
    } else {
      FractionTextValue(amount, decimals);
      RoundTripFraction(w, FractionText(amount, decimals), q, rem, amount, decimals);
    }
  }

  lemma RoundTripWhole(w: string, q: nat, amount: nat, decimals: nat)
    requires AllDigits(w) && DigitsValue(w) == q && amount == q * Pow10(decimals) + 0
    ensures AmountInput(w)
    ensures ParseTokenAmount(w, decimals) == Some(amount)
  {
    ParseWhole(w, decimals);
    DigitsHaveNoDot(w);
    SplitNoDot(w);
    assert FirstDot(w) == |w| && w[..|w|] == w;
  }

  lemma RoundTripFraction(w: string, t: string, q: nat, rem: nat, amount: nat, decimals: nat)
    requires AllDigits(w) && DigitsValue(w) == q
    requires AllDigits(t) && |t| <= decimals && DigitsValue(t) * Pow10(decimals - |t|) == rem
    requires amount == q * Pow10(decimals) + rem
    ensures AmountInput(w + "." + t)
    ensures ParseTokenAmount(w + "." + t, decimals) == Some(amount)
  {
    ParseFraction(w, t, decimals);
    DigitsHaveNoDot(w);
    FirstDotAfter(w, t);
    var r := w + "." + t;
    assert r[..|w|] == w && r[|w| + 1..] == t;
  }

  /** In a + "." + b with no dot in a, the first dot follows a. */
  lemma FirstDotAfter(a: string, b: string)
    requires '.' !in a
    ensures FirstDot(a + "." + b) == |a|
  {
    var s := a + "." + b;
    assert forall j | 0 <= j < |a| :: s[j] == a[j] && a[j] in a;
    assert s[|a|] == '.';
  }

  /** The worked examples: one SOL, one and a half SOL, one USDC. */
  lemma FormatExamples()
    ensures FormatTokenAmount(1_000_000_000, 9) == "1"
    ensures FormatTokenAmount(1_500_000_000, 9) == "1.5"
    ensures FormatTokenAmount(1_000_000, 6) == "1"
  {
    assert Pow10(9) == 1_000_000_000 && Pow10(8) == 100_000_000 && Pow10(6) == 1_000_000;
    assert NatToString(1) == "1";
    NatToStringPow10(5, 8);
    assert [DigitChar(5)] == "5";
    TrimDigitZeros('5', 8);
  }

  /** The worked examples: one SOL, one and a half SOL, one and a half
      USDC. */
  lemma ParseExamples()
    ensures ParseTokenAmount("1", 9) == Some(1_000_000_000)
    ensures ParseTokenAmount("1.5", 9) == Some(1_500_000_000)
    ensures ParseTokenAmount("1.5", 6) == Some(1_500_000)
  {
    assert Pow10(9) == 1_000_000_000 && Pow10(8) == 100_000_000 && Pow10(5) == 100_000;
    DigitDotDigit('1', '5', 9);
    DigitDotDigit('1', '5', 6);
    assert DigitsValue("1") == 1 by {
      assert "1"[..0] == "";
    }
    ParseWhole("1", 9);
  }

  /** One digit, a dot and one digit, at one decimal or more. */
  lemma DigitDotDigit(a: char, b: char, decimals: nat)
    requires IsDigit(a) && IsDigit(b) && 0 < decimals
    ensures ParseTokenAmount([a, '.', b], decimals) ==
      Some(((a as int - '0' as int) * 10 + (b as int - '0' as int)) * Pow10(decimals - 1))
  {
    var w, f := [a], [b];
    assert w[..0] == [] && f[..0] == [];
    assert [a, '.', b] == w + "." + f;
    var x, y, p := a as int - '0' as int, b as int - '0' as int, Pow10(decimals - 1);
    assert DigitsValue(w) == x && DigitsValue(f) == y;
    assert Pow10(decimals) == 10 * p && decimals - |f| == decimals - 1;
    ParseFraction(w, f, decimals);
    Distribute(x, y, p);
  }

  lemma Distribute(x: int, y: int, p: int)
    ensures (x * 10 + y) * p == x * (10 * p) + y * p
  {
  }
}
