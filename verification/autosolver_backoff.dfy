// The autosolver's waits between attempts, internal/autosolver/autosolver.go. Durations are 64-bit
// nanosecond counts, and so is the arithmetic on them.

module RetryBackoff {
  const TWO_63 := 0x8000_0000_0000_0000
  const TWO_64 := 0x1_0000_0000_0000_0000
  const MILLISECOND := 1000000

  // The int64 value of an integer's low 64 bits.
  function Wrap(x: int): (r: int)
    ensures -TWO_63 <= r < TWO_63
  {
    var low := x % TWO_64;
    if low < TWO_63 then low else low - TWO_64
  }

  predicate FitsInt64(x: int) {
    -TWO_63 <= x < TWO_63
  }

  function Pow2(n: nat): (p: nat)
    ensures p >= 1
  {
    if n == 0 then 1 else 2 * Pow2(n - 1)
  }

  // 1 << n on an int64.
  function ShiftedOne(n: nat): int {
    if n < 63 then Pow2(n) else if n == 63 then -TWO_63 else 0
  }

  // The two configured delays, with the defaults where they are not positive.
  datatype Delays = Delays(retryBaseDelay: int, retryMaxDelay: int) {
    function Base(): (d: int)
      ensures d > 0
    {
      if retryBaseDelay <= 0 then 500 * MILLISECOND else retryBaseDelay
    }

    function Cap(): (d: int)
      ensures d > 0
    {
      if retryMaxDelay <= 0 then 10000 * MILLISECOND else retryMaxDelay
    }
  }

  // Positive delays count; otherwise half a second, and at most ten.
  lemma DelaysByDefault(d: Delays)
    ensures d.Base() == (if d.retryBaseDelay > 0 then d.retryBaseDelay else 500 * MILLISECOND)
    ensures d.Cap() == (if d.retryMaxDelay > 0 then d.retryMaxDelay else 10000 * MILLISECOND)
  {
  }

  function BackoffDelay(d: Delays, attempt: nat): int
    requires attempt > 0
  {
    var delay := Wrap(d.Base() * ShiftedOne(attempt - 1));
    if delay > d.Cap() then d.Cap() else delay
  }

  lemma {:induction false} Pow2Sum(m: nat, n: nat)
    ensures Pow2(m + n) == Pow2(m) * Pow2(n)
  {
    if n > 0 {
      Pow2Sum(m, n - 1);
      assert Pow2(m + n) == 2 * Pow2(m + (n - 1));
    }
  }

  lemma Pow2Of32()
    ensures Pow2(32) == 0x1_0000_0000
  {
    assert Pow2(8) == 256;
    Pow2Sum(8, 8);
    Pow2Sum(16, 16);
  }

  lemma Pow2Of64()
    ensures Pow2(63) == TWO_63 && Pow2(64) == TWO_64
  {
    Pow2Of32();
    Pow2Sum(32, 32);
    assert Pow2(64) == 2 * Pow2(63);
  }

  lemma WrapIgnoresMultiples(x: int, k: int)
    ensures Wrap(x + k * TWO_64) == Wrap(x)
  {
  }

  lemma SignBitShift(base: int)
    ensures Wrap(base * -TWO_63) == Wrap(base * TWO_63)
  {
    assert base * TWO_63 == base * -TWO_63 + base * TWO_64;
    WrapIgnoresMultiples(base * -TWO_63, base);
  }

  lemma FarShiftIsZero(base: int, n: nat)
    requires n >= 64
    ensures Wrap(base * Pow2(n)) == 0
  {
    Pow2Of64();
    Pow2Sum(64, n - 64);
    var rest := Pow2(n - 64);
    assert base * (TWO_64 * rest) == 0 + (base * rest) * TWO_64;
    WrapIgnoresMultiples(0, base * rest);
  }

  // The shift's own overflow does not matter: the product is the true product's low 64 bits.
  lemma ProductWraps(base: int, n: nat)
    ensures Wrap(base * ShiftedOne(n)) == Wrap(base * Pow2(n))
  {
    if n < 63 {
      assert ShiftedOne(n) == Pow2(n);
    } else if n == 63 {
      Pow2Of64();
      assert ShiftedOne(n) == -TWO_63;
      SignBitShift(base);
    } else {
      assert ShiftedOne(n) == 0 && base * 0 == 0;
      FarShiftIsZero(base, n);
    }
  }

  function Min(a: int, b: int): int {
    if a < b then a else b
  }

  lemma CappingAWrappedProduct(product: int, cap: int)
    requires product > 0 && 0 < cap < TWO_63
    ensures Min(Wrap(product), cap) == Min(product, cap) <==> FitsInt64(product) || Wrap(product) >= cap
  {
  }

  // The cap always holds. The delay is the capped exponential exactly if the product fits in 64 bits, or
  // wraps to something no smaller than the cap.
  lemma DelayIsCappedExponential(d: Delays, attempt: nat)
    requires attempt > 0 && FitsInt64(d.retryMaxDelay)
    ensures BackoffDelay(d, attempt) <= d.Cap()
    ensures var product := d.Base() * Pow2(attempt - 1);
            BackoffDelay(d, attempt) == Min(product, d.Cap()) <==> FitsInt64(product) || Wrap(product) >= d.Cap()
  {
    ProductWraps(d.Base(), attempt - 1);
    PositiveProduct(d.Base(), Pow2(attempt - 1));
    CappingAWrappedProduct(d.Base() * Pow2(attempt - 1), d.Cap());
  }

  lemma PositiveProduct(a: int, b: int)
    requires a > 0 && b > 0
    ensures a * b > 0
  {
  }

  lemma {:induction false} Pow2Grows(m: nat, n: nat)
    requires m <= n
    ensures Pow2(m) <= Pow2(n)
  {
    if m < n {
      Pow2Grows(m, n - 1);
    }
  }

  // As long as the product fits, waits never get shorter.
  lemma DelaysNeverShrink(d: Delays, earlier: nat, later: nat)
    requires 0 < earlier <= later && FitsInt64(d.retryMaxDelay) && FitsInt64(d.Base() * Pow2(later - 1))
    ensures 0 < BackoffDelay(d, earlier) <= BackoffDelay(d, later)
  {
    hide Pow2, BackoffDelay, Wrap;
    Pow2Grows(earlier - 1, later - 1);
    assert d.Base() * Pow2(earlier - 1) <= d.Base() * Pow2(later - 1);
    PositiveProduct(d.Base(), Pow2(earlier - 1));
    DelayIsCappedExponential(d, earlier);
    DelayIsCappedExponential(d, later);
  }

  // With the default delays the product first stops fitting before the 37th attempt, which therefore
  // does not wait at all.
  lemma DefaultDelayOverflows(d: Delays)
    requires d.retryBaseDelay == 500 * MILLISECOND && d.retryMaxDelay == 10000 * MILLISECOND
    ensures BackoffDelay(d, 35) == 10000 * MILLISECOND && BackoffDelay(d, 36) < 0
  {
    Pow2Of32();
    Pow2Sum(32, 2);
    Pow2Sum(32, 3);
    assert Pow2(2) == 4 && Pow2(3) == 8;
    assert ShiftedOne(34) == 0x4_0000_0000 && ShiftedOne(35) == 0x8_0000_0000;
    assert d.Base() == 500000000 && d.Cap() == 10000000000;
    WrapIgnoresMultiples(500000000 * 0x8_0000_0000 - TWO_64, 1);
  }

  // The delay as a function of the attempt; the first attempt does not wait.
  function Backoff(d: Delays): nat -> int {
    (attempt: nat) => if attempt == 0 then 0 else BackoffDelay(d, attempt)
  }

  // The waits before the attempts after the first.
  function Waits(delay: nat -> int, retries: nat): (waits: seq<int>)
    ensures |waits| == retries && forall i :: 0 <= i < retries ==> waits[i] == delay(i + 1)
  {
    if retries == 0 then [] else Waits(delay, retries - 1) + [delay(retries)]
  }
}
