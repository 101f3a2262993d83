/**
 The constant-product swap formula (src/arbitrage/pool_quote.rs:965-986) with its checked u128
 arithmetic and the final cast to u64 written out, and the binary-search cap built on it.
 */
module Cpmm {
  import opened Wrappers

  const U64_LIMIT: nat := 0x1_0000_0000_0000_0000
  const U128_LIMIT: nat := 0x1_0000_0000_0000_0000_0000_0000_0000_0000
  const FEE_SCALE: nat := 10_000

  type U64 = n: nat | n < U64_LIMIT
  type FeeBps = n: nat | n <= FEE_SCALE

  function CheckedMul(a: nat, b: nat): Option<nat> {
    if a * b < U128_LIMIT then Some(a * b) else None
  }

  function CheckedAdd(a: nat, b: nat): Option<nat> {
    if a + b < U128_LIMIT then Some(a + b) else None
  }

  function CpmmAmountOut(reserveIn: nat, reserveOut: nat, amountIn: U64, feeBps: FeeBps): Option<U64> {
    if reserveIn == 0 || reserveOut == 0 || amountIn == 0 then None
    else
      var charged :- CheckedMul(amountIn, FEE_SCALE - feeBps);
      var afterFee := charged / FEE_SCALE;
      if afterFee == 0 then None
      else
        var numerator :- CheckedMul(reserveOut, afterFee);
        var denominator :- CheckedAdd(reserveIn, afterFee);
        Some(numerator / denominator % U64_LIMIT)
  }

  /** What is left of the input after the fee, in exact integers. */
  function AfterFee(amountIn: nat, feeBps: FeeBps): nat {
    amountIn * (FEE_SCALE - feeBps) / FEE_SCALE
  }

  // ----- Integer arithmetic -----

  lemma MulBelow(a: nat, b: nat, p: nat, q: nat)
    requires a <= p && b <= q
    ensures a * b <= p * q
  {
    assert a * b <= p * b;
    assert p * b <= p * q;
  }

  lemma Quotient(n: nat, d: nat)
    requires d > 0
    ensures n / d * d <= n < (n / d + 1) * d
  {
  }

  lemma QuotientBelow(n: nat, d: nat, k: nat)
    requires d > 0 && n < k * d
    ensures n / d < k
  {
    Quotient(n, d);
    if n / d >= k {
      MulBelow(k, d, n / d, d);
    }
  }

  lemma QuotientAtLeast(n: nat, d: nat, k: nat)
    requires d > 0 && k * d <= n
    ensures k <= n / d
  {
    Quotient(n, d);
    if n / d < k {
      MulBelow(n / d + 1, d, k, d);
    }
  }

  lemma AfterFeeBounds(amountIn: nat, feeBps: FeeBps)
    ensures AfterFee(amountIn, feeBps) <= amountIn
  {
    Quotient(amountIn * (FEE_SCALE - feeBps), FEE_SCALE);
    MulBelow(amountIn, FEE_SCALE - feeBps, amountIn, FEE_SCALE);
  }

  lemma AfterFeeMonotone(a: nat, b: nat, feeBps: FeeBps)
    requires a <= b
    ensures AfterFee(a, feeBps) <= AfterFee(b, feeBps)
  {
    MulBelow(a, FEE_SCALE - feeBps, b, FEE_SCALE - feeBps);
    Quotient(a * (FEE_SCALE - feeBps), FEE_SCALE);
    QuotientAtLeast(b * (FEE_SCALE - feeBps), FEE_SCALE, AfterFee(a, feeBps));
  }

  // ----- The exact meaning of the formula -----

  /** The formula in unbounded integers. */
  function ExactOut(reserveIn: nat, reserveOut: nat, afterFee: nat): nat
    requires reserveIn + afterFee > 0
  {
    reserveOut * afterFee / (reserveIn + afterFee)
  }

  lemma ExactOutBounds(reserveIn: nat, reserveOut: nat, x: nat)
    requires reserveIn > 0 && reserveOut > 0 && x > 0
    ensures var out := ExactOut(reserveIn, reserveOut, x);
            out < reserveOut && out * (reserveIn + x) <= reserveOut * x
  {
    Quotient(reserveOut * x, reserveIn + x);
    assert reserveOut * x < reserveOut * (reserveIn + x) by {
      assert reserveOut * (reserveIn + x) == reserveOut * reserveIn + reserveOut * x;
      assert reserveOut * reserveIn > 0;
    }
    QuotientBelow(reserveOut * x, reserveIn + x, reserveOut);
  }

  /** No overflow and no truncation: for u64 reserves and amounts the code computes the exact quotient. */
  lemma ExactArithmetic(reserveIn: U64, reserveOut: U64, amountIn: U64, feeBps: FeeBps)
    ensures var x := AfterFee(amountIn, feeBps);
            CpmmAmountOut(reserveIn, reserveOut, amountIn, feeBps)
            == if reserveIn == 0 || reserveOut == 0 || x == 0 then None
               else Some(ExactOut(reserveIn, reserveOut, x))
  {
    var x := AfterFee(amountIn, feeBps);
    AfterFeeBounds(amountIn, feeBps);
    assert amountIn == 0 ==> x == 0;
    if reserveIn > 0 && reserveOut > 0 && amountIn > 0 {
      MulBelow(amountIn, FEE_SCALE - feeBps, U64_LIMIT, FEE_SCALE);
      if x > 0 {
        MulBelow(reserveOut, x, U64_LIMIT - 1, U64_LIMIT - 1);
        ExactOutBounds(reserveIn, reserveOut, x);
        assert ExactOut(reserveIn, reserveOut, x) % U64_LIMIT == ExactOut(reserveIn, reserveOut, x);
      }
    }
  }

  /** A swap never drains the pool, and the product of the reserves never falls. */
  lemma SwapKeepsProduct(reserveIn: U64, reserveOut: U64, amountIn: U64, feeBps: FeeBps)
    requires CpmmAmountOut(reserveIn, reserveOut, amountIn, feeBps).Some?
    ensures var out := CpmmAmountOut(reserveIn, reserveOut, amountIn, feeBps).value;
            out < reserveOut && (reserveIn + amountIn) * (reserveOut - out) >= reserveIn * reserveOut
  {
    hide CpmmAmountOut, ExactOut;
    ExactArithmetic(reserveIn, reserveOut, amountIn, feeBps);
    var x := AfterFee(amountIn, feeBps);
    ExactOutBounds(reserveIn, reserveOut, x);
    AfterFeeBounds(amountIn, feeBps);
    ProductGrows(reserveIn, reserveOut, x, ExactOut(reserveIn, reserveOut, x), amountIn);
  }

  lemma ProductGrows(ri: nat, ro: nat, x: nat, out: nat, amountIn: nat)
    requires out < ro && out * (ri + x) <= ro * x && x <= amountIn
    ensures (ri + amountIn) * (ro - out) >= ri * ro
  {
    assert (ri + x) * (ro - out) == (ri + x) * ro - out * (ri + x);
    assert (ri + x) * ro == ri * ro + ro * x;
    MulBelow(ri + x, ro - out, ri + amountIn, ro - out);
  }

  lemma ExactOutMonotone(ri: nat, ro: nat, x: nat, y: nat)
    requires ri > 0 && ro > 0 && 0 < x <= y
    ensures ExactOut(ri, ro, x) <= ExactOut(ri, ro, y)
  {
    ExactOutBounds(ri, ro, x);
    var p := ExactOut(ri, ro, x);
    assert p * (ri + y) <= ro * y by {
      assert p * (ri + y) == p * (ri + x) + p * (y - x);
      assert ro * y == ro * x + ro * (y - x);
      MulBelow(p, y - x, ro, y - x);
    }
    QuotientAtLeast(ro * y, ri + y, p);
  }

  /** More in, no less out; and an amount above an accepted one is accepted. */
  lemma OutMonotone(reserveIn: U64, reserveOut: U64, a: U64, b: U64, feeBps: FeeBps)
    requires a <= b && CpmmAmountOut(reserveIn, reserveOut, a, feeBps).Some?
    ensures CpmmAmountOut(reserveIn, reserveOut, b, feeBps).Some?
    ensures CpmmAmountOut(reserveIn, reserveOut, a, feeBps).value
            <= CpmmAmountOut(reserveIn, reserveOut, b, feeBps).value
  {
    hide CpmmAmountOut, ExactOut, AfterFee;
    ExactArithmetic(reserveIn, reserveOut, a, feeBps);
    ExactArithmetic(reserveIn, reserveOut, b, feeBps);
    AfterFeeMonotone(a, b, feeBps);
    ExactOutMonotone(reserveIn, reserveOut, AfterFee(a, feeBps), AfterFee(b, feeBps));
  }

  /** Buying and selling back into the unchanged pool returns strictly less than was put in. */
  lemma RoundTripLoses(sol: U64, token: U64, solIn: U64, feeBps: FeeBps)
    requires var bought := CpmmAmountOut(sol, token, solIn, feeBps);
             bought.Some? && CpmmAmountOut(token, sol, bought.value, feeBps).Some?
    ensures var bought := CpmmAmountOut(sol, token, solIn, feeBps).value;
            CpmmAmountOut(token, sol, bought, feeBps).value < solIn
  {
    hide CpmmAmountOut, ExactOut, AfterFee;
    var bought := CpmmAmountOut(sol, token, solIn, feeBps).value;
    ExactArithmetic(sol, token, solIn, feeBps);
    ExactArithmetic(token, sol, bought, feeBps);
    var a, t := AfterFee(solIn, feeBps), AfterFee(bought, feeBps);
    ExactOutBounds(sol, token, a);
    ExactOutBounds(token, sol, t);
    AfterFeeBounds(solIn, feeBps);
    AfterFeeBounds(bought, feeBps);
    BackIsLess(sol, token, a, bought, t, ExactOut(token, sol, t));
  }

  lemma BackIsLess(rq: nat, rb: nat, a: nat, bought: nat, t: nat, back: nat)
    requires a > 0 && t > 0 && t <= bought && bought * (rq + a) <= rb * a && back * (rb + t) <= rq * t
    ensures back < a
  {
    assert a * (rb + t) == rb * a + a * t;
    assert t * (rq + a) == rq * t + a * t;
    assert a * t > 0;
    MulBelow(t, rq + a, bought, rq + a);
    if back >= a {
      MulBelow(a, rb + t, back, rb + t);
    }
  }

  // ----- Binary search for the largest accepted amount -----

  /** The bisection both caps use: `lo` is kept, the upper half is tried first. */
  function Bisect(ok: nat -> bool, lo: nat, hi: nat): nat
    decreases hi - lo
  {
    if lo >= hi then lo
    else
      var mid := lo + (hi - lo + 1) / 2;
      if ok(mid) then Bisect(ok, mid, hi) else Bisect(ok, lo, mid - 1)
  }

  /** Whatever the acceptance, the search ends at its start or at an accepted amount in range. */
  lemma {:induction false} BisectAccepted(ok: nat -> bool, lo: nat, hi: nat)
    requires lo <= hi
    ensures lo <= Bisect(ok, lo, hi) <= hi
    ensures Bisect(ok, lo, hi) == lo || ok(Bisect(ok, lo, hi))
    decreases hi - lo
  {
    if lo < hi {
      var mid := lo + (hi - lo + 1) / 2;
      if ok(mid) {
        BisectAccepted(ok, mid, hi);
      } else {
        BisectAccepted(ok, lo, mid - 1);
      }
    }
  }

  /** If smaller amounts than an accepted one are accepted, it finds the largest accepted amount. */
  lemma {:induction false} BisectLargest(ok: nat -> bool, lo: nat, hi: nat)
    requires lo <= hi && forall a, b :: lo < a <= b <= hi && ok(b) ==> ok(a)
    ensures forall a :: Bisect(ok, lo, hi) < a <= hi ==> !ok(a)
    decreases hi - lo
  {
    if lo < hi {
      var mid := lo + (hi - lo + 1) / 2;
      if ok(mid) {
        BisectLargest(ok, mid, hi);
      } else {
        BisectLargest(ok, lo, mid - 1);
      }
    }
  }

  lemma {:induction false} BisectAll(ok: nat -> bool, lo: nat, hi: nat)
    requires lo <= hi && forall a :: lo < a <= hi ==> ok(a)
    ensures Bisect(ok, lo, hi) == hi
    decreases hi - lo
  {
    if lo < hi {
      BisectAll(ok, lo + (hi - lo + 1) / 2, hi);
    }
  }

  /** If larger amounts than an accepted one are accepted, it ends at the bottom or at the very top. */
  lemma {:induction false} BisectUpward(ok: nat -> bool, lo: nat, hi: nat)
    requires lo <= hi && forall a, b :: lo < a <= b <= hi && ok(a) ==> ok(b)
    ensures Bisect(ok, lo, hi) == lo || Bisect(ok, lo, hi) == hi
    decreases hi - lo
  {
    if lo < hi {
      var mid := lo + (hi - lo + 1) / 2;
      if ok(mid) {
        BisectAll(ok, mid, hi);
      } else {
        BisectAccepted(ok, lo, mid - 1);
      }
    }
  }

  /** The loop of both caps. */
  method BisectLoop(ok: nat -> bool, hi0: nat) returns (lo: nat)
    ensures lo == Bisect(ok, 0, hi0)
  {
    lo := 0;
    var hi: nat := hi0;
    while lo < hi
      invariant lo <= hi && Bisect(ok, lo, hi) == Bisect(ok, 0, hi0)
      decreases hi - lo
    {
      var mid := lo + (hi - lo + 1) / 2;
      if ok(mid) {
        lo := mid;
      } else {
        hi := mid - 1;
      }
    }
  }
}
