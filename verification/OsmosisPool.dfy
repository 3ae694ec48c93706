/**
 Providing liquidity to a two-asset pool: the number of shares asked for, the slippage check on 18-digit
 fixed-point ratios, and what both together promise about the deposits.
 */
module OsmosisPool {
  import opened Basics
  import opened Cosmos

  /** One, in the 18-digit fixed-point format. */
  const ONE: nat := 1_000_000_000_000_000_000
  const U256_LIMIT: nat := U128_LIMIT * U128_LIMIT

  datatype DexError =
    | TooManyAssets
    | TooFewAssets
    | BalancerNotSupported
    | ToleranceAboveOne
    | MaxSlippage
    | Panicked

  datatype Pool = Pool(assets: seq<Coin>, weights: seq<nat>, totalShares: nat)

  // ------------------------------------------------------------------ fixed-point pieces

  /** Floor of n * m / d in 128 bits; None for the panics on a zero divisor and on overflow. */
  function MultiplyRatio(n: nat, m: nat, d: nat): Option<nat> {
    if d == 0 || n * m / d >= U128_LIMIT then None else Some(n * m / d)
  }

  /** `Decimal256::from_ratio` in atomics. */
  function FromRatio(n: nat, d: nat): Option<nat> {
    if d == 0 || n * ONE / d >= U256_LIMIT then None else Some(n * ONE / d)
  }

  /** Product of two fixed-point numbers, rounded down. */
  function MulDecimal(a: nat, b: nat): nat {
    a * b / ONE
  }

  lemma MulMonotone(a: nat, b: nat, c: nat)
    requires a <= b
    ensures a * c <= b * c
  {}

  lemma Cancel(a: nat, b: nat, c: nat)
    requires c > 0 && a * c < b * c
    ensures a < b
  {
    if a >= b {
      MulMonotone(b, a, c);
    }
  }

  lemma MulStrict(a: nat, b: nat, c: nat)
    requires a < b && c > 0
    ensures a * c < b * c
  {}

  lemma FloorBounds(n: nat, d: nat)
    requires d > 0
    ensures n / d * d <= n < (n / d + 1) * d
  {
    assert n == n / d * d + n % d;
  }

  lemma FloorGreatest(n: nat, d: nat, k: nat)
    requires d > 0 && k * d <= n
    ensures k <= n / d
  {
    FloorBounds(n, d);
    Cancel(k, n / d + 1, d);
  }

  // ------------------------------------------------------------------ shares

  /** `compute_osmo_share_out_amount`. */
  function ShareOut(p0: nat, p1: nat, d0: nat, d1: nat, total: nat): Option<nat> {
    if p0 >= U128_LIMIT || p1 >= U128_LIMIT then None
    else match (MultiplyRatio(d0, total, p0), MultiplyRatio(d1, total, p1))
      case (Some(a), Some(b)) => Some(if a <= b then a else b)
      case _ => None
  }

  /** The pool's side of s shares fits both deposits. */
  predicate Affordable(s: nat, p0: nat, p1: nat, d0: nat, d1: nat, total: nat) {
    s * p0 <= d0 * total && s * p1 <= d1 * total
  }

  /** The shares are the most that both deposits can pay for. */
  lemma ShareOutGreatest(p0: nat, p1: nat, d0: nat, d1: nat, total: nat)
    requires ShareOut(p0, p1, d0, d1, total).Some?
    ensures var s := ShareOut(p0, p1, d0, d1, total).value;
            && Affordable(s, p0, p1, d0, d1, total)
            && (forall k: nat :: Affordable(k, p0, p1, d0, d1, total) ==> k <= s)
            && ((s + 1) * p0 > d0 * total || (s + 1) * p1 > d1 * total)
  {
    var s := ShareOut(p0, p1, d0, d1, total).value;
    var a, b := d0 * total / p0, d1 * total / p1;
    FloorBounds(d0 * total, p0);
    FloorBounds(d1 * total, p1);
    MulMonotone(s, a, p0);
    MulMonotone(s, b, p1);
    forall k: nat | Affordable(k, p0, p1, d0, d1, total)
      ensures k <= s
    {
      FloorGreatest(d0 * total, p0, k);
      FloorGreatest(d1 * total, p1, k);
    }
  }

  /** The shares can be computed for amounts of 128 bits, an asset of zero excluded, when neither quotient leaves 128 bits. */
  ghost predicate Computable(p0: nat, p1: nat, d0: nat, d1: nat, total: nat) {
    && 0 < p0 < 0x1_0000_0000_0000_0000_0000_0000_0000_0000 && 0 < p1 < 0x1_0000_0000_0000_0000_0000_0000_0000_0000
    && d0 * total / p0 < 0x1_0000_0000_0000_0000_0000_0000_0000_0000
    && d1 * total / p1 < 0x1_0000_0000_0000_0000_0000_0000_0000_0000
  }

  lemma ShareOutIff(p0: nat, p1: nat, d0: nat, d1: nat, total: nat)
    ensures ShareOut(p0, p1, d0, d1, total).Some? <==> Computable(p0, p1, d0, d1, total)
  {}

  /** What the pool takes of an asset for s shares, rounded up. */
  function Taken(s: nat, p: nat, total: nat): nat
    requires total > 0
  {
    (s * p + total - 1) / total
  }

  /** Rounding up the pro-rata amounts never exceeds the deposits. */
  lemma TakenWithinDeposit(s: nat, p: nat, d: nat, total: nat)
    requires total > 0 && s * p <= d * total
    ensures Taken(s, p, total) <= d
    ensures Taken(s, p, total) * total >= s * p
  {
    var t := Taken(s, p, total);
    FloorBounds(s * p + total - 1, total);
    assert (t + 1) * total == t * total + total && (d + 1) * total == d * total + total;
    Cancel(t, d + 1, total);
  }

  /** Two deposits made separately never earn more than the two made together. */
  lemma SharesSuperadditive(p0: nat, p1: nat, d0: nat, d1: nat, e0: nat, e1: nat, total: nat)
    requires ShareOut(p0, p1, d0, d1, total).Some? && ShareOut(p0, p1, e0, e1, total).Some?
    requires ShareOut(p0, p1, d0 + e0, d1 + e1, total).Some?
    ensures ShareOut(p0, p1, d0, d1, total).value + ShareOut(p0, p1, e0, e1, total).value
            <= ShareOut(p0, p1, d0 + e0, d1 + e1, total).value
  {
    var s, t := ShareOut(p0, p1, d0, d1, total).value, ShareOut(p0, p1, e0, e1, total).value;
    ShareOutGreatest(p0, p1, d0, d1, total);
    ShareOutGreatest(p0, p1, e0, e1, total);
    ShareOutGreatest(p0, p1, d0 + e0, d1 + e1, total);
    SumFits(s, t, p0, d0, e0, total);
    SumFits(s, t, p1, d1, e1, total);
    assert Affordable(s + t, p0, p1, d0 + e0, d1 + e1, total);
  }

  lemma SumFits(s: nat, t: nat, p: nat, d: nat, e: nat, total: nat)
    requires s * p <= d * total && t * p <= e * total
    ensures (s + t) * p <= (d + e) * total
  {
    assert (s + t) * p == s * p + t * p && (d + e) * total == d * total + e * total;
  }

  // ------------------------------------------------------------------ slippage

  /** The scaled deposit ratio exceeds the pool ratio; None for a panic on the way. */
  function RatioExceeds(dn: nat, dd: nat, keep: nat, pn: nat, pd: nat): Option<bool> {
    match (FromRatio(dn, dd), FromRatio(pn, pd))
    case (Some(deposit), Some(pool)) => Some(MulDecimal(deposit, keep) > pool)
    case _ => None
  }

  /** `assert_slippage_tolerance`; the tolerance is given in atomics. */
  function AssertSlippage(tolerance: Option<nat>, d0: nat, d1: nat, p0: nat, p1: nat): Result<(), DexError> {
    if tolerance.None? then Ok(())
    else if tolerance.value > ONE then Err(ToleranceAboveOne)
    else
      var keep := ONE - tolerance.value;
      match RatioExceeds(d0, d1, keep, p0, p1)
      case None => Err(Panicked)
      case Some(true) => Err(MaxSlippage)
      case Some(false) =>
        match RatioExceeds(d1, d0, keep, p1, p0)
        case None => Err(Panicked)
        case Some(true) => Err(MaxSlippage)
        case Some(false) => Ok(())
  }

  /** The 18-digit ratio of the deposits, scaled by keep, does not exceed that of the pool: floors of 10^18 parts. */
  ghost predicate RatioKept(dn: nat, dd: nat, keep: nat, pn: nat, pd: nat)
    requires dd > 0 && pd > 0
  {
    dn * 1_000_000_000_000_000_000 / dd * keep / 1_000_000_000_000_000_000 <= pn * 1_000_000_000_000_000_000 / pd
  }

  /** The ratio exists in 256 bits. */
  ghost predicate RatioFits(n: nat, d: nat) {
    d > 0 && n * 1_000_000_000_000_000_000 / d
             < 0x1_0000_0000_0000_0000_0000_0000_0000_0000 * 0x1_0000_0000_0000_0000_0000_0000_0000_0000
  }

  ghost predicate AllRatiosFit(d0: nat, d1: nat, p0: nat, p1: nat) {
    RatioFits(d0, d1) && RatioFits(d1, d0) && RatioFits(p0, p1) && RatioFits(p1, p0)
  }

  /** No tolerance is no check; a tolerance is at most one, and both ratios are kept up to it. */
  ghost predicate Tolerated(tolerance: Option<nat>, d0: nat, d1: nat, p0: nat, p1: nat) {
    tolerance.Some? ==>
      && tolerance.value <= 1_000_000_000_000_000_000
      && AllRatiosFit(d0, d1, p0, p1)
      && RatioKept(d0, d1, 1_000_000_000_000_000_000 - tolerance.value, p0, p1)
      && RatioKept(d1, d0, 1_000_000_000_000_000_000 - tolerance.value, p1, p0)
  }

  lemma RatioIff(dn: nat, dd: nat, keep: nat, pn: nat, pd: nat)
    ensures RatioExceeds(dn, dd, keep, pn, pd).Some? <==> RatioFits(dn, dd) && RatioFits(pn, pd)
    ensures RatioExceeds(dn, dd, keep, pn, pd).Some? ==>
              (RatioExceeds(dn, dd, keep, pn, pd).value <==> !RatioKept(dn, dd, keep, pn, pd))
  {}

  /** The check passes exactly for a tolerated deposit, and a tolerance above one is an error of its own. */
  lemma SlippageIff(tolerance: Option<nat>, d0: nat, d1: nat, p0: nat, p1: nat)
    ensures AssertSlippage(tolerance, d0, d1, p0, p1).Ok? <==> Tolerated(tolerance, d0, d1, p0, p1)
    ensures AssertSlippage(tolerance, d0, d1, p0, p1) == Err(ToleranceAboveOne) <==>
            tolerance.Some? && tolerance.value > 1_000_000_000_000_000_000
    ensures tolerance.Some? && tolerance.value <= 1_000_000_000_000_000_000 && AllRatiosFit(d0, d1, p0, p1) ==>
              (AssertSlippage(tolerance, d0, d1, p0, p1) == Err(MaxSlippage) <==> !Tolerated(tolerance, d0, d1, p0, p1))
  {
    if tolerance.Some? && tolerance.value <= ONE {
      RatioIff(d0, d1, ONE - tolerance.value, p0, p1);
      RatioIff(d1, d0, ONE - tolerance.value, p1, p0);
    }
  }

  /** Both ratios of the deposits are within the tolerance exactly, without any rounding. */
  ghost predicate WithinExactly(tolerance: nat, d0: nat, d1: nat, p0: nat, p1: nat)
    requires tolerance <= 1_000_000_000_000_000_000
  {
    && ((1_000_000_000_000_000_000 - tolerance) * d0) * p1 <= d1 * (p0 * 1_000_000_000_000_000_000)
    && ((1_000_000_000_000_000_000 - tolerance) * d1) * p0 <= d0 * (p1 * 1_000_000_000_000_000_000)
  }

  lemma WithinIsTolerated(tolerance: nat, d0: nat, d1: nat, p0: nat, p1: nat)
    requires tolerance <= 1_000_000_000_000_000_000 && AllRatiosFit(d0, d1, p0, p1) && WithinExactly(tolerance, d0, d1, p0, p1)
    ensures Tolerated(Some(tolerance), d0, d1, p0, p1)
  {
    RatioIff(d0, d1, ONE - tolerance, p0, p1);
    RatioIff(d1, d0, ONE - tolerance, p1, p0);
    RatioNeverTooStrict(d0, d1, ONE - tolerance, p0, p1);
    RatioNeverTooStrict(d1, d0, ONE - tolerance, p1, p0);
  }

  /** Undoing the floor of the product: k stands for ratio * keep. */
  lemma ProductFloor(k: nat, b: nat, pn: nat, pd: nat)
    requires pd > 0 && k < (b + 1) * ONE && b * pd <= pn * ONE
    ensures k * pd < (pn * ONE + pd) * ONE
  {
    MulStrict(k, (b + 1) * ONE, pd);
    assert (b + 1) * ONE * pd == (b * pd + pd) * ONE;
    MulMonotone(b * pd + pd, pn * ONE + pd, ONE);
  }

  /** Undoing the floor of the deposit ratio. */
  lemma RatioFloor(dn: nat, dd: nat, a: nat, keep: nat)
    requires dn * ONE <= (a + 1) * dd
    ensures (keep * dn) * ONE <= (a * keep + keep) * dd
  {
    MulMonotone(dn * ONE, (a + 1) * dd, keep);
    assert dn * ONE * keep == (keep * dn) * ONE;
    assert (a + 1) * dd * keep == (a * keep + keep) * dd;
  }

  /** Putting both together: l stands for keep * deposit, k for ratio * keep. */
  lemma CombineFloors(l: nat, k: nat, keep: nat, dd: nat, pn: nat, pd: nat)
    requires dd > 0 && keep <= ONE
    requires l * ONE <= (k + keep) * dd && k * pd < (pn * ONE + pd) * ONE
    ensures l * pd < dd * (pn * ONE + 2 * pd)
  {
    var bound := pn * ONE + 2 * pd;
    MulMonotone(l * ONE, (k + keep) * dd, pd);
    MulMonotone(keep, ONE, pd);
    SumBelow(k * pd, keep * pd, pn, pd);
    MulStrict(k * pd + keep * pd, bound * ONE, dd);
    Shuffle3(l, ONE, pd);
    ShuffleSum(k, keep, dd, pd);
    Shuffle3(bound, ONE, dd);
    Cancel(l * pd, dd * bound, ONE);
  }

  lemma SumBelow(x: nat, y: nat, pn: nat, pd: nat)
    requires x < (pn * ONE + pd) * ONE && y <= ONE * pd
    ensures x + y < (pn * ONE + 2 * pd) * ONE
  {}

  lemma Shuffle3(a: nat, b: nat, c: nat)
    ensures a * b * c == (a * c) * b && a * b * c == (c * a) * b
  {}

  lemma ShuffleSum(a: nat, b: nat, c: nat, d: nat)
    ensures (a + b) * c * d == (a * d + b * d) * c
  {}

  /** The accepted comparison, with the three floors undone. */
  lemma RatioAccepted(dn: nat, dd: nat, keep: nat, pn: nat, pd: nat)
    requires keep <= ONE && RatioExceeds(dn, dd, keep, pn, pd) == Some(false)
    ensures (keep * dn) * pd < dd * (pn * ONE + 2 * pd)
  {
    var a, c := dn * ONE / dd, pn * ONE / pd;
    var b := a * keep / ONE;
    FloorBounds(dn * ONE, dd);
    FloorBounds(a * keep, ONE);
    FloorBounds(pn * ONE, pd);
    MulMonotone(b, c, pd);
    ProductFloor(a * keep, b, pn, pd);
    RatioFloor(dn, dd, a, keep);
    CombineFloors(keep * dn, a * keep, keep, dd, pn, pd);
  }

  lemma CancelLeq(a: nat, b: nat, c: nat)
    requires c > 0 && a * c <= b * c
    ensures a <= b
  {
    if a > b {
      MulStrict(b, a, c);
    }
  }

  /** The rounding never refuses a deposit ratio that is within the tolerance exactly. */
  lemma RatioNeverTooStrict(dn: nat, dd: nat, keep: nat, pn: nat, pd: nat)
    requires RatioExceeds(dn, dd, keep, pn, pd).Some?
    requires (keep * dn) * pd <= dd * (pn * ONE)
    ensures RatioExceeds(dn, dd, keep, pn, pd) == Some(false)
  {
    var a := dn * ONE / dd;
    var b := a * keep / ONE;
    FloorBounds(dn * ONE, dd);
    FloorBounds(a * keep, ONE);
    MulMonotone(b * ONE, a * keep, dd);
    MulMonotone(a * dd, dn * ONE, keep);
    Shuffle3(b, ONE, dd);
    Shuffle3(a, keep, dd);
    Shuffle3(dn, ONE, keep);
    CancelLeq(b * dd, keep * dn, ONE);
    MulMonotone(b * dd, keep * dn, pd);
    Shuffle3(b, dd, pd);
    CancelLeq(b * pd, pn * ONE, dd);
    FloorGreatest(pn * ONE, pd, b);
  }

  /** When the first deposit limits the shares. */
  lemma UnusedWhenLimiting(d0: nat, p0: nat, total: nat, keep: nat, s: nat)
    requires keep <= ONE && (s + 1) * p0 > d0 * total
    ensures (keep * d0) * total < (ONE * p0) * (s + 1)
  {
    MulMonotone(keep, ONE, d0 * total);
    MulStrict(d0 * total, (s + 1) * p0, ONE);
    assert keep * (d0 * total) == (keep * d0) * total;
    assert (s + 1) * p0 * ONE == (ONE * p0) * (s + 1);
  }

  /** When the second deposit limits the shares: l stands for keep * d0, q for ONE * p0, n for s + 1. */
  lemma UnusedWhenOther(l: nat, q: nat, p1: nat, d1: nat, total: nat, n: nat)
    requires total > 0 && p1 > 0
    requires l * p1 < d1 * (q + 2 * p1) && d1 * total <= n * p1
    ensures l * total < q * n + 2 * d1 * total
  {
    var e := d1 * total;
    MulStrict(l * p1, d1 * (q + 2 * p1), total);
    Shuffle3(l, p1, total);
    Expand(d1, q, p1, total);
    MulMonotone(e, n * p1, q);
    assert n * p1 * q == (q * n) * p1;
    assert (q * n) * p1 + (2 * e) * p1 == (q * n + 2 * e) * p1;
    Cancel(l * total, q * n + 2 * e, p1);
  }

  lemma Expand(d: nat, q: nat, p: nat, t: nat)
    ensures d * (q + 2 * p) * t == (d * t) * q + (2 * (d * t)) * p
  {
    assert d * (q + 2 * p) == d * q + 2 * d * p;
    Shuffle3(d, q, t);
    Shuffle3(d, p, t);
  }

  /** With shares that one of the two deposits cannot exceed, little of a deposit stays unused. */
  lemma UnusedBound(d0: nat, d1: nat, p0: nat, p1: nat, total: nat, keep: nat, s: nat)
    requires p1 > 0 && total > 0 && keep <= ONE
    requires (keep * d0) * p1 < d1 * (p0 * ONE + 2 * p1)
    requires (s + 1) * p0 > d0 * total || (s + 1) * p1 > d1 * total
    ensures (keep * d0) * total < (ONE * p0) * (s + 1) + 2 * d1 * total
  {
    if (s + 1) * p0 > d0 * total {
      UnusedWhenLimiting(d0, p0, total, keep, s);
    } else {
      UnusedWhenOther(keep * d0, ONE * p0, p1, d1, total, s + 1);
    }
  }

  /** The unused part of deposit d, of pool amount p, stays below the tolerance plus the rounding of the ratios. */
  predicate UnusedSmall(d: nat, other: nat, p: nat, total: nat, tolerance: nat, s: nat)
    requires total > 0
  {
    (d as real) - (s as real) * (p as real) / (total as real)
      < (tolerance as real) / 1_000_000_000_000_000_000.0 * (d as real) + 2.0 * (other as real) / 1_000_000_000_000_000_000.0 + (p as real) / (total as real)
  }

  lemma UnusedSmallFromBound(d: nat, other: nat, p: nat, total: nat, tolerance: nat, s: nat)
    requires total > 0 && tolerance <= ONE
    requires ((ONE - tolerance) * d) * total < (ONE * p) * (s + 1) + 2 * other * total
    ensures UnusedSmall(d, other, p, total, tolerance, s)
  {
    var one, t := ONE as real, total as real;
    assert ((ONE - tolerance) * d * total) as real == (one - tolerance as real) * (d as real) * t;
    assert (ONE * p * (s + 1) + 2 * other * total) as real
        == one * (p as real) * (s as real + 1.0) + 2.0 * (other as real) * t;
    RealForm(d as real, t, other as real, p as real, s as real, tolerance as real, one);
  }

  /** Dividing the inequality by one (the fixed-point unit) and by the total. */
  lemma RealForm(d: real, total: real, other: real, p: real, s: real, tolerance: real, one: real)
    requires total > 0.0 && one > 0.0
    requires (one - tolerance) * d * total < one * p * (s + 1.0) + 2.0 * other * total
    ensures d - s * p / total < tolerance / one * d + 2.0 * other / one + p / total
  {
    DivCancel(s * p, total);
    DivCancel(p, total);
    DivCancel(tolerance, one);
    DivCancel(2.0 * other, one);
    var taken, share, rate, slack := s * p / total, p / total, tolerance / one, 2.0 * other / one;
    assert taken * total == s * p && share * total == p && rate * one == tolerance && slack * one == 2.0 * other;
    Scaled(d, total, one, taken, share, rate, slack, s, p, tolerance, other);
  }

  lemma DivCancel(a: real, b: real)
    requires b != 0.0
    ensures a / b * b == a
  {}

  lemma Scaled(d: real, total: real, one: real, taken: real, share: real, rate: real, slack: real,
               s: real, p: real, tolerance: real, other: real)
    requires total > 0.0 && one > 0.0
    requires taken * total == s * p && share * total == p && rate * one == tolerance && slack * one == 2.0 * other
    requires (one - tolerance) * d * total < one * p * (s + 1.0) + 2.0 * other * total
    ensures d - taken < rate * d + slack + share
  {
    var gap := rate * d + slack + share - d + taken;
    assert one * p * (s + 1.0) == one * (s * p) + one * p;
    assert gap * (one * total) == (rate * one) * d * total + (slack * one) * total + (share * total) * one
                                  - d * one * total + (taken * total) * one;
    assert gap * (one * total) == tolerance * d * total + 2.0 * other * total + p * one - d * one * total + s * p * one;
    assert gap * (one * total) > 0.0;
    PositiveFactor(gap, one * total);
  }

  lemma PositiveFactor(gap: real, scale: real)
    requires gap * scale > 0.0 && scale > 0.0
    ensures gap > 0.0
  {
    assert gap <= 0.0 ==> gap * scale <= 0.0;
  }

  /** An accepted tolerance and the computed shares together bound what is left of each deposit. */
  lemma SlippageAndShares(tolerance: nat, d0: nat, d1: nat, p0: nat, p1: nat, total: nat)
    requires total > 0
    requires AssertSlippage(Some(tolerance), d0, d1, p0, p1).Ok?
    requires ShareOut(p0, p1, d0, d1, total).Some?
    ensures var s := ShareOut(p0, p1, d0, d1, total).value;
            UnusedSmall(d0, d1, p0, total, tolerance, s) && UnusedSmall(d1, d0, p1, total, tolerance, s)
  {
    var s, keep := ShareOut(p0, p1, d0, d1, total).value, ONE - tolerance;
    ShareOutGreatest(p0, p1, d0, d1, total);
    RatioAccepted(d0, d1, keep, p0, p1);
    RatioAccepted(d1, d0, keep, p1, p0);
    UnusedBound(d0, d1, p0, p1, total, keep, s);
    UnusedBound(d1, d0, p1, p0, total, keep, s);
    UnusedSmallFromBound(d0, d1, p0, total, tolerance, s);
    UnusedSmallFromBound(d1, d0, p1, total, tolerance, s);
  }

  // ------------------------------------------------------------------ the whole operation

  /** The join message: the shares asked for, and the most that may be taken of each asset. */
  datatype Join = Join(shareOut: nat, tokenInMaxs: seq<Coin>)

  function FirstNonZero(offers: seq<Coin>): (i: nat)
    ensures i <= |offers|
    ensures i < |offers| ==> offers[i].amount > 0
    ensures forall j :: 0 <= j < i ==> offers[j].amount == 0
  {
    if offers == [] || offers[0].amount > 0 then 0
    else
      var k := FirstNonZero(offers[1..]);
      assert forall j :: 0 < j <= k ==> offers[j] == offers[1..][j - 1] || j == k;
      1 + k
  }

  /** Ascending by denom; two tokens are all there can be. */
  ghost predicate ByDenom(tokens: seq<Coin>) {
    |tokens| == 2 ==> !StringLess(tokens[1].denom, tokens[0].denom)
  }

  /** Tokens of a pair, sorted by denom and kept in order where the denoms are the same. */
  ghost predicate SortedPair(tokens: seq<Coin>, first: Coin, second: Coin) {
    multiset(tokens) == multiset{first, second} && (first.denom == second.denom ==> tokens == [first, second])
  }

  /**
   The tokens joined with, ascending by denom. They are the offer itself, or, where one of two offered amounts is zero,
   half of the other and what the swap of that half is said to return.
   */
  ghost predicate Prepared(offers: seq<Coin>, simulated: nat, tokens: seq<Coin>) {
    && |offers| <= 2 && ByDenom(tokens)
    && if forall c :: c in offers ==> c.amount > 0 then
         multiset(tokens) == multiset(offers) && (|offers| == 2 ==> SortedPair(tokens, offers[0], offers[1]))
       else
         |offers| == 2 && (Halved(tokens, offers[0], offers[1], simulated) || Halved(tokens, offers[1], offers[0], simulated))
  }

  /** Half of the one amount, and the simulated return in place of the zero one. */
  ghost predicate Halved(tokens: seq<Coin>, given: Coin, asked: Coin, simulated: nat) {
    && given.amount > 0 && asked.amount == 0
    && SortedPair(tokens, Coin(given.denom, given.amount / 2), Coin(asked.denom, simulated))
  }

  lemma SortedPairUnique(a: seq<Coin>, b: seq<Coin>, first: Coin, second: Coin)
    requires ByDenom(a) && ByDenom(b) && SortedPair(a, first, second) && SortedPair(b, first, second)
    ensures a == b
  {
    StringLessStrictTotal();
    PairOf(a, first, second);
    PairOf(b, first, second);
  }

  lemma PairOf(a: seq<Coin>, first: Coin, second: Coin)
    requires multiset(a) == multiset{first, second}
    ensures a == [first, second] || a == [second, first]
  {
    assert |a| == |multiset(a)| == 2;
    assert a == [a[0], a[1]];
    assert a[0] in multiset(a) && a[1] in multiset(a);
    assert multiset(a) == multiset{a[0], a[1]};
  }

  lemma HalvedUnique(a: seq<Coin>, b: seq<Coin>, given: Coin, asked: Coin, simulated: nat)
    requires ByDenom(a) && ByDenom(b) && Halved(a, given, asked, simulated) && Halved(b, given, asked, simulated)
    ensures a == b
  {
    SortedPairUnique(a, b, Coin(given.denom, given.amount / 2), Coin(asked.denom, simulated));
  }

  lemma SingleUnique(a: seq<Coin>, b: seq<Coin>)
    requires multiset(a) == multiset(b) && |b| <= 1
    ensures a == b
  {
    assert |a| == |multiset(a)| && |b| == |multiset(b)|;
    if |b| == 1 {
      assert b == [b[0]] && a == [a[0]] && a[0] in multiset(a);
    }
  }

  /** An offer can be prepared in one way only, and not at all when nothing is offered. */
  lemma PreparedUnique(offers: seq<Coin>, simulated: nat, a: seq<Coin>, b: seq<Coin>)
    requires Prepared(offers, simulated, a) && Prepared(offers, simulated, b)
    ensures a == b && |offers| <= 2 && !NothingOffered(offers)
  {
    if forall c :: c in offers ==> c.amount > 0 {
      if |offers| == 2 {
        SortedPairUnique(a, b, offers[0], offers[1]);
      } else {
        SingleUnique(a, offers);
        SingleUnique(b, offers);
      }
      assert offers != [] ==> offers[0] in offers;
    } else if Halved(a, offers[0], offers[1], simulated) {
      HalvedUnique(a, b, offers[0], offers[1], simulated);
    } else {
      HalvedUnique(a, b, offers[1], offers[0], simulated);
    }
  }

  function AmountOf(tokens: seq<Coin>, denom: string): Option<nat> {
    if tokens == [] then None
    else if tokens[0].denom == denom then Some(tokens[0].amount)
    else AmountOf(tokens[1..], denom)
  }

  /** The first token of the denom has the given amount. */
  ghost predicate Deposited(tokens: seq<Coin>, denom: string, d: nat) {
    exists i :: 0 <= i < |tokens| && tokens[i] == Coin(denom, d) && forall j :: 0 <= j < i ==> tokens[j].denom != denom
  }

  lemma {:induction false} AmountIff(tokens: seq<Coin>, denom: string, d: nat)
    ensures AmountOf(tokens, denom) == Some(d) <==> Deposited(tokens, denom, d)
  {
    if tokens != [] {
      AmountIff(tokens[1..], denom, d);
      if tokens[0].denom != denom {
        if Deposited(tokens, denom, d) {
          var i :| 0 <= i < |tokens| && tokens[i] == Coin(denom, d) && forall j :: 0 <= j < i ==> tokens[j].denom != denom;
          assert tokens[1..][i - 1] == tokens[i];
        }
        if Deposited(tokens[1..], denom, d) {
          var i :| 0 <= i < |tokens[1..]| && tokens[1..][i] == Coin(denom, d)
                   && forall j :: 0 <= j < i ==> tokens[1..][j].denom != denom;
          assert tokens[i + 1] == Coin(denom, d);
          assert forall j :: 0 < j < i + 1 ==> tokens[j] == tokens[1..][j - 1];
        }
      } else if Deposited(tokens, denom, d) {
        var i :| 0 <= i < |tokens| && tokens[i] == Coin(denom, d) && forall j :: 0 <= j < i ==> tokens[j].denom != denom;
        assert i == 0;
      }
    }
  }

  /** `sort_by` denom, for at most two tokens. */
  function Sorted(tokens: seq<Coin>): (r: seq<Coin>)
    requires |tokens| <= 2
    ensures ByDenom(r) && multiset(r) == multiset(tokens)
    ensures |tokens| == 2 ==> SortedPair(r, tokens[0], tokens[1])
  {
    StringLessStrictTotal();
    assert |tokens| == 2 ==> tokens == [tokens[0], tokens[1]];
    if |tokens| == 2 && StringLess(tokens[1].denom, tokens[0].denom) then [tokens[1], tokens[0]] else tokens
  }

  /** What a join message promises: the most shares both caps pay for, taken within the caps, little left over. */
  ghost predicate FairJoin(j: Join, pool: Pool, maxSpread: Option<nat>) {
    && |pool.assets| >= 2 && |pool.weights| >= 2 && pool.weights[0] == pool.weights[1]
    && var (d0, d1) := (AmountOf(j.tokenInMaxs, pool.assets[0].denom), AmountOf(j.tokenInMaxs, pool.assets[1].denom));
       && d0.Some? && d1.Some?
       && var (p0, p1, total, s) := (pool.assets[0].amount, pool.assets[1].amount, pool.totalShares, j.shareOut);
          && p0 > 0 && p1 > 0
          && Affordable(s, p0, p1, d0.value, d1.value, total)
          && (forall k: nat :: Affordable(k, p0, p1, d0.value, d1.value, total) ==> k <= s)
          && (total > 0 ==> Taken(s, p0, total) <= d0.value && Taken(s, p1, total) <= d1.value)
          && (total > 0 && maxSpread.Some? ==>
                && maxSpread.value <= ONE
                && UnusedSmall(d0.value, d1.value, p0, total, maxSpread.value, s)
                && UnusedSmall(d1.value, d0.value, p1, total, maxSpread.value, s))
  }

  lemma JoinIsFair(j: Join, pool: Pool, maxSpread: Option<nat>)
    requires |pool.assets| >= 2 && |pool.weights| >= 2 && pool.weights[0] == pool.weights[1]
    requires AmountOf(j.tokenInMaxs, pool.assets[0].denom).Some? && AmountOf(j.tokenInMaxs, pool.assets[1].denom).Some?
    requires var (d0, d1) := (AmountOf(j.tokenInMaxs, pool.assets[0].denom).value,
                              AmountOf(j.tokenInMaxs, pool.assets[1].denom).value);
             && AssertSlippage(maxSpread, d0, d1, pool.assets[0].amount, pool.assets[1].amount).Ok?
             && ShareOut(pool.assets[0].amount, pool.assets[1].amount, d0, d1, pool.totalShares) == Some(j.shareOut)
    ensures FairJoin(j, pool, maxSpread)
  {
    var d0, d1 := AmountOf(j.tokenInMaxs, pool.assets[0].denom).value, AmountOf(j.tokenInMaxs, pool.assets[1].denom).value;
    var p0, p1, total := pool.assets[0].amount, pool.assets[1].amount, pool.totalShares;
    ShareOutGreatest(p0, p1, d0, d1, total);
    if total > 0 {
      TakenWithinDeposit(j.shareOut, p0, d0, total);
      TakenWithinDeposit(j.shareOut, p1, d1, total);
      if maxSpread.Some? {
        SlippageAndShares(maxSpread.value, d0, d1, p0, p1, total);
      }
    }
  }

  ghost predicate NothingOffered(offers: seq<Coin>) {
    offers != [] && forall c :: c in offers ==> c.amount == 0
  }

  /** The first half of `provide_liquidity`: too many assets, a zero asset, then sorting by denom. */
  method PrepareTokens(offers: seq<Coin>, simulated: nat) returns (r: Result<seq<Coin>, DexError>)
    ensures r == Err(TooManyAssets) <==> |offers| > 2
    ensures r == Err(TooFewAssets) <==> |offers| <= 2 && NothingOffered(offers)
    ensures r.Ok? <==> |offers| <= 2 && !NothingOffered(offers)
    ensures r.Ok? ==> Prepared(offers, simulated, r.value)
  {
    if |offers| > 2 {
      return Err(TooManyAssets);
    }
    var joined := offers;
    if exists c :: c in offers && c.amount == 0 {
      var i := FirstNonZero(offers);
      if i == |offers| {
        return Err(TooFewAssets);
      }
      ZeroBeside(offers, i);
      var ask := offers[(i + 1) % 2].denom;
      joined := [Coin(offers[i].denom, offers[i].amount / 2), Coin(ask, simulated)];
      assert Halved(Sorted(joined), offers[i], offers[(i + 1) % 2], simulated);
    } else if offers != [] {
      assert offers[0] in offers;
    }
    return Ok(Sorted(joined));
  }

  lemma ZeroBeside(offers: seq<Coin>, i: nat)
    requires |offers| <= 2 && i < |offers| && offers[i].amount > 0 && forall j :: 0 <= j < i ==> offers[j].amount == 0
    requires exists c :: c in offers && c.amount == 0
    ensures |offers| == 2 && (i + 1) % 2 == 1 - i && offers[1 - i].amount == 0 && !NothingOffered(offers)
  {
    var c :| c in offers && c.amount == 0;
    var k :| 0 <= k < |offers| && offers[k] == c;
    assert offers[i] in offers;
  }

  /** Two assets of the same weight, deposits d0 and d1 of them, and shares that can be computed. */
  ghost predicate Joinable(tokens: seq<Coin>, pool: Pool, d0: nat, d1: nat) {
    && Symmetric(pool)
    && Deposited(tokens, pool.assets[0].denom, d0) && Deposited(tokens, pool.assets[1].denom, d1)
    && pool.totalShares < 0x1_0000_0000_0000_0000_0000_0000_0000_0000
    && Computable(pool.assets[0].amount, pool.assets[1].amount, d0, d1, pool.totalShares)
  }

  ghost predicate Symmetric(pool: Pool) {
    |pool.weights| >= 2 && |pool.assets| >= 2 && pool.weights[0] == pool.weights[1]
  }

  /** When the second half goes through: a joinable and tolerated deposit. */
  ghost predicate JoinAccepted(tokens: seq<Coin>, maxSpread: Option<nat>, pool: Pool) {
    exists d0, d1 :: Joinable(tokens, pool, d0, d1)
                     && Tolerated(maxSpread, d0, d1, pool.assets[0].amount, pool.assets[1].amount)
  }

  /** The second half: deposits in pool order, the slippage check, the shares. */
  method ComputeJoin(tokens: seq<Coin>, maxSpread: Option<nat>, pool: Pool) returns (r: Result<Join, DexError>)
    ensures r.Ok? <==> JoinAccepted(tokens, maxSpread, pool)
    ensures r.Ok? ==> r.value.tokenInMaxs == tokens && FairJoin(r.value, pool, maxSpread)
    ensures r.Err? ==> !r.error.TooManyAssets? && !r.error.TooFewAssets?
    ensures r == Err(BalancerNotSupported) <==>
            |pool.weights| >= 2 && |pool.assets| >= 2 && pool.weights[0] != pool.weights[1]
  {
    if |pool.weights| < 2 || |pool.assets| < 2 {
      return Err(Panicked);
    }
    if pool.weights[0] != pool.weights[1] {
      return Err(BalancerNotSupported);
    }
    var d0, d1 := AmountOf(tokens, pool.assets[0].denom), AmountOf(tokens, pool.assets[1].denom);
    forall d: nat
      ensures d0 == Some(d) <==> Deposited(tokens, pool.assets[0].denom, d)
      ensures d1 == Some(d) <==> Deposited(tokens, pool.assets[1].denom, d)
    {
      AmountIff(tokens, pool.assets[0].denom, d);
      AmountIff(tokens, pool.assets[1].denom, d);
    }
    if d0.None? || d1.None? {
      return Err(Panicked);
    }
    var p0, p1 := pool.assets[0].amount, pool.assets[1].amount;
    SlippageIff(maxSpread, d0.value, d1.value, p0, p1);
    ShareOutIff(p0, p1, d0.value, d1.value, pool.totalShares);
    var slippage := AssertSlippage(maxSpread, d0.value, d1.value, p0, p1);
    if slippage.Err? {
      return Err(slippage.error);
    }
    var shares := ShareOut(p0, p1, d0.value, d1.value, pool.totalShares);
    if pool.totalShares >= U128_LIMIT || shares.None? {
      return Err(Panicked);
    }
    r := Ok(Join(shares.value, tokens));
    JoinIsFair(r.value, pool, maxSpread);
    assert Joinable(tokens, pool, d0.value, d1.value);
  }

  /** Some prepared tokens can be joined with at all. */
  ghost predicate CanJoin(offers: seq<Coin>, simulated: nat, pool: Pool) {
    exists tokens, d0, d1 :: Prepared(offers, simulated, tokens) && Joinable(tokens, pool, d0, d1)
  }

  /** Some prepared tokens can be joined with, and are within the tolerance exactly. */
  ghost predicate CanJoinWithin(offers: seq<Coin>, simulated: nat, pool: Pool, tolerance: nat)
    requires tolerance <= 1_000_000_000_000_000_000
  {
    exists tokens, d0, d1 ::
      && Prepared(offers, simulated, tokens) && Joinable(tokens, pool, d0, d1)
      && AllRatiosFit(d0, d1, pool.assets[0].amount, pool.assets[1].amount)
      && WithinExactly(tolerance, d0, d1, pool.assets[0].amount, pool.assets[1].amount)
  }

  /**
   `provide_liquidity` up to the join message; `simulated` is what the swap of half the offer is said to return. Without a
   tolerance every offer that can be joined with goes through. A tolerance above one is refused, and one up to one lets
   everything through that is within it exactly.
   */
  method ProvideLiquidity(offers: seq<Coin>, maxSpread: Option<nat>, pool: Pool, simulated: nat)
    returns (r: Result<Join, DexError>)
    ensures r == Err(TooManyAssets) <==> |offers| > 2
    ensures r == Err(TooFewAssets) <==> |offers| <= 2 && NothingOffered(offers)
    ensures r.Ok? <==> exists tokens :: Prepared(offers, simulated, tokens) && JoinAccepted(tokens, maxSpread, pool)
    ensures r.Ok? ==> Prepared(offers, simulated, r.value.tokenInMaxs) && FairJoin(r.value, pool, maxSpread)
    ensures maxSpread.None? ==> (r.Ok? <==> CanJoin(offers, simulated, pool))
    ensures maxSpread.Some? && maxSpread.value > 1_000_000_000_000_000_000 ==> r.Err?
    ensures maxSpread.Some? && maxSpread.value <= 1_000_000_000_000_000_000 ==>
              (CanJoinWithin(offers, simulated, pool, maxSpread.value) ==> r.Ok?)
  {
    var tokens := PrepareTokens(offers, simulated);
    forall other, another | Prepared(offers, simulated, other) && Prepared(offers, simulated, another)
      ensures other == another && |offers| <= 2 && !NothingOffered(offers)
    {
      PreparedUnique(offers, simulated, other, another);
    }
    if tokens.Err? {
      return Err(tokens.error);
    }
    r := ComputeJoin(tokens.value, maxSpread, pool);
    ToleranceCases(tokens.value, maxSpread, pool);
  }

  /** What the tolerance adds to a joinable deposit. */
  lemma ToleranceCases(tokens: seq<Coin>, maxSpread: Option<nat>, pool: Pool)
    ensures maxSpread.None? ==> (JoinAccepted(tokens, maxSpread, pool) <==> exists d0, d1 :: Joinable(tokens, pool, d0, d1))
    ensures maxSpread.Some? && maxSpread.value > 1_000_000_000_000_000_000 ==> !JoinAccepted(tokens, maxSpread, pool)
    ensures maxSpread.Some? && maxSpread.value <= 1_000_000_000_000_000_000 ==>
              forall d0, d1 ::
                && Joinable(tokens, pool, d0, d1)
                && AllRatiosFit(d0, d1, pool.assets[0].amount, pool.assets[1].amount)
                && WithinExactly(maxSpread.value, d0, d1, pool.assets[0].amount, pool.assets[1].amount) ==>
                  JoinAccepted(tokens, maxSpread, pool)
  {
    if maxSpread.None? {
      forall d0, d1 | Joinable(tokens, pool, d0, d1)
        ensures JoinAccepted(tokens, maxSpread, pool)
      {
        assert Tolerated(maxSpread, d0, d1, pool.assets[0].amount, pool.assets[1].amount);
      }
    } else if maxSpread.value <= 1_000_000_000_000_000_000 {
      forall d0, d1 | Joinable(tokens, pool, d0, d1)
                      && AllRatiosFit(d0, d1, pool.assets[0].amount, pool.assets[1].amount)
                      && WithinExactly(maxSpread.value, d0, d1, pool.assets[0].amount, pool.assets[1].amount)
        ensures JoinAccepted(tokens, maxSpread, pool)
      {
        WithinIsTolerated(maxSpread.value, d0, d1, pool.assets[0].amount, pool.assets[1].amount);
      }
    }
  }

  const BALANCED := Pool([Coin("a", 100), Coin("b", 100)], [1, 1], 100)

  /** Ten of each into a balanced pool of a hundred of each and a hundred shares: ten shares, with or without a tolerance. */
  lemma BalancedJoin(maxSpread: Option<nat>)
    requires maxSpread.Some? ==> maxSpread.value <= 1_000_000_000_000_000_000
    ensures JoinAccepted([Coin("a", 10), Coin("b", 10)], maxSpread, BALANCED)
    ensures ShareOut(100, 100, 10, 10, 100) == Some(10)
  {
    var tokens := [Coin("a", 10), Coin("b", 10)];
    assert "a"[0] != "b"[0];
    assert tokens[0] == Coin("a", 10) && Deposited(tokens, "a", 10);
    assert tokens[1] == Coin("b", 10) && Deposited(tokens, "b", 10);
    assert 10 * 100 / 100 == 10;
    assert Joinable(tokens, BALANCED, 10, 10);
    ToleranceCases(tokens, maxSpread, BALANCED);
  }
}
