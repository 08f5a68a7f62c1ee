/** The balance-proportional rate of x/mana/keeper/rate.go and what it means for the network as a whole. */
module Rate {
  import opened Machine
  import opened Types

  /** The product of two non-negative amounts. */
  function Product(x: nat, y: nat): nat {
    x * y
  }

  /** floor(balance * pool / supply), over unbounded integers. */
  function Share(balance: nat, supply: nat, pool: nat): nat
    requires supply > 0
  {
    Product(balance, pool) / supply
  }

  /** rate = floor(balance * pool / supply) * multiplier, where multiplier 0 means "none". */
  function ComputeManaRate(balance: nat, supply: nat, pool: uint64, multiplier: uint64): Result<uint64> {
    if supply == 0 || balance == 0 || pool == 0 then Ok(0)
    else if Product(balance, pool) >= TWO_256 then Err(IntOverflow)
    else
      var share := Share(balance, supply, pool);
      var rate := if multiplier > 0 then Product(share, multiplier) else share;
      if rate >= TWO_256 then Err(IntOverflow)
      else if rate >= TWO_64 then Err(InsufficientBandwidth)
      else Ok(rate)
  }

  function Multiplier(multiplier: uint64): nat {
    Max(1, multiplier)
  }

  /** The rate over unbounded integers; without a supply there is none. */
  function IdealRate(balance: nat, supply: nat, pool: nat, multiplier: uint64): nat {
    if supply == 0 then 0 else Product(Share(balance, supply, pool), Multiplier(multiplier))
  }

  /** Exactly what the machine computation answers: the ideal rate if it fits 64 bits and no
      intermediate exceeds 256 bits, and otherwise the error of the first bound that is broken. */
  lemma RateExact(balance: nat, supply: nat, pool: uint64, multiplier: uint64)
    ensures var ideal := IdealRate(balance, supply, pool, multiplier);
            ComputeManaRate(balance, supply, pool, multiplier) ==
              if supply > 0 && (Product(balance, pool) >= TWO_256 || ideal >= TWO_256) then Err(IntOverflow)
              else if ideal >= TWO_64 then Err(InsufficientBandwidth)
              else Ok(ideal)
  {
    if supply > 0 {
      if balance == 0 || pool == 0 {
        assert Product(balance, pool) == 0;
        assert Share(balance, supply, pool) == 0;
      }
      FloorLargest(Product(balance, pool), supply, TWO_256);
    }
  }

  lemma FloorBounds(x: nat, n: nat)
    requires n > 0
    ensures n * (x / n) <= x < n * (x / n) + n
  {
  }

  /** floor is the largest integer q with n * q <= x. */
  lemma FloorLargest(x: nat, n: nat, q: int)
    requires n > 0
    ensures q <= x / n <==> n * q <= x
  {
    FloorBounds(x, n);
    var f := x / n;
    if q <= f {
      assert n * q <= n * f;
    } else {
      assert n * q >= n * (f + 1) == n * f + n;
    }
  }

  lemma ShareMonotone(b1: nat, b2: nat, supply: nat, pool: nat)
    requires supply > 0 && b1 <= b2
    ensures Share(b1, supply, pool) <= Share(b2, supply, pool)
  {
    assert b1 * pool <= b2 * pool;
    FloorBounds(b1 * pool, supply);
    FloorLargest(b2 * pool, supply, Share(b1, supply, pool));
  }

  lemma ShareAntitone(b: nat, s1: nat, s2: nat, pool: nat)
    requires 0 < s1 <= s2
    ensures Share(b, s2, pool) <= Share(b, s1, pool)
  {
    var f := Share(b, s2, pool);
    assert b * pool >= 0;
    FloorBounds(b * pool, s2);
    assert s1 * f <= s2 * f;
    FloorLargest(b * pool, s1, f);
  }

  /** Merging two balances loses nothing and gains at most one unit. */
  lemma ShareMerge(b1: nat, b2: nat, supply: nat, pool: nat)
    requires supply > 0
    ensures Share(b1, supply, pool) + Share(b2, supply, pool) <= Share(b1 + b2, supply, pool)
    ensures Share(b1 + b2, supply, pool) <= Share(b1, supply, pool) + Share(b2, supply, pool) + 1
  {
    var f1, f2 := Share(b1, supply, pool), Share(b2, supply, pool);
    assert b1 * pool >= 0 && b2 * pool >= 0;
    assert (b1 + b2) * pool == b1 * pool + b2 * pool;
    FloorBounds(b1 * pool, supply);
    FloorBounds(b2 * pool, supply);
    assert supply * (f1 + f2) == supply * f1 + supply * f2;
    assert supply * (f1 + f2 + 2) == supply * f1 + supply + supply * f2 + supply;
    FloorLargest((b1 + b2) * pool, supply, f1 + f2);
    FloorLargest((b1 + b2) * pool, supply, f1 + f2 + 2);
  }

  lemma ShareOfSupply(supply: nat, pool: nat)
    requires supply > 0
    ensures Share(supply, supply, pool) == pool
  {
    FloorLargest(supply * pool, supply, pool);
    FloorLargest(supply * pool, supply, pool + 1);
    assert supply * (pool + 1) == supply * pool + supply;
  }

  /** A larger balance, or a smaller supply, never lowers the rate; if the larger rate can be
      computed, so can the smaller one. */
  lemma RateShape(b1: nat, b2: nat, s1: nat, s2: nat, pool: uint64, multiplier: uint64)
    requires b1 <= b2 && 0 < s2 <= s1
    requires ComputeManaRate(b2, s2, pool, multiplier).Ok?
    ensures ComputeManaRate(b1, s1, pool, multiplier).Ok?
    ensures ComputeManaRate(b1, s1, pool, multiplier).value <= ComputeManaRate(b2, s2, pool, multiplier).value
  {
    RateExact(b1, s1, pool, multiplier);
    RateExact(b2, s2, pool, multiplier);
    ShareMonotone(b1, b2, s1, pool);
    ShareAntitone(b2, s2, s1, pool);
    ProductMonotone(b1, b2, pool);
    ProductMonotone(Share(b1, s1, pool), Share(b2, s2, pool), Multiplier(multiplier));
  }

  /** Splitting a wallet in two never raises its balance-proportional rate, and lowers it by at most
      one multiplier. */
  lemma RateMerge(b1: nat, b2: nat, supply: nat, pool: uint64, multiplier: uint64)
    requires supply > 0
    requires ComputeManaRate(b1 + b2, supply, pool, multiplier).Ok?
    ensures ComputeManaRate(b1, supply, pool, multiplier).Ok?
    ensures ComputeManaRate(b2, supply, pool, multiplier).Ok?
    ensures var r1 := ComputeManaRate(b1, supply, pool, multiplier).value;
            var r2 := ComputeManaRate(b2, supply, pool, multiplier).value;
            var r := ComputeManaRate(b1 + b2, supply, pool, multiplier).value;
            r1 + r2 <= r <= r1 + r2 + Multiplier(multiplier)
  {
    RateShape(b1, b1 + b2, supply, supply, pool, multiplier);
    RateShape(b2, b1 + b2, supply, supply, pool, multiplier);
    RateExact(b1, supply, pool, multiplier);
    RateExact(b2, supply, pool, multiplier);
    RateExact(b1 + b2, supply, pool, multiplier);
    ShareMerge(b1, b2, supply, pool);
    var f1, f2, f := Share(b1, supply, pool), Share(b2, supply, pool), Share(b1 + b2, supply, pool);
    var m := Multiplier(multiplier);
    MulMonotone(f1 + f2, f, m);
    MulMonotone(f, f1 + f2 + 1, m);
    Distribute(f1, f2, m);
    Distribute(f1 + f2, 1, m);
  }

  lemma Distribute(x: int, y: int, m: int)
    ensures (x + y) * m == x * m + y * m
  {
  }

  lemma ProductMonotone(x: nat, y: nat, m: nat)
    requires x <= y
    ensures Product(x, m) <= Product(y, m)
  {
    MulMonotone(x, y, m);
  }

  lemma MulMonotone(x: int, y: int, m: nat)
    requires x <= y
    ensures x * m <= y * m
  {
  }

  /** As long as pool * multiplier fits 64 bits, no holder of at most the supply can make the
      computation fail. */
  lemma RateNeverFails(balance: nat, supply: nat, pool: uint64, multiplier: uint64)
    requires balance <= supply
    requires Product(supply, pool) < TWO_256
    requires Product(pool, Multiplier(multiplier)) < TWO_64
    ensures ComputeManaRate(balance, supply, pool, multiplier).Ok?
    ensures ComputeManaRate(balance, supply, pool, multiplier).value <= Product(pool, Multiplier(multiplier))
  {
    if supply > 0 {
      ShareMonotone(balance, supply, supply, pool);
      ShareOfSupply(supply, pool);
      MulMonotone(balance, supply, pool);
      MulMonotone(Share(balance, supply, pool), pool, Multiplier(multiplier));
      RateExact(balance, supply, pool, multiplier);
    }
  }

  function Sum(xs: seq<nat>): nat {
    if xs == [] then 0 else xs[0] + Sum(xs[1..])
  }

  /** The rates of a set of holders; a holder whose rate cannot be computed counts 0. */
  function SumRates(balances: seq<nat>, supply: nat, pool: uint64, multiplier: uint64): nat {
    if balances == [] then 0
    else
      var r := ComputeManaRate(balances[0], supply, pool, multiplier);
      (if r.Ok? then r.value else 0) + SumRates(balances[1..], supply, pool, multiplier)
  }

  /** Floors add up to at most the floor of the sum. */
  lemma {:induction false} SumRatesAtMost(balances: seq<nat>, supply: nat, pool: uint64, multiplier: uint64)
    requires supply > 0
    ensures SumRates(balances, supply, pool, multiplier)
            <= Share(Sum(balances), supply, pool) * Multiplier(multiplier)
  {
    if balances == [] {
      assert Share(0, supply, pool) >= 0;
      MulMonotone(0, Share(0, supply, pool), Multiplier(multiplier));
    } else {
      var b, rest, m := balances[0], Sum(balances[1..]), Multiplier(multiplier);
      SumRatesAtMost(balances[1..], supply, pool, multiplier);
      RateExact(b, supply, pool, multiplier);
      ShareMerge(b, rest, supply, pool);
      MulMonotone(0, Share(b, supply, pool), m);
      MulMonotone(Share(b, supply, pool) + Share(rest, supply, pool), Share(b + rest, supply, pool), m);
      Distribute(Share(b, supply, pool), Share(rest, supply, pool), m);
    }
  }

  /** Each further holder loses at most one unit to rounding. */
  lemma {:induction false} SumRatesAtLeast(balances: seq<nat>, supply: nat, pool: uint64, multiplier: uint64)
    requires supply > 0 && balances != []
    requires forall i | 0 <= i < |balances| :: ComputeManaRate(balances[i], supply, pool, multiplier).Ok?
    ensures SumRates(balances, supply, pool, multiplier)
            >= (Share(Sum(balances), supply, pool) - (|balances| - 1)) * Multiplier(multiplier)
  {
    var b, m := balances[0], Multiplier(multiplier);
    RateExact(b, supply, pool, multiplier);
    if |balances| == 1 {
      assert Sum(balances[1..]) == 0;
    } else {
      var rest, n := Sum(balances[1..]), |balances| - 1;
      SumRatesAtLeast(balances[1..], supply, pool, multiplier);
      ShareMerge(b, rest, supply, pool);
      var fb, fr, f := Share(b, supply, pool), Share(rest, supply, pool), Share(b + rest, supply, pool);
      MulMonotone(f - n, fb + (fr - (n - 1)), m);
      Distribute(fb, fr - (n - 1), m);
    }
  }

  lemma {:induction false} MemberAtMostSum(xs: seq<nat>, i: nat)
    requires i < |xs|
    ensures xs[i] <= Sum(xs)
  {
    if i > 0 {
      MemberAtMostSum(xs[1..], i - 1);
    }
  }

  /** The network theorem.  Holders that together own at most the supply share at most the pool
      (times the multiplier), and holders that own all of it share the pool up to one unit per
      further holder. */
  lemma NetworkPool(balances: seq<nat>, supply: nat, pool: uint64, multiplier: uint64)
    requires supply > 0 && Sum(balances) <= supply
    ensures SumRates(balances, supply, pool, multiplier) <= Product(pool, Multiplier(multiplier))
    ensures balances != [] && Sum(balances) == supply
            && Product(supply, pool) < TWO_256 && Product(pool, Multiplier(multiplier)) < TWO_64
            ==> SumRates(balances, supply, pool, multiplier)
                >= (pool - (|balances| - 1)) * Multiplier(multiplier)
  {
    SumRatesAtMost(balances, supply, pool, multiplier);
    ShareMonotone(Sum(balances), supply, supply, pool);
    ShareOfSupply(supply, pool);
    MulMonotone(Share(Sum(balances), supply, pool), pool, Multiplier(multiplier));
    if balances != [] && Sum(balances) == supply
       && Product(supply, pool) < TWO_256 && Product(pool, Multiplier(multiplier)) < TWO_64 {
      forall i | 0 <= i < |balances|
        ensures ComputeManaRate(balances[i], supply, pool, multiplier).Ok?
      {
        MemberAtMostSum(balances, i);
        RateNeverFails(balances[i], supply, pool, multiplier);
      }
      SumRatesAtLeast(balances, supply, pool, multiplier);
    }
  }

  // ---------------------------------------------------------------------------
  // Thresholds
  // ---------------------------------------------------------------------------

  function CeilDiv(x: nat, n: nat): nat
    requires n > 0
  {
    (x + n - 1) / n
  }

  /** ceil is the smallest integer q with x <= n * q. */
  lemma CeilDivLeast(x: nat, n: nat, q: nat)
    requires n > 0
    ensures CeilDiv(x, n) <= q <==> x <= n * q
  {
    FloorLargest(x + n - 1, n, q + 1);
    assert n * (q + 1) == n * q + n;
  }

  /** The balance that a rate takes: an ideal rate of k > 0 is reached exactly from the balance on whose
      product with the pool is the supply times ceil(k / multiplier). */
  lemma RateThreshold(balance: nat, supply: nat, pool: nat, multiplier: uint64, k: nat)
    requires k > 0
    ensures k <= IdealRate(balance, supply, pool, multiplier)
            <==> supply > 0 && Product(balance, pool) >= Product(supply, CeilDiv(k, Multiplier(multiplier)))
  {
    if supply > 0 {
      CeilDivLeast(k, Multiplier(multiplier), Share(balance, supply, pool));
      FloorLargest(Product(balance, pool), supply, CeilDiv(k, Multiplier(multiplier)));
    }
  }
}
