/** Regeneration (x/mana/keeper/keeper.go): the machine computation, and the block-by-block ledger
    rule it has to agree with. */
module Regen {
  import opened Machine
  import opened Types
  import opened Rate

  /** What regeneration gives an account: an amount per block, up to a cap. */
  datatype Quota = Quota(perBlock: uint64, cap: uint64)

  function RateOf(p: Params, bank: Bank, owner: Addr): Result<uint64> {
    if bank.supply != 0 && bank.balance(owner) != 0
    then ComputeManaRate(bank.balance(owner), bank.supply, p.totalManaPool, p.manaRegenMultiplier)
    else Ok(0)
  }

  /** The cap that goes with a rate: at least the free floor. */
  function CapOf(rate: uint64): uint64 {
    if rate < MIN_MANA_FLOOR then MIN_MANA_FLOOR else rate
  }

  /** The divisor of the rate; the default guards against 0. */
  function BlocksPerYear(p: Params): uint64 {
    if p.blocksPerYear == 0 then DEFAULT_BLOCKS_PER_YEAR else p.blocksPerYear
  }

  function PerBlockOf(p: Params, rate: uint64): (perBlock: uint64)
    ensures perBlock >= 1000
  {
    var perBlock := rate / BlocksPerYear(p);
    var minPerBlock := MIN_MANA_FLOOR / MANA_REGEN_WINDOW_BLOCKS;
    if perBlock < minPerBlock then minPerBlock else perBlock
  }

  function QuotaOf(p: Params, bank: Bank, owner: Addr): Result<Quota> {
    match RateOf(p, bank, owner)
    case Err(e) => Err(e)
    case Ok(rate) => Ok(Quota(PerBlockOf(p, rate), CapOf(rate)))
  }

  /** min(current + perBlock * blocksElapsed, maxMana), although every operation is on 64 bits. */
  function AddManaSaturating(current: uint64, perBlock: uint64, blocksElapsed: uint64, maxMana: uint64): (r: uint64)
    ensures r == Min(current + Product(perBlock, blocksElapsed), maxMana)
  {
    if current >= maxMana then maxMana
    else
      var overflows := perBlock != 0 && blocksElapsed > MAX_UINT64 / perBlock;
      assert overflows <==> Product(perBlock, blocksElapsed) > MAX_UINT64 by {
        if perBlock != 0 {
          FloorLargest(MAX_UINT64, perBlock, blocksElapsed);
        }
      }
      var gained := if overflows then MAX_UINT64 else MulUint64(perBlock, blocksElapsed);
      if gained > maxMana - current then maxMana else current + gained
  }

  /** Brings a record up to the given height.  The owner is read back from the record's own Address
      string; a record from the future is returned as it is. */
  function RegenerateMana(cfg: Config, p: Params, bank: Bank, acct: AccountMana, height: int64): Result<AccountMana> {
    if height <= acct.lastUpdateHeight then Ok(acct)
    else
      var blocksElapsed := CastUint64(SubInt64(height, acct.lastUpdateHeight));
      if blocksElapsed == 0 then Ok(acct)
      else
        match cfg.decode(acct.address)
        case None => Err(InvalidAddress)
        case Some(owner) =>
          match QuotaOf(p, bank, owner)
          case Err(e) => Err(e)
          case Ok(q) =>
            Ok(acct.(mana := AddManaSaturating(acct.mana, q.perBlock, blocksElapsed, q.cap),
                     lastUpdateHeight := height))
  }

  /** One block of regeneration, over unbounded integers. */
  function Tick(q: Quota, mana: nat): nat {
    Min(mana + q.perBlock, q.cap)
  }

  /** n blocks of regeneration, one block at a time. */
  function Ticks(q: Quota, mana: nat, n: nat): nat {
    if n == 0 then mana else Tick(q, Ticks(q, mana, n - 1))
  }

  lemma {:induction false} TicksClosed(q: Quota, mana: nat, n: nat)
    ensures Ticks(q, mana, n) == if n == 0 then mana else Min(mana + Product(q.perBlock, n), q.cap)
  {
    if n > 0 {
      TicksClosed(q, mana, n - 1);
      assert Product(q.perBlock, n) == Product(q.perBlock, n - 1) + q.perBlock by {
        Distribute(n - 1, 1, q.perBlock);
      }
      assert Product(q.perBlock, 0) == 0;
    }
  }

  lemma {:induction false} TicksAdd(q: Quota, mana: nat, a: nat, b: nat)
    ensures Ticks(q, Ticks(q, mana, a), b) == Ticks(q, mana, a + b)
  {
    if b > 0 {
      TicksAdd(q, mana, a, b - 1);
    }
  }

  lemma {:induction false} TicksMonotone(q: Quota, m1: nat, m2: nat, n: nat)
    requires m1 <= m2
    ensures Ticks(q, m1, n) <= Ticks(q, m2, n)
  {
    if n > 0 {
      TicksMonotone(q, m1, m2, n - 1);
    }
  }

  /** The machine regeneration is exact for every pair of heights: one saturating 64-bit step gives
      what adding one block at a time gives over unbounded integers. */
  lemma RegenerateExact(cfg: Config, p: Params, bank: Bank, acct: AccountMana, height: int64)
    requires acct.lastUpdateHeight <= height
    requires cfg.decode(acct.address).Some?
    requires QuotaOf(p, bank, cfg.decode(acct.address).value).Ok?
    ensures var q := QuotaOf(p, bank, cfg.decode(acct.address).value).value;
            var n := height - acct.lastUpdateHeight;
            && Ticks(q, acct.mana, n) < TWO_64
            && RegenerateMana(cfg, p, bank, acct, height)
               == Ok(acct.(mana := Ticks(q, acct.mana, n), lastUpdateHeight := height))
  {
    if acct.lastUpdateHeight < height {
      WrappedDifference(height, acct.lastUpdateHeight);
      var q := QuotaOf(p, bank, cfg.decode(acct.address).value).value;
      TicksClosed(q, acct.mana, height - acct.lastUpdateHeight);
      assert Ticks(q, acct.mana, height - acct.lastUpdateHeight)
          == AddManaSaturating(acct.mana, q.perBlock, height - acct.lastUpdateHeight, q.cap);
    }
  }

  lemma RegenerateFails(cfg: Config, p: Params, bank: Bank, acct: AccountMana, height: int64)
    requires acct.lastUpdateHeight < height
    requires cfg.decode(acct.address).Some?
    requires QuotaOf(p, bank, cfg.decode(acct.address).value).Err?
    ensures RegenerateMana(cfg, p, bank, acct, height)
            == Err(QuotaOf(p, bank, cfg.decode(acct.address).value).error)
  {
    WrappedDifference(height, acct.lastUpdateHeight);
  }

  /** Regenerating at an intermediate height and again later is regenerating once. */
  lemma RegenerateTwice(cfg: Config, p: Params, bank: Bank, acct: AccountMana, h1: int64, h2: int64)
    requires acct.lastUpdateHeight <= h1 <= h2
    requires cfg.decode(acct.address).Some?
    requires QuotaOf(p, bank, cfg.decode(acct.address).value).Ok?
    ensures RegenerateMana(cfg, p, bank, acct, h1).Ok?
    ensures RegenerateMana(cfg, p, bank, RegenerateMana(cfg, p, bank, acct, h1).value, h2)
            == RegenerateMana(cfg, p, bank, acct, h2)
  {
    RegenerateExact(cfg, p, bank, acct, h1);
    RegenerateExact(cfg, p, bank, acct, h2);
    RegenerateExact(cfg, p, bank, RegenerateMana(cfg, p, bank, acct, h1).value, h2);
    TicksAdd(QuotaOf(p, bank, cfg.decode(acct.address).value).value, acct.mana,
             h1 - acct.lastUpdateHeight, h2 - h1);
  }

  /** Block-by-block regeneration when every block has its own quota. */
  function TicksOver(qs: seq<Quota>, mana: nat): nat {
    if qs == [] then mana else Tick(qs[|qs| - 1], TicksOver(qs[..|qs| - 1], mana))
  }

  lemma {:induction false} DominatedFromAbove(qs: seq<Quota>, top: Quota, mana: nat)
    requires forall i | 0 <= i < |qs| :: qs[i].perBlock <= top.perBlock && qs[i].cap <= top.cap
    ensures TicksOver(qs, mana) <= Ticks(top, mana, |qs|)
  {
    if qs != [] {
      DominatedFromAbove(qs[..|qs| - 1], top, mana);
    }
  }

  lemma {:induction false} DominatedFromBelow(qs: seq<Quota>, bottom: Quota, mana: nat)
    requires forall i | 0 <= i < |qs| :: bottom.perBlock <= qs[i].perBlock && bottom.cap <= qs[i].cap
    ensures Ticks(bottom, mana, |qs|) <= TicksOver(qs, mana)
  {
    if qs != [] {
      DominatedFromBelow(qs[..|qs| - 1], bottom, mana);
    }
  }

  /** The quotas an account has in each block of a stretch of banks. */
  ghost predicate QuotasAlong(p: Params, banks: seq<Bank>, owner: Addr, qs: seq<Quota>) {
    && |qs| == |banks|
    && forall i | 0 <= i < |qs| :: QuotaOf(p, banks[i], owner) == Ok(qs[i])
  }

  /** Lazy regeneration uses only the bank of the closing block.  If that block's quota dominates
      every block since the last touch, the account gets at least what true block-by-block
      regeneration would give; if it is dominated by all of them, at most that. */
  lemma LazyBrackets(cfg: Config, p: Params, banks: seq<Bank>, acct: AccountMana, height: int64,
                     owner: Addr, qs: seq<Quota>)
    requires acct.lastUpdateHeight < height
    requires cfg.decode(acct.address) == Some(owner)
    requires |banks| == height - acct.lastUpdateHeight
    requires QuotasAlong(p, banks, owner, qs)
    ensures RegenerateMana(cfg, p, banks[|banks| - 1], acct, height).Ok?
    ensures var lazy := RegenerateMana(cfg, p, banks[|banks| - 1], acct, height).value.mana;
            var closing := qs[|qs| - 1];
            && ((forall i | 0 <= i < |qs| :: qs[i].perBlock <= closing.perBlock && qs[i].cap <= closing.cap)
                ==> TicksOver(qs, acct.mana) <= lazy)
            && ((forall i | 0 <= i < |qs| :: closing.perBlock <= qs[i].perBlock && closing.cap <= qs[i].cap)
                ==> lazy <= TicksOver(qs, acct.mana))
  {
    var closing := qs[|qs| - 1];
    RegenerateExact(cfg, p, banks[|banks| - 1], acct, height);
    if forall i | 0 <= i < |qs| :: qs[i].perBlock <= closing.perBlock && qs[i].cap <= closing.cap {
      DominatedFromAbove(qs, closing, acct.mana);
    }
    if forall i | 0 <= i < |qs| :: closing.perBlock <= qs[i].perBlock && closing.cap <= qs[i].cap {
      DominatedFromBelow(qs, closing, acct.mana);
    }
  }

  function BalancesOf(bank: Bank, holders: seq<Addr>): (balances: seq<nat>)
    ensures |balances| == |holders|
  {
    if holders == [] then [] else [bank.balance(holders[0])] + BalancesOf(bank, holders[1..])
  }

  /** The caps of a group of holders; one whose rate cannot be computed has none. */
  function SumCaps(p: Params, bank: Bank, holders: seq<Addr>): nat {
    if holders == [] then 0
    else
      var q := QuotaOf(p, bank, holders[0]);
      (if q.Ok? then q.value.cap else 0) + SumCaps(p, bank, holders[1..])
  }

  lemma {:induction false} CapsAboveRates(p: Params, bank: Bank, holders: seq<Addr>)
    requires bank.supply > 0
    ensures SumCaps(p, bank, holders)
            <= SumRates(BalancesOf(bank, holders), bank.supply, p.totalManaPool, p.manaRegenMultiplier)
               + |holders| * MIN_MANA_FLOOR
  {
    if holders != [] {
      CapsAboveRates(p, bank, holders[1..]);
      var bs := BalancesOf(bank, holders);
      assert bs[1..] == BalancesOf(bank, holders[1..]);
    }
  }

  /** All mana that a group of holders can hold at once after regeneration: the pool plus the free floors. */
  lemma NetworkCaps(p: Params, bank: Bank, holders: seq<Addr>)
    requires bank.supply > 0 && Sum(BalancesOf(bank, holders)) <= bank.supply
    ensures SumCaps(p, bank, holders)
            <= Product(p.totalManaPool, Multiplier(p.manaRegenMultiplier)) + |holders| * MIN_MANA_FLOOR
  {
    CapsAboveRates(p, bank, holders);
    NetworkPool(BalancesOf(bank, holders), bank.supply, p.totalManaPool, p.manaRegenMultiplier);
  }

  /** What an account gains per block; one whose rate cannot be computed gains nothing. */
  function GainOf(p: Params, bank: Bank, owner: Addr): nat {
    var q := QuotaOf(p, bank, owner);
    if q.Ok? then q.value.perBlock else 0
  }

  function SumGains(p: Params, bank: Bank, holders: seq<Addr>): nat {
    if holders == [] then 0 else GainOf(p, bank, holders[0]) + SumGains(p, bank, holders[1..])
  }

  /** A yearly amount, spread over the year's blocks: the parameter, or 31,557,600 where it is 0. */
  function Spread(p: Params, yearly: nat): nat {
    if p.blocksPerYear > 0 then yearly / p.blocksPerYear else yearly / 31_557_600
  }

  /** What the pool gives per block. */
  function PoolGain(p: Params): nat {
    Spread(p, Product(p.totalManaPool, Multiplier(p.manaRegenMultiplier)))
  }

  /** The gain per block of a whole network of n holders: the pool's, and the free 1000 of each holder. */
  function NetworkGain(p: Params, n: nat): nat {
    PoolGain(p) + 1000 * n
  }

  lemma FloorsAdd(x: nat, y: nat, n: nat)
    requires n > 0
    ensures x / n + y / n <= (x + y) / n
  {
    FloorBounds(x, n);
    FloorBounds(y, n);
    assert n * (x / n + y / n) == n * (x / n) + n * (y / n);
    FloorLargest(x + y, n, x / n + y / n);
  }

  lemma GainAboveRate(p: Params, bank: Bank, owner: Addr)
    requires bank.supply > 0
    ensures GainOf(p, bank, owner)
            <= RateOrZero(p, bank, bank.balance(owner)) / BlocksPerYear(p) + 1000
  {
  }

  function RateOrZero(p: Params, bank: Bank, balance: nat): nat {
    var r := ComputeManaRate(balance, bank.supply, p.totalManaPool, p.manaRegenMultiplier);
    if r.Ok? then r.value else 0
  }

  lemma {:induction false} GainsAboveRates(p: Params, bank: Bank, holders: seq<Addr>)
    requires bank.supply > 0
    ensures SumGains(p, bank, holders)
            <= SumRates(BalancesOf(bank, holders), bank.supply, p.totalManaPool, p.manaRegenMultiplier)
               / BlocksPerYear(p) + 1000 * |holders|
  {
    if holders != [] {
      var bs := BalancesOf(bank, holders);
      var first := RateOrZero(p, bank, bs[0]);
      var others := SumRates(bs[1..], bank.supply, p.totalManaPool, p.manaRegenMultiplier);
      assert bs[1..] == BalancesOf(bank, holders[1..]);
      assert SumRates(bs, bank.supply, p.totalManaPool, p.manaRegenMultiplier) == first + others;
      GainsAboveRates(p, bank, holders[1..]);
      GainAboveRate(p, bank, holders[0]);
      FloorsAdd(first, others, BlocksPerYear(p));
    }
  }

  /** However the supply is distributed, the holders together gain no more than the network's gain. */
  lemma NetworkGains(p: Params, bank: Bank, holders: seq<Addr>)
    requires bank.supply > 0 && Sum(BalancesOf(bank, holders)) <= bank.supply
    ensures SumGains(p, bank, holders) <= NetworkGain(p, |holders|)
  {
    var rates := SumRates(BalancesOf(bank, holders), bank.supply, p.totalManaPool, p.manaRegenMultiplier);
    GainsAboveRates(p, bank, holders);
    NetworkPool(BalancesOf(bank, holders), bank.supply, p.totalManaPool, p.manaRegenMultiplier);
    FloorBounds(rates, BlocksPerYear(p));
    FloorLargest(Product(p.totalManaPool, Multiplier(p.manaRegenMultiplier)), BlocksPerYear(p),
                 rates / BlocksPerYear(p));
  }

  /** Every account's quota in plain numbers, or the error that it has instead: the floored share times the
      multiplier, spread over the blocks of a year, with the free 1000 per block and the free 1,000,000. */
  lemma QuotaExact(p: Params, bank: Bank, owner: Addr)
    ensures var m: nat := if p.manaRegenMultiplier == 0 then 1 else p.manaRegenMultiplier;
            var blocks: nat := if p.blocksPerYear == 0 then 31_557_600 else p.blocksPerYear;
            var stake := bank.balance(owner) * p.totalManaPool;
            var rate := if bank.supply == 0 then 0 else stake / bank.supply * m;
            QuotaOf(p, bank, owner) ==
              if bank.supply > 0 && (stake >= TWO_256 || rate >= TWO_256) then Err(IntOverflow)
              else if rate >= TWO_64 then Err(InsufficientBandwidth)
              else Ok(Quota(Max(1000, rate / blocks), Max(1_000_000, rate)))
  {
    RateExact(bank.balance(owner), bank.supply, p.totalManaPool, p.manaRegenMultiplier);
    if bank.supply > 0 && bank.balance(owner) == 0 {
      assert Product(0, p.totalManaPool) == 0;
      assert Share(0, bank.supply, p.totalManaPool) == 0;
    }
  }

  /** Who has what quota, as a threshold on the balance.  A gain of k above the free 1000 per block, or
      a cap of k above the free floor, takes exactly a balance whose product with the pool is at least
      the supply times ceil(k * blocksPerYear / multiplier), or ceil(k / multiplier). */
  lemma QuotaThreshold(p: Params, bank: Bank, owner: Addr, k: nat)
    requires QuotaOf(p, bank, owner).Ok?
    ensures var q := QuotaOf(p, bank, owner).value;
            var stake := Product(bank.balance(owner), p.totalManaPool);
            var m: nat := if p.manaRegenMultiplier == 0 then 1 else p.manaRegenMultiplier;
            var blocks: nat := if p.blocksPerYear == 0 then 31_557_600 else p.blocksPerYear;
            && (k <= q.perBlock <==>
                k <= 1000 || (bank.supply > 0 && stake >= Product(bank.supply, CeilDiv(Product(k, blocks), m))))
            && (k <= q.cap <==>
                k <= 1_000_000 || (bank.supply > 0 && stake >= Product(bank.supply, CeilDiv(k, m))))
  {
    var rate := RateOf(p, bank, owner).value;
    RateExact(bank.balance(owner), bank.supply, p.totalManaPool, p.manaRegenMultiplier);
    if k > 0 {
      RateThreshold(bank.balance(owner), bank.supply, p.totalManaPool, p.manaRegenMultiplier, k);
      GainThreshold(p, bank, owner, rate, k);
    }
  }

  /** The gain's half, where the rate is the ideal one. */
  lemma GainThreshold(p: Params, bank: Bank, owner: Addr, rate: nat, k: nat)
    requires k > 0 && rate == IdealRate(bank.balance(owner), bank.supply, p.totalManaPool, p.manaRegenMultiplier)
    ensures var m: nat := if p.manaRegenMultiplier == 0 then 1 else p.manaRegenMultiplier;
            var blocks: nat := if p.blocksPerYear == 0 then 31_557_600 else p.blocksPerYear;
            k <= rate / BlocksPerYear(p) <==>
              && bank.supply > 0
              && Product(bank.balance(owner), p.totalManaPool)
                 >= Product(bank.supply, CeilDiv(Product(k, blocks), m))
  {
    MulMonotone(1, k, BlocksPerYear(p));
    FloorLargest(rate, BlocksPerYear(p), k);
    RateThreshold(bank.balance(owner), bank.supply, p.totalManaPool, p.manaRegenMultiplier,
                  Product(k, BlocksPerYear(p)));
  }

  // ---------------------------------------------------------------------------
  // The largest gain
  // ---------------------------------------------------------------------------

  /** The largest share of the pool whose rate is no error: the whole pool, if its rate fits 64 bits. */
  function TopShare(p: Params): nat {
    Min(p.totalManaPool, MAX_UINT64 / Multiplier(p.manaRegenMultiplier))
  }

  /** The largest rate that any balance can have. */
  function TopRate(p: Params): nat {
    Product(TopShare(p), Multiplier(p.manaRegenMultiplier))
  }

  function TopGain(p: Params): nat {
    Spread(p, TopRate(p))
  }

  /** The pool's gain and the top gain in plain numbers. */
  lemma GainsInNumbers(p: Params)
    requires p.blocksPerYear > 0
    ensures var m: nat := if p.manaRegenMultiplier == 0 then 1 else p.manaRegenMultiplier;
            && PoolGain(p) == p.totalManaPool * m / p.blocksPerYear
            && TopGain(p) == Min(p.totalManaPool, (TWO_64 - 1) / m) * m / p.blocksPerYear
  {
  }

  lemma TopRateFits(p: Params)
    ensures TopRate(p) < TWO_64
    ensures TopRate(p) <= Product(p.totalManaPool, Multiplier(p.manaRegenMultiplier))
    ensures Product(p.totalManaPool, Multiplier(p.manaRegenMultiplier)) < TWO_64
            ==> TopRate(p) == Product(p.totalManaPool, Multiplier(p.manaRegenMultiplier))
  {
    var m := Multiplier(p.manaRegenMultiplier);
    FloorLargest(MAX_UINT64, m, TopShare(p));
    FloorLargest(MAX_UINT64, m, p.totalManaPool);
    MulMonotone(TopShare(p), p.totalManaPool, m);
  }

  lemma GainAtMostTop(p: Params, bank: Bank, owner: Addr)
    requires bank.balance(owner) <= bank.supply
    requires QuotaOf(p, bank, owner).Ok?
    ensures QuotaOf(p, bank, owner).value.perBlock <= Max(1000, TopGain(p))
  {
    var balance, rate := bank.balance(owner), RateOf(p, bank, owner).value;
    if bank.supply > 0 {
      var m, share := Multiplier(p.manaRegenMultiplier), Share(balance, bank.supply, p.totalManaPool);
      RateExact(balance, bank.supply, p.totalManaPool, p.manaRegenMultiplier);
      ShareMonotone(balance, bank.supply, bank.supply, p.totalManaPool);
      ShareOfSupply(bank.supply, p.totalManaPool);
      FloorLargest(MAX_UINT64, m, share);
      MulMonotone(share, TopShare(p), m);
      FloorMonotone(rate, TopRate(p), BlocksPerYear(p));
    }
  }

  lemma FloorMonotone(x: nat, y: nat, n: nat)
    requires n > 0 && x <= y
    ensures x / n <= y / n
  {
    FloorBounds(x, n);
    FloorLargest(y, n, x / n);
  }

  /** Where the supply is as large as the pool, the owner of the top share has the top rate. */
  lemma TopGainReached(p: Params, bank: Bank, owner: Addr)
    requires p.totalManaPool > 0 && bank.supply == p.totalManaPool
    requires bank.balance(owner) == TopShare(p)
    ensures QuotaOf(p, bank, owner).Ok?
    ensures QuotaOf(p, bank, owner).value.perBlock == Max(1000, TopGain(p))
    ensures QuotaOf(p, bank, owner).value.cap >= QuotaOf(p, bank, owner).value.perBlock
  {
    var pool, m, balance := p.totalManaPool, Multiplier(p.manaRegenMultiplier), bank.balance(owner);
    ShareOfAll(balance, pool);
    TopRateFits(p);
    FloorLargest(MAX_UINT64, m, 1);
    MulMonotone(balance, TWO_64, pool);
    RateExact(balance, pool, pool, p.manaRegenMultiplier);
    assert RateOf(p, bank, owner) == Ok(TopRate(p));
    FloorAtMost(TopRate(p), BlocksPerYear(p));
  }

  /** Where the supply is as large as the pool, a share is the balance. */
  lemma ShareOfAll(balance: nat, pool: nat)
    requires pool > 0
    ensures Share(balance, pool, pool) == balance
  {
    FloorLargest(Product(balance, pool), pool, balance);
    FloorLargest(Product(balance, pool), pool, balance + 1);
    Distribute(balance, 1, pool);
  }

  lemma FloorAtMost(x: nat, n: nat)
    requires n > 0
    ensures x / n <= x
  {
    FloorBounds(x, n);
    MulMonotone(1, n, x / n);
  }

  /** Under the default parameters nobody regenerates faster than the floor: every holder of at most
      the supply gains exactly 1000 per block, whatever the balance. */
  lemma DefaultGainIsFloor(bank: Bank, owner: Addr)
    requires bank.balance(owner) <= bank.supply
    requires Product(bank.supply, DEFAULT_TOTAL_MANA_POOL) < TWO_256
    ensures QuotaOf(DEFAULT_PARAMS, bank, owner).Ok?
    ensures QuotaOf(DEFAULT_PARAMS, bank, owner).value.perBlock == 1000
    ensures MIN_MANA_FLOOR <= QuotaOf(DEFAULT_PARAMS, bank, owner).value.cap <= DEFAULT_TOTAL_MANA_POOL
  {
    RateNeverFails(bank.balance(owner), bank.supply, DEFAULT_TOTAL_MANA_POOL, DEFAULT_MANA_REGEN_MULTIPLIER);
    FloorLargest(RateOf(DEFAULT_PARAMS, bank, owner).value, DEFAULT_BLOCKS_PER_YEAR, 1001);
  }
}
