/** What becomes of mana above the cap, such as the bonus that the shipped genesis file gives to two
    treasury accounts (500,000,000 mana at height 0). */
module Headroom {
  import opened Machine
  import opened Types
  import opened Rate
  import opened Regen
  import opened Ledger
  import opened Query

  /** Reading a record never shows less than it stores exactly if there is nothing to regenerate yet or
      the stored mana is within the cap; otherwise the excess is gone. */
  lemma KeptIffWithinCap(st: State, ctx: Ctx, a: Addr)
    requires WellFormed(st) && ValidAddr(a)
    requires QuotaOf(GetParams(st), ctx.bank, a).Ok?
    ensures GetAccountMana(st, ctx, a).Ok?
    ensures var r, q := LoadAccountMana(st, a), QuotaOf(GetParams(st), ctx.bank, a).value;
            var mana := GetAccountMana(st, ctx, a).value.mana;
            && (mana >= r.mana <==> ctx.height <= r.lastUpdateHeight || r.mana <= q.cap)
            && (r.lastUpdateHeight < ctx.height && q.cap <= r.mana ==> mana == q.cap)
  {
    var r, q := LoadAccountMana(st, a), QuotaOf(GetParams(st), ctx.bank, a).value;
    GetAccountManaExact(st, ctx, a);
    if r.lastUpdateHeight < ctx.height {
      TicksClosed(q, r.mana, ctx.height - r.lastUpdateHeight);
    }
  }

  /** So an excess can never be spent: in any later block the account affords exactly its cap. */
  lemma ExcessCannotBeSpent(st: State, ctx: Ctx, a: Addr, cost: uint64)
    requires WellFormed(st) && ValidAddr(a)
    requires QuotaOf(GetParams(st), ctx.bank, a).Ok?
    requires LoadAccountMana(st, a).lastUpdateHeight < ctx.height
    requires QuotaOf(GetParams(st), ctx.bank, a).value.cap <= LoadAccountMana(st, a).mana
    ensures ConsumeMana(st, ctx, a, cost).Done() <==> cost <= QuotaOf(GetParams(st), ctx.bank, a).value.cap
  {
    KeptIffWithinCap(st, ctx, a);
  }

  /** A treasury account of the shipped genesis file, not touched yet. */
  predicate HasGenesisBonus(st: State, a: Addr) {
    && LoadAccountMana(st, a).mana == 500_000_000
    && LoadAccountMana(st, a).lastUpdateHeight == 0
    && GetParams(st) == DEFAULT_PARAMS
  }

  /** The promised headroom exists, from the first block on, exactly for an owner of at least half of
      the supply. */
  lemma BonusKeptIffHalfTheSupply(st: State, ctx: Ctx, a: Addr)
    requires WellFormed(st) && ValidAddr(a) && HasGenesisBonus(st, a) && ctx.height >= 1
    requires QuotaOf(DEFAULT_PARAMS, ctx.bank, a).Ok?
    ensures GetAccountMana(st, ctx, a).Ok?
    ensures GetAccountMana(st, ctx, a).value.mana >= 500_000_000
            <==> ctx.bank.supply > 0 && 2 * ctx.bank.balance(a) >= ctx.bank.supply
  {
    KeptIffWithinCap(st, ctx, a);
    QuotaThreshold(DEFAULT_PARAMS, ctx.bank, a, 500_000_000);
    CeilDivLeast(500_000_000, 1, 500_000_000);
    CeilDivLeast(500_000_000, 1, 499_999_999);
    assert CeilDiv(500_000_000, 1) == 500_000_000;
  }

  /** Everybody else loses it: below half of the supply, an account reads and can spend exactly its cap,
      which is less than the bonus, at every height from 1 on. */
  lemma BonusLostBelowHalf(st: State, ctx: Ctx, a: Addr, cost: uint64)
    requires WellFormed(st) && ValidAddr(a) && HasGenesisBonus(st, a) && ctx.height >= 1
    requires QuotaOf(DEFAULT_PARAMS, ctx.bank, a).Ok?
    requires 2 * ctx.bank.balance(a) < ctx.bank.supply
    ensures var cap := QuotaOf(DEFAULT_PARAMS, ctx.bank, a).value.cap;
            && cap < 500_000_000
            && GetAccountMana(st, ctx, a).Ok? && GetAccountMana(st, ctx, a).value.mana == cap
            && (ConsumeMana(st, ctx, a, cost).Done() <==> cost <= cap)
  {
    BonusKeptIffHalfTheSupply(st, ctx, a);
    KeptIffWithinCap(st, ctx, a);
    ExcessCannotBeSpent(st, ctx, a, cost);
  }

  const FOUNDER: nat := 30_875_000_000_000
  const VALIDATOR_LIQUID: nat := 2_522_900_000_000
  const VALIDATOR_STAKED: nat := 10_000_000_000_000

  /** So do the two accounts of the shipped genesis file.  The bank counts liquid coins only, and the
      validator's genesis transaction stakes most of what it has; even with that stake unbonded it would
      not reach the bonus. */
  lemma ShippedBonusIsLost(st: State, ctx: Ctx, a: Addr, cost: uint64)
    requires WellFormed(st) && ValidAddr(a) && HasGenesisBonus(st, a) && ctx.height >= 1
    requires ctx.bank.supply == 247_000_000_000_000
    requires ctx.bank.balance(a) in {FOUNDER, VALIDATOR_LIQUID, VALIDATOR_LIQUID + VALIDATOR_STAKED}
    ensures var balance := ctx.bank.balance(a);
            var cap := if balance == FOUNDER then 125_000_000
                       else if balance == VALIDATOR_LIQUID then 10_214_170
                       else 50_700_000;
            && GetAccountMana(st, ctx, a).Ok? && GetAccountMana(st, ctx, a).value.mana == cap
            && (ConsumeMana(st, ctx, a, cost).Done() <==> cost <= cap)
  {
    RateExact(ctx.bank.balance(a), ctx.bank.supply, 1_000_000_000, 1);
    BonusLostBelowHalf(st, ctx, a, cost);
  }

  /** How a query can still report more than its own cap: an account pays at some height and its coins
      leave in the same block.  Its mana is then read as the payment left it, whatever the new cap. */
  lemma QueryAboveItsCap(st: State, ctx: Ctx, bank: Bank, a: Addr, cost: uint64)
    requires WellFormed(st) && ValidAddr(a)
    requires ConsumeMana(st, ctx, a, cost).Done()
    requires QuotaOf(GetParams(st), bank, a).Ok?
    ensures var paid, left := ConsumeMana(st, ctx, a, cost).st, GetAccountMana(st, ctx, a).value.mana - cost;
            && QueryMana(paid, Ctx(bank, ctx.height), a).Ok?
            && var (mana, maxMana) := QueryMana(paid, Ctx(bank, ctx.height), a).value;
            && mana == left && maxMana == QuotaOf(GetParams(st), bank, a).value.cap
  {
    var paid := ConsumeMana(st, ctx, a, cost).st;
    OperationsKeepWellFormed(st, ctx, a, cost);
    GetAccountManaExact(st, ctx, a);
    QueryAgreesWithRegeneration(paid, Ctx(bank, ctx.height), a);
    GetAccountManaExact(paid, Ctx(bank, ctx.height), a);
  }

  /** For instance, the owner of the whole supply, whose wallet is fresh, pays 200 mana at height 2000
      under the default parameters and then gives its coins away: at that height the query reports
      1,999,800 of 1,000,000. */
  lemma QueryExceedsItsCap(st: State, ctx: Ctx, bank: Bank, a: Addr)
    requires WellFormed(st) && ValidAddr(a) && a !in st.accounts && GetParams(st) == DEFAULT_PARAMS
    requires ctx.height == 2000 && ctx.bank.balance(a) == ctx.bank.supply > 0
    requires Product(ctx.bank.supply, DEFAULT_TOTAL_MANA_POOL) < TWO_256
    requires bank.balance(a) == 0
    ensures ConsumeMana(st, ctx, a, 200).Done()
    ensures QueryMana(ConsumeMana(st, ctx, a, 200).st, Ctx(bank, 2000), a) == Ok((1_999_800, 1_000_000))
  {
    DefaultGainIsFloor(ctx.bank, a);
    ShareOfSupply(ctx.bank.supply, DEFAULT_TOTAL_MANA_POOL);
    RateExact(ctx.bank.supply, ctx.bank.supply, DEFAULT_TOTAL_MANA_POOL, DEFAULT_MANA_REGEN_MULTIPLIER);
    FreshAccountAccrues(st, ctx, a);
    QueryAboveItsCap(st, ctx, bank, a, 200);
  }
}
