/** The balance query (x/mana/keeper/query.go), which computes the cap a second time. */
module Query {
  import opened Machine
  import opened Types
  import opened Rate
  import opened Regen
  import opened Ledger

  /** Current mana, and the cap by the query's own computation. */
  function QueryMana(st: State, ctx: Ctx, addr: Addr): Result<(uint64, uint64)> {
    match GetAccountMana(st, ctx, addr)
    case Err(e) => Err(e)
    case Ok(acct) =>
      var p, balance, supply := GetParams(st), ctx.bank.balance(addr), ctx.bank.supply;
      var rate := if supply != 0 && balance != 0
                  then ComputeManaRate(balance, supply, p.totalManaPool, p.manaRegenMultiplier)
                  else Ok(0);
      match rate
      case Err(e) => Err(e)
      case Ok(maxMana) => Ok((acct.mana, if maxMana < MIN_MANA_FLOOR then MIN_MANA_FLOOR else maxMana))
  }

  /** What the query answers.  Its mana is the record's, ticked block by block up to the queried height;
      its own cap computation gives the cap that regeneration uses, or the same error.  The mana is within
      the cap exactly when the query regenerates the record or the record was within the cap already; a
      record last written at this very height may be reported above it (Headroom.QueryExceedsItsCap is
      such a case). */
  lemma QueryAgreesWithRegeneration(st: State, ctx: Ctx, addr: Addr)
    requires WellFormed(st) && ValidAddr(addr)
    ensures var r, q := LoadAccountMana(st, addr), QuotaOf(GetParams(st), ctx.bank, addr);
            && (q.Err? ==> QueryMana(st, ctx, addr) == Err(q.error))
            && (q.Ok? ==>
                && QueryMana(st, ctx, addr).Ok?
                && var (mana, maxMana) := QueryMana(st, ctx, addr).value;
                && mana == Ticks(q.value, r.mana, Max(0, ctx.height - r.lastUpdateHeight))
                && maxMana == q.value.cap
                && (mana <= maxMana <==> r.lastUpdateHeight < ctx.height || r.mana <= q.value.cap))
  {
    GetAccountManaExact(st, ctx, addr);
    var r, q := LoadAccountMana(st, addr), QuotaOf(GetParams(st), ctx.bank, addr);
    if r.lastUpdateHeight < ctx.height && q.Ok? {
      TicksClosed(q.value, r.mana, ctx.height - r.lastUpdateHeight);
    }
  }
}
