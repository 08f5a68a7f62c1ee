/** Counting a transaction also regenerates and rewrites the payer's record.  Over runs of keeper
    operations such touches can be inserted or removed without anybody noticing from the mana. */
module Touches {
  import opened Machine
  import opened Types
  import opened Regen
  import opened Ledger
  import opened Eager

  datatype Op = Spend(ctx: Ctx, addr: Addr, cost: uint64) | Touch(ctx: Ctx, addr: Addr)

  function ApplyOp(st: State, op: Op): Outcome {
    match op
    case Spend(ctx, addr, cost) => ConsumeMana(st, ctx, addr, cost)
    case Touch(ctx, addr) => IncrementTxCount(st, ctx, addr)
  }

  function AfterOps(st: State, ops: seq<Op>): State {
    if ops == [] then st else ApplyOp(AfterOps(st, ops[..|ops| - 1]), ops[|ops| - 1]).st
  }

  function OnlyPayments(ops: seq<Op>): (payments: seq<Op>)
    ensures forall op :: op in payments <==> op in ops && op.Spend?
  {
    if ops == [] then []
    else
      var rest := OnlyPayments(ops[..|ops| - 1]);
      if ops[|ops| - 1].Spend? then rest + [ops[|ops| - 1]] else rest
  }

  /** Valid accounts, fixed quotas, and heights from first to last that never go backwards. */
  ghost predicate SteadyOps(p: Params, ops: seq<Op>, quotas: Quotas, first: int, last: int) {
    && (forall i | 0 <= i < |ops| ::
          && ValidAddr(ops[i].addr) && QuotasFor(p, ops[i].ctx.bank, quotas)
          && first <= ops[i].ctx.height <= last)
    && (forall i, j | 0 <= i < j < |ops| :: ops[i].ctx.height <= ops[j].ctx.height)
  }

  /** Two records that read the same from the given height on. */
  ghost predicate SameReading(q: Quota, r1: AccountMana, r2: AccountMana, height: int) {
    && r1.lastUpdateHeight <= height && r2.lastUpdateHeight <= height
    && Ticks(q, r1.mana, height - r1.lastUpdateHeight) == Ticks(q, r2.mana, height - r2.lastUpdateHeight)
  }

  ghost predicate SameMana(st1: State, st2: State, quotas: Quotas, height: int) {
    && st1.cfg == st2.cfg && GetParams(st1) == GetParams(st2)
    && forall a :: SameReading(quotas(a), LoadAccountMana(st1, a), LoadAccountMana(st2, a), height)
  }

  lemma SameReadingLater(q: Quota, r1: AccountMana, r2: AccountMana, h1: int, h2: int)
    requires SameReading(q, r1, r2, h1) && h1 <= h2
    ensures SameReading(q, r1, r2, h2)
  {
    TicksAdd(q, r1.mana, h1 - r1.lastUpdateHeight, h2 - h1);
    TicksAdd(q, r2.mana, h1 - r2.lastUpdateHeight, h2 - h1);
  }

  lemma SameManaLater(st1: State, st2: State, quotas: Quotas, h1: int, h2: int)
    requires SameMana(st1, st2, quotas, h1) && h1 <= h2
    ensures SameMana(st1, st2, quotas, h2)
  {
    forall a
      ensures SameReading(quotas(a), LoadAccountMana(st1, a), LoadAccountMana(st2, a), h2)
    {
      SameReadingLater(quotas(a), LoadAccountMana(st1, a), LoadAccountMana(st2, a), h1, h2);
    }
  }

  lemma ReadsAgree(st1: State, st2: State, quotas: Quotas, ctx: Ctx, a: Addr)
    requires WellFormed(st1) && WellFormed(st2) && ValidAddr(a)
    requires SameMana(st1, st2, quotas, ctx.height) && QuotasFor(GetParams(st1), ctx.bank, quotas)
    ensures GetAccountMana(st1, ctx, a).Ok? && GetAccountMana(st2, ctx, a).Ok?
    ensures GetAccountMana(st1, ctx, a).value.mana == GetAccountMana(st2, ctx, a).value.mana
            == Ticks(quotas(a), LoadAccountMana(st1, a).mana, ctx.height - LoadAccountMana(st1, a).lastUpdateHeight)
    ensures GetAccountMana(st1, ctx, a).value.lastUpdateHeight == ctx.height
            == GetAccountMana(st2, ctx, a).value.lastUpdateHeight
  {
    assert SameReading(quotas(a), LoadAccountMana(st1, a), LoadAccountMana(st2, a), ctx.height);
    assert QuotaOf(GetParams(st1), ctx.bank, a) == Ok(quotas(a));
    GetAccountManaExact(st1, ctx, a);
    GetAccountManaExact(st2, ctx, a);
  }

  /** Replacing one record on one side, or on both, keeps the readings if the new pair reads the same. */
  lemma WritesAgree(st1: State, st2: State, quotas: Quotas, height: int, next1: State, next2: State, a: Addr)
    requires SameMana(st1, st2, quotas, height)
    requires OnlyTouches(st1, next1, a) && OnlyTouches(st2, next2, a)
    requires SameReading(quotas(a), LoadAccountMana(next1, a), LoadAccountMana(next2, a), height)
    ensures SameMana(next1, next2, quotas, height)
  {
    forall x
      ensures SameReading(quotas(x), LoadAccountMana(next1, x), LoadAccountMana(next2, x), height)
    {
      assert SameReading(quotas(x), LoadAccountMana(st1, x), LoadAccountMana(st2, x), height);
    }
  }

  /** A counter write stores the mana just read. */
  lemma TouchedRecord(st: State, ctx: Ctx, a: Addr)
    requires IncrementTxCount(st, ctx, a).Done()
    ensures var r := LoadAccountMana(IncrementTxCount(st, ctx, a).st, a);
            && GetAccountMana(st, ctx, a).Ok?
            && r.mana == GetAccountMana(st, ctx, a).value.mana
            && r.lastUpdateHeight == GetAccountMana(st, ctx, a).value.lastUpdateHeight
  {
  }

  lemma TouchStep(st1: State, st2: State, quotas: Quotas, ctx: Ctx, a: Addr)
    requires WellFormed(st1) && WellFormed(st2) && ValidAddr(a)
    requires SameMana(st1, st2, quotas, ctx.height) && QuotasFor(GetParams(st1), ctx.bank, quotas)
    ensures SameMana(IncrementTxCount(st1, ctx, a).st, st2, quotas, ctx.height)
  {
    if IncrementTxCount(st1, ctx, a).Done() {
      ReadsAgree(st1, st2, quotas, ctx, a);
      TouchedRecord(st1, ctx, a);
      assert SameReading(quotas(a), LoadAccountMana(st1, a), LoadAccountMana(st2, a), ctx.height);
      WritesAgree(st1, st2, quotas, ctx.height, IncrementTxCount(st1, ctx, a).st, st2, a);
    }
  }

  lemma PayStep(st1: State, st2: State, quotas: Quotas, ctx: Ctx, a: Addr, cost: uint64)
    requires WellFormed(st1) && WellFormed(st2) && ValidAddr(a)
    requires SameMana(st1, st2, quotas, ctx.height) && QuotasFor(GetParams(st1), ctx.bank, quotas)
    ensures ConsumeMana(st1, ctx, a, cost).err == ConsumeMana(st2, ctx, a, cost).err
    ensures SameMana(ConsumeMana(st1, ctx, a, cost).st, ConsumeMana(st2, ctx, a, cost).st, quotas, ctx.height)
  {
    ReadsAgree(st1, st2, quotas, ctx, a);
    OperationsKeepWellFormed(st1, ctx, a, cost);
    OperationsKeepWellFormed(st2, ctx, a, cost);
    assert SameReading(quotas(a), LoadAccountMana(st1, a), LoadAccountMana(st2, a), ctx.height);
    WritesAgree(st1, st2, quotas, ctx.height, ConsumeMana(st1, ctx, a, cost).st, ConsumeMana(st2, ctx, a, cost).st, a);
  }

  lemma {:induction false} OpsKeepWellFormed(st: State, ops: seq<Op>)
    requires WellFormed(st) && forall i | 0 <= i < |ops| :: ValidAddr(ops[i].addr)
    ensures WellFormed(AfterOps(st, ops)) && WellFormed(AfterOps(st, OnlyPayments(ops)))
    ensures GetParams(AfterOps(st, ops)) == GetParams(st)
  {
    if ops != [] {
      var n := |ops| - 1;
      var paid := OnlyPayments(ops[..n]);
      OpsKeepWellFormed(st, ops[..n]);
      var cost := if ops[n].Spend? then ops[n].cost else 0;
      OperationsKeepWellFormed(AfterOps(st, ops[..n]), ops[n].ctx, ops[n].addr, cost);
      OperationsKeepWellFormed(AfterOps(st, paid), ops[n].ctx, ops[n].addr, cost);
      assert (paid + [ops[n]])[..|paid|] == paid;
    }
  }

  lemma {:induction false} RunsAgree(st: State, ops: seq<Op>, quotas: Quotas, first: int, last: int)
    requires WellFormed(st) && SteadyOps(GetParams(st), ops, quotas, first, last) && first <= last
    requires forall a :: LoadAccountMana(st, a).lastUpdateHeight <= first
    ensures SameMana(AfterOps(st, ops), AfterOps(st, OnlyPayments(ops)), quotas, last)
  {
    if ops != [] {
      var n := |ops| - 1;
      var init, op := ops[..n], ops[n];
      var paid := OnlyPayments(init);
      var st1, st2 := AfterOps(st, init), AfterOps(st, paid);
      assert SteadyOps(GetParams(st), init, quotas, first, op.ctx.height);
      RunsAgree(st, init, quotas, first, op.ctx.height);
      OpsKeepWellFormed(st, init);
      assert (paid + [op])[..|paid|] == paid;
      if op.Spend? {
        PayStep(st1, st2, quotas, op.ctx, op.addr, op.cost);
      } else {
        TouchStep(st1, st2, quotas, op.ctx, op.addr);
      }
      SameManaLater(AfterOps(st, ops), AfterOps(st, OnlyPayments(ops)), quotas, op.ctx.height, last);
    }
  }

  /** Over every run of payments and counter writes with fixed quotas and heights that never go
      backwards: every payment has the verdict it has in the run without the counter writes, and every
      account reads the same mana at every later height. */
  lemma TouchesAreInvisible(st: State, ops: seq<Op>, quotas: Quotas, first: int, ctx: Ctx, a: Addr)
    requires WellFormed(st) && ValidAddr(a)
    requires SteadyOps(GetParams(st), ops, quotas, first, ctx.height) && first <= ctx.height
    requires QuotasFor(GetParams(st), ctx.bank, quotas)
    requires forall a :: LoadAccountMana(st, a).lastUpdateHeight <= first
    ensures forall i | 0 <= i < |ops| && ops[i].Spend? ::
              ApplyOp(AfterOps(st, ops[..i]), ops[i]).err
              == ApplyOp(AfterOps(st, OnlyPayments(ops[..i])), ops[i]).err
    ensures var with, without := AfterOps(st, ops), AfterOps(st, OnlyPayments(ops));
            && GetAccountMana(with, ctx, a).Ok? && GetAccountMana(without, ctx, a).Ok?
            && GetAccountMana(with, ctx, a).value.mana == GetAccountMana(without, ctx, a).value.mana
  {
    forall i | 0 <= i < |ops| && ops[i].Spend?
      ensures ApplyOp(AfterOps(st, ops[..i]), ops[i]).err
              == ApplyOp(AfterOps(st, OnlyPayments(ops[..i])), ops[i]).err
    {
      var op := ops[i];
      assert SteadyOps(GetParams(st), ops[..i], quotas, first, op.ctx.height);
      RunsAgree(st, ops[..i], quotas, first, op.ctx.height);
      OpsKeepWellFormed(st, ops[..i]);
      PayStep(AfterOps(st, ops[..i]), AfterOps(st, OnlyPayments(ops[..i])), quotas, op.ctx, op.addr, op.cost);
    }
    RunsAgree(st, ops, quotas, first, ctx.height);
    OpsKeepWellFormed(st, ops);
    ReadsAgree(AfterOps(st, ops), AfterOps(st, OnlyPayments(ops)), quotas, ctx, a);
  }
}
