/** The reference ledger: every account is regenerated in every block, over unbounded integers, and
    the lazy keeper is shown to be indistinguishable from it. */
module Eager {
  import opened Machine
  import opened Types
  import opened Rate
  import opened Regen
  import opened Ledger
  import opened Ante
  import opened Chain
  import opened Query

  datatype Account = Account(mana: nat, txCount: uint32, lastTxBlock: int)

  /** All accounts at one height, with the program's own counters; there is no last-update height because
      nothing is ever out of date. */
  datatype EagerLedger = EagerLedger(height: int, accounts: Addr -> Account)

  /** What every account gains in every block, under the bank values that stay fixed for the run. */
  type Quotas = Addr -> Quota

  /** A new block: every account gains one block of regeneration. */
  function NewBlock(l: EagerLedger, quotas: Quotas): EagerLedger {
    EagerLedger(l.height + 1,
      a => l.accounts(a).(mana := Tick(quotas(a), l.accounts(a).mana)))
  }

  function AdvanceTo(l: EagerLedger, quotas: Quotas, height: int): EagerLedger
    decreases height - l.height
  {
    if height <= l.height then l else AdvanceTo(NewBlock(l, quotas), quotas, height)
  }

  function Write(l: EagerLedger, a: Addr, acct: Account): EagerLedger {
    l.(accounts := x => if x == a then acct else l.accounts(x))
  }

  /** The reference rules for paying, for counting, and for a whole transaction. */
  function Pay(l: EagerLedger, a: Addr, cost: nat): Result<EagerLedger> {
    var acct := l.accounts(a);
    if acct.mana < cost then Err(InsufficientBandwidth)
    else Ok(Write(l, a, acct.(mana := acct.mana - cost)))
  }

  function CountOne(l: EagerLedger, a: Addr, limit: nat): Result<EagerLedger> {
    var acct := l.accounts(a);
    var count := if acct.lastTxBlock == l.height then acct.txCount else 0;
    if count >= limit then Err(TxSpamLimitExceeded)
    else Ok(Write(l, a, acct.(txCount := AddUint32(count, 1), lastTxBlock := l.height)))
  }

  function CountEach(l: EagerLedger, signers: seq<Addr>, limit: nat): Result<EagerLedger>
    decreases signers
  {
    if signers == [] then Ok(l)
    else
      match CountOne(l, signers[0], limit)
      case Err(e) => Err(e)
      case Ok(next) => CountEach(next, signers[1..], limit)
  }

  function Transact(l: EagerLedger, tx: Tx, limit: nat): Result<EagerLedger>
    requires ValidTx(tx)
  {
    if tx.size > MAX_TX_BYTES then Err(TxTooLarge)
    else if !tx.early then Err(StockCheck)
    else if l.height == 0 then (if tx.later then Ok(l) else Err(StockCheck))
    else if tx.signers.Err? then Err(tx.signers.error)
    else if tx.signers.value == [] then Err(Unauthorized)
    else
      match Pay(l, tx.signers.value[0], TxCost(tx))
      case Err(e) => Err(e)
      case Ok(paid) =>
        match CountEach(paid, tx.signers.value, limit)
        case Err(e) => Err(e)
        case Ok(counted) => if tx.later then Ok(counted) else Err(StockCheck)
  }

  // ---------------------------------------------------------------------------
  // The correspondence
  // ---------------------------------------------------------------------------

  /** An eager account against a lazy record: the record's mana, brought up to date block by block. */
  ghost predicate Matches(q: Quota, acct: Account, record: AccountMana, height: int) {
    && record.lastUpdateHeight <= height
    && acct.mana == Ticks(q, record.mana, height - record.lastUpdateHeight)
    && acct.txCount == record.txCountThisBlock
    && acct.lastTxBlock == record.lastTxBlock
  }

  ghost predicate Corresponds(st: State, l: EagerLedger, quotas: Quotas) {
    forall a :: Matches(quotas(a), l.accounts(a), LoadAccountMana(st, a), l.height)
  }

  /** The quotas are those of the given bank and parameters, all computable. */
  ghost predicate QuotasFor(p: Params, bank: Bank, quotas: Quotas) {
    forall a :: QuotaOf(p, bank, a) == Ok(quotas(a))
  }

  lemma NewBlockCorresponds(st: State, l: EagerLedger, quotas: Quotas)
    requires Corresponds(st, l, quotas)
    ensures Corresponds(st, NewBlock(l, quotas), quotas)
  {
    forall a
      ensures Matches(quotas(a), NewBlock(l, quotas).accounts(a), LoadAccountMana(st, a), l.height + 1)
    {
      assert Matches(quotas(a), l.accounts(a), LoadAccountMana(st, a), l.height);
    }
  }

  lemma {:induction false} AdvanceCorresponds(st: State, l: EagerLedger, quotas: Quotas, height: int)
    requires Corresponds(st, l, quotas)
    ensures Corresponds(st, AdvanceTo(l, quotas, height), quotas)
    ensures AdvanceTo(l, quotas, height).height == Max(l.height, height)
    decreases height - l.height
  {
    if l.height < height {
      NewBlockCorresponds(st, l, quotas);
      AdvanceCorresponds(st, NewBlock(l, quotas), quotas, height);
    }
  }

  /** What a well-formed lazy store answers at the height of a corresponding eager ledger. */
  lemma ReadCorresponds(st: State, l: EagerLedger, quotas: Quotas, ctx: Ctx, a: Addr)
    requires WellFormed(st) && Corresponds(st, l, quotas) && QuotasFor(GetParams(st), ctx.bank, quotas)
    requires ctx.height == l.height && ValidAddr(a)
    ensures GetAccountMana(st, ctx, a).Ok?
    ensures var read := GetAccountMana(st, ctx, a).value;
            && read.mana == l.accounts(a).mana
            && read.lastUpdateHeight == l.height
            && read.txCountThisBlock == l.accounts(a).txCount
            && read.lastTxBlock == l.accounts(a).lastTxBlock
  {
    assert Matches(quotas(a), l.accounts(a), LoadAccountMana(st, a), l.height);
    assert QuotaOf(GetParams(st), ctx.bank, a) == Ok(quotas(a));
    GetAccountManaExact(st, ctx, a);
  }

  lemma QueryCorresponds(st: State, l: EagerLedger, quotas: Quotas, ctx: Ctx, a: Addr)
    requires WellFormed(st) && Corresponds(st, l, quotas) && QuotasFor(GetParams(st), ctx.bank, quotas)
    requires ctx.height == l.height && ValidAddr(a)
    ensures QueryMana(st, ctx, a).Ok?
    ensures QueryMana(st, ctx, a).value.0 == l.accounts(a).mana && QueryMana(st, ctx, a).value.1 == quotas(a).cap
  {
    assert Matches(quotas(a), l.accounts(a), LoadAccountMana(st, a), l.height);
    assert QuotaOf(GetParams(st), ctx.bank, a) == Ok(quotas(a));
    QueryAgreesWithRegeneration(st, ctx, a);
  }

  lemma WriteCorresponds(st: State, l: EagerLedger, quotas: Quotas, a: Addr, acct: Account, record: AccountMana)
    requires Corresponds(st, l, quotas)
    requires Matches(quotas(a), acct, record, l.height)
    ensures Corresponds(Put(st, a, record), Write(l, a, acct), quotas)
  {
    var st', l' := Put(st, a, record), Write(l, a, acct);
    forall x
      ensures Matches(quotas(x), l'.accounts(x), LoadAccountMana(st', x), l'.height)
    {
      assert Matches(quotas(x), l.accounts(x), LoadAccountMana(st, x), l.height);
    }
  }

  lemma PayCorresponds(st: State, l: EagerLedger, quotas: Quotas, ctx: Ctx, a: Addr, cost: uint64)
    requires WellFormed(st) && Corresponds(st, l, quotas) && QuotasFor(GetParams(st), ctx.bank, quotas)
    requires ctx.height == l.height && ValidAddr(a)
    ensures var lazy, eager := ConsumeMana(st, ctx, a, cost), Pay(l, a, cost);
            if eager.Ok? then lazy.Done() && Corresponds(lazy.st, eager.value, quotas)
            else lazy.err == Some(eager.error)
  {
    ReadCorresponds(st, l, quotas, ctx, a);
    if Pay(l, a, cost).Ok? {
      var read := GetAccountMana(st, ctx, a).value;
      WriteCorresponds(st, l, quotas, a, l.accounts(a).(mana := l.accounts(a).mana - cost),
                       read.(mana := read.mana - cost));
    }
  }

  lemma CountCorresponds(st: State, l: EagerLedger, quotas: Quotas, ctx: Ctx, a: Addr)
    requires WellFormed(st) && Corresponds(st, l, quotas) && QuotasFor(GetParams(st), ctx.bank, quotas)
    requires ctx.height == l.height && ValidAddr(a)
    ensures var lazy, eager := IncrementTxCount(st, ctx, a), CountOne(l, a, GetParams(st).maxTxPerBlock);
            if eager.Ok? then lazy.Done() && Corresponds(lazy.st, eager.value, quotas)
            else lazy.err == Some(eager.error)
  {
    ReadCorresponds(st, l, quotas, ctx, a);
    if CountOne(l, a, GetParams(st).maxTxPerBlock).Ok? {
      var read := GetAccountMana(st, ctx, a).value;
      var count := CountedAt(read, ctx.height);
      WriteCorresponds(st, l, quotas, a, l.accounts(a).(txCount := AddUint32(count, 1), lastTxBlock := l.height),
                       read.(txCountThisBlock := AddUint32(count, 1), lastTxBlock := ctx.height));
    }
  }

  lemma {:induction false} CountEachCorresponds(st: State, l: EagerLedger, quotas: Quotas, ctx: Ctx, signers: seq<Addr>)
    requires WellFormed(st) && Corresponds(st, l, quotas) && QuotasFor(GetParams(st), ctx.bank, quotas)
    requires ctx.height == l.height && (forall s | s in signers :: ValidAddr(s))
    ensures var lazy, eager := CountAll(st, ctx, signers), CountEach(l, signers, GetParams(st).maxTxPerBlock);
            if eager.Ok? then lazy.Done() && Corresponds(lazy.st, eager.value, quotas) && eager.value.height == l.height
            else lazy.err == Some(eager.error)
    decreases signers
  {
    if signers != [] {
      CountCorresponds(st, l, quotas, ctx, signers[0]);
      var one := CountOne(l, signers[0], GetParams(st).maxTxPerBlock);
      if one.Ok? {
        OperationsKeepWellFormed(st, ctx, signers[0], 0);
        CountEachCorresponds(IncrementTxCount(st, ctx, signers[0]).st, one.value, quotas, ctx, signers[1..]);
      }
    }
  }

  /** A delivered transaction: the lazy pipeline and the reference rule give the same verdict, error
      included, and corresponding results. */
  lemma TransactCorresponds(st: State, l: EagerLedger, quotas: Quotas, ctx: Ctx, tx: Tx)
    requires WellFormed(st) && Corresponds(st, l, quotas) && QuotasFor(GetParams(st), ctx.bank, quotas)
    requires ctx.height == l.height && ValidTx(tx)
    ensures var lazy, eager := RunTx(st, ctx, Deliver, tx), Transact(l, tx, GetParams(st).maxTxPerBlock);
            if eager.Ok? then lazy.Done() && Corresponds(lazy.st, eager.value, quotas) && eager.value.height == l.height
            else lazy.err == Some(eager.error) && lazy.st == st
  {
    if l.height != 0 && tx.signers.Ok? && tx.signers.value != [] {
      var payer := tx.signers.value[0];
      PayCorresponds(st, l, quotas, ctx, payer, TxCost(tx));
      if Pay(l, payer, TxCost(tx)).Ok? {
        OperationsKeepWellFormed(st, ctx, payer, TxCost(tx));
        CountEachCorresponds(ConsumeMana(st, ctx, payer, TxCost(tx)).st, Pay(l, payer, TxCost(tx)).value,
                             quotas, ctx, tx.signers.value);
      }
    }
  }

  // ---------------------------------------------------------------------------
  // Runs
  // ---------------------------------------------------------------------------

  /** The reference ledger over a run: tick up to each transaction's block, then apply the reference rule. */
  function EagerAfter(l: EagerLedger, quotas: Quotas, limit: nat, steps: seq<Step>): EagerLedger
    requires ValidSteps(steps)
  {
    if steps == [] then l
    else
      var n := |steps| - 1;
      var before := EagerAfter(l, quotas, limit, steps[..n]);
      match steps[n]
      case PreBlock(_) => before
      case DeliverTx(ctx, tx) =>
        var now := AdvanceTo(before, quotas, ctx.height);
        var r := Transact(now, tx, limit);
        if r.Ok? then r.value else now
  }

  function EagerVerdict(l: EagerLedger, quotas: Quotas, limit: nat, steps: seq<Step>, i: nat): Option<Error>
    requires ValidSteps(steps) && i < |steps|
  {
    match steps[i]
    case PreBlock(_) => None
    case DeliverTx(ctx, tx) =>
      var r := Transact(AdvanceTo(EagerAfter(l, quotas, limit, steps[..i]), quotas, ctx.height), tx, limit);
      if r.Ok? then None else Some(r.error)
  }

  /** Fixed quotas, and heights that never go backwards. */
  ghost predicate SteadyRun(p: Params, steps: seq<Step>, quotas: Quotas, first: int) {
    && (forall i | 0 <= i < |steps| :: steps[i].DeliverTx? ==>
          first <= steps[i].ctx.height && QuotasFor(p, steps[i].ctx.bank, quotas))
    && (forall i, j | 0 <= i < j < |steps| ::
          steps[i].DeliverTx? && steps[j].DeliverTx? ==> steps[i].ctx.height <= steps[j].ctx.height)
  }

  /** The height a run has reached. */
  ghost predicate ReachedBy(steps: seq<Step>, first: int, height: int) {
    first <= height && forall i | 0 <= i < |steps| :: steps[i].DeliverTx? ==> steps[i].ctx.height <= height
  }

  lemma {:induction false} RunCorresponds(st: State, l: EagerLedger, quotas: Quotas, steps: seq<Step>, height: int)
    requires WellFormed(st) && ValidSteps(steps) && Corresponds(st, l, quotas)
    requires SteadyRun(GetParams(st), steps, quotas, l.height) && ReachedBy(steps, l.height, height)
    ensures Corresponds(After(st, steps), EagerAfter(l, quotas, GetParams(st).maxTxPerBlock, steps), quotas)
    ensures EagerAfter(l, quotas, GetParams(st).maxTxPerBlock, steps).height <= height
  {
    if steps != [] {
      var n, limit := |steps| - 1, GetParams(st).maxTxPerBlock;
      var init, step := steps[..n], steps[n];
      var now := if step.DeliverTx? then step.ctx.height else height;
      assert SteadyRun(GetParams(st), init, quotas, l.height);
      assert ReachedBy(init, l.height, now);
      RunCorresponds(st, l, quotas, init, now);
      RunKeepsWellFormed(st, init);
      var before := EagerAfter(l, quotas, limit, init);
      if step.DeliverTx? {
        AdvanceCorresponds(After(st, init), before, quotas, step.ctx.height);
        TransactCorresponds(After(st, init), AdvanceTo(before, quotas, step.ctx.height), quotas, step.ctx, step.tx);
      } else {
        SameAccountsCorrespond(After(st, init), After(st, steps), before, quotas);
      }
    }
  }

  lemma SameAccountsCorrespond(st1: State, st2: State, l: EagerLedger, quotas: Quotas)
    requires Corresponds(st1, l, quotas) && st1.cfg == st2.cfg && st1.accounts == st2.accounts
    ensures Corresponds(st2, l, quotas)
  {
    forall a
      ensures Matches(quotas(a), l.accounts(a), LoadAccountMana(st2, a), l.height)
    {
      assert Matches(quotas(a), l.accounts(a), LoadAccountMana(st1, a), l.height);
    }
  }

  /** Lazy refines eager.  Over every run with fixed quotas and heights that never go backwards, the
      keeper that regenerates on touch gives every transaction the verdict of the ledger that
      regenerates every account in every block, and at every later height reads every account at that
      ledger's mana, and answers every balance query with it and with the account's cap. */
  lemma LazyRefinesEager(st: State, l: EagerLedger, quotas: Quotas, steps: seq<Step>, ctx: Ctx, a: Addr)
    requires WellFormed(st) && ValidSteps(steps) && Corresponds(st, l, quotas)
    requires SteadyRun(GetParams(st), steps, quotas, l.height)
    requires ReachedBy(steps, l.height, ctx.height) && QuotasFor(GetParams(st), ctx.bank, quotas)
    requires ValidAddr(a)
    ensures forall i | 0 <= i < |steps| ::
              Verdict(st, steps, i) == EagerVerdict(l, quotas, GetParams(st).maxTxPerBlock, steps, i)
    ensures GetAccountMana(After(st, steps), ctx, a).Ok?
    ensures GetAccountMana(After(st, steps), ctx, a).value.mana
            == AdvanceTo(EagerAfter(l, quotas, GetParams(st).maxTxPerBlock, steps), quotas, ctx.height).accounts(a).mana
    ensures QueryMana(After(st, steps), ctx, a).Ok?
    ensures QueryMana(After(st, steps), ctx, a).value.0
            == AdvanceTo(EagerAfter(l, quotas, GetParams(st).maxTxPerBlock, steps), quotas, ctx.height).accounts(a).mana
    ensures QueryMana(After(st, steps), ctx, a).value.1 == quotas(a).cap
  {
    forall i | 0 <= i < |steps|
      ensures Verdict(st, steps, i) == EagerVerdict(l, quotas, GetParams(st).maxTxPerBlock, steps, i)
    {
      VerdictCorresponds(st, l, quotas, steps, i);
    }
    var limit := GetParams(st).maxTxPerBlock;
    RunCorresponds(st, l, quotas, steps, ctx.height);
    RunKeepsWellFormed(st, steps);
    var after := After(st, steps);
    AdvanceCorresponds(after, EagerAfter(l, quotas, limit, steps), quotas, ctx.height);
    ReadCorresponds(after, AdvanceTo(EagerAfter(l, quotas, limit, steps), quotas, ctx.height), quotas, ctx, a);
    QueryCorresponds(after, AdvanceTo(EagerAfter(l, quotas, limit, steps), quotas, ctx.height), quotas, ctx, a);
  }

  lemma VerdictCorresponds(st: State, l: EagerLedger, quotas: Quotas, steps: seq<Step>, i: nat)
    requires WellFormed(st) && ValidSteps(steps) && Corresponds(st, l, quotas) && i < |steps|
    requires SteadyRun(GetParams(st), steps, quotas, l.height)
    ensures Verdict(st, steps, i) == EagerVerdict(l, quotas, GetParams(st).maxTxPerBlock, steps, i)
  {
    if steps[i].DeliverTx? {
      var ctx := steps[i].ctx;
      var before := EagerAfter(l, quotas, GetParams(st).maxTxPerBlock, steps[..i]);
      assert SteadyRun(GetParams(st), steps[..i], quotas, l.height);
      RunCorresponds(st, l, quotas, steps[..i], ctx.height);
      RunKeepsWellFormed(st, steps[..i]);
      AdvanceCorresponds(After(st, steps[..i]), before, quotas, ctx.height);
      TransactCorresponds(After(st, steps[..i]), AdvanceTo(before, quotas, ctx.height), quotas, ctx, steps[i].tx);
    }
  }

  /** The reference ledger that a store starts from: every record ticked, block by block, from its own
      last update, and an account without a record from 0 mana at height 0. */
  function Start(st: State, quotas: Quotas, height: nat): EagerLedger {
    EagerLedger(height, a =>
      if a !in st.accounts then Account(Ticks(quotas(a), 0, height), 0, 0)
      else
        var r := st.accounts[a];
        Account(Ticks(quotas(a), r.mana, Max(0, height - r.lastUpdateHeight)), r.txCountThisBlock, r.lastTxBlock))
  }

  /** Every store whose records are not ahead of the chain has a reference ledger to refine. */
  lemma StartCorresponds(st: State, quotas: Quotas, height: nat)
    requires forall a | a in st.accounts :: st.accounts[a].lastUpdateHeight <= height
    ensures Corresponds(st, Start(st, quotas, height), quotas)
  {
    forall a
      ensures Matches(quotas(a), Start(st, quotas, height).accounts(a), LoadAccountMana(st, a), height)
    {
    }
  }

  /** Quotas exist for every account of a chain whose pool fits 64 bits and whose balances are at most
      the supply; the default parameters are of this kind. */
  lemma QuotasExist(p: Params, bank: Bank) returns (quotas: Quotas)
    requires forall a :: bank.balance(a) <= bank.supply
    requires Product(bank.supply, p.totalManaPool) < TWO_256
    requires Product(p.totalManaPool, Multiplier(p.manaRegenMultiplier)) < TWO_64
    ensures QuotasFor(p, bank, quotas)
  {
    quotas := a => if QuotaOf(p, bank, a).Ok? then QuotaOf(p, bank, a).value else Quota(1000, MIN_MANA_FLOOR);
    forall a
      ensures QuotaOf(p, bank, a) == Ok(quotas(a))
    {
      RateNeverFails(bank.balance(a), bank.supply, p.totalManaPool, p.manaRegenMultiplier);
    }
  }
}
