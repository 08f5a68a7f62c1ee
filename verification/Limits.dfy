/** What the two limits guarantee over whole runs: mana bounds the bandwidth an account can use, and
    the counter bounds its transactions per block. */
module Limits {
  import opened Machine
  import opened Types
  import opened Rate
  import opened Regen
  import opened Ledger
  import opened Ante
  import opened Chain

  // ---------------------------------------------------------------------------
  // Mana as a rate limit
  // ---------------------------------------------------------------------------

  /** Whether step i was accepted and paid for by a. */
  predicate PaidBy(st: State, steps: seq<Step>, i: nat, a: Addr)
    requires ValidSteps(steps) && i < |steps|
  {
    Charged(st, steps, i) && steps[i].tx.signers.Ok? && steps[i].tx.signers.value != []
    && steps[i].tx.signers.value[0] == a
  }

  /** The total cost of the accepted transactions that a paid for. */
  function Spent(st: State, steps: seq<Step>, a: Addr): nat
    requires ValidSteps(steps)
  {
    if steps == [] then 0
    else
      var n := |steps| - 1;
      Spent(st, steps[..n], a) + (if PaidBy(st, steps, n, a) then TxCost(steps[n].tx) else 0)
  }

  /** How many transactions a paid for, and their bytes (estimated where there are no raw bytes). */
  function Accepted(st: State, steps: seq<Step>, a: Addr): nat
    requires ValidSteps(steps)
  {
    if steps == [] then 0
    else
      var n := |steps| - 1;
      Accepted(st, steps[..n], a) + (if PaidBy(st, steps, n, a) then 1 else 0)
  }

  function Size(tx: Tx): nat {
    if tx.size == 0 then tx.estimate else tx.size
  }

  function BytesSent(st: State, steps: seq<Step>, a: Addr): nat
    requires ValidSteps(steps)
  {
    if steps == [] then 0
    else
      var n := |steps| - 1;
      BytesSent(st, steps[..n], a) + (if PaidBy(st, steps, n, a) then Size(steps[n].tx) else 0)
  }

  /** gain bounds what a can regenerate per block, at the bank values of every step that a signs. */
  ghost predicate GainAtMost(p: Params, steps: seq<Step>, a: Addr, gain: nat) {
    forall i | 0 <= i < |steps| :: Signs(steps[i], a) && QuotaOf(p, steps[i].ctx.bank, a).Ok?
      ==> QuotaOf(p, steps[i].ctx.bank, a).value.perBlock <= gain
  }

  lemma ReadGainsAtMost(st: State, ctx: Ctx, a: Addr, gain: nat)
    requires WellFormed(st) && ValidAddr(a)
    requires QuotaOf(GetParams(st), ctx.bank, a).Ok? ==> QuotaOf(GetParams(st), ctx.bank, a).value.perBlock <= gain
    requires GetAccountMana(st, ctx, a).Ok?
    ensures var r, read := LoadAccountMana(st, a), GetAccountMana(st, ctx, a).value;
            && r.lastUpdateHeight <= read.lastUpdateHeight
            && read.mana <= r.mana + Product(gain, read.lastUpdateHeight - r.lastUpdateHeight)
  {
    GetAccountManaExact(st, ctx, a);
    var r := LoadAccountMana(st, a);
    if r.lastUpdateHeight < ctx.height {
      var q := QuotaOf(GetParams(st), ctx.bank, a).value;
      TicksClosed(q, r.mana, ctx.height - r.lastUpdateHeight);
      MulMonotone(q.perBlock, gain, ctx.height - r.lastUpdateHeight);
    }
  }

  /** The record has advanced, and what was spent on the way plus what is left is at most what was there
      plus gain for every block advanced. */
  predicate SpendsWithin(before: AccountMana, after: AccountMana, cost: nat, gain: nat) {
    && before.lastUpdateHeight <= after.lastUpdateHeight
    && cost + after.mana <= before.mana + Product(gain, after.lastUpdateHeight - before.lastUpdateHeight)
  }

  lemma SignerSpendsWithin(st: State, ctx: Ctx, tx: Tx, a: Addr, after: AccountMana, gain: nat)
    requires WellFormed(st) && ValidAddr(a) && ValidTx(tx) && tx.signers.Ok?
    requires SignerRecord(st, ctx, tx, a, after)
    requires QuotaOf(GetParams(st), ctx.bank, a).Ok? ==> QuotaOf(GetParams(st), ctx.bank, a).value.perBlock <= gain
    ensures SpendsWithin(LoadAccountMana(st, a), after, Charge(tx, a), gain)
  {
    ReadGainsAtMost(st, ctx, a, gain);
  }

  lemma SpendingComposes(r0: AccountMana, r1: AccountMana, r2: AccountMana, c1: nat, c2: nat, gain: nat)
    requires SpendsWithin(r0, r1, c1, gain) && SpendsWithin(r1, r2, c2, gain)
    ensures SpendsWithin(r0, r2, c1 + c2, gain)
  {
    Distribute(r1.lastUpdateHeight - r0.lastUpdateHeight, r2.lastUpdateHeight - r1.lastUpdateHeight, gain);
  }

  /** One step of the rate limit. */
  lemma SpendingStep(st: State, steps: seq<Step>, a: Addr, gain: nat)
    requires WellFormed(st) && ValidSteps(steps) && ValidAddr(a) && steps != []
    requires GainAtMost(GetParams(st), steps, a, gain)
    ensures var n := |steps| - 1;
            SpendsWithin(LoadAccountMana(After(st, steps[..n]), a), LoadAccountMana(After(st, steps), a),
                         if PaidBy(st, steps, n, a) then TxCost(steps[n].tx) else 0, gain)
  {
    var n := |steps| - 1;
    var before := After(st, steps[..n]);
    var cost := if PaidBy(st, steps, n, a) then TxCost(steps[n].tx) else 0;
    LastStep(st, steps, a);
    if Charged(st, steps, n) && Signs(steps[n], a) {
      RunKeepsWellFormed(st, steps[..n]);
      SignerSpendsWithin(before, steps[n].ctx, steps[n].tx, a, After(st, steps).accounts[a], gain);
      assert cost == Charge(steps[n].tx, a);
    } else {
      assert cost == 0;
      assert Product(gain, 0) == 0;
    }
  }

  /** The rate limit.  However balances, supply and heights move between steps, what an account has
      spent plus what it still holds never exceeds what it started with plus the gain for the blocks
      its record has advanced. */
  lemma {:induction false} RateLimit(st: State, steps: seq<Step>, a: Addr, gain: nat)
    requires WellFormed(st) && ValidSteps(steps) && ValidAddr(a)
    requires GainAtMost(GetParams(st), steps, a, gain)
    ensures SpendsWithin(LoadAccountMana(st, a), LoadAccountMana(After(st, steps), a), Spent(st, steps, a), gain)
  {
    if steps == [] {
      assert Product(gain, 0) == 0;
    } else {
      var n := |steps| - 1;
      RateLimit(st, steps[..n], a, gain);
      SpendingStep(st, steps, a, gain);
      SpendingComposes(LoadAccountMana(st, a), LoadAccountMana(After(st, steps[..n]), a),
                       LoadAccountMana(After(st, steps), a), Spent(st, steps[..n], a),
                       if PaidBy(st, steps, n, a) then TxCost(steps[n].tx) else 0, gain);
    }
  }

  lemma {:induction false} SpentIsBaseAndBytes(st: State, steps: seq<Step>, a: Addr)
    requires ValidSteps(steps)
    ensures Spent(st, steps, a) == 100 * Accepted(st, steps, a) + BytesSent(st, steps, a)
  {
    if steps != [] {
      var n := |steps| - 1;
      SpentIsBaseAndBytes(st, steps[..n], a);
      if steps[n].DeliverTx? {
        CostIsSizePlusBase(Size(steps[n].tx));
      }
    }
  }

  /** The same in transactions and bytes. */
  lemma Throughput(st: State, steps: seq<Step>, a: Addr, gain: nat)
    requires WellFormed(st) && ValidSteps(steps) && ValidAddr(a)
    requires GainAtMost(GetParams(st), steps, a, gain)
    ensures SpendsWithin(LoadAccountMana(st, a), LoadAccountMana(After(st, steps), a),
                         100 * Accepted(st, steps, a) + BytesSent(st, steps, a), gain)
  {
    var total := 100 * Accepted(st, steps, a) + BytesSent(st, steps, a);
    assert Spent(st, steps, a) == total by {
      SpentIsBaseAndBytes(st, steps, a);
    }
    RateLimit(st, steps, a, gain);
  }

  /** Whenever a signs, its balance is at most the supply. */
  ghost predicate SaneBalances(steps: seq<Step>, a: Addr) {
    forall i | 0 <= i < |steps| :: Signs(steps[i], a) ==> steps[i].ctx.bank.balance(a) <= steps[i].ctx.bank.supply
  }

  /** No bank values let an account of at most the supply gain more than the larger of TopGain and 1000. */
  lemma TopGainHolds(p: Params, steps: seq<Step>, a: Addr)
    requires SaneBalances(steps, a)
    ensures GainAtMost(p, steps, a, Max(1000, TopGain(p)))
  {
    forall i | 0 <= i < |steps| && Signs(steps[i], a) && QuotaOf(p, steps[i].ctx.bank, a).Ok?
      ensures QuotaOf(p, steps[i].ctx.bank, a).value.perBlock <= Max(1000, TopGain(p))
    {
      GainAtMostTop(p, steps[i].ctx.bank, a);
    }
  }

  lemma DefaultGain(steps: seq<Step>, a: Addr)
    requires SaneBalances(steps, a)
    ensures GainAtMost(DEFAULT_PARAMS, steps, a, 1000)
  {
    assert TopGain(DEFAULT_PARAMS) == 31;
    TopGainHolds(DEFAULT_PARAMS, steps, a);
  }

  /** Under the default parameters the gain is 1000 per block for everyone: whatever an account's
      balance, its accepted transactions and bytes stay within its starting mana and 1000 per block. */
  lemma DefaultThroughput(st: State, steps: seq<Step>, a: Addr)
    requires WellFormed(st) && ValidSteps(steps) && ValidAddr(a)
    requires GetParams(st) == DEFAULT_PARAMS && SaneBalances(steps, a)
    ensures SpendsWithin(LoadAccountMana(st, a), LoadAccountMana(After(st, steps), a),
                         100 * Accepted(st, steps, a) + BytesSent(st, steps, a), 1000)
  {
    DefaultGain(steps, a);
    Throughput(st, steps, a, 1000);
  }

  /** Draining an account to exactly 0 does not refill it: n blocks later it has what n blocks give. */
  lemma DrainedStaysDrained(st: State, ctx: Ctx, later: Ctx, a: Addr)
    requires WellFormed(st) && ValidAddr(a)
    requires GetAccountMana(st, ctx, a).Ok? && ctx.height <= later.height
    requires LoadAccountMana(st, a).lastUpdateHeight <= ctx.height
    requires QuotaOf(GetParams(st), later.bank, a).Ok?
    ensures var o := ConsumeMana(st, ctx, a, GetAccountMana(st, ctx, a).value.mana);
            && o.Done()
            && GetAccountMana(o.st, ctx, a).Ok? && GetAccountMana(o.st, ctx, a).value.mana == 0
            && GetAccountMana(o.st, later, a).Ok?
            && GetAccountMana(o.st, later, a).value.mana
               == Ticks(QuotaOf(GetParams(st), later.bank, a).value, 0, later.height - ctx.height)
  {
    var cost := GetAccountMana(st, ctx, a).value.mana;
    var o := ConsumeMana(st, ctx, a, cost);
    GetAccountManaExact(st, ctx, a);
    OperationsKeepWellFormed(st, ctx, a, cost);
    GetAccountManaExact(o.st, ctx, a);
    GetAccountManaExact(o.st, later, a);
  }

  // ---------------------------------------------------------------------------
  // Transactions per block
  // ---------------------------------------------------------------------------

  /** The log: how often the run has counted account a at the given height. */
  function Logged(st: State, steps: seq<Step>, a: Addr, height: int64): nat
    requires ValidSteps(steps)
  {
    if steps == [] then 0
    else
      var n := |steps| - 1;
      Logged(st, steps[..n], a, height)
      + (if Charged(st, steps, n) && steps[n].tx.signers.Ok? && steps[n].ctx.height == height
         then Occurrences(steps[n].tx.signers.value, a) else 0)
  }

  /** Heights start at first or later, never go backwards, and have reached at most last. */
  predicate HeightsBetween(steps: seq<Step>, first: int64, last: int64) {
    && (forall i | 0 <= i < |steps| :: steps[i].DeliverTx? ==> first <= steps[i].ctx.height <= last)
    && (forall i, j | 0 <= i < j < |steps| ::
          steps[i].DeliverTx? && steps[j].DeliverTx? ==> steps[i].ctx.height <= steps[j].ctx.height)
  }

  /** Nothing counted yet at the given height or later. */
  predicate NotYetCounted(acct: AccountMana, first: int64) {
    acct.lastTxBlock < first || (acct.lastTxBlock == first && acct.txCountThisBlock == 0)
  }

  lemma ReadKeepsCounters(st: State, ctx: Ctx, a: Addr)
    requires GetAccountMana(st, ctx, a).Ok?
    ensures GetAccountMana(st, ctx, a).value.lastTxBlock == LoadAccountMana(st, a).lastTxBlock
    ensures GetAccountMana(st, ctx, a).value.txCountThisBlock == LoadAccountMana(st, a).txCountThisBlock
  {
  }

  /** What one accepted transaction does to a signer's counter, when the limit fits 32 bits. */
  lemma SignerCounts(st: State, ctx: Ctx, tx: Tx, a: Addr, after: AccountMana)
    requires ValidTx(tx) && tx.signers.Ok?
    requires SignerRecord(st, ctx, tx, a, after) && HasRoom(st, ctx, tx.signers.value, a)
    requires GetParams(st).maxTxPerBlock < TWO_32
    ensures after.lastTxBlock == ctx.height
    ensures after.txCountThisBlock
            == CountedAt(LoadAccountMana(st, a), ctx.height) + Occurrences(tx.signers.value, a)
            <= GetParams(st).maxTxPerBlock
  {
    ReadKeepsCounters(st, ctx, a);
    var count := CountedAt(LoadAccountMana(st, a), ctx.height) + Occurrences(tx.signers.value, a);
    assert count % TWO_32 == count by {
      assert count <= GetParams(st).maxTxPerBlock;
    }
  }

  /** One step of the log, seen from one account. */
  lemma CountingStep(st: State, steps: seq<Step>, a: Addr)
    requires ValidSteps(steps) && steps != []
    requires GetParams(After(st, steps[..|steps| - 1])).maxTxPerBlock < TWO_32
    ensures var n := |steps| - 1;
            var before, after := LoadAccountMana(After(st, steps[..n]), a), LoadAccountMana(After(st, steps), a);
            if Charged(st, steps, n) && Signs(steps[n], a)
            then
              && after.lastTxBlock == steps[n].ctx.height
              && after.txCountThisBlock
                 == CountedAt(before, steps[n].ctx.height) + Occurrences(steps[n].tx.signers.value, a)
                 <= GetParams(After(st, steps[..n])).maxTxPerBlock
            else
              after.lastTxBlock == before.lastTxBlock && after.txCountThisBlock == before.txCountThisBlock
  {
    var n := |steps| - 1;
    LastStep(st, steps, a);
    if Charged(st, steps, n) && Signs(steps[n], a) {
      DeliverExact(After(st, steps[..n]), steps[n].ctx, steps[n].tx);
      assert HasRoom(After(st, steps[..n]), steps[n].ctx, steps[n].tx.signers.value, a);
      SignerCounts(After(st, steps[..n]), steps[n].ctx, steps[n].tx, a, After(st, steps).accounts[a]);
    }
  }

  /** The one counter of a record is the log, for every height that can still be asked about; and the
      log of every height keeps to the limit, so the 32-bit counter never wraps. */
  lemma {:induction false} CounterIsLog(st: State, steps: seq<Step>, a: Addr, first: int64, last: int64)
    requires ValidSteps(steps) && HeightsBetween(steps, first, last) && first <= last
    requires NotYetCounted(LoadAccountMana(st, a), first)
    requires GetParams(st).maxTxPerBlock < TWO_32
    ensures LoadAccountMana(After(st, steps), a).lastTxBlock <= last
    ensures forall h: int64 | h >= first && h >= LoadAccountMana(After(st, steps), a).lastTxBlock ::
              CountedAt(LoadAccountMana(After(st, steps), a), h) == Logged(st, steps, a, h)
    ensures forall h: int64 :: Logged(st, steps, a, h) <= GetParams(st).maxTxPerBlock
    ensures GetParams(After(st, steps)) == GetParams(st)
  {
    if steps != [] {
      var n := |steps| - 1;
      var init := steps[..n];
      var now := if steps[n].DeliverTx? then steps[n].ctx.height else last;
      assert HeightsBetween(init, first, now);
      CounterIsLog(st, init, a, first, now);
      LastStep(st, steps, a);
      CountingStep(st, steps, a);
      LoggedStep(st, steps, a);
      if steps[n].DeliverTx? && steps[n].tx.signers.Ok? {
        OccursIffIn(steps[n].tx.signers.value, a);
      }
    }
  }

  lemma LoggedStep(st: State, steps: seq<Step>, a: Addr)
    requires ValidSteps(steps) && steps != []
    ensures var n := |steps| - 1;
            forall h: int64 :: Logged(st, steps, a, h) == Logged(st, steps[..n], a, h)
              + (if Charged(st, steps, n) && steps[n].tx.signers.Ok? && steps[n].ctx.height == h
                 then Occurrences(steps[n].tx.signers.value, a) else 0)
  {
  }

  /** The per-block limit: no account is counted more than MaxTxPerBlock times at any height, and a
      further transaction has room for a signer exactly when the log of its height is not too full. */
  lemma PerBlockLimit(st: State, steps: seq<Step>, a: Addr, first: int64, ctx: Ctx, signers: seq<Addr>)
    requires ValidSteps(steps) && HeightsBetween(steps, first, ctx.height) && first <= ctx.height
    requires NotYetCounted(LoadAccountMana(st, a), first)
    requires GetParams(st).maxTxPerBlock < TWO_32
    requires GetAccountMana(After(st, steps), ctx, a).Ok?
    ensures forall h: int64 :: Logged(st, steps, a, h) <= GetParams(st).maxTxPerBlock
    ensures HasRoom(After(st, steps), ctx, signers, a)
            <==> Logged(st, steps, a, ctx.height) + Occurrences(signers, a) <= GetParams(st).maxTxPerBlock
    ensures IncrementTxCount(After(st, steps), ctx, a).Done()
            <==> Logged(st, steps, a, ctx.height) < GetParams(st).maxTxPerBlock
  {
    CounterIsLog(st, steps, a, first, ctx.height);
    ReadKeepsCounters(After(st, steps), ctx, a);
  }

  /** How many of n attempts in a row, at one height, are counted. */
  function Successes(st: State, ctx: Ctx, a: Addr, n: nat): nat
    decreases n
  {
    if n == 0 then 0
    else
      var o := IncrementTxCount(st, ctx, a);
      (if o.Done() then 1 else 0) + Successes(o.st, ctx, a, n - 1)
  }

  lemma IncrementStep(st: State, ctx: Ctx, a: Addr)
    requires GetAccountMana(st, ctx, a).Ok?
    ensures var o, p := IncrementTxCount(st, ctx, a), GetParams(st);
            var count := CountedAt(GetAccountMana(st, ctx, a).value, ctx.height);
            && GetParams(o.st) == p
            && GetAccountMana(o.st, ctx, a).Ok?
            && (o.Done() <==> count < p.maxTxPerBlock)
            && CountedAt(GetAccountMana(o.st, ctx, a).value, ctx.height)
               == if o.Done() then AddUint32(count, 1) else count
  {
    if IncrementTxCount(st, ctx, a).Done() {
      ReadYourWrite(st, ctx, a, Counted(GetAccountMana(st, ctx, a).value, ctx.height, 1));
    }
  }

  /** The number of successes from a given counter. */
  function Room(limit: uint64, count: uint32, n: nat): nat {
    if limit < TWO_32 then Min(n, Max(0, limit - count)) else n
  }

  lemma RoomShrinks(limit: uint64, count: uint32, n: nat)
    requires n > 0
    ensures Room(limit, count, n)
            == if count < limit then 1 + Room(limit, AddUint32(count, 1), n - 1) else Room(limit, count, n - 1)
  {
  }

  lemma {:induction false} SuccessesExact(st: State, ctx: Ctx, a: Addr, n: nat)
    requires GetAccountMana(st, ctx, a).Ok?
    ensures Successes(st, ctx, a, n)
            == Room(GetParams(st).maxTxPerBlock, CountedAt(GetAccountMana(st, ctx, a).value, ctx.height), n)
    decreases n
  {
    if n > 0 {
      IncrementStep(st, ctx, a);
      SuccessesExact(IncrementTxCount(st, ctx, a).st, ctx, a, n - 1);
      RoomShrinks(GetParams(st).maxTxPerBlock, CountedAt(GetAccountMana(st, ctx, a).value, ctx.height), n);
    }
  }

  /** When the limit means what it says: it bounds an account's transactions per block exactly when
      MaxTxPerBlock fits the 32-bit counter.  From 2^32 on, which Validate admits, nothing is refused. */
  lemma LimitHoldsIffItFits(st: State, ctx: Ctx, a: Addr)
    requires GetAccountMana(st, ctx, a).Ok? && CountedAt(GetAccountMana(st, ctx, a).value, ctx.height) == 0
    ensures (forall n: nat :: Successes(st, ctx, a, n) <= GetParams(st).maxTxPerBlock)
            <==> GetParams(st).maxTxPerBlock < TWO_32
  {
    forall n: nat
      ensures GetParams(st).maxTxPerBlock < TWO_32 ==> Successes(st, ctx, a, n) <= GetParams(st).maxTxPerBlock
    {
      SuccessesExact(st, ctx, a, n);
    }
    SuccessesExact(st, ctx, a, GetParams(st).maxTxPerBlock + 1);
  }

  /** A chain without stored parameters, or with the default ones: an account not counted yet at a height
      gets exactly 20 transactions of n there, and one without coins has 1000 mana per block since
      height 0, up to 1,000,000. */
  lemma DefaultAllowance(st: State, ctx: Ctx, a: Addr, n: nat)
    requires WellFormed(st) && ValidAddr(a) && a !in st.accounts && ctx.height > 0
    requires st.params == None || st.params == Some(Params(1_000_000_000, 20, 31_557_600, 1))
    requires ctx.bank.balance(a) == 0
    ensures GetParams(st) == Params(1_000_000_000, 20, 31_557_600, 1)
    ensures Successes(st, ctx, a, n) == Min(n, 20)
    ensures GetAccountMana(st, ctx, a).Ok?
    ensures GetAccountMana(st, ctx, a).value.mana == Min(1000 * ctx.height, 1_000_000)
  {
    QuotaExact(GetParams(st), ctx.bank, a);
    FreshAccountAccrues(st, ctx, a);
    ReadKeepsCounters(st, ctx, a);
    SuccessesExact(st, ctx, a, n);
  }

  // ---------------------------------------------------------------------------
  // When an idle account can pay again
  // ---------------------------------------------------------------------------

  /** The exact refill time: an idle account whose cap is at least its mana can pay a cost above its
      mana exactly from block ceil((cost - mana) / perBlock) on, if its cap covers the cost, and
      otherwise never. */
  lemma RefillTime(st: State, ctx: Ctx, a: Addr, cost: uint64)
    requires WellFormed(st) && ValidAddr(a)
    requires LoadAccountMana(st, a).lastUpdateHeight <= ctx.height
    requires QuotaOf(GetParams(st), ctx.bank, a).Ok?
    requires LoadAccountMana(st, a).mana < cost
    ensures var r, q := LoadAccountMana(st, a), QuotaOf(GetParams(st), ctx.bank, a).value;
            ConsumeMana(st, ctx, a, cost).Done() <==>
              cost <= q.cap
              && ctx.height - r.lastUpdateHeight >= CeilDiv(cost - r.mana, q.perBlock)
  {
    var r, q := LoadAccountMana(st, a), QuotaOf(GetParams(st), ctx.bank, a).value;
    var n := ctx.height - r.lastUpdateHeight;
    GetAccountManaExact(st, ctx, a);
    TicksClosed(q, r.mana, n);
    CeilDivLeast(cost - r.mana, q.perBlock, n);
  }

  /** A floor account is full after 1000 blocks, and never fuller. */
  lemma FloorRefill(q: Quota, mana: nat, n: nat)
    requires q.cap == MIN_MANA_FLOOR && q.perBlock >= 1000 && n > 0
    ensures Ticks(q, mana, n) <= MIN_MANA_FLOOR
    ensures n >= 1000 ==> Ticks(q, mana, n) == MIN_MANA_FLOOR
  {
    TicksClosed(q, mana, n);
    MulMonotone(1000, q.perBlock, n);
  }

  /** An account at the free floor, once regenerated, can never pay for a transaction of more than
      999,900 bytes, although sizes up to exactly 1,048,576 pass the size limit; any smaller one it can pay
      for after at most 1000 idle blocks. */
  lemma FloorAccountSizeLimit(st: State, ctx: Ctx, tx: Tx, a: Addr)
    requires WellFormed(st) && ValidTx(tx) && ValidAddr(a)
    requires 0 < tx.size
    requires LoadAccountMana(st, a).lastUpdateHeight < ctx.height
    requires QuotaOf(GetParams(st), ctx.bank, a).Ok?
    requires QuotaOf(GetParams(st), ctx.bank, a).value.cap == MIN_MANA_FLOOR
    ensures TxSizeLimit(Deliver, tx).None? <==> tx.size <= 1_048_576
    ensures tx.size > 999_900 ==> ConsumeMana(st, ctx, a, TxCost(tx)) == Outcome(st, Some(InsufficientBandwidth))
    ensures tx.size <= 999_900 && ctx.height - LoadAccountMana(st, a).lastUpdateHeight >= 1000
            ==> ConsumeMana(st, ctx, a, TxCost(tx)).Done()
  {
    var r, q := LoadAccountMana(st, a), QuotaOf(GetParams(st), ctx.bank, a).value;
    var n := ctx.height - r.lastUpdateHeight;
    GetAccountManaExact(st, ctx, a);
    FloorRefill(q, r.mana, n);
    CostIsSizePlusBase(tx.size);
    assert GetAccountMana(st, ctx, a).value.mana == Ticks(q, r.mana, n);
  }
}
