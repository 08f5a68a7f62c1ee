/** The bandwidth of the network while coins move.  A touch regenerates with the closing balance only, so
    one stake can earn on every account that it visits; for which parameters that breaks the network's
    bound is decided here. */
module Circulation {
  import opened Machine
  import opened Types
  import opened Rate
  import opened Regen
  import opened Ledger
  import opened Ante
  import opened Chain
  import opened Limits
  import opened Network
  import Pow

  // ---------------------------------------------------------------------------
  // What holds however coins move
  // ---------------------------------------------------------------------------

  lemma {:induction false} SumOfConstant(xs: seq<nat>, c: nat)
    requires forall i | 0 <= i < |xs| :: xs[i] == c
    ensures Sum(xs) == Product(|xs|, c)
  {
    if xs == [] {
      assert Product(0, c) == 0;
    } else {
      SumOfConstant(xs[1..], c);
      Distribute(1, |xs| - 1, c);
    }
  }

  /** With balances that move freely up to the supply, each holder may use the larger of the top gain and
      1000 for every block. */
  lemma MovingThroughput(st: State, steps: seq<Step>, holders: seq<Addr>, first: int, last: int64)
    requires ValidSteps(steps) && Stretch(st, steps, holders, first, last)
    requires forall k | 0 <= k < |holders| :: SaneBalances(steps, holders[k])
    ensures Sum(Uses(st, steps, holders))
            <= Sum(Manas(st, holders)) + Product(Product(|holders|, Max(1000, TopGain(GetParams(st)))), last - first)
  {
    var gain: nat := Max(1000, TopGain(GetParams(st)));
    var gains: seq<nat> := seq(|holders|, i => gain);
    forall k | 0 <= k < |holders|
      ensures GainAtMost(GetParams(st), steps, holders[k], gains[k])
    {
      TopGainHolds(GetParams(st), steps, holders[k]);
    }
    SumOfConstant(gains, gain);
    HoldersUseWithin(st, steps, holders, gains, Product(|holders|, gain), first, last);
  }

  /** The network under the default parameters: 1000 per holder and block, and nothing beyond it. */
  lemma DefaultNetworkThroughput(st: State, steps: seq<Step>, holders: seq<Addr>, first: int, last: int64)
    requires ValidSteps(steps) && Stretch(st, steps, holders, first, last)
    requires forall k | 0 <= k < |holders| :: SaneBalances(steps, holders[k])
    requires GetParams(st) == DEFAULT_PARAMS
    ensures Sum(Uses(st, steps, holders)) <= Sum(Manas(st, holders)) + Product(1000 * |holders|, last - first)
  {
    assert TopGain(DEFAULT_PARAMS) == 31;
    MovingThroughput(st, steps, holders, first, last);
  }

  // ---------------------------------------------------------------------------
  // A stake that visits many wallets
  // ---------------------------------------------------------------------------

  /** Addresses of 20 bytes. */
  function Wallet(i: nat): (a: Addr)
    ensures ValidAddr(a)
  {
    Pow.PutBigEndian(20, i)
  }

  lemma WalletsDiffer(i: nat, j: nat)
    requires i < TWO_64 * TWO_64 && j < TWO_64 * TWO_64 && i != j
    ensures Wallet(i) != Wallet(j)
  {
    Pow.Pow2Add(64, 64);
    Pow.MachineWidths();
    Pow.Pow2Monotone(128, 160);
    Pow.BigEndianRoundTrip(20, i);
    Pow.BigEndianRoundTrip(20, j);
  }

  /** The top share in one hand, where the supply is as large as the pool. */
  function HeldBy(p: Params, owner: Addr): Bank {
    Bank(a => if a == owner then TopShare(p) else 0, p.totalManaPool)
  }

  /** In block 1, the holder of the stake sends one byte. */
  function Visit(p: Params, owner: Addr): Step {
    DeliverTx(Ctx(HeldBy(p, owner), 1), Tx(1, 0, Ok([owner]), 0, [], true, true))
  }

  /** The stake visits n wallets within block 1. */
  function Tour(p: Params, n: nat): (steps: seq<Step>)
    ensures ValidSteps(steps)
  {
    seq(n, i requires 0 <= i < n => Visit(p, Wallet(i)))
  }

  /** A visited wallet without a record reads the whole top gain, and pays 101 of it. */
  lemma VisitExact(st: State, p: Params, owner: Addr)
    requires WellFormed(st) && GetParams(st) == p && ValidateParams(p).None?
    requires ValidAddr(owner) && owner !in st.accounts
    requires TopGain(p) > 1000
    ensures Apply(st, Visit(p, owner)).Done()
    ensures LoadAccountMana(Apply(st, Visit(p, owner)).st, owner).mana == TopGain(p) - 101
  {
    var step := Visit(p, owner);
    TopGainReached(p, step.ctx.bank, owner);
    FreshAccountAccrues(st, step.ctx, owner);
    GetAccountManaExact(st, step.ctx, owner);
    CostIsSizePlusBase(1);
    assert Occurrences([owner], owner) == 1;
    DeliverExact(st, step.ctx, step.tx);
    assert HasRoom(st, step.ctx, [owner], owner);
    assert EffectOn(st, step.ctx, step.tx, Apply(st, step).st, owner);
  }

  /** A step that an account does not sign leaves its record and its totals alone. */
  lemma IdleStep(st: State, steps: seq<Step>, a: Addr)
    requires ValidSteps(steps) && steps != [] && !Signs(steps[|steps| - 1], a)
    ensures var init := steps[..|steps| - 1];
            && Accepted(st, steps, a) == Accepted(st, init, a)
            && BytesSent(st, steps, a) == BytesSent(st, init, a)
            && (a in After(st, steps).accounts <==> a in After(st, init).accounts)
            && LoadAccountMana(After(st, steps), a).mana == LoadAccountMana(After(st, init), a).mana
  {
    LastStep(st, steps, a);
  }

  /** A visit at the end of a run. */
  lemma VisitStep(st: State, steps: seq<Step>, p: Params, a: Addr)
    requires WellFormed(st) && GetParams(st) == p && ValidateParams(p).None? && TopGain(p) > 1000
    requires ValidSteps(steps) && steps != [] && steps[|steps| - 1] == Visit(p, a)
    requires ValidAddr(a) && a !in After(st, steps[..|steps| - 1]).accounts
    ensures var init := steps[..|steps| - 1];
            && Accepted(st, steps, a) == Accepted(st, init, a) + 1
            && BytesSent(st, steps, a) == BytesSent(st, init, a) + 1
            && LoadAccountMana(After(st, steps), a).mana == TopGain(p) - 101
  {
    var n := |steps| - 1;
    RunKeepsWellFormed(st, steps[..n]);
    VisitExact(After(st, steps[..n]), p, a);
    assert PaidBy(st, steps, n, a);
  }

  /** A tour seen from wallet i: if it was visited it has sent one transaction of one byte and kept the
      rest of the top gain, and if not it has no record and has sent nothing. */
  lemma {:induction false} TourOn(st: State, p: Params, n: nat, i: nat)
    requires WellFormed(st) && GetParams(st) == p && ValidateParams(p).None? && st.accounts == map[]
    requires TopGain(p) > 1000
    requires n <= TWO_64 * TWO_64 && i < TWO_64 * TWO_64
    ensures var a, steps := Wallet(i), Tour(p, n);
            if i < n
            then Accepted(st, steps, a) == 1 && BytesSent(st, steps, a) == 1
                 && LoadAccountMana(After(st, steps), a).mana == TopGain(p) - 101
            else Accepted(st, steps, a) == 0 && BytesSent(st, steps, a) == 0
                 && a !in After(st, steps).accounts
  {
    if n > 0 {
      var steps := Tour(p, n);
      assert steps[..n - 1] == Tour(p, n - 1) && steps[n - 1] == Visit(p, Wallet(n - 1));
      TourOn(st, p, n - 1, i);
      if i == n - 1 {
        VisitStep(st, steps, p, Wallet(i));
      } else {
        WalletsDiffer(i, n - 1);
        IdleStep(st, steps, Wallet(i));
      }
    }
  }

  lemma TourUse(st: State, p: Params, n: nat, i: nat)
    requires WellFormed(st) && GetParams(st) == p && ValidateParams(p).None? && st.accounts == map[]
    requires TopGain(p) > 1000
    requires i < n <= TWO_64 * TWO_64
    ensures Use(st, Tour(p, n), Wallet(i)) == TopGain(p)
  {
    TourOn(st, p, n, i);
  }

  function Wallets(n: nat): seq<Addr> {
    seq(n, i requires 0 <= i < n => Wallet(i))
  }

  /** Balances of different accounts of which one holds the stake. */
  lemma {:induction false} StakeCountsOnce(p: Params, owner: Addr, holders: seq<Addr>)
    requires Distinct(holders)
    ensures Sum(BalancesOf(HeldBy(p, owner), holders)) == if owner in holders then TopShare(p) else 0
  {
    if holders != [] {
      var bank := HeldBy(p, owner);
      assert BalancesOf(bank, holders)[1..] == BalancesOf(bank, holders[1..]);
      StakeCountsOnce(p, owner, holders[1..]);
      assert forall j | 0 < j < |holders| :: holders[0] != holders[j];
    }
  }

  // ---------------------------------------------------------------------------
  // When the bound holds
  // ---------------------------------------------------------------------------

  predicate Distinct(holders: seq<Addr>) {
    forall i, j | 0 <= i < j < |holders| :: holders[i] != holders[j]
  }

  /** A run in which coins move freely among different holders, who never own more than the supply. */
  ghost predicate CirculatingRun(st: State, steps: seq<Step>, holders: seq<Addr>, first: int, last: int64) {
    && ValidSteps(steps) && Stretch(st, steps, holders, first, last) && Distinct(holders)
    && forall i | 0 <= i < |steps| :: steps[i].DeliverTx? ==>
         Sum(BalancesOf(steps[i].ctx.bank, holders)) <= steps[i].ctx.bank.supply
  }

  lemma {:induction false} BalanceAt(bank: Bank, holders: seq<Addr>, k: nat)
    requires k < |holders|
    ensures BalancesOf(bank, holders)[k] == bank.balance(holders[k])
  {
    if k > 0 {
      BalanceAt(bank, holders[1..], k - 1);
    }
  }

  lemma BalanceWithinSupply(bank: Bank, holders: seq<Addr>, k: nat)
    requires k < |holders| && Sum(BalancesOf(bank, holders)) <= bank.supply
    ensures bank.balance(holders[k]) <= bank.supply
  {
    BalanceAt(bank, holders, k);
    MemberAtMostSum(BalancesOf(bank, holders), k);
  }

  lemma CirculatingIsSane(st: State, steps: seq<Step>, holders: seq<Addr>, first: int, last: int64, k: nat)
    requires CirculatingRun(st, steps, holders, first, last) && k < |holders|
    ensures SaneBalances(steps, holders[k])
  {
    forall i | 0 <= i < |steps| && Signs(steps[i], holders[k])
      ensures steps[i].ctx.bank.balance(holders[k]) <= steps[i].ctx.bank.supply
    {
      BalanceWithinSupply(steps[i].ctx.bank, holders, k);
    }
  }

  lemma FloorWithinNetworkGain(p: Params, n: nat)
    ensures Product(n, 1000) <= NetworkGain(p, n)
  {
  }

  lemma CirculatingBound(st: State, steps: seq<Step>, holders: seq<Addr>, first: int, last: int64)
    requires CirculatingRun(st, steps, holders, first, last)
    requires TopGain(GetParams(st)) <= 1000
    ensures WithinNetworkGain(st, steps, holders, first, last)
  {
    forall k | 0 <= k < |holders|
      ensures SaneBalances(steps, holders[k])
    {
      CirculatingIsSane(st, steps, holders, first, last, k);
    }
    MovingThroughput(st, steps, holders, first, last);
    FloorWithinNetworkGain(GetParams(st), |holders|);
    BoundLoosens(Sum(Uses(st, steps, holders)), Sum(Manas(st, holders)), Product(|holders|, 1000),
                 NetworkGain(GetParams(st), |holders|), last - first);
  }

  /** The tour is such a run. */
  lemma TourCirculates(st: State, p: Params, n: nat)
    requires WellFormed(st) && GetParams(st) == p && st.accounts == map[] && n <= TWO_64 * TWO_64
    ensures CirculatingRun(st, Tour(p, n), Wallets(n), 0, 1)
  {
    var holders, steps := Wallets(n), Tour(p, n);
    forall i, j | 0 <= i < j < |holders|
      ensures holders[i] != holders[j]
    {
      WalletsDiffer(i, j);
    }
    forall i | 0 <= i < |steps|
      ensures Sum(BalancesOf(steps[i].ctx.bank, holders)) <= steps[i].ctx.bank.supply
    {
      StakeCountsOnce(p, Wallet(i), holders);
    }
  }

  /** More wallets than the network's own gain make the difference. */
  lemma TourArithmetic(shared: nat, top: nat)
    requires top > 1000
    ensures Product(shared + 1, top) > shared + 1000 * (shared + 1)
  {
    MulMonotone(1001, top, shared + 1);
    assert Product(shared + 1, top) == top * (shared + 1);
  }

  lemma PoolGainFits(p: Params)
    ensures PoolGain(p) < TWO_64 * TWO_64
  {
    var m := Multiplier(p.manaRegenMultiplier);
    FloorAtMost(Product(p.totalManaPool, m), BlocksPerYear(p));
    MulMonotone(p.totalManaPool, TWO_64 - 1, m);
    MulMonotone(m, TWO_64, TWO_64 - 1);
  }

  lemma TourBreaksTheBound(st: State, p: Params, n: nat)
    requires WellFormed(st) && GetParams(st) == p && ValidateParams(p).None? && st.accounts == map[]
    requires TopGain(p) > 1000 && n == PoolGain(p) + 1
    ensures CirculatingRun(st, Tour(p, n), Wallets(n), 0, 1)
    ensures !WithinNetworkGain(st, Tour(p, n), Wallets(n), 0, 1)
  {
    PoolGainFits(p);
    TourCirculates(st, p, n);
    var uses, manas := Uses(st, Tour(p, n), Wallets(n)), Manas(st, Wallets(n));
    forall i | 0 <= i < n
      ensures uses[i] == TopGain(p)
    {
      TourUse(st, p, n, i);
    }
    SumOfConstant(uses, TopGain(p));
    SumOfConstant(manas, 0);
    assert Product(n, 0) == 0;
    TourArithmetic(PoolGain(p), TopGain(p));
    assert Product(NetworkGain(p, n), 1) == NetworkGain(p, n);
  }

  /** The exact condition.  For parameters that SetParams admits, the network's bound survives every
      movement of coins within the supply if and only if the top gain does not exceed the free 1000 per
      block.  Where the pool times the multiplier fits 64 bits, the top gain is just the pool's gain. */
  lemma BoundSurvivesCirculationIff(cfg: Config, p: Params)
    requires Lawful(cfg) && ValidateParams(p).None?
    ensures (forall st: State, steps, holders, first, last: int64 |
               st.cfg == cfg && GetParams(st) == p && CirculatingRun(st, steps, holders, first, last) ::
               WithinNetworkGain(st, steps, holders, first, last))
            <==> TopGain(p) <= 1000
    ensures var m: nat := if p.manaRegenMultiplier == 0 then 1 else p.manaRegenMultiplier;
            && TopGain(p) == Min(p.totalManaPool, (TWO_64 - 1) / m) * m / p.blocksPerYear
            && (p.totalManaPool * m < TWO_64 ==> TopGain(p) == p.totalManaPool * m / p.blocksPerYear)
  {
    GainsInNumbers(p);
    TopRateFits(p);
    forall st: State, steps, holders, first, last: int64 |
      TopGain(p) <= 1000 && st.cfg == cfg && GetParams(st) == p && CirculatingRun(st, steps, holders, first, last)
      ensures WithinNetworkGain(st, steps, holders, first, last)
    {
      CirculatingBound(st, steps, holders, first, last);
    }
    if TopGain(p) > 1000 {
      TourBreaksTheBound(State(cfg, Some(p), map[], []), p, PoolGain(p) + 1);
    }
  }
}
