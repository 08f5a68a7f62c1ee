/** The bandwidth of the network as a whole. */
module Network {
  import opened Machine
  import opened Types
  import opened Rate
  import opened Regen
  import opened Ledger
  import opened Chain
  import opened Limits

  /** The mana of each holder. */
  function Manas(st: State, holders: seq<Addr>): seq<nat> {
    seq(|holders|, i requires 0 <= i < |holders| => LoadAccountMana(st, holders[i]).mana)
  }

  /** What an account has used and kept in a run: 100 per transaction, its bytes, and the mana left. */
  function Use(st: State, steps: seq<Step>, a: Addr): nat
    requires ValidSteps(steps)
  {
    100 * Accepted(st, steps, a) + BytesSent(st, steps, a) + LoadAccountMana(After(st, steps), a).mana
  }

  function Uses(st: State, steps: seq<Step>, holders: seq<Addr>): seq<nat>
    requires ValidSteps(steps)
  {
    seq(|holders|, i requires 0 <= i < |holders| => Use(st, steps, holders[i]))
  }

  function Gains(p: Params, bank: Bank, holders: seq<Addr>): seq<nat> {
    seq(|holders|, i requires 0 <= i < |holders| => GainOf(p, bank, holders[i]))
  }

  lemma {:induction false} GainsAddUp(p: Params, bank: Bank, holders: seq<Addr>)
    ensures Sum(Gains(p, bank, holders)) == SumGains(p, bank, holders)
  {
    if holders != [] {
      GainsAddUp(p, bank, holders[1..]);
      assert Gains(p, bank, holders)[1..] == Gains(p, bank, holders[1..]);
    }
  }

  /** Bounds of the same stretch add up. */
  lemma {:induction false} BoundsAddUp(uses: seq<nat>, manas: seq<nat>, gains: seq<nat>, n: nat)
    requires |uses| == |manas| == |gains|
    requires forall i | 0 <= i < |uses| :: uses[i] <= manas[i] + Product(gains[i], n)
    ensures Sum(uses) <= Sum(manas) + Product(Sum(gains), n)
  {
    if uses == [] {
      assert Product(0, n) == 0;
    } else {
      BoundsAddUp(uses[1..], manas[1..], gains[1..], n);
      Distribute(gains[0], Sum(gains[1..]), n);
    }
  }

  /** Valid accounts whose records are from between the given heights. */
  predicate HoldersBetween(st: State, holders: seq<Addr>, first: int, last: int) {
    forall i | 0 <= i < |holders| ::
      ValidAddr(holders[i]) && first <= LoadAccountMana(st, holders[i]).lastUpdateHeight <= last
  }

  predicate HeightsUpTo(steps: seq<Step>, last: int64) {
    forall i | 0 <= i < |steps| :: steps[i].DeliverTx? ==> steps[i].ctx.height <= last
  }

  /** A run from first to last: the holders' records and all heights are between the two. */
  ghost predicate Stretch(st: State, steps: seq<Step>, holders: seq<Addr>, first: int, last: int64) {
    WellFormed(st) && first <= last && HoldersBetween(st, holders, first, last) && HeightsUpTo(steps, last)
  }

  /** Whenever a holder signs, its quota is that of one bank, the same through the whole run. */
  ghost predicate FixedQuotas(p: Params, steps: seq<Step>, holders: seq<Addr>, bank: Bank) {
    forall i, k | 0 <= i < |steps| && 0 <= k < |holders| ::
      Signs(steps[i], holders[k]) ==> QuotaOf(p, steps[i].ctx.bank, holders[k]) == QuotaOf(p, bank, holders[k])
  }

  lemma StretchBound(before: AccountMana, after: AccountMana, cost: nat, gain: nat, first: int, last: int)
    requires SpendsWithin(before, after, cost, gain)
    requires first <= before.lastUpdateHeight && after.lastUpdateHeight <= last
    ensures cost + after.mana <= before.mana + Product(gain, last - first)
  {
    MulMonotone(after.lastUpdateHeight - before.lastUpdateHeight, last - first, gain);
  }

  lemma BoundLoosens(x: int, y: int, g: nat, more: nat, n: nat)
    requires x <= y + Product(g, n) && g <= more
    ensures x <= y + Product(more, n)
  {
    MulMonotone(g, more, n);
  }

  /** One holder's share of the bound. */
  lemma HolderUsesWithin(st: State, steps: seq<Step>, holders: seq<Addr>, k: nat, gain: nat, first: int, last: int64)
    requires ValidSteps(steps) && k < |holders| && Stretch(st, steps, holders, first, last)
    requires GainAtMost(GetParams(st), steps, holders[k], gain)
    ensures Use(st, steps, holders[k]) <= LoadAccountMana(st, holders[k]).mana + Product(gain, last - first)
  {
    var a := holders[k];
    Throughput(st, steps, a, gain);
    NeverAhead(st, steps, a, last);
    StretchBound(LoadAccountMana(st, a), LoadAccountMana(After(st, steps), a),
                 100 * Accepted(st, steps, a) + BytesSent(st, steps, a), gain, first, last);
  }

  /** The shares of all holders, each with a gain of its own, under any bound on the sum of the gains. */
  lemma HoldersUseWithin(st: State, steps: seq<Step>, holders: seq<Addr>, gains: seq<nat>, total: nat,
                         first: int, last: int64)
    requires ValidSteps(steps) && Stretch(st, steps, holders, first, last)
    requires |gains| == |holders| && Sum(gains) <= total
    requires forall k | 0 <= k < |holders| :: GainAtMost(GetParams(st), steps, holders[k], gains[k])
    ensures Sum(Uses(st, steps, holders)) <= Sum(Manas(st, holders)) + Product(total, last - first)
  {
    var uses, manas := Uses(st, steps, holders), Manas(st, holders);
    forall k | 0 <= k < |holders|
      ensures uses[k] <= manas[k] + Product(gains[k], last - first)
    {
      HolderUsesWithin(st, steps, holders, k, gains[k], first, last);
    }
    BoundsAddUp(uses, manas, gains, last - first);
    BoundLoosens(Sum(uses), Sum(manas), Sum(gains), total, last - first);
  }

  /** The bound itself: all holders together send no more (100 per transaction, and the bytes) and keep
      no more mana than they had at the start and the network's gain for every block since. */
  predicate WithinNetworkGain(st: State, steps: seq<Step>, holders: seq<Addr>, first: int, last: int)
    requires ValidSteps(steps) && first <= last
  {
    Sum(Uses(st, steps, holders))
    <= Sum(Manas(st, holders)) + Product(NetworkGain(GetParams(st), |holders|), last - first)
  }

  /** The network's bandwidth.  While the holders' quotas stand still, the bound holds for any parameters
      and however the supply is distributed.  (Circulation.dfy says for which parameters it also holds
      while coins move.) */
  lemma NetworkThroughput(st: State, steps: seq<Step>, holders: seq<Addr>, bank: Bank, first: int, last: int64)
    requires ValidSteps(steps) && Stretch(st, steps, holders, first, last)
    requires FixedQuotas(GetParams(st), steps, holders, bank)
    requires bank.supply > 0 && Sum(BalancesOf(bank, holders)) <= bank.supply
    ensures WithinNetworkGain(st, steps, holders, first, last)
  {
    var gains := Gains(GetParams(st), bank, holders);
    forall k | 0 <= k < |holders|
      ensures GainAtMost(GetParams(st), steps, holders[k], gains[k])
    {
    }
    NetworkGains(GetParams(st), bank, holders);
    GainsAddUp(GetParams(st), bank, holders);
    HoldersUseWithin(st, steps, holders, gains, NetworkGain(GetParams(st), |holders|), first, last);
  }
}
