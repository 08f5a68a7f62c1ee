/** Runs of the chain: block by block, each PreBlocker step and each delivered transaction, with bank
    values and heights that may differ at every step. */
module Chain {
  import opened Machine
  import opened Types
  import opened Regen
  import opened Ledger
  import opened Ante
  import opened Pow

  datatype Step =
    | PreBlock(txCount: uint64)
    | DeliverTx(ctx: Ctx, tx: Tx)

  predicate ValidSteps(steps: seq<Step>) {
    forall i | 0 <= i < |steps| :: steps[i].DeliverTx? ==> ValidTx(steps[i].tx)
  }

  function Apply(st: State, step: Step): Outcome
    requires step.DeliverTx? ==> ValidTx(step.tx)
  {
    match step
    case PreBlock(txCount) => Outcome(UpdatePowDifficulty(st, txCount), None)
    case DeliverTx(ctx, tx) => RunTx(st, ctx, Deliver, tx)
  }

  /** The store after a run. */
  function After(st: State, steps: seq<Step>): State
    requires ValidSteps(steps)
  {
    if steps == [] then st
    else Apply(After(st, steps[..|steps| - 1]), steps[|steps| - 1]).st
  }

  /** The verdict of step i of a run. */
  function Verdict(st: State, steps: seq<Step>, i: nat): Option<Error>
    requires ValidSteps(steps) && i < |steps|
  {
    Apply(After(st, steps[..i]), steps[i]).err
  }

  /** A step that passes the pipeline and is charged for: nothing is charged at height 0. */
  predicate Charged(st: State, steps: seq<Step>, i: nat)
    requires ValidSteps(steps) && i < |steps|
  {
    steps[i].DeliverTx? && steps[i].ctx.height != 0 && Verdict(st, steps, i).None?
  }

  /** Whether a is among the signers of a transaction that the step delivers. */
  predicate Signs(step: Step, a: Addr) {
    step.DeliverTx? && step.tx.signers.Ok? && a in step.tx.signers.value
  }

  lemma ApplyKeepsWellFormed(st: State, step: Step)
    requires WellFormed(st) && (step.DeliverTx? ==> ValidTx(step.tx))
    ensures WellFormed(Apply(st, step).st)
    ensures Apply(st, step).st.cfg == st.cfg && Apply(st, step).st.params == st.params
  {
    if step.DeliverTx? {
      RunTxKeepsWellFormed(st, step.ctx, Deliver, step.tx);
      DeliverExact(st, step.ctx, step.tx);
    }
  }

  /** No transaction and no block changes the parameters, and every record keeps its owner. */
  lemma {:induction false} RunKeepsWellFormed(st: State, steps: seq<Step>)
    requires WellFormed(st) && ValidSteps(steps)
    ensures WellFormed(After(st, steps))
    ensures After(st, steps).cfg == st.cfg && After(st, steps).params == st.params
  {
    if steps != [] {
      RunKeepsWellFormed(st, steps[..|steps| - 1]);
      ApplyKeepsWellFormed(After(st, steps[..|steps| - 1]), steps[|steps| - 1]);
    }
  }

  /** The last step of a run, seen from one account: a charged signature leaves a SignerRecord, and
      everything else leaves the account's record alone. */
  lemma LastStep(st: State, steps: seq<Step>, a: Addr)
    requires ValidSteps(steps) && steps != []
    ensures var n := |steps| - 1;
            var before, after := After(st, steps[..n]), After(st, steps);
            if Charged(st, steps, n) && Signs(steps[n], a)
            then a in after.accounts && SignerRecord(before, steps[n].ctx, steps[n].tx, a, after.accounts[a])
            else (a in after.accounts <==> a in before.accounts)
                 && (a in before.accounts ==> after.accounts[a] == before.accounts[a])
    ensures After(st, steps).cfg == After(st, steps[..|steps| - 1]).cfg
    ensures After(st, steps).params == After(st, steps[..|steps| - 1]).params
  {
    var n := |steps| - 1;
    var before := After(st, steps[..n]);
    if steps[n].DeliverTx? {
      DeliverExact(before, steps[n].ctx, steps[n].tx);
      if Charged(st, steps, n) {
        assert EffectOn(before, steps[n].ctx, steps[n].tx, After(st, steps), a);
      }
    }
  }

  // ---------------------------------------------------------------------------
  // The difficulty over a run
  // ---------------------------------------------------------------------------

  /** The transaction counts that a run's PreBlocker steps saw. */
  function BlockCounts(steps: seq<Step>): seq<uint64> {
    if steps == [] then []
    else
      var counts := BlockCounts(steps[..|steps| - 1]);
      match steps[|steps| - 1]
      case PreBlock(txCount) => counts + [txCount]
      case DeliverTx(_, _) => counts
  }

  /** Over every run, with any transactions between the blocks, the stored difficulty is the walk over
      the counts of its blocks. */
  lemma {:induction false} StoredDifficultyIsWalk(st: State, steps: seq<Step>)
    requires ValidSteps(steps)
    ensures GetPowDifficulty(After(st, steps)) == Walk(GetPowDifficulty(st), BlockCounts(steps))
  {
    if steps != [] {
      var n := |steps| - 1;
      var before, counts := After(st, steps[..n]), BlockCounts(steps[..n]);
      StoredDifficultyIsWalk(st, steps[..n]);
      match steps[n]
      case PreBlock(txCount) =>
        DifficultyStep(before, txCount);
        assert (counts + [txCount])[..|counts|] == counts;
      case DeliverTx(ctx, tx) =>
        DeliverExact(before, ctx, tx);
    }
  }

  // ---------------------------------------------------------------------------
  // Heights and caps
  // ---------------------------------------------------------------------------

  /** Step i brought a's record up to the height that r has: an accepted transaction that a signed, at
      that height, before which the record was older; and r is within the cap which that step computed. */
  ghost predicate RegeneratedBy(st: State, steps: seq<Step>, i: nat, a: Addr, r: AccountMana)
    requires ValidSteps(steps) && i < |steps|
  {
    && Charged(st, steps, i) && Signs(steps[i], a)
    && LoadAccountMana(After(st, steps[..i]), a).lastUpdateHeight < r.lastUpdateHeight == steps[i].ctx.height
    && QuotaOf(GetParams(st), steps[i].ctx.bank, a).Ok?
    && r.mana <= QuotaOf(GetParams(st), steps[i].ctx.bank, a).value.cap
  }

  /** A last step that moves a's record in time is where the record was regenerated. */
  lemma LastRegenerates(st: State, steps: seq<Step>, a: Addr)
    requires WellFormed(st) && ValidSteps(steps) && ValidAddr(a) && steps != []
    requires LoadAccountMana(After(st, steps), a).lastUpdateHeight
             != LoadAccountMana(After(st, steps[..|steps| - 1]), a).lastUpdateHeight
    ensures RegeneratedBy(st, steps, |steps| - 1, a, LoadAccountMana(After(st, steps), a))
  {
    var n := |steps| - 1;
    var before := After(st, steps[..n]);
    RunKeepsWellFormed(st, steps[..n]);
    LastStep(st, steps, a);
    GetAccountManaExact(before, steps[n].ctx, a);
    var q, mid := QuotaOf(GetParams(st), steps[n].ctx.bank, a).value, LoadAccountMana(before, a);
    TicksClosed(q, mid.mana, steps[n].ctx.height - mid.lastUpdateHeight);
  }

  /** A last step that does not move a's record in time does not raise its mana. */
  lemma KeepsWithin(st: State, steps: seq<Step>, a: Addr)
    requires WellFormed(st) && ValidSteps(steps) && ValidAddr(a) && steps != []
    requires LoadAccountMana(After(st, steps), a).lastUpdateHeight
             == LoadAccountMana(After(st, steps[..|steps| - 1]), a).lastUpdateHeight
    ensures LoadAccountMana(After(st, steps), a).mana <= LoadAccountMana(After(st, steps[..|steps| - 1]), a).mana
  {
    var n := |steps| - 1;
    RunKeepsWellFormed(st, steps[..n]);
    LastStep(st, steps, a);
    if steps[n].DeliverTx? {
      GetAccountManaExact(After(st, steps[..n]), steps[n].ctx, a);
    }
  }

  /** Every write is made at the height of its own step: a record that a run has moved in time was last
      regenerated by an accepted transaction of its own account, at that step's height and within the cap
      that step computed.  (Other records, such as a genesis bonus, may exceed any cap.) */
  lemma {:induction false} WrittenWithinCap(st: State, steps: seq<Step>, a: Addr)
    requires WellFormed(st) && ValidSteps(steps) && ValidAddr(a)
    requires LoadAccountMana(After(st, steps), a).lastUpdateHeight != LoadAccountMana(st, a).lastUpdateHeight
    ensures exists i | 0 <= i < |steps| :: RegeneratedBy(st, steps, i, a, LoadAccountMana(After(st, steps), a))
  {
    if steps != [] {
      var n := |steps| - 1;
      var init := steps[..n];
      var mid, r := LoadAccountMana(After(st, init), a), LoadAccountMana(After(st, steps), a);
      if mid.lastUpdateHeight == r.lastUpdateHeight {
        WrittenWithinCap(st, init, a);
        KeepsWithin(st, steps, a);
        var i :| 0 <= i < |init| && RegeneratedBy(st, init, i, a, mid);
        assert steps[i] == init[i] && steps[..i] == init[..i];
        assert RegeneratedBy(st, steps, i, a, r);
      } else {
        LastRegenerates(st, steps, a);
      }
    }
  }

  /** No record is ever ahead of the chain. */
  lemma {:induction false} NeverAhead(st: State, steps: seq<Step>, a: Addr, height: int64)
    requires WellFormed(st) && ValidSteps(steps) && ValidAddr(a)
    requires LoadAccountMana(st, a).lastUpdateHeight <= height
    requires forall i | 0 <= i < |steps| :: steps[i].DeliverTx? ==> steps[i].ctx.height <= height
    ensures LoadAccountMana(After(st, steps), a).lastUpdateHeight <= height
  {
    if steps != [] {
      var n := |steps| - 1;
      NeverAhead(st, steps[..n], a, height);
      RunKeepsWellFormed(st, steps[..n]);
      LastStep(st, steps, a);
      if steps[n].DeliverTx? {
        GetAccountManaExact(After(st, steps[..n]), steps[n].ctx, a);
      }
    }
  }
}
