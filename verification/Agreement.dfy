/** What transactions can see of the store, and what they cannot: isolation between accounts,
    commutation, and independence of consensus from proof of work. */
module Agreement {
  import opened Machine
  import opened Types
  import opened Ledger
  import opened Ante
  import opened Chain

  ghost predicate SameRecord(st1: State, st2: State, a: Addr) {
    && (a in st1.accounts <==> a in st2.accounts)
    && (a in st1.accounts ==> st1.accounts[a] == st2.accounts[a])
  }

  /** Two stores that look the same to everyone in a group; their difficulties may differ. */
  ghost predicate AgreeOn(st1: State, st2: State, group: iset<Addr>) {
    && st1.cfg == st2.cfg && GetParams(st1) == GetParams(st2)
    && forall a | a in group :: SameRecord(st1, st2, a)
  }

  lemma SameEverywhere(st1: State, st2: State)
    requires forall a :: SameRecord(st1, st2, a)
    ensures st1.accounts == st2.accounts
  {
    assert forall a :: (a in st1.accounts <==> a in st2.accounts) by {
      forall a ensures a in st1.accounts <==> a in st2.accounts {
        assert SameRecord(st1, st2, a);
      }
    }
    assert forall a | a in st1.accounts :: SameRecord(st1, st2, a);
  }

  /** The same transaction with possibly other work attached. */
  predicate SameButWork(tx1: Tx, tx2: Tx) {
    tx1.(sequence := 0, memo := []) == tx2.(sequence := 0, memo := [])
  }

  predicate Within(signers: seq<Addr>, group: iset<Addr>) {
    forall s | s in signers :: s in group
  }

  lemma {:induction false} CountAllAgrees(st1: State, st2: State, group: iset<Addr>, ctx: Ctx, signers: seq<Addr>)
    requires AgreeOn(st1, st2, group) && Within(signers, group)
    ensures CountAll(st1, ctx, signers).err == CountAll(st2, ctx, signers).err
    ensures AgreeOn(CountAll(st1, ctx, signers).st, CountAll(st2, ctx, signers).st, group)
    decreases signers
  {
    if signers != [] {
      assert signers[0] in group;
      var o1, o2 := IncrementTxCount(st1, ctx, signers[0]), IncrementTxCount(st2, ctx, signers[0]);
      assert SameRecord(st1, st2, signers[0]);
      assert AgreeOn(o1.st, o2.st, group);
      CountAllAgrees(o1.st, o2.st, group, ctx, signers[1..]);
    }
  }

  /** Block execution sees nothing but its signers' records: on stores that agree on a group
      containing the signers, a transaction, whatever its work, has the same verdict, error included,
      and the results agree on the group again. */
  lemma DeliverAgrees(st1: State, st2: State, group: iset<Addr>, ctx: Ctx, tx1: Tx, tx2: Tx)
    requires ValidTx(tx1) && ValidTx(tx2) && SameButWork(tx1, tx2)
    requires AgreeOn(st1, st2, group)
    requires tx1.signers.Ok? ==> Within(tx1.signers.value, group)
    ensures RunTx(st1, ctx, Deliver, tx1).err == RunTx(st2, ctx, Deliver, tx2).err
    ensures AgreeOn(RunTx(st1, ctx, Deliver, tx1).st, RunTx(st2, ctx, Deliver, tx2).st, group)
  {
    if ctx.height != 0 && tx1.signers.Ok? && tx1.signers.value != [] {
      var payer := tx1.signers.value[0];
      assert payer in group;
      assert SameRecord(st1, st2, payer);
      var p1, p2 := ConsumeMana(st1, ctx, payer, TxCost(tx1)), ConsumeMana(st2, ctx, payer, TxCost(tx2));
      assert p1.err == p2.err && AgreeOn(p1.st, p2.st, group);
      CountAllAgrees(p1.st, p2.st, group, ctx, tx1.signers.value);
    }
  }

  /** A delivered transaction leaves every account alone that did not sign it. */
  lemma DeliverFrame(st: State, ctx: Ctx, tx: Tx, group: iset<Addr>)
    requires ValidTx(tx)
    requires tx.signers.Ok? ==> forall s | s in tx.signers.value :: s !in group
    ensures AgreeOn(st, RunTx(st, ctx, Deliver, tx).st, group)
  {
    DeliverExact(st, ctx, tx);
    var after := RunTx(st, ctx, Deliver, tx).st;
    if RunTx(st, ctx, Deliver, tx).Done() && ctx.height != 0 {
      forall a | a in group
        ensures SameRecord(st, after, a)
      {
        assert EffectOn(st, ctx, tx, after, a);
      }
    }
  }

  // ---------------------------------------------------------------------------
  // Commutation
  // ---------------------------------------------------------------------------

  ghost function SignersOf(tx: Tx): iset<Addr>
    requires tx.signers.Ok?
  {
    iset s | s in tx.signers.value
  }

  /** A transaction does not notice one by other signers before it. */
  lemma SecondUnaffected(st: State, ctx: Ctx, first: Tx, second: Tx)
    requires ValidTx(first) && ValidTx(second) && first.signers.Ok? && second.signers.Ok?
    requires SignersOf(first) !! SignersOf(second)
    ensures var o := RunTx(RunTx(st, ctx, Deliver, first).st, ctx, Deliver, second);
            && o.err == RunTx(st, ctx, Deliver, second).err
            && AgreeOn(RunTx(st, ctx, Deliver, second).st, o.st, SignersOf(second))
  {
    DeliverFrame(st, ctx, first, SignersOf(second));
    DeliverAgrees(st, RunTx(st, ctx, Deliver, first).st, SignersOf(second), ctx, second, second);
  }

  lemma CommuteAt(st: State, ctx: Ctx, tx1: Tx, tx2: Tx, a: Addr)
    requires ValidTx(tx1) && ValidTx(tx2) && tx1.signers.Ok? && tx2.signers.Ok?
    requires SignersOf(tx1) !! SignersOf(tx2)
    requires a !in SignersOf(tx1)
    ensures SameRecord(RunTx(RunTx(st, ctx, Deliver, tx1).st, ctx, Deliver, tx2).st,
                       RunTx(RunTx(st, ctx, Deliver, tx2).st, ctx, Deliver, tx1).st, a)
  {
    var o1, o2 := RunTx(st, ctx, Deliver, tx1), RunTx(st, ctx, Deliver, tx2);
    var only := iset{a};
    assert a in only;
    DeliverFrame(st, ctx, tx1, only);
    DeliverFrame(o2.st, ctx, tx1, only);
    assert SameRecord(st, o1.st, a);
    if a in SignersOf(tx2) {
      SecondUnaffected(st, ctx, tx1, tx2);
      assert SameRecord(o2.st, RunTx(o1.st, ctx, Deliver, tx2).st, a);
    } else {
      DeliverFrame(st, ctx, tx2, only);
      DeliverFrame(o1.st, ctx, tx2, only);
      assert SameRecord(st, o2.st, a);
    }
  }

  /** Two transactions of one block without a common signer commute: same verdicts in either order,
      and the same store at the end. */
  lemma DisjointTxsCommute(st: State, ctx: Ctx, tx1: Tx, tx2: Tx)
    requires ValidTx(tx1) && ValidTx(tx2) && tx1.signers.Ok? && tx2.signers.Ok?
    requires SignersOf(tx1) !! SignersOf(tx2)
    ensures var o1, o2 := RunTx(st, ctx, Deliver, tx1), RunTx(st, ctx, Deliver, tx2);
            var o12, o21 := RunTx(o1.st, ctx, Deliver, tx2), RunTx(o2.st, ctx, Deliver, tx1);
            && o12.err == o2.err && o21.err == o1.err
            && o12.st == o21.st
  {
    var o1, o2 := RunTx(st, ctx, Deliver, tx1), RunTx(st, ctx, Deliver, tx2);
    var o12, o21 := RunTx(o1.st, ctx, Deliver, tx2), RunTx(o2.st, ctx, Deliver, tx1);
    SecondUnaffected(st, ctx, tx1, tx2);
    SecondUnaffected(st, ctx, tx2, tx1);
    forall a
      ensures SameRecord(o12.st, o21.st, a)
    {
      if a in SignersOf(tx1) {
        CommuteAt(st, ctx, tx2, tx1, a);
      } else {
        CommuteAt(st, ctx, tx1, tx2, a);
      }
    }
    SameEverywhere(o12.st, o21.st);
    DeliverSettings(st, ctx, tx1);
    DeliverSettings(st, ctx, tx2);
    DeliverSettings(o1.st, ctx, tx2);
    DeliverSettings(o2.st, ctx, tx1);
  }

  lemma DeliverSettings(st: State, ctx: Ctx, tx: Tx)
    requires ValidTx(tx)
    ensures SameSettings(st, RunTx(st, ctx, Deliver, tx).st)
  {
    DeliverExact(st, ctx, tx);
  }

  // ---------------------------------------------------------------------------
  // Isolation over runs
  // ---------------------------------------------------------------------------

  /** A transaction that the group signs. */
  predicate SignedWithin(step: Step, group: iset<Addr>) {
    step.DeliverTx? && step.tx.signers.Ok? && step.tx.signers.value != [] && Within(step.tx.signers.value, group)
  }

  /** No transaction is signed by members and outsiders together. */
  ghost predicate NoMixedSigners(steps: seq<Step>, group: iset<Addr>) {
    forall i | 0 <= i < |steps| ::
      steps[i].DeliverTx? && steps[i].tx.signers.Ok? ==>
        || SignedWithin(steps[i], group)
        || (forall s | s in steps[i].tx.signers.value :: s !in group)
  }

  /** The run with only the group's own transactions. */
  ghost function OwnSteps(steps: seq<Step>, group: iset<Addr>): (own: seq<Step>)
    requires ValidSteps(steps)
    ensures ValidSteps(own)
    ensures forall step :: step in own <==> step in steps && SignedWithin(step, group)
  {
    if steps == [] then []
    else
      var own := OwnSteps(steps[..|steps| - 1], group);
      if SignedWithin(steps[|steps| - 1], group) then own + [steps[|steps| - 1]] else own
  }

  lemma IsolationStep(st: State, alone: State, step: Step, group: iset<Addr>)
    requires step.DeliverTx? ==> ValidTx(step.tx)
    requires AgreeOn(st, alone, group)
    requires NoMixedSigners([step], group)
    ensures SignedWithin(step, group) ==> Apply(st, step).err == Apply(alone, step).err
    ensures AgreeOn(Apply(st, step).st, if SignedWithin(step, group) then Apply(alone, step).st else alone, group)
  {
    if SignedWithin(step, group) {
      DeliverAgrees(st, alone, group, step.ctx, step.tx, step.tx);
    } else if step.DeliverTx? {
      assert [step][0] == step;
      DeliverFrame(st, step.ctx, step.tx, group);
      AgreeTransitive(st, Apply(st, step).st, alone, group);
    } else {
      forall a | a in group
        ensures SameRecord(Apply(st, step).st, alone, a)
      {
        assert SameRecord(st, alone, a);
      }
    }
  }

  lemma {:induction false} IsolatedStores(st: State, steps: seq<Step>, group: iset<Addr>)
    requires ValidSteps(steps) && NoMixedSigners(steps, group)
    ensures AgreeOn(After(st, steps), After(st, OwnSteps(steps, group)), group)
  {
    if steps == [] {
      assert forall a | a in group :: SameRecord(st, st, a);
    } else {
      var n := |steps| - 1;
      var init, step := steps[..n], steps[n];
      var own := OwnSteps(init, group);
      IsolatedStores(st, init, group);
      assert [step][0] == step;
      IsolationStep(After(st, init), After(st, own), step, group);
      assert (own + [step])[..|own|] == own;
    }
  }

  /** A group's records and verdicts are those of the run in which nobody else ever transacted. */
  lemma Isolation(st: State, steps: seq<Step>, group: iset<Addr>)
    requires ValidSteps(steps) && NoMixedSigners(steps, group)
    ensures AgreeOn(After(st, steps), After(st, OwnSteps(steps, group)), group)
    ensures forall i | 0 <= i < |steps| && SignedWithin(steps[i], group) ::
              Verdict(st, steps, i) == Apply(After(st, OwnSteps(steps[..i], group)), steps[i]).err
  {
    IsolatedStores(st, steps, group);
    forall i | 0 <= i < |steps| && SignedWithin(steps[i], group)
      ensures Verdict(st, steps, i) == Apply(After(st, OwnSteps(steps[..i], group)), steps[i]).err
    {
      IsolatedStores(st, steps[..i], group);
      assert [steps[i]][0] == steps[i];
      IsolationStep(After(st, steps[..i]), After(st, OwnSteps(steps[..i], group)), steps[i], group);
    }
  }

  lemma AgreeTransitive(a: State, b: State, c: State, group: iset<Addr>)
    requires AgreeOn(a, b, group) && AgreeOn(a, c, group)
    ensures AgreeOn(b, c, group)
  {
    forall x | x in group
      ensures SameRecord(b, c, x)
    {
      assert SameRecord(a, b, x) && SameRecord(a, c, x);
    }
  }

  /** Every transaction has one signer. */
  predicate SingleSigners(steps: seq<Step>) {
    forall i | 0 <= i < |steps| ::
      steps[i].DeliverTx? && steps[i].tx.signers.Ok? ==> |steps[i].tx.signers.value| == 1
  }

  lemma SingleSignersDoNotMix(steps: seq<Step>, a: Addr)
    requires SingleSigners(steps)
    ensures NoMixedSigners(steps, iset{a})
  {
    forall i | 0 <= i < |steps| && steps[i].DeliverTx? && steps[i].tx.signers.Ok?
      ensures SignedWithin(steps[i], iset{a}) || forall s | s in steps[i].tx.signers.value :: s !in iset{a}
    {
      var signers := steps[i].tx.signers.value;
      assert signers == [signers[0]];
    }
  }

  /** In particular a flood by others changes nothing for an account, when every transaction has one
      signer: here for any store, under the same bank values in both runs. */
  lemma SingleSignerIsolation(st: State, steps: seq<Step>, a: Addr)
    requires ValidSteps(steps) && SingleSigners(steps)
    ensures SameRecord(After(st, steps), After(st, OwnSteps(steps, iset{a})), a)
    ensures forall i | 0 <= i < |steps| && SignedWithin(steps[i], iset{a}) ::
              Verdict(st, steps, i) == Apply(After(st, OwnSteps(steps[..i], iset{a})), steps[i]).err
  {
    SingleSignersDoNotMix(steps, a);
    Isolation(st, steps, iset{a});
    assert a in iset{a};
  }

  // ---------------------------------------------------------------------------
  // Isolation when others' balances move
  // ---------------------------------------------------------------------------

  /** Banks that show a group the same: its own balances and the supply.  Others' balances may differ. */
  ghost predicate SameFunds(b1: Bank, b2: Bank, group: iset<Addr>) {
    b1.supply == b2.supply && forall a | a in group :: b1.balance(a) == b2.balance(a)
  }

  lemma SameRead(st: State, c1: Ctx, c2: Ctx, group: iset<Addr>, a: Addr)
    requires WellFormed(st) && ValidAddr(a) && a in group
    requires c1.height == c2.height && SameFunds(c1.bank, c2.bank, group)
    ensures GetAccountMana(st, c1, a) == GetAccountMana(st, c2, a)
  {
    assert st.cfg.decode(LoadAccountMana(st, a).address) == Some(a);
    assert c1.bank.balance(a) == c2.bank.balance(a);
  }

  lemma {:induction false} SameCountAll(st: State, c1: Ctx, c2: Ctx, group: iset<Addr>, signers: seq<Addr>)
    requires WellFormed(st) && Within(signers, group) && forall s | s in signers :: ValidAddr(s)
    requires c1.height == c2.height && SameFunds(c1.bank, c2.bank, group)
    ensures CountAll(st, c1, signers) == CountAll(st, c2, signers)
    decreases signers
  {
    if signers != [] {
      SameRead(st, c1, c2, group, signers[0]);
      OperationsKeepWellFormed(st, c1, signers[0], 0);
      SameCountAll(IncrementTxCount(st, c1, signers[0]).st, c1, c2, group, signers[1..]);
    }
  }

  lemma SameConsume(st: State, c1: Ctx, c2: Ctx, group: iset<Addr>, a: Addr, cost: uint64)
    requires WellFormed(st) && ValidAddr(a) && a in group
    requires c1.height == c2.height && SameFunds(c1.bank, c2.bank, group)
    ensures ConsumeMana(st, c1, a, cost) == ConsumeMana(st, c2, a, cost)
    ensures WellFormed(ConsumeMana(st, c1, a, cost).st)
  {
    SameRead(st, c1, c2, group, a);
    OperationsKeepWellFormed(st, c1, a, cost);
  }

  /** Of the bank, a transaction sees its signers' balances and the supply only. */
  lemma OwnFundsSuffice(st: State, c1: Ctx, c2: Ctx, group: iset<Addr>, tx: Tx)
    requires WellFormed(st) && ValidTx(tx) && tx.signers.Ok? && Within(tx.signers.value, group)
    requires c1.height == c2.height && SameFunds(c1.bank, c2.bank, group)
    ensures RunTx(st, c1, Deliver, tx) == RunTx(st, c2, Deliver, tx)
  {
    if c1.height != 0 && tx.signers.value != [] {
      var payer := tx.signers.value[0];
      assert payer in group;
      SameConsume(st, c1, c2, group, payer, TxCost(tx));
      SameCountAll(ConsumeMana(st, c1, payer, TxCost(tx)).st, c1, c2, group, tx.signers.value);
    }
    assert ManaConsume(st, c1, Deliver, tx) == ManaConsume(st, c2, Deliver, tx);
    assert AnteHandler(st, c1, Deliver, tx) == AnteHandler(st, c2, Deliver, tx);
  }

  /** The same transaction of a group at the same height, under banks that show the group the same. */
  ghost predicate SameForGroup(step1: Step, step2: Step, group: iset<Addr>) {
    && SignedWithin(step1, group) && step2.DeliverTx?
    && step1.tx == step2.tx && step1.ctx.height == step2.ctx.height
    && SameFunds(step1.ctx.bank, step2.ctx.bank, group)
  }

  ghost predicate SameRunForGroup(run1: seq<Step>, run2: seq<Step>, group: iset<Addr>) {
    |run1| == |run2| && forall i | 0 <= i < |run1| :: SameForGroup(run1[i], run2[i], group)
  }

  lemma {:induction false} SameRunSameStore(st: State, run1: seq<Step>, run2: seq<Step>, group: iset<Addr>)
    requires WellFormed(st) && ValidSteps(run1) && ValidSteps(run2)
    requires SameRunForGroup(run1, run2, group)
    ensures After(st, run1) == After(st, run2)
  {
    if run1 != [] {
      var n := |run1| - 1;
      SameRunSameStore(st, run1[..n], run2[..n], group);
      RunKeepsWellFormed(st, run1[..n]);
      assert SameForGroup(run1[n], run2[n], group);
      OwnFundsSuffice(After(st, run1[..n]), run1[n].ctx, run2[n].ctx, group, run1[n].tx);
    }
  }

  /** The place of a group's step among its own steps. */
  lemma {:induction false} OwnPosition(steps: seq<Step>, group: iset<Addr>, i: nat)
    requires ValidSteps(steps) && i < |steps| && SignedWithin(steps[i], group)
    ensures var own, j := OwnSteps(steps, group), |OwnSteps(steps[..i], group)|;
            j < |own| && own[j] == steps[i] && own[..j] == OwnSteps(steps[..i], group)
  {
    var n := |steps| - 1;
    var init := steps[..n];
    if i == n {
      assert OwnSteps(steps, group) == OwnSteps(init, group) + [steps[n]];
    } else {
      OwnPosition(init, group, i);
      assert init[..i] == steps[..i] && init[i] == steps[i];
    }
  }

  /** A group's records and verdicts are those of any run in which the group transacts alone, at the same
      heights and with the same funds of its own: neither what others send nor how their balances move
      has any effect. */
  lemma IsolationFromOthersFunds(st: State, steps: seq<Step>, alone: seq<Step>, group: iset<Addr>)
    requires WellFormed(st) && ValidSteps(steps) && ValidSteps(alone) && NoMixedSigners(steps, group)
    requires SameRunForGroup(OwnSteps(steps, group), alone, group)
    ensures AgreeOn(After(st, steps), After(st, alone), group)
    ensures forall i | 0 <= i < |steps| && SignedWithin(steps[i], group) ::
              && |OwnSteps(steps[..i], group)| < |alone|
              && Verdict(st, steps, i) == Verdict(st, alone, |OwnSteps(steps[..i], group)|)
  {
    var own := OwnSteps(steps, group);
    Isolation(st, steps, group);
    SameRunSameStore(st, own, alone, group);
    forall i | 0 <= i < |steps| && SignedWithin(steps[i], group)
      ensures |OwnSteps(steps[..i], group)| < |alone|
      ensures Verdict(st, steps, i) == Verdict(st, alone, |OwnSteps(steps[..i], group)|)
    {
      OwnPosition(steps, group, i);
      SameVerdict(st, own, alone, group, |OwnSteps(steps[..i], group)|);
    }
  }

  /** The flood again, with everybody else's balances free to move. */
  lemma FloodIsHarmless(st: State, steps: seq<Step>, alone: seq<Step>, a: Addr)
    requires WellFormed(st) && ValidSteps(steps) && ValidSteps(alone) && SingleSigners(steps)
    requires SameRunForGroup(OwnSteps(steps, iset{a}), alone, iset{a})
    ensures SameRecord(After(st, steps), After(st, alone), a)
    ensures forall i | 0 <= i < |steps| && SignedWithin(steps[i], iset{a}) ::
              && |OwnSteps(steps[..i], iset{a})| < |alone|
              && Verdict(st, steps, i) == Verdict(st, alone, |OwnSteps(steps[..i], iset{a})|)
  {
    SingleSignersDoNotMix(steps, a);
    IsolationFromOthersFunds(st, steps, alone, iset{a});
    assert a in iset{a};
  }

  lemma SameVerdict(st: State, run1: seq<Step>, run2: seq<Step>, group: iset<Addr>, j: nat)
    requires WellFormed(st) && ValidSteps(run1) && ValidSteps(run2)
    requires SameRunForGroup(run1, run2, group) && j < |run1|
    ensures Apply(After(st, run1[..j]), run1[j]).err == Verdict(st, run2, j)
  {
    assert SameRunForGroup(run1[..j], run2[..j], group);
    SameRunSameStore(st, run1[..j], run2[..j], group);
    RunKeepsWellFormed(st, run1[..j]);
    assert SameForGroup(run1[j], run2[j], group);
    OwnFundsSuffice(After(st, run1[..j]), run1[j].ctx, run2[j].ctx, group, run1[j].tx);
  }

  // ---------------------------------------------------------------------------
  // Proof of work and consensus
  // ---------------------------------------------------------------------------

  ghost const EVERYONE: iset<Addr> := iset a: Addr | true

  /** Two stores that only differ in what proof of work keeps. */
  ghost predicate SameConsensus(st1: State, st2: State) {
    AgreeOn(st1, st2, EVERYONE)
  }

  /** Steps that only differ in attached work or block statistics. */
  ghost predicate SameStep(step1: Step, step2: Step) {
    if step1.DeliverTx?
    then step2.DeliverTx? && step1.ctx == step2.ctx && SameButWork(step1.tx, step2.tx)
    else step2.PreBlock?
  }

  ghost predicate SameTransactions(steps1: seq<Step>, steps2: seq<Step>) {
    && |steps1| == |steps2|
    && forall i | 0 <= i < |steps1| :: SameStep(steps1[i], steps2[i])
  }

  lemma StepKeepsConsensus(st1: State, st2: State, step1: Step, step2: Step)
    requires step1.DeliverTx? ==> ValidTx(step1.tx)
    requires step2.DeliverTx? ==> ValidTx(step2.tx)
    requires SameConsensus(st1, st2) && SameStep(step1, step2)
    ensures Apply(st1, step1).err == Apply(st2, step2).err
    ensures SameConsensus(Apply(st1, step1).st, Apply(st2, step2).st)
  {
    if step1.DeliverTx? {
      DeliverAgrees(st1, st2, EVERYONE, step1.ctx, step1.tx, step2.tx);
    } else {
      forall a | a in EVERYONE
        ensures SameRecord(Apply(st1, step1).st, Apply(st2, step2).st, a)
      {
        assert SameRecord(st1, st2, a);
      }
    }
  }

  lemma {:induction false} RunsKeepConsensus(st1: State, st2: State, steps1: seq<Step>, steps2: seq<Step>)
    requires ValidSteps(steps1) && ValidSteps(steps2)
    requires SameConsensus(st1, st2) && SameTransactions(steps1, steps2)
    ensures SameConsensus(After(st1, steps1), After(st2, steps2))
  {
    if steps1 != [] {
      var n := |steps1| - 1;
      RunsKeepConsensus(st1, st2, steps1[..n], steps2[..n]);
      StepKeepsConsensus(After(st1, steps1[..n]), After(st2, steps2[..n]), steps1[n], steps2[n]);
    }
  }

  /** Proof of work never reaches consensus: from stores that differ in difficulty only, runs whose
      transactions differ in memo and sequence only give the same verdict and the same accounts at
      every step, however the difficulty moves in either. */
  lemma PowNeverAffectsConsensus(st1: State, st2: State, steps1: seq<Step>, steps2: seq<Step>)
    requires ValidSteps(steps1) && ValidSteps(steps2)
    requires SameConsensus(st1, st2) && SameTransactions(steps1, steps2)
    ensures After(st1, steps1).accounts == After(st2, steps2).accounts
    ensures forall i | 0 <= i < |steps1| ::
              && Verdict(st1, steps1, i) == Verdict(st2, steps2, i)
              && After(st1, steps1[..i]).accounts == After(st2, steps2[..i]).accounts
  {
    RunsKeepConsensus(st1, st2, steps1, steps2);
    ConsensusAccounts(After(st1, steps1), After(st2, steps2));
    forall i | 0 <= i < |steps1|
      ensures Verdict(st1, steps1, i) == Verdict(st2, steps2, i)
      ensures After(st1, steps1[..i]).accounts == After(st2, steps2[..i]).accounts
    {
      RunsKeepConsensus(st1, st2, steps1[..i], steps2[..i]);
      ConsensusAccounts(After(st1, steps1[..i]), After(st2, steps2[..i]));
      StepKeepsConsensus(After(st1, steps1[..i]), After(st2, steps2[..i]), steps1[i], steps2[i]);
    }
  }

  lemma ConsensusAccounts(st1: State, st2: State)
    requires SameConsensus(st1, st2)
    ensures st1.accounts == st2.accounts
  {
    forall a ensures SameRecord(st1, st2, a) {
      assert a in EVERYONE;
    }
    SameEverywhere(st1, st2);
  }
}
