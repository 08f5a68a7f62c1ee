/** The ante pipeline of app/ante/ante.go over the mana store, as a transaction: its stages run on a
    branch of the store, which is kept only if every stage passes. */
module Ante {
  import opened Machine
  import opened Types
  import opened Ledger
  import Pow

  /** How the pipeline is run: gas simulation, mempool admission, or block execution. */
  datatype Mode = Simulate | Check | Deliver

  /** What the pipeline reads of a transaction.
      size      the length of the raw bytes; estimate stands in when there are none
      signers   Err when the transaction is not signature-verifiable or its signers cannot be read
      sequence  of the first signature, 0 when there is none
      early     the verdict of the SDK's own decorators before the proof-of-work stage
      later     their verdict after the spam limit (public keys, signatures, sequence, gas) */
  datatype Tx = Tx(
    size: nat,
    estimate: nat,
    signers: Result<seq<Addr>>,
    sequence: uint64,
    memo: seq<byte>,
    early: bool,
    later: bool)

  /** Sizes are Go ints, and signers are addresses the SDK has already validated. */
  predicate ValidTx(tx: Tx) {
    && tx.size < TWO_63 && tx.estimate < TWO_63
    && (tx.signers.Ok? ==> forall s | s in tx.signers.value :: ValidAddr(s))
  }

  function TxSizeLimit(mode: Mode, tx: Tx): Option<Error> {
    if !mode.Simulate? && tx.size > MAX_TX_BYTES then Some(TxTooLarge) else None
  }

  function PowChoke(st: State, ctx: Ctx, mode: Mode, tx: Tx): Option<Error> {
    if !mode.Check? || ctx.height == 0 then None
    else if GetPowDifficulty(st) == 0 then None
    else
      match tx.signers
      case Err(e) => Some(e)
      case Ok(signers) =>
        if signers == [] then Some(Unauthorized) else VerifyPow(st, signers[0], tx.sequence, tx.memo)
  }

  function TxCost(tx: Tx): uint64
    requires ValidTx(tx)
  {
    ComputeTxManaCost(if tx.size == 0 then tx.estimate else tx.size)
  }

  function ManaConsume(st: State, ctx: Ctx, mode: Mode, tx: Tx): Outcome
    requires ValidTx(tx)
  {
    if mode.Simulate? || ctx.height == 0 then Outcome(st, None)
    else
      match tx.signers
      case Err(e) => Outcome(st, Some(e))
      case Ok(signers) =>
        if signers == [] then Outcome(st, Some(Unauthorized))
        else ConsumeMana(st, ctx, signers[0], TxCost(tx))
  }

  /** Counts the transaction against each signer in turn, stopping at the first refusal. */
  function CountAll(st: State, ctx: Ctx, signers: seq<Addr>): Outcome
    decreases signers
  {
    if signers == [] then Outcome(st, None)
    else
      var o := IncrementTxCount(st, ctx, signers[0]);
      if o.Done() then CountAll(o.st, ctx, signers[1..]) else o
  }

  function TxSpamLimit(st: State, ctx: Ctx, mode: Mode, tx: Tx): Outcome {
    if mode.Simulate? || ctx.height == 0 then Outcome(st, None)
    else
      match tx.signers
      case Err(e) => Outcome(st, Some(e))
      case Ok(signers) => CountAll(st, ctx, signers)
  }

  /** The decorators in order, on a branch of the store. */
  function AnteHandler(st: State, ctx: Ctx, mode: Mode, tx: Tx): Outcome
    requires ValidTx(tx)
  {
    var size := TxSizeLimit(mode, tx);
    if size.Some? then Outcome(st, size)
    else if !tx.early then Outcome(st, Some(StockCheck))
    else
      var pow := PowChoke(st, ctx, mode, tx);
      if pow.Some? then Outcome(st, pow)
      else
        var paid := ManaConsume(st, ctx, mode, tx);
        if !paid.Done() then paid
        else
          var counted := TxSpamLimit(paid.st, ctx, mode, tx);
          if !counted.Done() then counted
          else if !tx.later then Outcome(counted.st, Some(StockCheck))
          else counted
  }

  /** BaseApp's rule: the branch is written back only if the whole pipeline passed. */
  function RunTx(st: State, ctx: Ctx, mode: Mode, tx: Tx): Outcome
    requires ValidTx(tx)
  {
    var o := AnteHandler(st, ctx, mode, tx);
    if o.Done() then o else Outcome(st, o.err)
  }

  // ---------------------------------------------------------------------------
  // The effect in closed form
  // ---------------------------------------------------------------------------

  function Occurrences(signers: seq<Addr>, a: Addr): nat {
    if signers == [] then 0 else (if signers[0] == a then 1 else 0) + Occurrences(signers[1..], a)
  }

  lemma {:induction false} OccursIffIn(signers: seq<Addr>, a: Addr)
    ensures Occurrences(signers, a) > 0 <==> a in signers
    ensures Occurrences(signers, a) == multiset(signers)[a]
  {
    if signers != [] {
      OccursIffIn(signers[1..], a);
      assert signers == [signers[0]] + signers[1..];
    }
  }

  /** A record after n further transactions of the block at the given height. */
  function Counted(acct: AccountMana, height: int64, n: nat): AccountMana {
    acct.(txCountThisBlock := (CountedAt(acct, height) + n) % TWO_32, lastTxBlock := height)
  }

  /** Whether n further transactions still fit the account's allowance.  The stored counter has 32 bits,
      so an allowance of 2^32 or more never refuses. */
  predicate Fits(p: Params, acct: AccountMana, height: int64, n: nat) {
    p.maxTxPerBlock >= TWO_32 || CountedAt(acct, height) + n <= p.maxTxPerBlock
  }

  /** Whether a signer can be read and has room for all its occurrences. */
  ghost predicate HasRoom(st: State, ctx: Ctx, signers: seq<Addr>, a: Addr) {
    && GetAccountMana(st, ctx, a).Ok?
    && Fits(GetParams(st), GetAccountMana(st, ctx, a).value, ctx.height, Occurrences(signers, a))
  }

  ghost predicate CanCount(st: State, ctx: Ctx, signers: seq<Addr>) {
    forall a | a in signers :: HasRoom(st, ctx, signers, a)
  }

  /** Account a after the spam stage: a signer's record is regenerated and counted once per
      occurrence, any other is as before. */
  ghost predicate CountedAs(before: State, ctx: Ctx, signers: seq<Addr>, after: State, a: Addr) {
    && (a in after.accounts <==> a in before.accounts || a in signers)
    && (a in signers ==>
        && GetAccountMana(before, ctx, a).Ok?
        && after.accounts[a]
           == Counted(GetAccountMana(before, ctx, a).value, ctx.height, Occurrences(signers, a)))
    && (a !in signers && a in before.accounts ==> after.accounts[a] == before.accounts[a])
  }

  ghost predicate SameSettings(before: State, after: State) {
    after.cfg == before.cfg && after.params == before.params && after.pow == before.pow
  }

  /** Writing a just-read record back makes the next read at this height return it unchanged. */
  lemma ReadYourWrite(st: State, ctx: Ctx, addr: Addr, acct: AccountMana)
    requires GetAccountMana(st, ctx, addr).Ok?
    requires acct.lastUpdateHeight == GetAccountMana(st, ctx, addr).value.lastUpdateHeight
    ensures GetAccountMana(Put(st, addr, acct), ctx, addr) == Ok(acct)
    ensures forall a | a != addr :: GetAccountMana(Put(st, addr, acct), ctx, a) == GetAccountMana(st, ctx, a)
  {
    var stored := LoadAccountMana(st, addr);
    if stored.lastUpdateHeight < ctx.height {
      WrappedDifference(ctx.height, stored.lastUpdateHeight);
    }
  }

  lemma CountMore(acct: AccountMana, height: int64, n: nat)
    ensures Counted(Counted(acct, height, 1), height, n) == Counted(acct, height, n + 1)
  {
    WrapAdd(CountedAt(acct, height) + 1, n);
  }

  /** One step of the signer loop: room for all signers is room for the first and then for the rest. */
  lemma RoomStep(st: State, next: State, ctx: Ctx, signers: seq<Addr>, a: Addr)
    requires signers != []
    requires IncrementTxCount(st, ctx, signers[0]) == Outcome(next, None)
    ensures a in signers[1..] ==> (HasRoom(st, ctx, signers, a) <==> HasRoom(next, ctx, signers[1..], a))
    ensures signers[0] !in signers[1..] ==> HasRoom(st, ctx, signers, signers[0])
  {
    var s, rest := signers[0], signers[1..];
    var acct := GetAccountMana(st, ctx, s).value;
    ReadYourWrite(st, ctx, s, Counted(acct, ctx.height, 1));
    OccursIffIn(rest, s);
    assert GetParams(st).maxTxPerBlock < TWO_32 ==>
        CountedAt(Counted(acct, ctx.height, 1), ctx.height) == CountedAt(acct, ctx.height) + 1;
  }

  lemma CountedStep(st: State, next: State, ctx: Ctx, signers: seq<Addr>, after: State, a: Addr)
    requires signers != []
    requires IncrementTxCount(st, ctx, signers[0]) == Outcome(next, None)
    requires CountedAs(next, ctx, signers[1..], after, a)
    ensures CountedAs(st, ctx, signers, after, a)
  {
    var s, rest := signers[0], signers[1..];
    var acct := GetAccountMana(st, ctx, s).value;
    ReadYourWrite(st, ctx, s, Counted(acct, ctx.height, 1));
    OccursIffIn(rest, s);
    CountMore(acct, ctx.height, Occurrences(rest, s));
    assert a in signers <==> a == s || a in rest;
  }

  /** The signer loop accepts exactly when every signer has room, and then counts each occurrence. */
  lemma {:induction false} CountAllExact(st: State, ctx: Ctx, signers: seq<Addr>)
    ensures CountAll(st, ctx, signers).Done() <==> CanCount(st, ctx, signers)
    ensures SameSettings(st, CountAll(st, ctx, signers).st)
    ensures CountAll(st, ctx, signers).Done()
            ==> forall a :: CountedAs(st, ctx, signers, CountAll(st, ctx, signers).st, a)
    decreases signers
  {
    if signers != [] {
      var s, rest := signers[0], signers[1..];
      var o := IncrementTxCount(st, ctx, s);
      if o.Done() {
        CountAllExact(o.st, ctx, rest);
        forall a ensures a in rest ==> (HasRoom(st, ctx, signers, a) <==> HasRoom(o.st, ctx, rest, a)) {
          RoomStep(st, o.st, ctx, signers, a);
        }
        RoomStep(st, o.st, ctx, signers, s);
        assert CanCount(st, ctx, signers) <==> CanCount(o.st, ctx, rest) by {
          assert forall a :: a in signers <==> a == s || a in rest;
        }
        if CountAll(o.st, ctx, rest).Done() {
          forall a ensures CountedAs(st, ctx, signers, CountAll(st, ctx, signers).st, a) {
            CountedStep(st, o.st, ctx, signers, CountAll(st, ctx, signers).st, a);
          }
        }
      } else {
        assert s in signers && Occurrences(signers, s) >= 1;
        assert !HasRoom(st, ctx, signers, s);
      }
    }
  }

  /** The mana a delivered transaction takes from an account. */
  function Charge(tx: Tx, a: Addr): nat
    requires ValidTx(tx)
  {
    if tx.signers.Ok? && tx.signers.value != [] && tx.signers.value[0] == a then TxCost(tx) else 0
  }

  /** When a delivered transaction is accepted, said without running the pipeline. */
  ghost predicate Admissible(st: State, ctx: Ctx, tx: Tx)
    requires ValidTx(tx)
  {
    && tx.size <= MAX_TX_BYTES && tx.early && tx.later
    && (ctx.height != 0 ==>
        && tx.signers.Ok? && tx.signers.value != []
        && CanCount(st, ctx, tx.signers.value)
        && GetAccountMana(st, ctx, tx.signers.value[0]).Ok?
        && TxCost(tx) <= GetAccountMana(st, ctx, tx.signers.value[0]).value.mana)
  }

  /** The record an accepted transaction leaves for one of its signers. */
  ghost predicate SignerRecord(before: State, ctx: Ctx, tx: Tx, a: Addr, acct: AccountMana)
    requires ValidTx(tx) && tx.signers.Ok?
  {
    && GetAccountMana(before, ctx, a).Ok?
    && var read := GetAccountMana(before, ctx, a).value;
    && acct.address == read.address
    && acct.mana == read.mana - Charge(tx, a)
    && acct.lastUpdateHeight == read.lastUpdateHeight
    && acct.lastTxBlock == ctx.height
    && acct.txCountThisBlock == (CountedAt(read, ctx.height) + Occurrences(tx.signers.value, a)) % TWO_32
  }

  /** Account a after an accepted transaction. */
  ghost predicate EffectOn(before: State, ctx: Ctx, tx: Tx, after: State, a: Addr)
    requires ValidTx(tx) && tx.signers.Ok?
  {
    && (a in after.accounts <==> a in before.accounts || a in tx.signers.value)
    && (a in tx.signers.value ==> SignerRecord(before, ctx, tx, a, after.accounts[a]))
    && (a !in tx.signers.value && a in before.accounts ==> after.accounts[a] == before.accounts[a])
  }

  /** What an accepted transaction changes: one charge, and one count per signature; nothing of any
      other account, of the parameters or of the difficulty. */
  ghost predicate Effect(before: State, ctx: Ctx, tx: Tx, after: State)
    requires ValidTx(tx)
  {
    if ctx.height == 0 then after == before
    else
      && tx.signers.Ok?
      && SameSettings(before, after)
      && forall a :: EffectOn(before, ctx, tx, after, a)
  }

  /** The payment leaves the counters alone, so the spam stage sees the same room as before it. */
  lemma PaymentKeepsRoom(st: State, ctx: Ctx, payer: Addr, cost: uint64, signers: seq<Addr>, a: Addr)
    requires ConsumeMana(st, ctx, payer, cost).Done()
    ensures HasRoom(ConsumeMana(st, ctx, payer, cost).st, ctx, signers, a) <==> HasRoom(st, ctx, signers, a)
  {
    var acct := GetAccountMana(st, ctx, payer).value;
    ReadYourWrite(st, ctx, payer, acct.(mana := acct.mana - cost));
  }

  /** The two mana stages together, from one store to the next. */
  lemma PayAndCountExact(st: State, ctx: Ctx, tx: Tx)
    requires ValidTx(tx) && tx.signers.Ok? && tx.signers.value != [] && ctx.height != 0
    requires ConsumeMana(st, ctx, tx.signers.value[0], TxCost(tx)).Done()
    ensures var paid := ConsumeMana(st, ctx, tx.signers.value[0], TxCost(tx)).st;
            var counted := CountAll(paid, ctx, tx.signers.value);
            && (counted.Done() <==> CanCount(st, ctx, tx.signers.value))
            && (counted.Done() ==> Effect(st, ctx, tx, counted.st))
  {
    var signers, cost := tx.signers.value, TxCost(tx);
    var paid := ConsumeMana(st, ctx, signers[0], cost).st;
    var acct := GetAccountMana(st, ctx, signers[0]).value;
    forall a ensures HasRoom(paid, ctx, signers, a) <==> HasRoom(st, ctx, signers, a) {
      PaymentKeepsRoom(st, ctx, signers[0], cost, signers, a);
    }
    ReadYourWrite(st, ctx, signers[0], acct.(mana := acct.mana - cost));
    CountAllExact(paid, ctx, signers);
    if CountAll(paid, ctx, signers).Done() {
      var after := CountAll(paid, ctx, signers).st;
      forall a
        ensures EffectOn(st, ctx, tx, after, a)
      {
        assert CountedAs(paid, ctx, signers, after, a);
      }
    }
  }

  /** The exact effect of block execution: accepted exactly when admissible, with exactly that effect;
      otherwise the store is as it was, whichever stage refused. */
  lemma DeliverExact(st: State, ctx: Ctx, tx: Tx)
    requires ValidTx(tx)
    ensures RunTx(st, ctx, Deliver, tx).Done() <==> Admissible(st, ctx, tx)
    ensures RunTx(st, ctx, Deliver, tx).Done() ==> Effect(st, ctx, tx, RunTx(st, ctx, Deliver, tx).st)
    ensures !RunTx(st, ctx, Deliver, tx).Done() ==> RunTx(st, ctx, Deliver, tx).st == st
  {
    if ctx.height != 0 && tx.signers.Ok? && tx.signers.value != [] {
      if ConsumeMana(st, ctx, tx.signers.value[0], TxCost(tx)).Done() {
        PayAndCountExact(st, ctx, tx);
      }
    }
  }

  // ---------------------------------------------------------------------------
  // The reason of a refusal
  // ---------------------------------------------------------------------------

  /** Whether the loop has to stop at signer i: it cannot be read, or its allowance does not fit its
      occurrences so far. */
  ghost predicate RefusedAt(st: State, ctx: Ctx, signers: seq<Addr>, i: nat) {
    && i < |signers|
    && (GetAccountMana(st, ctx, signers[i]).Ok? ==>
          !Fits(GetParams(st), GetAccountMana(st, ctx, signers[i]).value, ctx.height,
                Occurrences(signers[..i + 1], signers[i])))
  }

  ghost predicate FirstRefused(st: State, ctx: Ctx, signers: seq<Addr>, i: nat) {
    RefusedAt(st, ctx, signers, i) && forall j: nat | j < i :: !RefusedAt(st, ctx, signers, j)
  }

  function RefusalOf(st: State, ctx: Ctx, a: Addr): Error {
    var read := GetAccountMana(st, ctx, a);
    if read.Err? then read.error else TxSpamLimitExceeded
  }

  lemma RefusedStep(st: State, next: State, ctx: Ctx, signers: seq<Addr>, i: nat)
    requires signers != [] && i < |signers| - 1
    requires IncrementTxCount(st, ctx, signers[0]) == Outcome(next, None)
    ensures RefusedAt(next, ctx, signers[1..], i) <==> RefusedAt(st, ctx, signers, i + 1)
    ensures RefusalOf(next, ctx, signers[i + 1]) == RefusalOf(st, ctx, signers[i + 1])
  {
    var s, rest := signers[0], signers[1..];
    var acct := GetAccountMana(st, ctx, s).value;
    ReadYourWrite(st, ctx, s, Counted(acct, ctx.height, 1));
    assert signers[..i + 2][1..] == rest[..i + 1];
    assert GetParams(st).maxTxPerBlock < TWO_32 ==>
        CountedAt(Counted(acct, ctx.height, 1), ctx.height) == CountedAt(acct, ctx.height) + 1;
  }

  /** A refused loop gives the error of the first signer at which it has to stop. */
  lemma {:induction false} CountAllRefusal(st: State, ctx: Ctx, signers: seq<Addr>) returns (i: nat)
    requires !CountAll(st, ctx, signers).Done()
    ensures FirstRefused(st, ctx, signers, i)
    ensures CountAll(st, ctx, signers).err == Some(RefusalOf(st, ctx, signers[i]))
    decreases signers
  {
    var o := IncrementTxCount(st, ctx, signers[0]);
    assert Occurrences(signers[..1], signers[0]) == 1;
    if o.Done() {
      var k := CountAllRefusal(o.st, ctx, signers[1..]);
      i := k + 1;
      forall j: nat | j <= k
        ensures RefusedAt(o.st, ctx, signers[1..], j) <==> RefusedAt(st, ctx, signers, j + 1)
        ensures RefusalOf(o.st, ctx, signers[j + 1]) == RefusalOf(st, ctx, signers[j + 1])
      {
        RefusedStep(st, o.st, ctx, signers, j);
      }
      assert !RefusedAt(st, ctx, signers, 0);
      forall j: nat | 0 < j < i ensures !RefusedAt(st, ctx, signers, j) {
        assert !RefusedAt(o.st, ctx, signers[1..], j - 1);
      }
    } else {
      i := 0;
    }
  }

  /** The payment changes nobody's refusal. */
  lemma PaymentKeepsRefusal(st: State, ctx: Ctx, payer: Addr, cost: uint64, signers: seq<Addr>, i: nat)
    requires ConsumeMana(st, ctx, payer, cost).Done() && i < |signers|
    ensures RefusedAt(ConsumeMana(st, ctx, payer, cost).st, ctx, signers, i) <==> RefusedAt(st, ctx, signers, i)
    ensures RefusalOf(ConsumeMana(st, ctx, payer, cost).st, ctx, signers[i]) == RefusalOf(st, ctx, signers[i])
  {
    var acct := GetAccountMana(st, ctx, payer).value;
    ReadYourWrite(st, ctx, payer, acct.(mana := acct.mana - cost));
  }

  ghost predicate CountRefusal(st: State, ctx: Ctx, signers: seq<Addr>, err: Option<Error>) {
    exists i: nat :: FirstRefused(st, ctx, signers, i) && err == Some(RefusalOf(st, ctx, signers[i]))
  }

  lemma SpamRefusal(st: State, ctx: Ctx, payer: Addr, cost: uint64, signers: seq<Addr>)
    requires ConsumeMana(st, ctx, payer, cost).Done()
    requires !CountAll(ConsumeMana(st, ctx, payer, cost).st, ctx, signers).Done()
    ensures CountRefusal(st, ctx, signers, CountAll(ConsumeMana(st, ctx, payer, cost).st, ctx, signers).err)
  {
    var i := CountAllRefusal(ConsumeMana(st, ctx, payer, cost).st, ctx, signers);
    forall j: nat | j <= i
      ensures RefusedAt(ConsumeMana(st, ctx, payer, cost).st, ctx, signers, j) <==> RefusedAt(st, ctx, signers, j)
      ensures RefusalOf(ConsumeMana(st, ctx, payer, cost).st, ctx, signers[j]) == RefusalOf(st, ctx, signers[j])
    {
      PaymentKeepsRefusal(st, ctx, payer, cost, signers, j);
    }
    assert FirstRefused(st, ctx, signers, i);
  }

  /** Which error a delivered transaction gets, for every store and transaction, said about the store
      before the pipeline runs. */
  lemma DeliverVerdict(st: State, ctx: Ctx, tx: Tx)
    requires ValidTx(tx)
    ensures var err := RunTx(st, ctx, Deliver, tx).err;
            if tx.size > 1_048_576 then err == Some(TxTooLarge)
            else if !tx.early then err == Some(StockCheck)
            else if ctx.height == 0 then err == if tx.later then None else Some(StockCheck)
            else if tx.signers.Err? then err == Some(tx.signers.error)
            else if tx.signers.value == [] then err == Some(Unauthorized)
            else
              var read := GetAccountMana(st, ctx, tx.signers.value[0]);
              if read.Err? then err == Some(read.error)
              else if read.value.mana < TxCost(tx) then err == Some(InsufficientBandwidth)
              else if !CanCount(st, ctx, tx.signers.value) then CountRefusal(st, ctx, tx.signers.value, err)
              else err == if tx.later then None else Some(StockCheck)
  {
    if ctx.height != 0 && tx.signers.Ok? && tx.signers.value != [] {
      var signers := tx.signers.value;
      var paid := ConsumeMana(st, ctx, signers[0], TxCost(tx));
      if paid.Done() {
        PayAndCountExact(st, ctx, tx);
        if !CountAll(paid.st, ctx, signers).Done() {
          SpamRefusal(st, ctx, signers[0], TxCost(tx), signers);
        }
      }
    }
  }

  /** In every mode, a refused transaction changes nothing: an invalid signature under congestion, for
      instance, neither drains mana nor uses up an allowance. */
  lemma RefusedChangesNothing(st: State, ctx: Ctx, mode: Mode, tx: Tx)
    requires ValidTx(tx)
    ensures !RunTx(st, ctx, mode, tx).Done() ==> RunTx(st, ctx, mode, tx).st == st
  {
  }

  /** A store stays well-formed under every transaction, in every mode. */
  lemma {:induction false} CountAllKeepsWellFormed(st: State, ctx: Ctx, signers: seq<Addr>)
    requires WellFormed(st) && forall s | s in signers :: ValidAddr(s)
    ensures WellFormed(CountAll(st, ctx, signers).st)
    decreases signers
  {
    if signers != [] {
      OperationsKeepWellFormed(st, ctx, signers[0], 0);
      CountAllKeepsWellFormed(IncrementTxCount(st, ctx, signers[0]).st, ctx, signers[1..]);
    }
  }

  lemma RunTxKeepsWellFormed(st: State, ctx: Ctx, mode: Mode, tx: Tx)
    requires WellFormed(st) && ValidTx(tx)
    ensures WellFormed(RunTx(st, ctx, mode, tx).st)
  {
    if mode.Simulate? {
      SimulationIsFree(st, ctx, tx);
    } else if tx.signers.Ok? && tx.signers.value != [] {
      var signers := tx.signers.value;
      OperationsKeepWellFormed(st, ctx, signers[0], TxCost(tx));
      CountAllKeepsWellFormed(ManaConsume(st, ctx, mode, tx).st, ctx, signers);
    }
  }

  /** Gas simulation skips all of the module: it costs no mana, counts nothing and needs no work. */
  lemma SimulationIsFree(st: State, ctx: Ctx, tx: Tx)
    requires ValidTx(tx)
    ensures RunTx(st, ctx, Simulate, tx).st == st
    ensures RunTx(st, ctx, Simulate, tx).Done() <==> tx.early && tx.later
  {
  }

  // ---------------------------------------------------------------------------
  // Mempool admission against block execution
  // ---------------------------------------------------------------------------

  /** The proof-of-work filter is all that separates the two modes.  It comes after the size limit and the
      early checks and before everything else, so a CheckTx has the filter's verdict if those pass and the
      filter refuses, and otherwise the verdict of the same DeliverTx, errors included; if it passes, it
      leaves the same store. */
  lemma CheckIsDeliverPlusPow(st: State, ctx: Ctx, tx: Tx)
    requires ValidTx(tx)
    ensures RunTx(st, ctx, Check, tx).err ==
              if tx.size <= 1_048_576 && tx.early && PowChoke(st, ctx, Check, tx).Some?
              then PowChoke(st, ctx, Check, tx) else RunTx(st, ctx, Deliver, tx).err
    ensures RunTx(st, ctx, Check, tx).Done()
            <==> RunTx(st, ctx, Deliver, tx).Done() && PowChoke(st, ctx, Check, tx).None?
    ensures RunTx(st, ctx, Check, tx).Done() ==> RunTx(st, ctx, Check, tx) == RunTx(st, ctx, Deliver, tx)
    ensures GetPowDifficulty(st) == 0 ==> RunTx(st, ctx, Check, tx) == RunTx(st, ctx, Deliver, tx)
  {
  }

  /** The filter's verdict, error included: past height 0 and above difficulty 0 it asks for a first signer,
      and for a memo whose hash with the challenge of that signer and sequence is below 2^(256 - d). */
  lemma PowChokeExact(st: State, ctx: Ctx, tx: Tx)
    requires Lawful(st.cfg)
    ensures PowChoke(st, ctx, Check, tx) ==
              if ctx.height == 0 || GetPowDifficulty(st) == 0 then None
              else if tx.signers.Err? then Some(tx.signers.error)
              else if tx.signers.value == [] then Some(Unauthorized)
              else
                var d := GetPowDifficulty(st);
                var challenge :=
                  st.cfg.sha256(st.cfg.chainId + tx.signers.value[0] + Pow.PutBigEndian(8, tx.sequence));
                if d <= 256 && Pow.BigEndian(st.cfg.sha256(challenge + tx.memo)) < Pow.Pow2(256 - d) then None
                else Some(InsufficientPow)
  {
    if tx.signers.Ok? && tx.signers.value != [] {
      VerifyPowExact(st, tx.signers.value[0], tx.sequence, tx.memo);
    }
  }
}
