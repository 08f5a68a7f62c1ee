/** The decorators and the PreBlocker as the program runs them, step by step on the keeper. */
module AnteHandler {
  import opened Machine
  import opened Types
  import opened Ledger
  import opened Ante
  import opened ManaKeeper

  method PowChoke(k: Keeper, ctx: Ctx, mode: Mode, tx: Tx) returns (err: Option<Error>)
    ensures err == Ante.PowChoke(k.St(), ctx, mode, tx)
  {
    if !mode.Check? || ctx.height == 0 || GetPowDifficulty(k.St()) == 0 {
      return None;
    }
    if tx.signers.Err? {
      return Some(tx.signers.error);
    }
    if tx.signers.value == [] {
      return Some(Unauthorized);
    }
    err := k.VerifyPow(tx.signers.value[0], tx.sequence, tx.memo);
  }

  method ManaConsume(k: Keeper, ctx: Ctx, mode: Mode, tx: Tx) returns (err: Option<Error>)
    requires ValidTx(tx)
    modifies k`accounts
    ensures Outcome(k.St(), err) == Ante.ManaConsume(old(k.St()), ctx, mode, tx)
  {
    if mode.Simulate? || ctx.height == 0 {
      return None;
    }
    if tx.signers.Err? {
      return Some(tx.signers.error);
    }
    if tx.signers.value == [] {
      return Some(Unauthorized);
    }
    err := k.ConsumeMana(ctx, tx.signers.value[0], TxCost(tx));
  }

  /** The loop over all signers; a refusal midway leaves the earlier counts in the branch. */
  method TxSpamLimit(k: Keeper, ctx: Ctx, mode: Mode, tx: Tx) returns (err: Option<Error>)
    modifies k`accounts
    ensures Outcome(k.St(), err) == Ante.TxSpamLimit(old(k.St()), ctx, mode, tx)
  {
    if mode.Simulate? || ctx.height == 0 {
      return None;
    }
    if tx.signers.Err? {
      return Some(tx.signers.error);
    }
    var signers := tx.signers.value;
    for i := 0 to |signers|
      invariant CountAll(old(k.St()), ctx, signers) == CountAll(k.St(), ctx, signers[i..])
    {
      assert signers[i..][1..] == signers[i + 1..];
      err := k.IncrementTxCount(ctx, signers[i]);
      if err.Some? {
        return;
      }
    }
    return None;
  }

  /** The whole pipeline on a branch of the store: the branch is kept if every stage passes and
      dropped otherwise.  Its exact effect is Ante.DeliverExact. */
  method RunTx(k: Keeper, ctx: Ctx, mode: Mode, tx: Tx) returns (err: Option<Error>)
    requires ValidTx(tx)
    modifies k`accounts
    ensures Outcome(k.St(), err) == Ante.RunTx(old(k.St()), ctx, mode, tx)
  {
    var saved := k.accounts;
    err := RunStages(k, ctx, mode, tx);
    if err.Some? {
      k.accounts := saved;
    }
  }

  method RunStages(k: Keeper, ctx: Ctx, mode: Mode, tx: Tx) returns (err: Option<Error>)
    requires ValidTx(tx)
    modifies k`accounts
    ensures Outcome(k.St(), err) == Ante.AnteHandler(old(k.St()), ctx, mode, tx)
  {
    err := TxSizeLimit(mode, tx);
    if err.Some? { return; }
    if !tx.early { return Some(StockCheck); }
    err := PowChoke(k, ctx, mode, tx);
    if err.Some? { return; }
    err := ManaConsume(k, ctx, mode, tx);
    if err.Some? { return; }
    err := TxSpamLimit(k, ctx, mode, tx);
    if err.Some? { return; }
    if !tx.later { return Some(StockCheck); }
  }

  /** The block's transaction count drives the difficulty; a missing request leaves it alone. */
  method PreBlocker(k: Keeper, txCount: Option<uint64>)
    modifies k`pow
    ensures k.St() == if txCount.None? then old(k.St()) else UpdatePowDifficulty(old(k.St()), txCount.value)
  {
    if txCount.Some? {
      k.UpdatePowDifficulty(txCount.value);
    }
  }
}
