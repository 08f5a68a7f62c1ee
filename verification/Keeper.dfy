/** The keeper as the program has it: an object over the store whose methods update it in place.
    Each method is tied to the function of Ledger.dfy or Genesis.dfy that says what it does. */
module ManaKeeper {
  import opened Machine
  import opened Types
  import opened Ledger
  import opened Genesis
  import Pow

  class Keeper {
    const cfg: Config
    var params: Option<Params>
    var accounts: map<Addr, AccountMana>
    var pow: seq<byte>

    /** The store as a value. */
    function St(): State
      reads this
    {
      State(cfg, params, accounts, pow)
    }

    constructor (cfg: Config)
      ensures St() == EmptyStore(cfg)
    {
      this.cfg := cfg;
      params, accounts, pow := None, map[], [];
    }

    method SetParams(p: Params) returns (err: Option<Error>)
      modifies this`params
      ensures err.None? <==> p.totalManaPool > 0 && p.maxTxPerBlock > 0 && p.blocksPerYear > 0
      ensures params == if err.None? then Some(p) else old(params)
    {
      err := ValidateParams(p);
      if err.None? {
        params := Some(p);
      }
    }

    /** Deducts the cost, or reports why not and changes nothing. */
    method ConsumeMana(ctx: Ctx, addr: Addr, cost: uint64) returns (err: Option<Error>)
      modifies this`accounts
      ensures Outcome(St(), err) == Ledger.ConsumeMana(old(St()), ctx, addr, cost)
    {
      var got := GetAccountMana(St(), ctx, addr);
      if got.Err? {
        return Some(got.error);
      }
      var acct := got.value;
      if acct.mana < cost {
        return Some(InsufficientBandwidth);
      }
      acct := acct.(mana := acct.mana - cost);
      accounts := accounts[addr := acct];
      return None;
    }

    /** Counts one more transaction of this block, or reports that the account's allowance is used up. */
    method IncrementTxCount(ctx: Ctx, addr: Addr) returns (err: Option<Error>)
      modifies this`accounts
      ensures Outcome(St(), err) == Ledger.IncrementTxCount(old(St()), ctx, addr)
    {
      var got := GetAccountMana(St(), ctx, addr);
      if got.Err? {
        return Some(got.error);
      }
      var acct := got.value;
      if acct.lastTxBlock != ctx.height {
        acct := acct.(txCountThisBlock := 0, lastTxBlock := ctx.height);
      }
      if acct.txCountThisBlock >= GetParams(St()).maxTxPerBlock {
        return Some(TxSpamLimitExceeded);
      }
      acct := acct.(txCountThisBlock := AddUint32(acct.txCountThisBlock, 1));
      accounts := accounts[addr := acct];
      return None;
    }

    /** One step of the difficulty walk; the store is written only if the difficulty changes. */
    method UpdatePowDifficulty(blockTxCount: uint64)
      modifies this`pow
      ensures St() == Ledger.UpdatePowDifficulty(old(St()), blockTxCount)
      ensures GetPowDifficulty(St()) == Pow.NextDifficulty(GetPowDifficulty(old(St())), blockTxCount)
    {
      DifficultyStep(St(), blockTxCount);
      var difficulty := GetPowDifficulty(St());
      if blockTxCount > POW_HIGH_WATERMARK && difficulty < POW_MAX_DIFFICULTY {
        difficulty := difficulty + 1;
      } else if blockTxCount < POW_LOW_WATERMARK && difficulty > 0 {
        difficulty := difficulty - 1;
      } else {
        return;
      }
      pow := Pow.PutBigEndian(4, difficulty);
    }

    /** Accepts exactly the work values below 2^(256 - difficulty). */
    method VerifyPow(signer: Addr, sequence: uint64, memo: seq<byte>) returns (err: Option<Error>)
      ensures err == Ledger.VerifyPow(St(), signer, sequence, memo)
      ensures Lawful(cfg) ==>
        var challenge := cfg.sha256(cfg.chainId + signer + Pow.PutBigEndian(8, sequence));
        (err.None? <==> GetPowDifficulty(St()) <= 256
                        && Pow.BigEndian(cfg.sha256(challenge + memo)) < Pow.Pow2(256 - GetPowDifficulty(St())))
    {
      if Lawful(cfg) {
        VerifyPowExact(St(), signer, sequence, memo);
      }
      var difficulty := GetPowDifficulty(St());
      if difficulty == 0 {
        return None;
      }
      var challenge := Pow.PowChallenge(cfg, signer, sequence);
      var work := Pow.PowWork(cfg, challenge, memo);
      var zeros := Pow.LeadingZeroBits(work);
      if zeros < difficulty {
        return Some(InsufficientPow);
      }
      return None;
    }

    /** Validates first; a valid file replaces the parameters and writes its records one by one. */
    method InitGenesis(gs: GenesisState) returns (err: Option<Error>)
      modifies this`params, this`accounts
      ensures Outcome(St(), err) == Genesis.InitGenesis(old(St()), gs)
    {
      err := ValidateGenesis(cfg, gs);
      if err.Some? {
        return;
      }
      err := SetParams(gs.params);
      if err.Some? {
        return;
      }
      var records := gs.accountManas;
      for i := 0 to |records|
        invariant accounts == Import(cfg, old(accounts), records[..i])
        invariant params == Some(gs.params)
      {
        var addr := cfg.decode(records[i].address).value;
        accounts := accounts[addr := records[i]];
        assert records[..i + 1][..i] == records[..i];
      }
      assert records[..|records|] == records;
    }

    /** Walks the store's iterator, which yields the keys in byte order, and lists the records. */
    method ExportGenesis() returns (gs: GenesisState)
      ensures IsExport(St(), gs)
    {
      var records: seq<AccountMana> := [];
      ghost var order: seq<Addr> := [];
      var rest := accounts.Keys;
      while rest != {}
        invariant rest <= accounts.Keys
        invariant forall k | k in order :: k !in rest && k in accounts && forall x | x in rest :: Before(k, x)
        invariant IsListing(map k | k in accounts && k !in rest :: accounts[k], order, records)
        decreases rest
      {
        ghost var first := FirstExists(rest);
        var key :| key in rest && IsFirst(key, rest);
        ExtendListing(accounts, rest, order, records, key);
        records := records + [accounts[key]];
        order := order + [key];
        rest := rest - {key};
      }
      assert (map k | k in accounts && k !in rest :: accounts[k]) == accounts;
      gs := GenesisState(GetParams(St()), records);
    }
  }
}
