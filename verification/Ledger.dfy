/** The mana store as a value, and what each keeper operation does to it.  The class in Keeper.dfy
    updates the same fields in place and is proved against these functions. */
module Ledger {
  import opened Machine
  import opened Types
  import opened Rate
  import opened Regen
  import opened Pow

  /** cfg never changes.  pow holds the raw bytes under the difficulty key, [] when absent. */
  datatype State = State(
    cfg: Config,
    params: Option<Params>,
    accounts: map<Addr, AccountMana>,
    pow: seq<byte>)

  /** The store after an operation, and the operation's error if it had one. */
  datatype Outcome = Outcome(st: State, err: Option<Error>) {
    predicate Done() {
      err.None?
    }
  }

  function GetParams(st: State): Params {
    if st.params.Some? then st.params.value else DEFAULT_PARAMS
  }

  /** The raw record; an absent account counts as 0 mana at height 0. */
  function LoadAccountMana(st: State, addr: Addr): AccountMana {
    if addr in st.accounts then st.accounts[addr] else AccountMana(st.cfg.encode(addr), 0, 0, 0, 0)
  }

  function GetAccountMana(st: State, ctx: Ctx, addr: Addr): Result<AccountMana> {
    RegenerateMana(st.cfg, GetParams(st), ctx.bank, LoadAccountMana(st, addr), ctx.height)
  }

  function Put(st: State, addr: Addr, acct: AccountMana): State {
    st.(accounts := st.accounts[addr := acct])
  }

  function ConsumeMana(st: State, ctx: Ctx, addr: Addr, cost: uint64): Outcome {
    match GetAccountMana(st, ctx, addr)
    case Err(e) => Outcome(st, Some(e))
    case Ok(acct) =>
      if acct.mana < cost then Outcome(st, Some(InsufficientBandwidth))
      else Outcome(Put(st, addr, acct.(mana := acct.mana - cost)), None)
  }

  /** The transactions already counted against the block at the given height. */
  function CountedAt(acct: AccountMana, height: int64): uint32 {
    if acct.lastTxBlock == height then acct.txCountThisBlock else 0
  }

  function IncrementTxCount(st: State, ctx: Ctx, addr: Addr): Outcome {
    match GetAccountMana(st, ctx, addr)
    case Err(e) => Outcome(st, Some(e))
    case Ok(acct) =>
      var count := CountedAt(acct, ctx.height);
      if count >= GetParams(st).maxTxPerBlock then Outcome(st, Some(TxSpamLimitExceeded))
      else Outcome(Put(st, addr, acct.(txCountThisBlock := AddUint32(count, 1), lastTxBlock := ctx.height)), None)
  }

  /** Cost of a transaction by its serialized size. */
  function ComputeTxManaCost(txSize: int): uint64
    requires txSize < TWO_63
  {
    if txSize <= 0 then MANA_BASE_COST else MANA_BASE_COST + MulUint64(txSize, MANA_COST_PER_BYTE)
  }

  function GetPowDifficulty(st: State): uint32 {
    if |st.pow| < 4 then 0
    else
      BigEndianBound(st.pow[..4]);
      MachineWidths();
      BigEndian(st.pow[..4])
  }

  function UpdatePowDifficulty(st: State, blockTxCount: uint64): State {
    var d := GetPowDifficulty(st);
    var next := NextDifficulty(d, blockTxCount);
    if next == d then st else st.(pow := PutBigEndian(4, next))
  }

  function VerifyPow(st: State, signer: Addr, sequence: uint64, memo: seq<byte>): Option<Error> {
    var d := GetPowDifficulty(st);
    if d == 0 then None
    else
      var work := PowWork(st.cfg, PowChallenge(st.cfg, signer, sequence), memo);
      if LeadingZeros(work) % TWO_32 < d then Some(InsufficientPow) else None
  }

  // ---------------------------------------------------------------------------
  // Well-formed stores
  // ---------------------------------------------------------------------------

  /** Every record belongs to the account it is stored under. */
  ghost predicate WellFormed(st: State) {
    && Lawful(st.cfg)
    && forall a | a in st.accounts :: st.cfg.decode(st.accounts[a].address) == Some(a)
  }

  /** What a keeper operation may do to the record of one account, and nothing else. */
  ghost predicate OnlyTouches(before: State, after: State, addr: Addr) {
    && after.cfg == before.cfg && after.params == before.params && after.pow == before.pow
    && forall a | a != addr ::
         && (a in after.accounts <==> a in before.accounts)
         && (a in before.accounts ==> after.accounts[a] == before.accounts[a])
  }

  lemma OperationsKeepWellFormed(st: State, ctx: Ctx, addr: Addr, cost: uint64)
    requires WellFormed(st) && ValidAddr(addr)
    ensures WellFormed(ConsumeMana(st, ctx, addr, cost).st)
    ensures WellFormed(IncrementTxCount(st, ctx, addr).st)
    ensures OnlyTouches(st, ConsumeMana(st, ctx, addr, cost).st, addr)
    ensures OnlyTouches(st, IncrementTxCount(st, ctx, addr).st, addr)
  {
  }

  /** On a well-formed store, reading an account is exact: its owner's own quota, block by block,
      since its last update. */
  lemma GetAccountManaExact(st: State, ctx: Ctx, addr: Addr)
    requires WellFormed(st) && ValidAddr(addr)
    ensures var acct := LoadAccountMana(st, addr);
            var q := QuotaOf(GetParams(st), ctx.bank, addr);
            && st.cfg.decode(acct.address) == Some(addr)
            && (ctx.height <= acct.lastUpdateHeight ==> GetAccountMana(st, ctx, addr) == Ok(acct))
            && (acct.lastUpdateHeight < ctx.height && q.Err? ==> GetAccountMana(st, ctx, addr) == Err(q.error))
            && (acct.lastUpdateHeight < ctx.height && q.Ok? ==>
                var mana := Ticks(q.value, acct.mana, ctx.height - acct.lastUpdateHeight);
                && mana < TWO_64
                && GetAccountMana(st, ctx, addr) == Ok(acct.(mana := mana, lastUpdateHeight := ctx.height)))
  {
    var acct := LoadAccountMana(st, addr);
    assert st.cfg.decode(acct.address) == Some(addr);
    if acct.lastUpdateHeight < ctx.height {
      if QuotaOf(GetParams(st), ctx.bank, addr).Ok? {
        RegenerateExact(st.cfg, GetParams(st), ctx.bank, acct, ctx.height);
      } else {
        RegenerateFails(st.cfg, GetParams(st), ctx.bank, acct, ctx.height);
      }
    }
  }

  /** A wallet without a record has been regenerating since height 0. */
  lemma FreshAccountAccrues(st: State, ctx: Ctx, addr: Addr)
    requires WellFormed(st) && ValidAddr(addr) && addr !in st.accounts && ctx.height >= 0
    requires QuotaOf(GetParams(st), ctx.bank, addr).Ok?
    ensures var q := QuotaOf(GetParams(st), ctx.bank, addr).value;
            && GetAccountMana(st, ctx, addr).Ok?
            && GetAccountMana(st, ctx, addr).value.mana == Min(Product(q.perBlock, ctx.height), q.cap)
  {
    GetAccountManaExact(st, ctx, addr);
    TicksClosed(QuotaOf(GetParams(st), ctx.bank, addr).value, 0, ctx.height);
    assert Product(QuotaOf(GetParams(st), ctx.bank, addr).value.perBlock, 0) == 0;
  }

  /** A rate that cannot be computed refuses both operations with its own error, and changes nothing. */
  lemma FailingRateRefuses(st: State, ctx: Ctx, addr: Addr, cost: uint64)
    requires WellFormed(st) && ValidAddr(addr)
    requires LoadAccountMana(st, addr).lastUpdateHeight < ctx.height
    requires QuotaOf(GetParams(st), ctx.bank, addr).Err?
    ensures var e := QuotaOf(GetParams(st), ctx.bank, addr).error;
            && ConsumeMana(st, ctx, addr, cost) == Outcome(st, Some(e))
            && IncrementTxCount(st, ctx, addr) == Outcome(st, Some(e))
  {
    GetAccountManaExact(st, ctx, addr);
  }

  lemma CostIsSizePlusBase(txSize: int)
    requires txSize < TWO_63
    ensures ComputeTxManaCost(txSize) == 100 + Max(0, txSize)
  {
  }

  // ---------------------------------------------------------------------------
  // Difficulty and proof of work
  // ---------------------------------------------------------------------------

  /** The stored bytes after an update read back as the walk's next difficulty.  They are written only if
      the difficulty changes, and nothing else is. */
  lemma DifficultyStep(st: State, blockTxCount: uint64)
    ensures var d, next := GetPowDifficulty(st), NextDifficulty(GetPowDifficulty(st), blockTxCount);
            && GetPowDifficulty(UpdatePowDifficulty(st, blockTxCount)) == next
            && (next == d ==> UpdatePowDifficulty(st, blockTxCount) == st)
            && (next != d ==> UpdatePowDifficulty(st, blockTxCount) == st.(pow := PutBigEndian(4, next)))
  {
    StoredDifficulty(st, NextDifficulty(GetPowDifficulty(st), blockTxCount), []);
    assert PutBigEndian(4, NextDifficulty(GetPowDifficulty(st), blockTxCount)) + []
        == PutBigEndian(4, NextDifficulty(GetPowDifficulty(st), blockTxCount));
  }

  /** Every 32-bit difficulty reads back from its four bytes; fewer bytes read as 0. */
  lemma StoredDifficulty(st: State, d: uint32, rest: seq<byte>)
    ensures GetPowDifficulty(st.(pow := PutBigEndian(4, d) + rest)) == d
    ensures |st.pow| < 4 ==> GetPowDifficulty(st) == 0
  {
    Difficulty32RoundTrip(d);
    assert (PutBigEndian(4, d) + rest)[..4] == PutBigEndian(4, d);
  }

  /** What VerifyPow accepts, in terms of the hash alone: the SHA-256 of the challenge and the memo, where
      the challenge is the SHA-256 of chain, signer and the eight bytes of the sequence, must as a number be
      below 2^(256 - d).  No work passes above difficulty 256. */
  lemma VerifyPowExact(st: State, signer: Addr, sequence: uint64, memo: seq<byte>)
    requires Lawful(st.cfg)
    ensures var d := GetPowDifficulty(st);
            var challenge := st.cfg.sha256(st.cfg.chainId + signer + PutBigEndian(8, sequence));
            VerifyPow(st, signer, sequence, memo) ==
              if d <= 256 && BigEndian(st.cfg.sha256(challenge + memo)) < Pow2(256 - d) then None
              else Some(InsufficientPow)
  {
    var d := GetPowDifficulty(st);
    var work := PowWork(st.cfg, PowChallenge(st.cfg, signer, sequence), memo);
    assert |work| == 32;
    LeadingZerosBound(work);
    BigEndianBound(work);
    assert LeadingZeros(work) % TWO_32 == LeadingZeros(work);
    if d <= 256 {
      LeadingZerosValue(work, d);
    }
  }

  /** Work accepted at one difficulty is accepted at every lower one. */
  lemma EasierIsEasier(hard: State, easy: State, signer: Addr, sequence: uint64, memo: seq<byte>)
    requires Lawful(hard.cfg) && easy.cfg == hard.cfg
    requires GetPowDifficulty(easy) <= GetPowDifficulty(hard)
    requires VerifyPow(hard, signer, sequence, memo).None?
    ensures VerifyPow(easy, signer, sequence, memo).None?
  {
    VerifyPowExact(hard, signer, sequence, memo);
    VerifyPowExact(easy, signer, sequence, memo);
    Pow2Monotone(256 - GetPowDifficulty(hard), 256 - GetPowDifficulty(easy));
  }
}
