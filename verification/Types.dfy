/** The records, parameters and errors of x/mana/types, and the views of the surrounding chain
    (bank, bech32, hash) that the module reads. */
module Types {
  import opened Machine

  datatype Option<+T> = None | Some(value: T)

  datatype Result<+T> = Ok(value: T) | Err(error: Error)

  datatype Error =
    | InsufficientBandwidth
    | TxSpamLimitExceeded
    | InsufficientPow
    | TxTooLarge
    | TxDecode
    | Unauthorized
    | InvalidAddress   // a panic of mustAccAddr, or an error of genesis validation
    | IntOverflow      // a panic of math.Int beyond 256 bits
    | StockCheck       // a rejection by a decorator of the SDK itself

  const DEFAULT_TOTAL_MANA_POOL: uint64 := 1_000_000_000
  const DEFAULT_MAX_TX_PER_BLOCK: uint64 := 20
  const DEFAULT_BLOCKS_PER_YEAR: uint64 := 31_557_600
  const DEFAULT_MANA_REGEN_MULTIPLIER: uint64 := 1
  const MANA_BASE_COST: uint64 := 100
  const MANA_COST_PER_BYTE: uint64 := 1
  const MIN_MANA_FLOOR: uint64 := 1_000_000
  const MANA_REGEN_WINDOW_BLOCKS: uint64 := 1_000
  const MAX_TX_BYTES: int := 0x10_0000
  const POW_MAX_DIFFICULTY: uint32 := 24
  const POW_HIGH_WATERMARK: uint64 := 1_000
  const POW_LOW_WATERMARK: uint64 := 200

  /** Account addresses are raw bytes; only records and genesis files hold bech32 strings. */
  type Addr = seq<byte>

  /** The SDK accepts addresses of 1 to 255 bytes. */
  predicate ValidAddr(a: Addr) {
    1 <= |a| <= 255
  }

  datatype AccountMana = AccountMana(
    address: string,
    mana: uint64,
    lastUpdateHeight: int64,
    txCountThisBlock: uint32,
    lastTxBlock: int64)

  datatype Params = Params(
    totalManaPool: uint64,
    maxTxPerBlock: uint64,
    blocksPerYear: uint64,
    manaRegenMultiplier: uint64)

  const DEFAULT_PARAMS: Params :=
    Params(DEFAULT_TOTAL_MANA_POOL, DEFAULT_MAX_TX_PER_BLOCK, DEFAULT_BLOCKS_PER_YEAR,
           DEFAULT_MANA_REGEN_MULTIPLIER)

  function ValidateParams(p: Params): Option<Error> {
    if p.totalManaPool == 0 then Some(InsufficientBandwidth)
    else if p.maxTxPerBlock == 0 then Some(TxSpamLimitExceeded)
    else if p.blocksPerYear == 0 then Some(InsufficientBandwidth)
    else None
  }

  /** What the module may see of x/bank: amounts of the bond denomination. */
  datatype Bank = Bank(balance: Addr -> nat, supply: nat)

  /** The part of sdk.Context that the module reads. */
  datatype Ctx = Ctx(bank: Bank, height: int64)

  /** The fixed surroundings of a chain: its identifier, its bech32 codec and SHA-256. */
  datatype Config = Config(
    chainId: seq<byte>,
    encode: Addr -> string,
    decode: string -> Option<Addr>,
    sha256: seq<byte> -> seq<byte>)

  /** What the surroundings promise.  Several strings may decode to one address (bech32 accepts
      upper case), so `encode(decode(s)) == s` is not promised. */
  ghost predicate Lawful(cfg: Config) {
    && (forall a: Addr | ValidAddr(a) :: cfg.decode(cfg.encode(a)) == Some(a))
    && (forall s: string :: cfg.decode(s).Some? ==> ValidAddr(cfg.decode(s).value))
    && (forall b: seq<byte> :: |cfg.sha256(b)| == 32)
  }
}
