/** Genesis import and export (x/mana/keeper/genesis.go, x/mana/types/types.go) and their round trips. */
module Genesis {
  import opened Types
  import opened Ledger

  datatype GenesisState = GenesisState(params: Params, accountManas: seq<AccountMana>)

  function ValidateGenesis(cfg: Config, gs: GenesisState): Option<Error> {
    if ValidateParams(gs.params).Some? then ValidateParams(gs.params)
    else if exists i | 0 <= i < |gs.accountManas| :: cfg.decode(gs.accountManas[i].address).None?
    then Some(InvalidAddress)
    else None
  }

  // ---------------------------------------------------------------------------
  // The store's key order
  // ---------------------------------------------------------------------------

  /** Byte-wise lexicographic order, the order of the store's iterator. */
  predicate Before(a: Addr, b: Addr) {
    if b == [] then false
    else if a == [] then true
    else a[0] < b[0] || (a[0] == b[0] && Before(a[1..], b[1..]))
  }

  /** a comes first: after a common prefix it ends, or its next byte is smaller. */
  ghost predicate ComesFirst(a: Addr, b: Addr, common: nat) {
    && common <= |a| && common < |b| && a[..common] == b[..common]
    && (common == |a| || a[common] < b[common])
  }

  /** The order is the ascending lexicographic one. */
  lemma {:induction false} BeforeIsLexicographic(a: Addr, b: Addr)
    ensures Before(a, b) <==> exists i: nat :: ComesFirst(a, b, i)
  {
    if b != [] && a == [] {
      assert ComesFirst(a, b, 0);
    } else if b != [] {
      BeforeIsLexicographic(a[1..], b[1..]);
      if a[0] < b[0] {
        assert ComesFirst(a, b, 0);
      } else if Before(a, b) {
        var i: nat :| ComesFirst(a[1..], b[1..], i);
        assert a[..i + 1] == [a[0]] + a[1..][..i] && b[..i + 1] == [b[0]] + b[1..][..i];
        assert ComesFirst(a, b, i + 1);
      }
      if i: nat :| ComesFirst(a, b, i) && i > 0 {
        assert a[0] == a[..i][0] == b[..i][0] == b[0];
        assert a[1..][..i - 1] == a[..i][1..] && b[1..][..i - 1] == b[..i][1..];
        assert ComesFirst(a[1..], b[1..], i - 1);
      }
    }
  }

  lemma {:induction false} BeforeTotal(a: Addr, b: Addr)
    ensures a == b || Before(a, b) || Before(b, a)
    ensures !(Before(a, b) && Before(b, a))
    ensures !Before(a, a)
  {
    if a != [] && b != [] {
      BeforeTotal(a[1..], b[1..]);
      assert a[0] == b[0] && a[1..] == b[1..] ==> a == [a[0]] + a[1..] == b;
    }
    if a != [] {
      BeforeTotal(a[1..], a[1..]);
    }
  }

  lemma {:induction false} BeforeTransitive(a: Addr, b: Addr, c: Addr)
    requires Before(a, b) && Before(b, c)
    ensures Before(a, c)
  {
    if a != [] && a[0] == b[0] && b[0] == c[0] {
      BeforeTransitive(a[1..], b[1..], c[1..]);
    }
  }

  /** least comes before every other key. */
  predicate IsFirst(least: Addr, keys: set<Addr>) {
    least in keys && forall k | k in keys :: k == least || Before(least, k)
  }

  lemma {:induction false} FirstExists(keys: set<Addr>) returns (least: Addr)
    requires keys != {}
    ensures IsFirst(least, keys)
  {
    var k :| k in keys;
    if !exists x :: x in keys && x != k {
      least := k;
    } else {
      var other :| other in keys && other != k;
      assert other in keys - {k};
      var rest := FirstExists(keys - {k});
      BeforeTotal(k, rest);
      if Before(k, rest) {
        least := k;
        forall x | x in keys && x != k ensures Before(k, x) {
          if x != rest {
            BeforeTransitive(k, rest, x);
          }
        }
      } else {
        least := rest;
      }
    }
  }

  /** The keys in the iterator's order. */
  ghost predicate InOrder(order: seq<Addr>, keys: set<Addr>) {
    && (forall k :: k in keys <==> k in order)
    && (forall i, j | 0 <= i < j < |order| :: Before(order[i], order[j]))
  }

  lemma EmptyOrder(order: seq<Addr>, keys: set<Addr>)
    requires InOrder(order, keys)
    ensures order == [] <==> keys == {}
  {
    if order != [] {
      assert order[0] in keys;
    } else {
      assert keys == {};
    }
  }

  /** A set of keys has only one order. */
  lemma {:induction false} OrderUnique(o1: seq<Addr>, o2: seq<Addr>, keys: set<Addr>)
    requires InOrder(o1, keys) && InOrder(o2, keys)
    ensures o1 == o2
    decreases |o1|
  {
    if o1 == [] {
      EmptyOrder(o1, keys);
      EmptyOrder(o2, keys);
    } else {
      EmptyOrder(o1, keys);
      EmptyOrder(o2, keys);
      assert o1[0] in keys && o2[0] in keys;
      var i :| 0 <= i < |o1| && o1[i] == o2[0];
      var j :| 0 <= j < |o2| && o2[j] == o1[0];
      BeforeTotal(o1[0], o2[0]);
      assert o1[0] == o2[0];
      OrderTail(o1, keys);
      OrderTail(o2, keys);
      OrderUnique(o1[1..], o2[1..], keys - {o1[0]});
      assert o1 == [o1[0]] + o1[1..] && o2 == [o2[0]] + o2[1..];
    }
  }

  lemma OrderTail(order: seq<Addr>, keys: set<Addr>)
    requires InOrder(order, keys) && order != []
    ensures InOrder(order[1..], keys - {order[0]})
  {
    var tail := order[1..];
    forall k
      ensures k in keys - {order[0]} <==> k in tail
    {
      if k in tail {
        var i :| 0 <= i < |tail| && tail[i] == k;
        assert order[i + 1] == k;
        BeforeTotal(order[0], k);
      }
      if k in order && k != order[0] {
        var i :| 0 <= i < |order| && order[i] == k;
        assert tail[i - 1] == k;
      }
    }
    forall i, j | 0 <= i < j < |tail|
      ensures Before(tail[i], tail[j])
    {
      assert tail[i] == order[i + 1] && tail[j] == order[j + 1];
    }
  }

  // ---------------------------------------------------------------------------
  // Import and export
  // ---------------------------------------------------------------------------

  /** The accounts after importing the records one after the other over the given ones. */
  function Import(cfg: Config, accounts: map<Addr, AccountMana>, records: seq<AccountMana>): map<Addr, AccountMana>
    requires forall i | 0 <= i < |records| :: cfg.decode(records[i].address).Some?
  {
    if records == [] then accounts
    else
      var n := |records| - 1;
      Import(cfg, accounts, records[..n])[cfg.decode(records[n].address).value := records[n]]
  }

  /** InitGenesis on a store. */
  function InitGenesis(st: State, gs: GenesisState): Outcome {
    var err := ValidateGenesis(st.cfg, gs);
    if err.Some? then Outcome(st, err)
    else Outcome(st.(params := Some(gs.params), accounts := Import(st.cfg, st.accounts, gs.accountManas)), None)
  }

  /** The record for a key in a genesis file: its last occurrence. */
  ghost predicate LastFor(cfg: Config, records: seq<AccountMana>, key: Addr, i: nat) {
    && i < |records| && cfg.decode(records[i].address) == Some(key)
    && forall j | i < j < |records| :: cfg.decode(records[j].address) != Some(key)
  }

  ghost predicate Mentions(cfg: Config, records: seq<AccountMana>, key: Addr) {
    exists i :: 0 <= i < |records| && cfg.decode(records[i].address) == Some(key)
  }

  /** What importing means: every key ends with the last record that decodes to it. */
  lemma {:induction false} ImportLastWins(cfg: Config, accounts: map<Addr, AccountMana>, records: seq<AccountMana>)
    requires forall i | 0 <= i < |records| :: cfg.decode(records[i].address).Some?
    ensures var m := Import(cfg, accounts, records);
            && (forall k :: k in m <==> k in accounts || Mentions(cfg, records, k))
            && (forall k, i: nat | LastFor(cfg, records, k, i) :: m[k] == records[i])
            && (forall k | k in accounts && !Mentions(cfg, records, k) :: m[k] == accounts[k])
  {
    if records != [] {
      var n := |records| - 1;
      var init := records[..n];
      var key := cfg.decode(records[n].address).value;
      ImportLastWins(cfg, accounts, init);
      forall k
        ensures Mentions(cfg, records, k) <==> Mentions(cfg, init, k) || k == key
      {
        if Mentions(cfg, init, k) {
          var i :| 0 <= i < |init| && cfg.decode(init[i].address) == Some(k);
          assert records[i] == init[i];
        }
        if Mentions(cfg, records, k) {
          var i :| 0 <= i < |records| && cfg.decode(records[i].address) == Some(k);
          assert i < n ==> init[i] == records[i];
        }
      }
      forall k, i: nat | LastFor(cfg, records, k, i)
        ensures Import(cfg, accounts, records)[k] == records[i]
      {
        if i < n {
          assert k != key;
          assert LastFor(cfg, init, k, i);
        }
      }
    }
  }

  /** gs is the export of a store: the parameters as read, and one record per key in key order. */
  ghost predicate IsExport(st: State, gs: GenesisState) {
    && gs.params == GetParams(st)
    && exists order :: IsListing(st.accounts, order, gs.accountManas)
  }

  ghost predicate IsListing(accounts: map<Addr, AccountMana>, order: seq<Addr>, records: seq<AccountMana>) {
    && InOrder(order, accounts.Keys)
    && |records| == |order|
    && forall i | 0 <= i < |order| :: order[i] in accounts && records[i] == accounts[order[i]]
  }

  /** One step of the iterator: the next key extends the listing of the keys already visited. */
  lemma ExtendListing(accounts: map<Addr, AccountMana>, rest: set<Addr>, order: seq<Addr>,
                      records: seq<AccountMana>, key: Addr)
    requires rest <= accounts.Keys && IsFirst(key, rest)
    requires forall k | k in order :: k !in rest && k in accounts && forall x | x in rest :: Before(k, x)
    requires IsListing(map k | k in accounts && k !in rest :: accounts[k], order, records)
    ensures IsListing(map k | k in accounts && k !in rest - {key} :: accounts[k],
                      order + [key], records + [accounts[key]])
    ensures forall k | k in order + [key] ::
              k !in rest - {key} && k in accounts && forall x | x in rest - {key} :: Before(k, x)
  {
    var visited := map k | k in accounts && k !in rest :: accounts[k];
    var more := map k | k in accounts && k !in rest - {key} :: accounts[k];
    assert more.Keys == visited.Keys + {key};
    forall i, j | 0 <= i < j < |order + [key]|
      ensures Before((order + [key])[i], (order + [key])[j])
    {
      if j == |order| {
        assert order[i] in order;
      }
    }
  }

  lemma ExportUnique(st: State, g1: GenesisState, g2: GenesisState)
    requires IsExport(st, g1) && IsExport(st, g2)
    ensures g1 == g2
  {
    var o1 :| IsListing(st.accounts, o1, g1.accountManas);
    var o2 :| IsListing(st.accounts, o2, g2.accountManas);
    OrderUnique(o1, o2, st.accounts.Keys);
  }

  /** The exported records, read by the addresses they hold, are in ascending byte order. */
  lemma ExportAscends(st: State, gs: GenesisState, i: nat, j: nat)
    requires WellFormed(st) && IsExport(st, gs) && i < j < |gs.accountManas|
    ensures var a, b := st.cfg.decode(gs.accountManas[i].address), st.cfg.decode(gs.accountManas[j].address);
            a.Some? && b.Some? && exists common: nat :: ComesFirst(a.value, b.value, common)
  {
    var order :| IsListing(st.accounts, order, gs.accountManas);
    assert st.cfg.decode(gs.accountManas[i].address) == Some(order[i]);
    assert st.cfg.decode(gs.accountManas[j].address) == Some(order[j]);
    assert Before(order[i], order[j]);
    BeforeIsLexicographic(order[i], order[j]);
  }

  /** A store that transactions and genesis can lead to. */
  ghost predicate Reachable(st: State) {
    && WellFormed(st)
    && (st.params.Some? ==> ValidateParams(st.params.value).None?)
  }

  /** The genesis store of a chain. */
  function EmptyStore(cfg: Config): State {
    State(cfg, None, map[], [])
  }

  lemma LastInListing(cfg: Config, accounts: map<Addr, AccountMana>, order: seq<Addr>, records: seq<AccountMana>,
                      key: Addr, i: nat)
    requires IsListing(accounts, order, records)
    requires forall j | 0 <= j < |records| :: cfg.decode(records[j].address) == Some(order[j])
    requires i < |order| && order[i] == key
    ensures LastFor(cfg, records, key, i)
  {
    forall j | i < j < |records|
      ensures cfg.decode(records[j].address) != Some(key)
    {
      assert Before(order[i], order[j]);
      BeforeTotal(order[i], order[j]);
    }
  }

  /** Importing a listing rebuilds the map. */
  lemma ImportListing(cfg: Config, accounts: map<Addr, AccountMana>, order: seq<Addr>, records: seq<AccountMana>)
    requires IsListing(accounts, order, records)
    requires forall a | a in accounts :: cfg.decode(accounts[a].address) == Some(a)
    ensures forall i | 0 <= i < |records| :: cfg.decode(records[i].address) == Some(order[i])
    ensures Import(cfg, map[], records) == accounts
  {
    forall i | 0 <= i < |records|
      ensures cfg.decode(records[i].address) == Some(order[i])
    {
      assert order[i] in accounts;
    }
    ImportLastWins(cfg, map[], records);
    var m := Import(cfg, map[], records);
    forall k
      ensures k in m <==> k in accounts
      ensures k in accounts ==> k in m && m[k] == accounts[k]
    {
      if k in accounts.Keys {
        assert k in order;
        var i: nat :| i < |order| && order[i] == k;
        LastInListing(cfg, accounts, order, records, k, i);
        assert Mentions(cfg, records, k);
      }
      if Mentions(cfg, records, k) {
        var i :| 0 <= i < |records| && cfg.decode(records[i].address) == Some(k);
        assert order[i] == k;
      }
    }
    assert m == accounts;
  }

  /** Export, then import into an empty store: the parameters as read and the whole account map come
      back; only the difficulty starts again at 0. */
  lemma ExportImportRoundTrip(st: State, gs: GenesisState)
    requires Reachable(st) && IsExport(st, gs)
    ensures var o := InitGenesis(EmptyStore(st.cfg), gs);
            && o.Done()
            && o.st.accounts == st.accounts
            && GetParams(o.st) == GetParams(st)
            && o.st.cfg == st.cfg
            && GetPowDifficulty(o.st) == 0
  {
    var order :| IsListing(st.accounts, order, gs.accountManas);
    ImportListing(st.cfg, st.accounts, order, gs.accountManas);
    ImportVerdict(EmptyStore(st.cfg), gs);
  }

  ghost predicate IsLastRecord(cfg: Config, records: seq<AccountMana>, key: Addr, acct: AccountMana) {
    exists j: nat :: LastFor(cfg, records, key, j) && acct == records[j]
  }

  /** The canonical form of a genesis file's records: each key they mention once, in key order, with
      its last record. */
  ghost predicate IsCanonical(cfg: Config, records: seq<AccountMana>, canonical: seq<AccountMana>, order: seq<Addr>) {
    && |canonical| == |order|
    && (forall k :: Mentions(cfg, records, k) <==> k in order)
    && (forall i, j | 0 <= i < j < |order| :: Before(order[i], order[j]))
    && (forall i | 0 <= i < |order| :: IsLastRecord(cfg, records, order[i], canonical[i]))
  }

  lemma {:induction false} LastExists(cfg: Config, records: seq<AccountMana>, key: Addr) returns (i: nat)
    requires Mentions(cfg, records, key)
    ensures LastFor(cfg, records, key, i)
  {
    var n := |records| - 1;
    if cfg.decode(records[n].address) == Some(key) {
      i := n;
    } else {
      var init := records[..n];
      var j :| 0 <= j < |records| && cfg.decode(records[j].address) == Some(key);
      assert init[j] == records[j];
      i := LastExists(cfg, init, key);
      assert records[i] == init[i];
      forall j | i < j < |records|
        ensures cfg.decode(records[j].address) != Some(key)
      {
        assert j < n ==> records[j] == init[j];
      }
    }
  }

  /** Importing from nothing gives exactly the mentioned keys, each with its last record. */
  lemma ImportedRecord(cfg: Config, records: seq<AccountMana>, k: Addr)
    requires forall i | 0 <= i < |records| :: cfg.decode(records[i].address).Some?
    ensures k in Import(cfg, map[], records) <==> Mentions(cfg, records, k)
    ensures k in Import(cfg, map[], records) ==> IsLastRecord(cfg, records, k, Import(cfg, map[], records)[k])
  {
    ImportLastWins(cfg, map[], records);
    if Mentions(cfg, records, k) {
      var j := LastExists(cfg, records, k);
    }
  }

  lemma ImportIsReachable(cfg: Config, gs: GenesisState)
    requires Lawful(cfg) && ValidateGenesis(cfg, gs).None?
    ensures Reachable(InitGenesis(EmptyStore(cfg), gs).st)
  {
    var st := InitGenesis(EmptyStore(cfg), gs).st;
    forall k | k in st.accounts
      ensures cfg.decode(st.accounts[k].address) == Some(k)
    {
      ImportedRecord(cfg, gs.accountManas, k);
    }
  }

  lemma ListedImportIsCanonical(cfg: Config, records: seq<AccountMana>, order: seq<Addr>, listed: seq<AccountMana>)
    requires forall i | 0 <= i < |records| :: cfg.decode(records[i].address).Some?
    requires IsListing(Import(cfg, map[], records), order, listed)
    ensures IsCanonical(cfg, records, listed, order)
  {
    var accounts := Import(cfg, map[], records);
    forall i | 0 <= i < |order|
      ensures IsLastRecord(cfg, records, order[i], listed[i])
    {
      ImportedRecord(cfg, records, order[i]);
    }
    forall k
      ensures Mentions(cfg, records, k) <==> k in order
    {
      ImportedRecord(cfg, records, k);
      assert k in accounts.Keys <==> k in order;
    }
  }

  /** Import a valid genesis file into an empty store, then export: the result is its canonical form. */
  lemma ImportExportCanonical(cfg: Config, gs: GenesisState, exported: GenesisState)
    requires ValidateGenesis(cfg, gs).None?
    requires IsExport(InitGenesis(EmptyStore(cfg), gs).st, exported)
    ensures exported.params == gs.params
    ensures exists order :: IsCanonical(cfg, gs.accountManas, exported.accountManas, order)
  {
    var order :| IsListing(Import(cfg, map[], gs.accountManas), order, exported.accountManas);
    ListedImportIsCanonical(cfg, gs.accountManas, order, exported.accountManas);
  }

  /** An invalid file is refused, with the error of the first check that fails, and changes nothing; a
      valid one is never refused. */
  lemma ImportVerdict(st: State, gs: GenesisState)
    ensures InitGenesis(st, gs).err ==
              if gs.params.totalManaPool == 0 then Some(InsufficientBandwidth)
              else if gs.params.maxTxPerBlock == 0 then Some(TxSpamLimitExceeded)
              else if gs.params.blocksPerYear == 0 then Some(InsufficientBandwidth)
              else if forall i | 0 <= i < |gs.accountManas| :: st.cfg.decode(gs.accountManas[i].address).Some?
              then None
              else Some(InvalidAddress)
    ensures !InitGenesis(st, gs).Done() ==> InitGenesis(st, gs).st == st
    ensures InitGenesis(st, gs).Done() ==>
              InitGenesis(st, gs).st.params == Some(gs.params) && InitGenesis(st, gs).st.pow == st.pow
  {
  }
}
