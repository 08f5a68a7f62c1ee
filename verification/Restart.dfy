/** A chain restarted from its own export. */
module Restart {
  import opened Types
  import opened Ledger
  import opened Chain
  import opened Agreement
  import opened Genesis

  lemma RestartAgrees(st: State, gs: GenesisState)
    requires Reachable(st) && IsExport(st, gs)
    ensures SameConsensus(InitGenesis(EmptyStore(st.cfg), gs).st, st)
    ensures GetPowDifficulty(InitGenesis(EmptyStore(st.cfg), gs).st) == 0
  {
    var restarted := InitGenesis(EmptyStore(st.cfg), gs).st;
    ExportImportRoundTrip(st, gs);
    forall a | a in EVERYONE
      ensures SameRecord(restarted, st, a)
    {
    }
  }

  /** Whatever happens afterwards, a chain restarted from the export of a reachable store gives the
      verdicts and the accounts that the original chain gives; only its difficulty starts at 0. */
  lemma RestartIsIndistinguishable(st: State, gs: GenesisState, restarted: State, steps: seq<Step>)
    requires Reachable(st) && IsExport(st, gs) && ValidSteps(steps)
    requires InitGenesis(EmptyStore(st.cfg), gs) == Outcome(restarted, None)
    ensures GetPowDifficulty(restarted) == 0
    ensures After(restarted, steps).accounts == After(st, steps).accounts
    ensures forall i | 0 <= i < |steps| :: Verdict(restarted, steps, i) == Verdict(st, steps, i)
  {
    RestartAgrees(st, gs);
    PowNeverAffectsConsensus(restarted, st, steps, steps);
  }

  lemma RunsStayReachable(st: State, steps: seq<Step>)
    requires Reachable(st) && ValidSteps(steps)
    ensures Reachable(After(st, steps))
  {
    RunKeepsWellFormed(st, steps);
  }

  /** From any valid genesis, after any run, the chain can be exported and restarted: the export is
      accepted, and over every later run the restarted chain gives the same verdicts and accounts. */
  lemma ExportAnywhereAndRestart(cfg: Config, genesis: GenesisState, before: seq<Step>,
                                 exported: GenesisState, later: seq<Step>)
    requires Lawful(cfg) && ValidateGenesis(cfg, genesis).None?
    requires ValidSteps(before) && ValidSteps(later)
    requires IsExport(After(InitGenesis(EmptyStore(cfg), genesis).st, before), exported)
    ensures InitGenesis(EmptyStore(cfg), exported).Done()
    ensures var original := After(InitGenesis(EmptyStore(cfg), genesis).st, before);
            var restarted := InitGenesis(EmptyStore(cfg), exported).st;
            && After(restarted, later).accounts == After(original, later).accounts
            && forall i | 0 <= i < |later| :: Verdict(restarted, later, i) == Verdict(original, later, i)
  {
    var start := InitGenesis(EmptyStore(cfg), genesis).st;
    ImportIsReachable(cfg, genesis);
    RunsStayReachable(start, before);
    RunKeepsWellFormed(start, before);
    var original := After(start, before);
    ExportImportRoundTrip(original, exported);
    RestartIsIndistinguishable(original, exported, InitGenesis(EmptyStore(cfg), exported).st, later);
  }
}
