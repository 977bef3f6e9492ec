/** The start-up block that tunes SQLite and creates the indexes: seven statements run
    through `_create_index_safe`, which reports a failing statement and goes on, then two
    statements run directly. The database is a parameter `fails` telling which statements
    raise; the warning printed for a skipped statement is recorded in the log. */
module IndexGuard {

  const WalMode: string := "PRAGMA journal_mode=WAL;"
  const SyncMode: string := "PRAGMA synchronous=NORMAL;"
  const OsObraIndex: string := "CREATE INDEX IF NOT EXISTS ix_os_obra_data ON os(obra_id, data_emissao);"
  const OsStatusIndex: string := "CREATE INDEX IF NOT EXISTS ix_os_status ON os(status);"
  const OsNumeroIndex: string := "CREATE INDEX IF NOT EXISTS ix_os_numero ON os(numero);"
  const OsItemIndex: string := "CREATE INDEX IF NOT EXISTS ix_ositem_osid ON os_itens(os_id);"
  const MedicoesIndex: string := "CREATE INDEX IF NOT EXISTS ix_medicoes_obra ON medicoes(obra_id);"

  /** The statements run through the guard, in order. */
  const GuardedStatements: seq<string> :=
    [WalMode, SyncMode, OsObraIndex, OsStatusIndex, OsNumeroIndex, OsItemIndex, MedicoesIndex]

  /** What ran and what was skipped with a warning, in order. */
  datatype RunLog = RunLog(executed: seq<string>, skipped: seq<string>)

  /** The block either commits, or stops at a statement that raised outside the guard; the
      transaction is then rolled back and the error reaches the application's start-up. */
  datatype BlockOutcome = Committed(log: RunLog) | Aborted(log: RunLog, failed: string)

  /** `_create_index_safe`: run the statement, or record it as skipped when it raises. */
  function CreateIndexSafe(log: RunLog, stmt: string, fails: string -> bool): RunLog {
    if fails(stmt) then log.(skipped := log.skipped + [stmt]) else log.(executed := log.executed + [stmt])
  }

  /** Consecutive guarded calls. */
  function RunGuarded(log: RunLog, stmts: seq<string>, fails: string -> bool): RunLog
    decreases |stmts|
  {
    if stmts == [] then log else RunGuarded(CreateIndexSafe(log, stmts[0], fails), stmts[1..], fails)
  }

  /** The statements of `stmts` that run without raising, in order. */
  function Passing(stmts: seq<string>, fails: string -> bool): seq<string>
    decreases |stmts|
  {
    if stmts == [] then [] else (if fails(stmts[0]) then [] else [stmts[0]]) + Passing(stmts[1..], fails)
  }

  /** The statements of `stmts` that raise, in order. */
  function Failing(stmts: seq<string>, fails: string -> bool): seq<string>
    decreases |stmts|
  {
    if stmts == [] then [] else (if fails(stmts[0]) then [stmts[0]] else []) + Failing(stmts[1..], fails)
  }

  /** A failure in one guarded statement does not keep the later ones from running: every
      statement is either run or skipped, in order, and it is run exactly when it does not
      raise. */
  lemma {:induction false} RunGuardedSpec(log: RunLog, stmts: seq<string>, fails: string -> bool)
    decreases |stmts|
    ensures var r := RunGuarded(log, stmts, fails);
            |log.executed| <= |r.executed| && |log.skipped| <= |r.skipped|
            && |r.executed| + |r.skipped| == |log.executed| + |log.skipped| + |stmts|
            && r.executed[..|log.executed|] == log.executed && r.skipped[..|log.skipped|] == log.skipped
            && (forall k :: 0 <= k < |stmts| && !fails(stmts[k]) ==> stmts[k] in r.executed)
            && (forall k :: 0 <= k < |stmts| && fails(stmts[k]) ==> stmts[k] in r.skipped)
            && (forall k :: |log.executed| <= k < |r.executed| ==> !fails(r.executed[k]))
            && (forall k :: |log.skipped| <= k < |r.skipped| ==> fails(r.skipped[k]))
  {
    if stmts != [] {
      var next := CreateIndexSafe(log, stmts[0], fails);
      RunGuardedSpec(next, stmts[1..], fails);
      var r := RunGuarded(log, stmts, fails);
      assert r == RunGuarded(next, stmts[1..], fails);
      assert r.executed[..|next.executed|] == next.executed;
      assert r.skipped[..|next.skipped|] == next.skipped;
      if fails(stmts[0]) {
        assert r.skipped[|log.skipped|] == next.skipped[|log.skipped|] == stmts[0];
      } else {
        assert r.executed[|log.executed|] == next.executed[|log.executed|] == stmts[0];
      }
      forall k | 0 < k < |stmts| ensures stmts[k] == stmts[1..][k - 1] { }
    }
  }

  /** One guarded statement followed by the rest. */
  lemma RunGuardedCons(log: RunLog, stmts: seq<string>, fails: string -> bool)
    requires stmts != []
    ensures RunGuarded(log, stmts, fails) == RunGuarded(CreateIndexSafe(log, stmts[0], fails), stmts[1..], fails)
    ensures Passing(stmts, fails) == (if fails(stmts[0]) then [] else [stmts[0]]) + Passing(stmts[1..], fails)
    ensures Failing(stmts, fails) == (if fails(stmts[0]) then [stmts[0]] else []) + Failing(stmts[1..], fails)
  {
  }

  /** The statements that ran, in the order of `stmts`, after those already logged. */
  lemma {:induction false} RunGuardedExecuted(log: RunLog, stmts: seq<string>, fails: string -> bool)
    decreases |stmts|
    ensures RunGuarded(log, stmts, fails).executed == log.executed + Passing(stmts, fails)
  {
    if stmts != [] {
      var s0, rest := stmts[0], stmts[1..];
      var ran := if fails(s0) then [] else [s0];
      RunGuardedCons(log, stmts, fails);
      var next := CreateIndexSafe(log, s0, fails);
      assert next.executed == log.executed + ran;
      RunGuardedExecuted(next, rest, fails);
      assert log.executed + ran + Passing(rest, fails) == log.executed + (ran + Passing(rest, fails));
    }
  }

  /** The statements that were skipped, in the order of `stmts`, after those already logged. */
  lemma {:induction false} RunGuardedSkipped(log: RunLog, stmts: seq<string>, fails: string -> bool)
    decreases |stmts|
    ensures RunGuarded(log, stmts, fails).skipped == log.skipped + Failing(stmts, fails)
  {
    if stmts != [] {
      var s0, rest := stmts[0], stmts[1..];
      var skip := if fails(s0) then [s0] else [];
      RunGuardedCons(log, stmts, fails);
      var next := CreateIndexSafe(log, s0, fails);
      assert next.skipped == log.skipped + skip;
      RunGuardedSkipped(next, rest, fails);
      assert log.skipped + skip + Failing(rest, fails) == log.skipped + (skip + Failing(rest, fails));
    }
  }

  /** The guarded statements leave the log in source order: those that ran, then (in a
      separate list) those that were skipped, each in the order of `stmts`. */
  lemma RunGuardedInOrder(log: RunLog, stmts: seq<string>, fails: string -> bool)
    ensures RunGuarded(log, stmts, fails)
            == RunLog(log.executed + Passing(stmts, fails), log.skipped + Failing(stmts, fails))
  {
    RunGuardedExecuted(log, stmts, fails);
    RunGuardedSkipped(log, stmts, fails);
  }

  /** A statement run outside the guard. */
  function RunDirect(log: RunLog, stmt: string, fails: string -> bool): BlockOutcome {
    if fails(stmt) then Aborted(log, stmt) else Committed(log.(executed := log.executed + [stmt]))
  }

  /** The block as written: the seven guarded statements, then the item and measurement
      indexes once more without the guard. */
  function StartupBlock(fails: string -> bool): BlockOutcome {
    var guarded := RunGuarded(RunLog([], []), GuardedStatements, fails);
    match RunDirect(guarded, OsItemIndex, fails)
    case Aborted(log, stmt) => Aborted(log, stmt)
    case Committed(log) => RunDirect(log, MedicoesIndex, fails)
  }

  /** The block aborts exactly when one of the two unguarded statements raises. */
  lemma StartupBlockAborts(fails: string -> bool)
    ensures StartupBlock(fails).Aborted? <==> fails(OsItemIndex) || fails(MedicoesIndex)
  {
  }

  /** The two unguarded statements repeat guarded ones, so a statement the guard lets the
      block survive aborts it a few lines later. */
  lemma GuardBypassed(fails: string -> bool)
    requires fails(GuardedStatements[5]) || fails(GuardedStatements[6])
    ensures StartupBlock(fails).Aborted?
  {
  }

  /** A database on which only the item index fails: the guard skips it, and then the block
      aborts on it. */
  lemma GuardBypassedExample()
    ensures var fails := (s: string) => s == OsItemIndex;
            OsItemIndex in RunGuarded(RunLog([], []), GuardedStatements, fails).skipped
            && StartupBlock(fails) == Aborted(RunGuarded(RunLog([], []), GuardedStatements, fails), OsItemIndex)
  {
    var fails := (s: string) => s == OsItemIndex;
    RunGuardedSpec(RunLog([], []), GuardedStatements, fails);
    assert fails(GuardedStatements[5]);
  }

  /** The block as the guard intends it: every statement guarded, so it always commits. */
  function StartupBlockGuarded(fails: string -> bool): BlockOutcome {
    Committed(RunGuarded(RunLog([], []), GuardedStatements, fails))
  }

  /** The guarded block always commits, and runs every statement that does not raise. */
  lemma StartupBlockGuardedCommits(fails: string -> bool)
    ensures var b := StartupBlockGuarded(fails);
            b.Committed?
            && forall k :: 0 <= k < |GuardedStatements| ==>
                 (GuardedStatements[k] in b.log.executed <==> !fails(GuardedStatements[k]))
  {
    var r := RunGuarded(RunLog([], []), GuardedStatements, fails);
    RunGuardedSpec(RunLog([], []), GuardedStatements, fails);
    forall k | 0 <= k < |GuardedStatements| && GuardedStatements[k] in r.executed
      ensures !fails(GuardedStatements[k])
    {
      var j :| 0 <= j < |r.executed| && r.executed[j] == GuardedStatements[k];
    }
  }
}
