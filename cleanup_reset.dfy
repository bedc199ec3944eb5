/** A deviation from the code as written: `onCleanupNewSSTable` with the counters put back to zero
    when a table completes, as a job over several tables needs. Starting a table is unchanged. */
module CleanupProgressReset {
  import opened Wrappers
  import opened Collections
  import opened CleanupProgress

  /** `onCleanupNewSSTable` with the reset added on completion. */
  function NewSSTableWithReset(p: Progress): Progress
  {
    var done := p.sstablesCompleted + 1;
    if p.sstablesToCleanUp == done then
      match p.currentTableId
      case Some(t) => p.(tablesCompleted := AddIfAbsent(p.tablesCompleted, t), sstablesToCleanUp := 0,
                         sstablesCompleted := 0, currentTableId := None)
      case None => p.(sstablesCompleted := done)
    else p.(sstablesCompleted := done)
  }

  function SSTablesWithReset(p: Progress, sstables: nat): Progress
  {
    if sstables == 0 then p else NewSSTableWithReset(SSTablesWithReset(p, sstables - 1))
  }

  /** No table in progress and both counters at zero, as after construction. */
  predicate Idle(p: Progress)
  {
    p.currentTableId.None? && p.sstablesToCleanUp == 0 && p.sstablesCompleted == 0
  }

  lemma {:induction false} ResetSSTablesBeforeTarget(p: Progress, k: nat)
    requires p.sstablesCompleted + k < p.sstablesToCleanUp
    ensures SSTablesWithReset(p, k) == p.(sstablesCompleted := p.sstablesCompleted + k)
  {
    if k > 0 {
      ResetSSTablesBeforeTarget(p, k - 1);
    }
  }

  /** With the reset, a table started on an idle record completes after exactly its sstable count,
      and the record is idle again, ready for the next table. */
  lemma TableCycleWithReset(p: Progress, table: TableId, sstables: int)
    requires Idle(p) && sstables > 0
    ensures NewTable(p, table, sstables).Success?
    ensures var q := SSTablesWithReset(NewTable(p, table, sstables).value, sstables);
      && Idle(q)
      && q == p.(tablesCompleted := AddIfAbsent(p.tablesCompleted, table))
  {
    var started := NewTable(p, table, sstables).value;
    ResetSSTablesBeforeTarget(started, sstables - 1);
  }

  /** With the reset, two tables of a job both complete, in the order they ran. */
  lemma TwoTablesCompleteWithReset(t1: TableId, t2: TableId, n1: int, n2: int)
    requires t1 != t2 && n1 > 0 && n2 > 0
    ensures var p1 := SSTablesWithReset(NewTable(Start({t1, t2}), t1, n1).value, n1);
      && NewTable(p1, t2, n2).Success?
      && SSTablesWithReset(NewTable(p1, t2, n2).value, n2) == Progress({t1, t2}, [t1, t2], 0, 0, None)
  {
    var p0 := Start({t1, t2});
    TableCycleWithReset(p0, t1, n1);
    var p1 := SSTablesWithReset(NewTable(p0, t1, n1).value, n1);
    TableCycleWithReset(p1, t2, n2);
  }
}
