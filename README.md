# Cleanup progress record

A Dafny model of `CleanupProgressInfo`, the record in which a Cassandra node tracks a running
cleanup job. A job is a set of target tables. For each table, the worker calls
`onCleanupNewTable(table, n)` and then `onCleanupNewSSTable()` once per sstable rewritten.
The record keeps five fields:

- the fixed target set `tablesToCleanUp`;
- the insertion-ordered set `tablesCompleted`;
- the two counters `sstablesToCleanUp` and `sstablesCompleted`;
- the optional `currentTableId`.

A poller reads the record through `getMapRepresentation`, a five-key string map.

Files:

- `cleanup_progress.dfy` (module `CleanupProgress`) holds the model itself. `Progress` is the five fields as one value. `NewTable`, `NewSSTable`, `Step` and `Run` are the mutators as pure transitions, and the lemmas about reachable records sit beside them. The class `CleanupProgressInfo` has the five fields and methods whose contracts tie them to those transitions. The same module has equality, hashing and the map representation.
- `cleanup_reset.dfy` (module `CleanupProgressReset`) is a labelled deviation: `onCleanupNewSSTable` with the counters reset on completion (see Findings).
- `collections.dfy`, `text.dfy`, `java_hash.dfy` and `wrappers.dfy` hold the library behaviour the record uses: `LinkedHashSet.add`, `String.join`, `String.valueOf(int)`, `Arrays.hashCode` and the set hash-code sum, with Java `int` wrap-around where a hash is computed.

Modelling decisions:

- The `assert` in `onCleanupNewTable` is modelled as a failure (`AssertionFailed`) that changes nothing. Cassandra runs with assertions enabled.
- The null dereference in `getMapRepresentation` is a `NullDereference` failure.
- A `TableId` is its canonical text, the text of a UUID. Its `toString` is therefore injective.
- `equals` compares `tablesCompleted` as a set, not as a sequence. `LinkedHashSet.equals` ignores insertion order, so records that completed the same tables in different orders are equal (`CompletionOrderIgnored`).
- The code and the component's design description disagree in several places, and the model follows the code:
  - The code does not reset the counters when a table completes.
  - It does not check that a started table is a target or is not yet completed.
  - The completed count can overshoot the target.
  - With no current table, `getMapRepresentation` fails; it does not report "not running".

## Model

| member | source | states |
|---|---|---|
| `CleanupProgress.CleanupProgressInfo.constructor` | src/java/org/apache/cassandra/db/compaction/CleanupProgressInfo.java:35-46 | the new record stores the given target set unchanged, has no completed tables and no current table, and has both counters at 0 |
| `CleanupProgress.CleanupProgressInfo.OnCleanupNewTable` | src/java/org/apache/cassandra/db/compaction/CleanupProgressInfo.java:48-53 | succeeds exactly when the target count is 0, then sets the current table and the target count to its arguments; on failure nothing changes; the completed tables and the finished count never change |
| `CleanupProgress.CleanupProgressInfo.OnCleanupNewSSTable` | src/java/org/apache/cassandra/db/compaction/CleanupProgressInfo.java:55-63 | the finished count goes up by exactly 1 and the target count stays; if the new count equals the target, the current table (always present then) is appended to the completed tables unless it is already there, and no table is current; otherwise neither changes |
| `CleanupProgress.CleanupProgressInfo.Equals` | src/java/org/apache/cassandra/db/compaction/CleanupProgressInfo.java:65-72 | a record equals another exactly when the other is not null and the counters, the current table, the target set and the set of completed tables agree; the identity shortcut is subsumed |
| `CleanupProgress.CleanupProgressInfo.HashCode` | src/java/org/apache/cassandra/db/compaction/CleanupProgressInfo.java:74-78 | `Objects.hash` of the five fields, always a 32-bit `int` |
| `CleanupProgress.CleanupProgressInfo.GetMapRepresentation` | src/java/org/apache/cassandra/db/compaction/CleanupProgressInfo.java:80-101 | fails with a null dereference exactly when no table is current; otherwise returns a map with exactly the five keys, both table sets as comma-joins of their distinct id strings in some order, both counts in decimal and the current table's id; the record is not modified (no frame) |
| `CleanupProgress.EqualRecordsHashEqually` | src/java/org/apache/cassandra/db/compaction/CleanupProgressInfo.java:65-78 | two valid records that are `equals` have the same `hashCode`, for every `TableId.hashCode` |
| `CleanupProgress.EqualProgressHashesEqually` | src/java/org/apache/cassandra/db/compaction/CleanupProgressInfo.java:71-77 | the hash is consistent with the structural equality although the completed set is hashed in insertion order and compared as a set |
| `CleanupProgress.SameProgressIsEquivalence` | src/java/org/apache/cassandra/db/compaction/CleanupProgressInfo.java:71 | the structural equality is reflexive, symmetric and transitive |
| `CleanupProgress.CompletionOrderIgnored` | src/java/org/apache/cassandra/db/compaction/CleanupProgressInfo.java:65-72 | records that completed the same two tables in opposite orders are equal though their completion sequences differ |
| `CleanupProgress.StartIsValid` | src/java/org/apache/cassandra/db/compaction/CleanupProgressInfo.java:35-46 | a fresh record satisfies both reachable-state invariants |
| `CleanupProgress.StepPreservesInv` | src/java/org/apache/cassandra/db/compaction/CleanupProgressInfo.java:48-63 | either mutator keeps the completed tables duplicate-free, the finished count non-negative, and the finished count at or past the target when no table is current |
| `CleanupProgress.RunPreservesInv` | src/java/org/apache/cassandra/db/compaction/CleanupProgressInfo.java:48-63 | any sequence of mutator calls keeps that invariant |
| `CleanupProgress.CompletionHasCurrentTable` | src/java/org/apache/cassandra/db/compaction/CleanupProgressInfo.java:58-61 | whenever the count reaches the target there is a current table, so line 60 never adds `null` |
| `CleanupProgress.CompletedOnlyGrows` | src/java/org/apache/cassandra/db/compaction/CleanupProgressInfo.java:35-63 | over any sequence of calls the target set is unchanged, the old completed sequence is a prefix of the new one, and it stays duplicate-free |
| `CleanupProgress.CountersNeverReset` | src/java/org/apache/cassandra/db/compaction/CleanupProgressInfo.java:50-62 | the finished count never decreases, and a non-zero target count never changes again |
| `CleanupProgress.StepKeepsFirstCompletionFinal` | src/java/org/apache/cassandra/db/compaction/CleanupProgressInfo.java:48-63 | after a completion, each call keeps no table current and the target positive and reached, with at most one table completed |
| `CleanupProgress.RunKeepsFirstCompletionFinal` | src/java/org/apache/cassandra/db/compaction/CleanupProgressInfo.java:48-63 | the same over any sequence of calls |
| `CleanupProgress.ReachableIsValid` | src/java/org/apache/cassandra/db/compaction/CleanupProgressInfo.java:35-63 | every record reachable from construction satisfies both invariants |
| `CleanupProgress.AtMostOneTableCompletes` | src/java/org/apache/cassandra/db/compaction/CleanupProgressInfo.java:48-62 | because the counters are not reset, no reachable record has more than one completed table |
| `CleanupProgress.NoTableStartsAfterACompletion` | src/java/org/apache/cassandra/db/compaction/CleanupProgressInfo.java:48-62 | once any table has completed, every later `onCleanupNewTable` fails its assertion |
| `CleanupProgress.SSTablesBeforeTarget` | src/java/org/apache/cassandra/db/compaction/CleanupProgressInfo.java:55-62 | sstables counted while the target is still ahead change only the finished count |
| `CleanupProgress.TableCompletesAtTarget` | src/java/org/apache/cassandra/db/compaction/CleanupProgressInfo.java:55-62 | a current table is still current one sstable before the target and completes exactly at it |
| `CleanupProgress.OvershootNeverCompletes` | src/java/org/apache/cassandra/db/compaction/CleanupProgressInfo.java:57-58 | once the count is at or past the target, any number of further sstables changes only the finished count |
| `CleanupProgress.SecondTableRejected` | src/java/org/apache/cassandra/db/compaction/CleanupProgressInfo.java:48-62 | targets {t1, t2}, start t1 with 3 sstables and finish them: t1 is completed, both counts are 3, and starting t2 fails |
| `CleanupProgress.RenderedSetRoundTrip` | src/java/org/apache/cassandra/db/compaction/CleanupProgressInfo.java:83-95 | splitting a rendered table set at commas gives each id string of the set exactly once |
| `CleanupProgress.RepresentationRoundTrip` | src/java/org/apache/cassandra/db/compaction/CleanupProgressInfo.java:80-101 | from a map representation a poller recovers both table sets, both counts and the current table id |
| `Collections.AddIfAbsent` | src/java/org/apache/cassandra/db/compaction/CleanupProgressInfo.java:60 | `LinkedHashSet.add` extends the sequence as a prefix, adds exactly the element, keeps it duplicate-free, and leaves it unchanged exactly when the element was present |
| `Text.SplitJoin` | src/java/org/apache/cassandra/db/compaction/CleanupProgressInfo.java:83-95 | `String.join(",", …)` of non-empty comma-free parts is undone by splitting at commas |
| `Text.DecimalRoundTrip` | src/java/org/apache/cassandra/db/compaction/CleanupProgressInfo.java:97-98 | `String.valueOf` of a count reads back as that count, negative counts included |
| `JavaHash.ArraysHash` | src/java/org/apache/cassandra/db/compaction/CleanupProgressInfo.java:77 | the `Objects.hash` fold `31 * result + h` from 1 stays a 32-bit `int` |
| `CleanupProgressReset.TableCycleWithReset` | src/java/org/apache/cassandra/db/compaction/CleanupProgressInfo.java:48-62 | with the reset, a table started on an idle record completes after exactly its sstable count and leaves the record idle for the next table |
| `CleanupProgressReset.TwoTablesCompleteWithReset` | src/java/org/apache/cassandra/db/compaction/CleanupProgressInfo.java:48-62 | with the reset, two tables run one after the other both complete, in that order, with both counters back at 0 |

## Left out

- src/java/org/apache/cassandra/tools/nodetool/Cleanup.java is not part of this model. It is the operator command, and it only passes calls and output on to `NodeProbe`, which is not visible.
- Concurrency between the worker and the pollers. The source has no synchronisation, and the model is sequential.
- The logger (line 41), which is never used, and `toString` (lines 102-112), whose text depends on how Java collections print themselves.
- `CleanupProgress.CleanupProgressInfo.HashCode`: `TableId.hashCode` is a parameter (`idHash`), so the concrete number is not modelled. The function is ghost because a set's hash is summed in no particular order. The set-hash sum is wrapped to 32 bits once at the end, which gives the same `int` as wrapping each addition.
- `CleanupProgress.CleanupProgressInfo.GetMapRepresentation`: the iteration order of the two `HashSet`s is a nondeterministic choice, stated only as "some order".
- `CleanupProgress.CleanupProgressInfo.OnCleanupNewSSTable`: the increment of `sstablesCompleted` uses unbounded integers, so Java `int` overflow at line 57 is not modelled.
- `CleanupProgress.CleanupProgressInfo.OnCleanupNewTable`: a `null` table argument is not modelled. With assertions disabled in the JVM, Java would skip the check at line 50; the model treats the assertion as always checked.
- `CleanupProgress.CleanupProgressInfo.Equals`: comparing with an object of another class (always false in Java) is not modelled. Only records or `null` are compared.
- The constructor stores the caller's `Set` by reference, so later changes to that set by the caller would show through. The model stores the set's value.

## Findings

| source | as written | input that shows it | evidently intended | confidence | as-written member | corrected member |
|---|---|---|---|---|---|---|
| src/java/org/apache/cassandra/db/compaction/CleanupProgressInfo.java:57-62 | on completion the current table is cleared but `sstablesToCleanUp` and `sstablesCompleted` keep their values, so the assertion at line 50 fails for the next table | targets {t1, t2}; `onCleanupNewTable(t1, 3)`, three `onCleanupNewSSTable()`, then `onCleanupNewTable(t2, 2)` fails the assertion | both counters return to 0 when a table completes, so each target table can be started and completed in turn | medium, not executed | `CleanupProgress.SecondTableRejected` | `CleanupProgressReset.TwoTablesCompleteWithReset` |

The class `CleanupProgress.CleanupProgressInfo` keeps the behaviour as written, since that is what the deployed code does. The corrected transition, `CleanupProgressReset.NewSSTableWithReset`, stands beside it with its own proofs.
