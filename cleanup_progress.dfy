/** The progress record of a cleanup job (`CleanupProgressInfo`), following the code as written:
    the sstable counters are never reset when a table completes. */
module CleanupProgress {
  import opened Wrappers
  import opened Collections
  import opened Text
  import opened JavaHash

  /** A table identifier, kept as its canonical text (`TableId.toString()`, the text of a UUID). */
  datatype TableId = TableId(text: string) {
    function ToString(): string { text }
  }

  /** What a failing call throws. */
  datatype Fault = AssertionFailed | NullDereference

  /** The five fields of the record, as one value. */
  datatype Progress = Progress(
    tablesToCleanUp: set<TableId>,
    tablesCompleted: seq<TableId>,
    sstablesToCleanUp: int,
    sstablesCompleted: int,
    currentTableId: Option<TableId>)

  /** A freshly constructed record for the given target tables. */
  function Start(targets: set<TableId>): Progress
  {
    Progress(targets, [], 0, 0, None)
  }

  /** `onCleanupNewTable`: the assertion that the target count is zero, then the two assignments. */
  function NewTable(p: Progress, table: TableId, sstables: int): Result<Progress, Fault>
  {
    if p.sstablesToCleanUp != 0 then Failure(AssertionFailed)
    else Success(p.(currentTableId := Some(table), sstablesToCleanUp := sstables))
  }

  /** `onCleanupNewSSTable`: count one sstable; on reaching the target, move the current table
      to the completed ones. Where no table is current Java would insert `null`; that case is
      never reached from a constructed record (lemma CompletionHasCurrentTable). */
  function NewSSTable(p: Progress): Progress
  {
    var done := p.sstablesCompleted + 1;
    if p.sstablesToCleanUp == done then
      match p.currentTableId
      case Some(t) => p.(tablesCompleted := AddIfAbsent(p.tablesCompleted, t), sstablesCompleted := done,
                         currentTableId := None)
      case None => p.(sstablesCompleted := done)
    else p.(sstablesCompleted := done)
  }

  /** `sstables` calls of `onCleanupNewSSTable` in a row. */
  function SSTables(p: Progress, sstables: nat): Progress
  {
    if sstables == 0 then p else NewSSTable(SSTables(p, sstables - 1))
  }

  /** A call of one of the two mutators. */
  datatype Event = TableStarted(table: TableId, sstables: int) | SSTableDone

  /** One mutator call. A call that fails its assertion leaves the record as it was. */
  function Step(p: Progress, e: Event): Progress
  {
    match e
    case TableStarted(t, n) => (match NewTable(p, t, n) case Success(q) => q case Failure(_) => p)
    case SSTableDone => NewSSTable(p)
  }

  /** A sequence of mutator calls, in order. */
  function Run(p: Progress, events: seq<Event>): Progress
    decreases |events|
  {
    if events == [] then p else Run(Step(p, events[0]), events[1..])
  }

  /** Holds of every record from construction on: the completed tables form a set, the count of
      finished sstables is not negative, and without a current table that count has reached the target. */
  predicate Inv(p: Progress)
  {
    && Distinct(p.tablesCompleted)
    && p.sstablesCompleted >= 0
    && (p.currentTableId.None? ==> p.sstablesCompleted >= p.sstablesToCleanUp)
  }

  /** Holds of every constructed record, because the counters are never reset: once a table has
      completed, no table is current, the target count is positive and is never reached again, and
      only that one table has completed. */
  predicate FirstCompletionIsFinal(p: Progress)
  {
    && |p.tablesCompleted| <= 1
    && (p.tablesCompleted != [] ==>
          0 < p.sstablesToCleanUp <= p.sstablesCompleted && p.currentTableId.None?)
  }

  lemma StartIsValid(targets: set<TableId>)
    ensures Inv(Start(targets)) && FirstCompletionIsFinal(Start(targets))
  {
  }

  lemma StepPreservesInv(p: Progress, e: Event)
    requires Inv(p)
    ensures Inv(Step(p, e))
  {
  }

  lemma {:induction false} RunPreservesInv(p: Progress, events: seq<Event>)
    requires Inv(p)
    ensures Inv(Run(p, events))
    decreases |events|
  {
    if events != [] {
      StepPreservesInv(p, events[0]);
      RunPreservesInv(Step(p, events[0]), events[1..]);
    }
  }

  /** At the moment a table completes there is always a current table to move. */
  lemma CompletionHasCurrentTable(p: Progress)
    requires Inv(p)
    requires p.sstablesCompleted + 1 == p.sstablesToCleanUp
    ensures p.currentTableId.Some?
  {
  }

  /** The target set never changes; the completed tables only grow, keep their order and never repeat. */
  lemma {:induction false} CompletedOnlyGrows(p: Progress, events: seq<Event>)
    requires Distinct(p.tablesCompleted)
    ensures Run(p, events).tablesToCleanUp == p.tablesToCleanUp
    ensures p.tablesCompleted <= Run(p, events).tablesCompleted
    ensures Distinct(Run(p, events).tablesCompleted)
    decreases |events|
  {
    if events != [] {
      var q := Step(p, events[0]);
      assert p.tablesCompleted <= q.tablesCompleted && Distinct(q.tablesCompleted);
      CompletedOnlyGrows(q, events[1..]);
    }
  }

  /** The count of finished sstables never decreases, and once the target count is not zero it never changes. */
  lemma {:induction false} CountersNeverReset(p: Progress, events: seq<Event>)
    ensures Run(p, events).sstablesCompleted >= p.sstablesCompleted
    ensures p.sstablesToCleanUp != 0 ==> Run(p, events).sstablesToCleanUp == p.sstablesToCleanUp
    decreases |events|
  {
    if events != [] {
      CountersNeverReset(Step(p, events[0]), events[1..]);
    }
  }

  lemma StepKeepsFirstCompletionFinal(p: Progress, e: Event)
    requires Inv(p) && FirstCompletionIsFinal(p)
    ensures FirstCompletionIsFinal(Step(p, e))
  {
  }

  lemma {:induction false} RunKeepsFirstCompletionFinal(p: Progress, events: seq<Event>)
    requires Inv(p) && FirstCompletionIsFinal(p)
    ensures Inv(Run(p, events)) && FirstCompletionIsFinal(Run(p, events))
    decreases |events|
  {
    if events != [] {
      StepPreservesInv(p, events[0]);
      StepKeepsFirstCompletionFinal(p, events[0]);
      RunKeepsFirstCompletionFinal(Step(p, events[0]), events[1..]);
    }
  }

  /** Every record reachable from construction satisfies both invariants. */
  lemma ReachableIsValid(targets: set<TableId>, events: seq<Event>)
    ensures Inv(Run(Start(targets), events))
    ensures FirstCompletionIsFinal(Run(Start(targets), events))
  {
    RunKeepsFirstCompletionFinal(Start(targets), events);
  }

  /** Because the counters are not reset, a record never completes more than one table. */
  lemma AtMostOneTableCompletes(targets: set<TableId>, events: seq<Event>)
    ensures |Run(Start(targets), events).tablesCompleted| <= 1
  {
    ReachableIsValid(targets, events);
  }

  /** After a table has completed, `onCleanupNewTable` fails its assertion for every later table. */
  lemma NoTableStartsAfterACompletion(targets: set<TableId>, events: seq<Event>, table: TableId, sstables: int)
    requires Run(Start(targets), events).tablesCompleted != []
    ensures NewTable(Run(Start(targets), events), table, sstables) == Failure(AssertionFailed)
  {
    ReachableIsValid(targets, events);
  }

  /** Counting sstables while the target is still ahead keeps the table current. */
  lemma {:induction false} SSTablesBeforeTarget(p: Progress, k: nat)
    requires p.sstablesCompleted + k < p.sstablesToCleanUp
    ensures SSTables(p, k) == p.(sstablesCompleted := p.sstablesCompleted + k)
  {
    if k > 0 {
      SSTablesBeforeTarget(p, k - 1);
    }
  }

  /** A current table completes exactly when the count reaches the target, and not one sstable earlier. */
  lemma TableCompletesAtTarget(p: Progress, table: TableId)
    requires p.currentTableId == Some(table)
    requires p.sstablesCompleted < p.sstablesToCleanUp
    ensures var k := p.sstablesToCleanUp - p.sstablesCompleted;
      && SSTables(p, k - 1).currentTableId == Some(table)
      && SSTables(p, k - 1).tablesCompleted == p.tablesCompleted
      && SSTables(p, k) == p.(tablesCompleted := AddIfAbsent(p.tablesCompleted, table),
                               sstablesCompleted := p.sstablesToCleanUp, currentTableId := None)
  {
    var k := p.sstablesToCleanUp - p.sstablesCompleted;
    SSTablesBeforeTarget(p, k - 1);
  }

  /** Once the count has reached or passed the target, no further sstable completes anything. */
  lemma {:induction false} OvershootNeverCompletes(p: Progress, k: nat)
    requires p.sstablesCompleted >= p.sstablesToCleanUp
    ensures SSTables(p, k) == p.(sstablesCompleted := p.sstablesCompleted + k)
  {
    if k > 0 {
      OvershootNeverCompletes(p, k - 1);
    }
  }

  /** Two tables started one after the other: the second start fails because the counts stay at 3. */
  lemma SecondTableRejected()
    ensures var t1, t2 := TableId("t1"), TableId("t2");
      var p := Run(Start({t1, t2}), [TableStarted(t1, 3), SSTableDone, SSTableDone, SSTableDone]);
      && p == Progress({t1, t2}, [t1], 3, 3, None)
      && NewTable(p, t2, 2) == Failure(AssertionFailed)
  {
    var t1, t2 := TableId("t1"), TableId("t2");
    var p0 := Start({t1, t2});
    var p1 := Step(p0, TableStarted(t1, 3));
    assert p1 == Progress({t1, t2}, [], 3, 0, Some(t1));
    var p4 := Run(p1, [SSTableDone, SSTableDone, SSTableDone]);
    assert p4 == SSTables(p1, 3) == Progress({t1, t2}, [t1], 3, 3, None) by {
      TableCompletesAtTarget(p1, t1);
    }
  }

  // ---- equals and hashCode ----

  /** `equals`: the counters and the current table compare equal, and so do the two table sets as sets
      (`Set.equals` ignores the insertion order of the `LinkedHashSet`). */
  predicate SameProgress(p: Progress, q: Progress)
  {
    && p.sstablesToCleanUp == q.sstablesToCleanUp
    && p.sstablesCompleted == q.sstablesCompleted
    && p.tablesToCleanUp == q.tablesToCleanUp
    && Elements(p.tablesCompleted) == Elements(q.tablesCompleted)
    && p.currentTableId == q.currentTableId
  }

  lemma SameProgressIsEquivalence(p: Progress, q: Progress, r: Progress)
    ensures SameProgress(p, p)
    ensures SameProgress(p, q) ==> SameProgress(q, p)
    ensures SameProgress(p, q) && SameProgress(q, r) ==> SameProgress(p, r)
  {
  }

  /** Equality does not look at completion order: the same tables completed in another order compare equal. */
  lemma CompletionOrderIgnored(p: Progress, t1: TableId, t2: TableId)
    requires t1 != t2
    ensures var p1 := p.(tablesCompleted := [t1, t2]);
      var p2 := p.(tablesCompleted := [t2, t1]);
      SameProgress(p1, p2) && p1 != p2
  {
    var p1 := p.(tablesCompleted := [t1, t2]);
    var p2 := p.(tablesCompleted := [t2, t1]);
    assert p1.tablesCompleted[0] != p2.tablesCompleted[0];
  }

  /** `hashCode`: `Objects.hash` of the five fields. A set hashes to the sum of its elements' hash codes
      (taken in iteration order for the `LinkedHashSet`), an `Integer` to its value, `null` to 0;
      `idHash` is `TableId.hashCode`. */
  ghost function ProgressHash(p: Progress, idHash: TableId -> int): int
  {
    ArraysHash([
      Int32(SetSum(p.tablesToCleanUp, idHash)),
      Int32(SeqSum(p.tablesCompleted, idHash)),
      Int32(p.sstablesToCleanUp),
      Int32(p.sstablesCompleted),
      match p.currentTableId case Some(t) => Int32(idHash(t)) case None => 0])
  }

  /** Equal records have equal hash codes, whatever `TableId.hashCode` is. */
  lemma EqualProgressHashesEqually(p: Progress, q: Progress, idHash: TableId -> int)
    requires Distinct(p.tablesCompleted) && Distinct(q.tablesCompleted)
    requires SameProgress(p, q)
    ensures ProgressHash(p, idHash) == ProgressHash(q, idHash)
  {
    SeqSumAsSetSum(p.tablesCompleted, idHash);
    SeqSumAsSetSum(q.tablesCompleted, idHash);
  }

  // ---- getMapRepresentation ----

  const RepresentationKeys: set<string> :=
    {"tablesToCleanUp", "tablesCompleted", "sstablesToCleanUp", "sstablesCompleted", "currentTableId"}

  /** The texts of a set of table identifiers. */
  function IdStrings(ids: set<TableId>): set<string>
  {
    set t | t in ids :: t.ToString()
  }

  /** `text` is the join of the strings of `parts`, each once, in some order (a `HashSet`'s order). */
  ghost predicate RendersAs(text: string, parts: set<string>)
  {
    exists xs :: Enumerates(xs, parts) && Join(xs) == text
  }

  /** `m` is a map representation of `p`: exactly the five keys, the two table sets rendered as
      comma-joined identifiers in some order, the counts in decimal and the current table's identifier. */
  ghost predicate Represents(m: map<string, string>, p: Progress)
  {
    && m.Keys == RepresentationKeys
    && p.currentTableId.Some?
    && RendersAs(m["tablesToCleanUp"], IdStrings(p.tablesToCleanUp))
    && RendersAs(m["tablesCompleted"], IdStrings(Elements(p.tablesCompleted)))
    && m["sstablesToCleanUp"] == DecimalString(p.sstablesToCleanUp)
    && m["sstablesCompleted"] == DecimalString(p.sstablesCompleted)
    && m["currentTableId"] == p.currentTableId.value.ToString()
  }

  /** Identifiers whose text is never empty and holds no comma, as for a UUID. */
  predicate WellFormedIds(ids: set<TableId>)
  {
    forall t :: t in ids ==> IsPart(t.ToString())
  }

  lemma {:induction false} RenderedSetRoundTrip(text: string, ids: set<TableId>)
    requires RendersAs(text, IdStrings(ids))
    requires WellFormedIds(ids)
    ensures Distinct(Split(text)) && Elements(Split(text)) == IdStrings(ids)
  {
    var xs :| Enumerates(xs, IdStrings(ids)) && Join(xs) == text;
    forall k | 0 <= k < |xs| ensures IsPart(xs[k]) {
      assert xs[k] in Elements(xs);
    }
    SplitJoin(xs);
  }

  /** A poller can read the whole record back from its map representation, up to the orders. */
  lemma RepresentationRoundTrip(m: map<string, string>, p: Progress)
    requires Represents(m, p)
    requires WellFormedIds(p.tablesToCleanUp) && WellFormedIds(Elements(p.tablesCompleted))
    ensures Elements(Split(m["tablesToCleanUp"])) == IdStrings(p.tablesToCleanUp)
    ensures Elements(Split(m["tablesCompleted"])) == IdStrings(Elements(p.tablesCompleted))
    ensures Distinct(Split(m["tablesToCleanUp"])) && Distinct(Split(m["tablesCompleted"]))
    ensures ParseDecimal(m["sstablesToCleanUp"]) == Some(p.sstablesToCleanUp)
    ensures ParseDecimal(m["sstablesCompleted"]) == Some(p.sstablesCompleted)
    ensures p.currentTableId.Some? && m["currentTableId"] == p.currentTableId.value.text
  {
    RenderedSetRoundTrip(m["tablesToCleanUp"], p.tablesToCleanUp);
    RenderedSetRoundTrip(m["tablesCompleted"], Elements(p.tablesCompleted));
    DecimalRoundTrip(p.sstablesToCleanUp);
    DecimalRoundTrip(p.sstablesCompleted);
  }

  // ---- the record itself ----

  class CleanupProgressInfo {
    const tablesToCleanUp: set<TableId>
    var tablesCompleted: seq<TableId>
    var sstablesToCleanUp: int
    var sstablesCompleted: int
    var currentTableId: Option<TableId>

    /** The five fields as one value. */
    function State(): Progress
      reads this
    {
      Progress(tablesToCleanUp, tablesCompleted, sstablesToCleanUp, sstablesCompleted, currentTableId)
    }

    ghost predicate Valid()
      reads this
    {
      Inv(State())
    }

    constructor (tablesToCleanUp: set<TableId>)
      ensures this.tablesToCleanUp == tablesToCleanUp
      ensures tablesCompleted == [] && currentTableId == None
      ensures sstablesToCleanUp == 0 && sstablesCompleted == 0
      ensures State() == Start(tablesToCleanUp) && Valid()
    {
      this.tablesToCleanUp := tablesToCleanUp;
      tablesCompleted := [];
      sstablesToCleanUp := 0;
      sstablesCompleted := 0;
      currentTableId := None;
    }

    /** `onCleanupNewTable`. Fails, changing nothing, when the target count is not zero. */
    method OnCleanupNewTable(currTable: TableId, sstables: int) returns (r: Result<(), Fault>)
      requires Valid()
      modifies this
      ensures Valid()
      ensures r.Success? <==> old(sstablesToCleanUp) == 0
      ensures r.Failure? ==> r.error == AssertionFailed && State() == old(State())
      ensures r.Success? ==> currentTableId == Some(currTable) && sstablesToCleanUp == sstables
      ensures tablesCompleted == old(tablesCompleted) && sstablesCompleted == old(sstablesCompleted)
      ensures NewTable(old(State()), currTable, sstables) ==
              if r.Success? then Success(State()) else Failure(AssertionFailed)
    {
      if sstablesToCleanUp != 0 {
        return Failure(AssertionFailed);
      }
      currentTableId := Some(currTable);
      sstablesToCleanUp := sstables;
      r := Success(());
    }

    /** `onCleanupNewSSTable`. */
    method OnCleanupNewSSTable()
      requires Valid()
      modifies this
      ensures Valid()
      ensures sstablesCompleted == old(sstablesCompleted) + 1
      ensures sstablesToCleanUp == old(sstablesToCleanUp)
      ensures sstablesCompleted == sstablesToCleanUp ==>
                old(currentTableId).Some?
                && tablesCompleted == AddIfAbsent(old(tablesCompleted), old(currentTableId).value)
                && currentTableId == None
      ensures sstablesCompleted != sstablesToCleanUp ==>
                tablesCompleted == old(tablesCompleted) && currentTableId == old(currentTableId)
      ensures State() == NewSSTable(old(State()))
    {
      sstablesCompleted := sstablesCompleted + 1;
      if sstablesToCleanUp == sstablesCompleted {
        tablesCompleted := AddIfAbsent(tablesCompleted, currentTableId.value);
        currentTableId := None;
      }
    }

    /** `equals`, against another record or `null`. */
    predicate Equals(that: CleanupProgressInfo?)
      reads this, that
      ensures Equals(that) <==> that != null && SameProgress(State(), that.State())
    {
      this == that || (that != null && SameProgress(State(), that.State()))
    }

    /** `hashCode`, for a given `TableId.hashCode`. */
    ghost function HashCode(idHash: TableId -> int): (h: int)
      reads this
      ensures -0x8000_0000 <= h < 0x8000_0000
    {
      ProgressHash(State(), idHash)
    }

    /** `getMapRepresentation`. Every field is rendered first; the current table's identifier is
        dereferenced last, and with no current table the call fails. */
    method GetMapRepresentation() returns (r: Result<map<string, string>, Fault>)
      ensures r.Failure? <==> currentTableId.None?
      ensures r.Failure? ==> r.error == NullDereference
      ensures r.Success? ==> Represents(r.value, State())
    {
      var targetStrings: set<string> := {};
      var rest := tablesToCleanUp;
      while rest != {}
        invariant rest <= tablesToCleanUp
        invariant targetStrings == IdStrings(tablesToCleanUp - rest)
        decreases rest
      {
        var t :| t in rest;
        targetStrings := targetStrings + {t.ToString()};
        rest := rest - {t};
      }
      assert tablesToCleanUp - {} == tablesToCleanUp;
      EnumerationExists(targetStrings);
      var targetOrder :| Enumerates(targetOrder, targetStrings);

      var completedStrings: set<string> := {};
      for i := 0 to |tablesCompleted|
        invariant completedStrings == IdStrings(Elements(tablesCompleted[..i]))
      {
        assert Elements(tablesCompleted[..i + 1]) == Elements(tablesCompleted[..i]) + {tablesCompleted[i]} by {
          assert tablesCompleted[..i + 1] == tablesCompleted[..i] + [tablesCompleted[i]];
        }
        completedStrings := completedStrings + {tablesCompleted[i].ToString()};
      }
      assert tablesCompleted[..|tablesCompleted|] == tablesCompleted;
      EnumerationExists(completedStrings);
      var completedOrder :| Enumerates(completedOrder, completedStrings);

      var m: map<string, string> := map[];
      m := m["tablesToCleanUp" := Join(targetOrder)];
      m := m["tablesCompleted" := Join(completedOrder)];
      m := m["sstablesToCleanUp" := DecimalString(sstablesToCleanUp)];
      m := m["sstablesCompleted" := DecimalString(sstablesCompleted)];
      if currentTableId.None? {
        return Failure(NullDereference);
      }
      m := m["currentTableId" := currentTableId.value.ToString()];
      r := Success(m);
    }
  }

  /** Equal records have equal hash codes. */
  lemma EqualRecordsHashEqually(a: CleanupProgressInfo, b: CleanupProgressInfo, idHash: TableId -> int)
    requires a.Valid() && b.Valid()
    requires a.Equals(b)
    ensures a.HashCode(idHash) == b.HashCode(idHash)
  {
    EqualProgressHashesEqually(a.State(), b.State(), idHash);
  }
}
