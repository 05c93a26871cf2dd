/** Tombstones: what a sync run may mark as gone, and what a whole history of runs leaves live. */
module Disappearance {
  import opened Options

  type SourceId = string

  datatype Endpoint = Endpoint(source: SourceId, ext: string)

  datatype EdgeKey = EdgeKey(kind: string, from: Endpoint, to: Endpoint)

  /** Times are run start times; `deleted` is a tombstone that a later upsert clears. */
  datatype Row = Row(lastSeen: int, deleted: bool)

  type Table<!K(==)> = map<K, Row>

  /** The one source whose sweep may tombstone the row. */
  type Owner<!K> = K -> Option<SourceId>

  function ItemOwner(item: Endpoint): Option<SourceId> { Some(item.source) }

  /** An edge between two sources has none. */
  function EdgeOwner(edge: EdgeKey): Option<SourceId> {
    if edge.from.source == edge.to.source then Some(edge.from.source) else None
  }

  // ----- the statements of one run

  function Upserted<K>(table: Table<K>, keys: seq<K>, at: int): Table<K> {
    if keys == [] then table else Upserted(table, keys[..|keys| - 1], at)[keys[|keys| - 1] := Row(at, false)]
  }

  predicate Unseen<K>(table: Table<K>, owner: Owner<K>, key: K, source: SourceId, cutoff: int)
    requires key in table
  {
    owner(key) == Some(source) && !table[key].deleted && table[key].lastSeen < cutoff
  }

  function Swept<K>(table: Table<K>, owner: Owner<K>, source: SourceId, cutoff: int): Table<K> {
    map key | key in table :: if Unseen(table, owner, key, source, cutoff) then table[key].(deleted := true) else table[key]
  }

  /** How a run ends: the fetch or the normalizer fails; or records arrive, completely or not, and are
      written unless the run is dry or its transaction rolls back. */
  datatype Outcome = FetchFailed | NormalizeFailed | Fetched(complete: bool, dryRun: bool, commits: bool)

  datatype Run = Run(source: SourceId, startedAt: int, full: bool, outcome: Outcome,
                     items: seq<Endpoint>, edges: seq<EdgeKey>, threads: seq<Endpoint>)

  predicate Writes(run: Run) { run.outcome.Fetched? && !run.outcome.dryRun && run.outcome.commits }

  predicate Sweeps(run: Run) { Writes(run) && run.full && run.outcome.complete }

  function TableAfter<K>(table: Table<K>, owner: Owner<K>, keys: seq<K>, run: Run): Table<K> {
    if !Writes(run) then table
    else
      var upserted := Upserted(table, keys, run.startedAt);
      if Sweeps(run) then Swept(upserted, owner, run.source, run.startedAt) else upserted
  }

  predicate Live<K>(table: Table<K>, key: K) { key in table && !table[key].deleted }

  // ----- one run

  lemma {:induction false} UpsertedRow<K>(table: Table<K>, keys: seq<K>, at: int, key: K)
    ensures key in Upserted(table, keys, at) <==> key in keys || key in table
    ensures key in keys ==> Upserted(table, keys, at)[key] == Row(at, false)
    ensures key !in keys && key in table ==> Upserted(table, keys, at)[key] == table[key]
  {
    if keys != [] {
      var front, last := keys[..|keys| - 1], keys[|keys| - 1];
      assert keys == front + [last];
      UpsertedRow(table, front, at, key);
    }
  }

  /** What one run does to one row. */
  lemma RowAfter<K>(table: Table<K>, owner: Owner<K>, keys: seq<K>, run: Run, key: K)
    ensures Writes(run) && key in keys ==> key in TableAfter(table, owner, keys, run) && TableAfter(table, owner, keys, run)[key] == Row(run.startedAt, false)
    ensures !(Writes(run) && key in keys) ==> (key in TableAfter(table, owner, keys, run) <==> key in table)
    ensures !(Writes(run) && key in keys) && key in table ==>
              TableAfter(table, owner, keys, run)[key] ==
              if Sweeps(run) && Unseen(table, owner, key, run.source, run.startedAt) then table[key].(deleted := true) else table[key]
  {
    UpsertedRow(table, keys, run.startedAt, key);
  }

  /** A row is tombstoned only by a committed full and complete run of its own source that did not
      report it. */
  lemma OnlySweepsTombstone<K>(table: Table<K>, owner: Owner<K>, keys: seq<K>, run: Run, key: K)
    requires Live(table, key) && !Live(TableAfter(table, owner, keys, run), key)
    ensures Sweeps(run) && owner(key) == Some(run.source) && key !in keys
  {
    RowAfter(table, owner, keys, run, key);
  }

  /** After a sweep the source's live rows are exactly the reported ones, if and only if no other live
      row of the source was last seen at or after the run's start. */
  lemma SweepIsExactWhen<K>(table: Table<K>, owner: Owner<K>, keys: seq<K>, run: Run)
    requires Sweeps(run)
    ensures (forall key :: owner(key) == Some(run.source) ==> (Live(TableAfter(table, owner, keys, run), key) <==> key in keys)) <==>
            (forall key :: owner(key) == Some(run.source) && Live(table, key) && key !in keys ==> table[key].lastSeen < run.startedAt)
  {
    forall key | owner(key) == Some(run.source)
      ensures Live(TableAfter(table, owner, keys, run), key) <==>
              key in keys || (Live(table, key) && table[key].lastSeen >= run.startedAt)
    {
      RowAfter(table, owner, keys, run, key);
    }
  }

  // ----- histories

  /** Start times increase strictly. */
  ghost predicate Chronological(runs: seq<Run>) {
    forall i, j :: 0 <= i < j < |runs| ==> runs[i].startedAt < runs[j].startedAt
  }

  function History<K>(owner: Owner<K>, reported: Run -> seq<K>, runs: seq<Run>): Table<K> {
    if runs == [] then map[]
    else
      var last := runs[|runs| - 1];
      TableAfter(History(owner, reported, runs[..|runs| - 1]), owner, reported(last), last)
  }

  ghost predicate Reports<K>(reported: Run -> seq<K>, run: Run, key: K) { Writes(run) && key in reported(run) }

  ghost predicate Drops<K>(owner: Owner<K>, reported: Run -> seq<K>, run: Run, key: K) {
    Sweeps(run) && owner(key) == Some(run.source) && key !in reported(run)
  }

  /** Some committed run reported the row and no later sweep of its source left it out. */
  ghost predicate StillReported<K>(owner: Owner<K>, reported: Run -> seq<K>, runs: seq<Run>, key: K) {
    exists i :: 0 <= i < |runs| && Reports(reported, runs[i], key) && NotDroppedAfter(owner, reported, runs, i, key)
  }

  ghost predicate NotDroppedAfter<K>(owner: Owner<K>, reported: Run -> seq<K>, runs: seq<Run>, i: int, key: K) {
    forall j :: i < j && 0 <= j < |runs| ==> !Drops(owner, reported, runs[j], key)
  }

  ghost predicate SeenBefore<K>(table: Table<K>, time: int) {
    forall key :: key in table ==> table[key].lastSeen < time
  }

  lemma {:induction false} HistorySeenBefore<K>(owner: Owner<K>, reported: Run -> seq<K>, runs: seq<Run>, time: int)
    requires forall i :: 0 <= i < |runs| ==> runs[i].startedAt < time
    ensures SeenBefore(History(owner, reported, runs), time)
  {
    if runs != [] {
      var front, last := runs[..|runs| - 1], runs[|runs| - 1];
      HistorySeenBefore(owner, reported, front, time);
      var before := History(owner, reported, front);
      forall key | key in History(owner, reported, runs)
        ensures History(owner, reported, runs)[key].lastSeen < time
      {
        RowAfter(before, owner, reported(last), last, key);
      }
    }
  }

  lemma StillReportedStep<K>(owner: Owner<K>, reported: Run -> seq<K>, runs: seq<Run>, last: Run, key: K)
    ensures StillReported(owner, reported, runs + [last], key) <==>
            Reports(reported, last, key) || (StillReported(owner, reported, runs, key) && !Drops(owner, reported, last, key))
  {
    var all := runs + [last];
    assert all[|runs|] == last;
    if Reports(reported, last, key) {
      assert NotDroppedAfter(owner, reported, all, |runs|, key);
    }
    if StillReported(owner, reported, runs, key) && !Drops(owner, reported, last, key) {
      var i :| 0 <= i < |runs| && Reports(reported, runs[i], key) && NotDroppedAfter(owner, reported, runs, i, key);
      assert all[i] == runs[i];
      assert NotDroppedAfter(owner, reported, all, i, key);
    }
    if StillReported(owner, reported, all, key) && !Reports(reported, last, key) {
      var i :| 0 <= i < |all| && Reports(reported, all[i], key) && NotDroppedAfter(owner, reported, all, i, key);
      assert runs[i] == all[i];
      assert forall j :: 0 <= j < |runs| ==> runs[j] == all[j];
      assert NotDroppedAfter(owner, reported, runs, i, key);
    }
  }

  /** Disappearance, over every history: a row is live exactly when some committed run reported it and no
      later committed full and complete run of its own source left it out. */
  lemma {:induction false} LiveIsStillReported<K>(owner: Owner<K>, reported: Run -> seq<K>, runs: seq<Run>, key: K)
    requires Chronological(runs)
    ensures Live(History(owner, reported, runs), key) <==> StillReported(owner, reported, runs, key)
  {
    if runs != [] {
      var front, last := runs[..|runs| - 1], runs[|runs| - 1];
      assert runs == front + [last];
      LiveIsStillReported(owner, reported, front, key);
      HistorySeenBefore(owner, reported, front, last.startedAt);
      RowAfter(History(owner, reported, front), owner, reported(last), last, key);
      StillReportedStep(owner, reported, front, last, key);
    }
  }

  /** A cross-source edge, once reported by a committed run, is live for ever. */
  lemma CrossSourceEdgesStay(runs: seq<Run>, edge: EdgeKey)
    requires Chronological(runs) && edge.from.source != edge.to.source
    ensures Live(History(EdgeOwner, (run: Run) => run.edges, runs), edge) <==>
            exists i :: 0 <= i < |runs| && Writes(runs[i]) && edge in runs[i].edges
  {
    var reported := (run: Run) => run.edges;
    LiveIsStillReported(EdgeOwner, reported, runs, edge);
    assert forall run :: Reports(reported, run, edge) <==> Writes(run) && edge in run.edges;
    if i :| 0 <= i < |runs| && Writes(runs[i]) && edge in runs[i].edges {
      assert Reports(reported, runs[i], edge) && NotDroppedAfter(EdgeOwner, reported, runs, i, edge);
    }
  }

  /** In a chronological history a sweep leaves its source's live items exactly the reported ones. */
  lemma SweepIsExact<K>(owner: Owner<K>, reported: Run -> seq<K>, runs: seq<Run>, key: K)
    requires Chronological(runs) && runs != [] && Sweeps(runs[|runs| - 1]) && owner(key) == Some(runs[|runs| - 1].source)
    ensures Live(History(owner, reported, runs), key) <==> key in reported(runs[|runs| - 1])
  {
    var front, last := runs[..|runs| - 1], runs[|runs| - 1];
    HistorySeenBefore(owner, reported, front, last.startedAt);
    RowAfter(History(owner, reported, front), owner, reported(last), last, key);
  }

  /** Two runs started in the same millisecond: the second sweep misses what only the first reported. */
  lemma SameStartMissesTombstone()
    ensures var x, y := Endpoint("s", "x"), Endpoint("s", "y");
            var first := Run("s", 7, true, Fetched(true, false, true), [x], [], []);
            var second := Run("s", 7, true, Fetched(true, false, true), [y], [], []);
            Live(History(ItemOwner, (run: Run) => run.items, [first, second]), x)
  {
    var x, y := Endpoint("s", "x"), Endpoint("s", "y");
    var first := Run("s", 7, true, Fetched(true, false, true), [x], [], []);
    var second := Run("s", 7, true, Fetched(true, false, true), [y], [], []);
    var reported := (run: Run) => run.items;
    assert [first, second][..1] == [first] && [first][..0] == [];
    RowAfter(map[], ItemOwner, [x], first, x);
    RowAfter(History(ItemOwner, reported, [first]), ItemOwner, [y], second, x);
  }

  // ----- the three tables, in terms of sources

  /** What a run does to one row of its own source, or of another: a committed run writes the rows it
      reports; a full and complete one tombstones its source's other live rows last seen before it. */
  ghost predicate RunChanges<K>(before: Table<K>, after: Table<K>, keys: seq<K>, run: Run, key: K, own: bool) {
    if run.outcome.Fetched? && !run.outcome.dryRun && run.outcome.commits then
      if key in keys then key in after && after[key] == Row(run.startedAt, false)
      else
        && (key in after <==> key in before)
        && (key in before ==>
              after[key] == if own && run.full && run.outcome.complete && before[key].lastSeen < run.startedAt
                            then Row(before[key].lastSeen, true) else before[key])
    else (key in after <==> key in before) && (key in before ==> after[key] == before[key])
  }

  ghost predicate ItemsChange(before: Table<Endpoint>, after: Table<Endpoint>, keys: seq<Endpoint>, run: Run) {
    forall item: Endpoint :: RunChanges(before, after, keys, run, item, item.source == run.source)
  }

  ghost predicate EdgesChange(before: Table<EdgeKey>, after: Table<EdgeKey>, run: Run) {
    forall edge: EdgeKey :: RunChanges(before, after, run.edges, run, edge, edge.from.source == run.source && edge.to.source == run.source)
  }

  lemma ItemsAfter(before: Table<Endpoint>, keys: seq<Endpoint>, run: Run)
    ensures ItemsChange(before, TableAfter(before, ItemOwner, keys, run), keys, run)
  {
    forall item: Endpoint
      ensures RunChanges(before, TableAfter(before, ItemOwner, keys, run), keys, run, item, item.source == run.source)
    {
      RowAfter(before, ItemOwner, keys, run, item);
    }
  }

  lemma EdgesAfter(before: Table<EdgeKey>, run: Run)
    ensures EdgesChange(before, TableAfter(before, EdgeOwner, run.edges, run), run)
  {
    forall edge: EdgeKey
      ensures RunChanges(before, TableAfter(before, EdgeOwner, run.edges, run), run.edges, run, edge,
                         edge.from.source == run.source && edge.to.source == run.source)
    {
      RowAfter(before, EdgeOwner, run.edges, run, edge);
    }
  }

  /** The tables a history of runs leaves. */
  function ItemsOf(runs: seq<Run>): Table<Endpoint> { History(ItemOwner, (run: Run) => run.items, runs) }

  function ThreadsOf(runs: seq<Run>): Table<Endpoint> { History(ItemOwner, (run: Run) => run.threads, runs) }

  function EdgesOf(runs: seq<Run>): Table<EdgeKey> { History(EdgeOwner, (run: Run) => run.edges, runs) }

  ghost predicate SweptLast(runs: seq<Run>) {
    && Chronological(runs) && runs != []
    && var last := runs[|runs| - 1];
       last.outcome == Fetched(true, false, true) && last.full
  }

  /** After a committed full and complete run of a chronological history an item or a thread of the run's
      source is live exactly when the run reported it, and one of another source the run did not report is
      as it was. */
  lemma SweptItems(runs: seq<Run>, item: Endpoint)
    requires SweptLast(runs)
    ensures var front, last := runs[..|runs| - 1], runs[|runs| - 1];
            && (item.source == last.source ==> (Live(ItemsOf(runs), item) <==> item in last.items))
            && (item.source == last.source ==> (Live(ThreadsOf(runs), item) <==> item in last.threads))
            && (item.source != last.source && item !in last.items ==> SameRow(ItemsOf(front), ItemsOf(runs), item))
            && (item.source != last.source && item !in last.threads ==> SameRow(ThreadsOf(front), ThreadsOf(runs), item))
  {
    var front, last := runs[..|runs| - 1], runs[|runs| - 1];
    HistorySeenBefore(ItemOwner, (run: Run) => run.items, front, last.startedAt);
    HistorySeenBefore(ItemOwner, (run: Run) => run.threads, front, last.startedAt);
    RowAfter(ItemsOf(front), ItemOwner, last.items, last, item);
    RowAfter(ThreadsOf(front), ItemOwner, last.threads, last, item);
  }

  /** Likewise an edge with both ends in the source, and any other edge. */
  lemma SweptEdges(runs: seq<Run>, edge: EdgeKey)
    requires SweptLast(runs)
    ensures var front, last := runs[..|runs| - 1], runs[|runs| - 1];
            var own := edge.from.source == last.source && edge.to.source == last.source;
            && (own ==> (Live(EdgesOf(runs), edge) <==> edge in last.edges))
            && (!own && edge !in last.edges ==> SameRow(EdgesOf(front), EdgesOf(runs), edge))
  {
    var front, last := runs[..|runs| - 1], runs[|runs| - 1];
    HistorySeenBefore(EdgeOwner, (run: Run) => run.edges, front, last.startedAt);
    RowAfter(EdgesOf(front), EdgeOwner, last.edges, last, edge);
  }

  ghost predicate SameRow<K>(before: Table<K>, after: Table<K>, key: K) {
    (key in after <==> key in before) && (key in before ==> after[key] == before[key])
  }

  /** Over every history of chronological runs an item is live exactly when some committed run reported it
      and no later committed full and complete run of the item's source left it out. */
  lemma ItemLiveExactlyWhen(runs: seq<Run>, item: Endpoint)
    requires Chronological(runs)
    ensures Live(ItemsOf(runs), item) <==>
            exists i :: 0 <= i < |runs| && ReportsItem(runs[i], item) && forall j :: i < j < |runs| ==> !LeavesOut(runs[j], item)
  {
    var reported := (run: Run) => run.items;
    LiveIsStillReported(ItemOwner, reported, runs, item);
    assert forall run :: Reports(reported, run, item) <==> ReportsItem(run, item);
    assert forall run :: Drops(ItemOwner, reported, run, item) <==> LeavesOut(run, item);
    if StillReported(ItemOwner, reported, runs, item) {
      var i :| 0 <= i < |runs| && Reports(reported, runs[i], item) && NotDroppedAfter(ItemOwner, reported, runs, i, item);
      assert ReportsItem(runs[i], item);
    }
    if i :| 0 <= i < |runs| && ReportsItem(runs[i], item) && forall j :: i < j < |runs| ==> !LeavesOut(runs[j], item) {
      assert Reports(reported, runs[i], item) && NotDroppedAfter(ItemOwner, reported, runs, i, item);
    }
  }

  ghost predicate ReportsItem(run: Run, item: Endpoint) {
    run.outcome.Fetched? && !run.outcome.dryRun && run.outcome.commits && item in run.items
  }

  ghost predicate LeavesOut(run: Run, item: Endpoint) {
    run.outcome == Fetched(true, false, true) && run.full && run.source == item.source && item !in run.items
  }

  // ----- the store and the run

  /** What a run tells its caller. A run whose transaction rolls back wrote nothing but keeps the counts
      its body had set. */
  datatype Report = Report(written: bool, softDeleted: nat, softDeletedEdges: nat)

  ghost function Tombstoned<K>(before: Table<K>, after: Table<K>): set<K> {
    set key | key in before && Live(before, key) && !Live(after, key)
  }

  class Store {
    var items: Table<Endpoint>
    var edges: Table<EdgeKey>
    var threads: Table<Endpoint>

    constructor ()
      ensures items == map[] && edges == map[] && threads == map[]
    {
      items, edges, threads := map[], map[], map[];
    }

    method UpsertItem(item: Endpoint, at: int)
      modifies this`items
      ensures items == old(items)[item := Row(at, false)]
    {
      items := items[item := Row(at, false)];
    }

    method UpsertEdge(edge: EdgeKey, at: int)
      modifies this`edges
      ensures edges == old(edges)[edge := Row(at, false)]
    {
      edges := edges[edge := Row(at, false)];
    }

    method UpsertReviewThread(thread: Endpoint, at: int)
      modifies this`threads
      ensures threads == old(threads)[thread := Row(at, false)]
    {
      threads := threads[thread := Row(at, false)];
    }

    static method SoftDelete<K>(table: Table<K>, owner: Owner<K>, source: SourceId, cutoff: int) returns (after: Table<K>, count: nat)
      ensures after == Swept(table, owner, source, cutoff) && count == |Tombstoned(table, after)|
    {
      after := Swept(table, owner, source, cutoff);
      var gone := set key | key in table && Unseen(table, owner, key, source, cutoff);
      assert gone == Tombstoned(table, after);
      count := |gone|;
    }

    /** One run's transaction and the branches around it. Each table becomes what `TableAfter` says. */
    method SyncSource(run: Run) returns (report: Report)
      modifies this
      ensures items == TableAfter(old(items), ItemOwner, run.items, run)
      ensures edges == TableAfter(old(edges), EdgeOwner, run.edges, run)
      ensures threads == TableAfter(old(threads), ItemOwner, run.threads, run)
      ensures ItemsChange(old(items), items, run.items, run) && EdgesChange(old(edges), edges, run)
      ensures ItemsChange(old(threads), threads, run.threads, run)
      ensures report.written <==> run.outcome.Fetched? && !run.outcome.dryRun && run.outcome.commits
      ensures Sweeps(run) ==> report.softDeleted == |Tombstoned(Upserted(old(items), run.items, run.startedAt), items)|
      ensures Sweeps(run) ==> report.softDeletedEdges == |Tombstoned(Upserted(old(edges), run.edges, run.startedAt), edges)|
    {
      report := Report(false, 0, 0);
      ItemsAfter(items, run.items, run);
      ItemsAfter(threads, run.threads, run);
      EdgesAfter(edges, run);
      if !run.outcome.Fetched? || run.outcome.dryRun {
        return;
      }
      var savedItems, savedEdges, savedThreads := items, edges, threads;
      WriteRecords(run);
      if run.full && run.outcome.complete {
        var deletedItems, deletedEdges, deletedThreads;
        items, deletedItems := SoftDelete(items, ItemOwner, run.source, run.startedAt);
        edges, deletedEdges := SoftDelete(edges, EdgeOwner, run.source, run.startedAt);
        threads, deletedThreads := SoftDelete(threads, ItemOwner, run.source, run.startedAt);
        report := Report(true, deletedItems, deletedEdges);
      }
      if run.outcome.commits {
        report := report.(written := true);
      } else {
        items, edges, threads := savedItems, savedEdges, savedThreads;
        report := report.(written := false);
      }
    }

    method WriteRecords(run: Run)
      modifies this
      ensures items == Upserted(old(items), run.items, run.startedAt)
      ensures edges == Upserted(old(edges), run.edges, run.startedAt)
      ensures threads == Upserted(old(threads), run.threads, run.startedAt)
    {
      for i := 0 to |run.items|
        invariant items == Upserted(old(items), run.items[..i], run.startedAt) && edges == old(edges) && threads == old(threads)
      {
        assert run.items[..i + 1][..i] == run.items[..i];
        UpsertItem(run.items[i], run.startedAt);
      }
      assert run.items[..|run.items|] == run.items;
      for i := 0 to |run.edges|
        invariant edges == Upserted(old(edges), run.edges[..i], run.startedAt) && threads == old(threads)
        invariant items == Upserted(old(items), run.items, run.startedAt)
      {
        assert run.edges[..i + 1][..i] == run.edges[..i];
        UpsertEdge(run.edges[i], run.startedAt);
      }
      assert run.edges[..|run.edges|] == run.edges;
      for i := 0 to |run.threads|
        invariant threads == Upserted(old(threads), run.threads[..i], run.startedAt)
        invariant items == Upserted(old(items), run.items, run.startedAt)
        invariant edges == Upserted(old(edges), run.edges, run.startedAt)
      {
        assert run.threads[..i + 1][..i] == run.threads[..i];
        UpsertReviewThread(run.threads[i], run.startedAt);
      }
      assert run.threads[..|run.threads|] == run.threads;
    }
  }
}
