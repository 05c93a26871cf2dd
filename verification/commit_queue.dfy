/** The queue of commits whose files are not stored yet, and the sweeps that empty it. */
module CommitQueue {
  import opened Options
  import opened CommitPass

  /** A commit activity; `sha` is the trimmed one from its details, empty when there is none. */
  datatype Commit = Commit(ext: string, project: string, sha: string, merge: bool)

  type Stored = map<string, FileState>

  ghost predicate DistinctCommits(commits: seq<Commit>) {
    forall i, j :: 0 <= i < j < |commits| ==> commits[i].ext != commits[j].ext
  }

  /** Commits without a stored row, newest first. */
  function Queue(commits: seq<Commit>, stored: Stored): seq<Commit> {
    if commits == [] then []
    else if commits[0].ext in stored then Queue(commits[1..], stored)
    else [commits[0]] + Queue(commits[1..], stored)
  }

  function Batch(queue: seq<Commit>, limit: nat): seq<Commit> {
    if limit < |queue| then queue[..limit] else queue
  }

  /** What the engine answers itself. */
  function DirectState(c: Commit): Option<FileState> {
    if c.merge then Some(MergeCommit) else if c.sha == "" then Some(Unavailable) else None
  }

  function Asked(rows: seq<Commit>): (asked: seq<Commit>)
    ensures |asked| <= |rows|
  {
    if rows == [] then []
    else
      var before := Asked(rows[..|rows| - 1]);
      if DirectState(rows[|rows| - 1]).None? then before + [rows[|rows| - 1]] else before
  }

  lemma {:induction false} AskedAre(rows: seq<Commit>, c: Commit)
    ensures c in Asked(rows) <==> c in rows && DirectState(c).None?
  {
    if rows != [] {
      var front, last := rows[..|rows| - 1], rows[|rows| - 1];
      assert rows == front + [last];
      AskedAre(front, c);
    }
  }

  /** Asked for are exactly the commits that are no merges and have a sha: a list of one is asked for if its
      commit is such, and lists are asked for one after the other. */
  lemma AskedIsOrdinary(c: Commit)
    ensures Asked([c]) == if !c.merge && c.sha != "" then [c] else []
  {
    assert [c][..0] == [];
  }

  lemma {:induction false} AskedAppends(left: seq<Commit>, right: seq<Commit>)
    ensures Asked(left + right) == Asked(left) + Asked(right)
  {
    if right == [] {
      assert left + right == left;
    } else {
      var front := right[..|right| - 1];
      assert (left + right)[..|left + right| - 1] == left + front;
      AskedAppends(left, front);
    }
  }

  /** The pass over the asked commits ran to some end, with these records. */
  ghost predicate PassEnds(asked: seq<Commit>, askable: Commit -> bool, requested: Option<int>, result: Result) {
    exists run :: PassRun(asked, askable, requested, run, result)
  }

  function Askable(asked: seq<Commit>, askable: Commit -> bool): Pass {
    Pass(seq(|asked|, (i: nat) requires i < |asked| => askable(asked[i])))
  }

  ghost predicate PassRun(asked: seq<Commit>, askable: Commit -> bool, requested: Option<int>, run: seq<State>, result: Result) {
    && Execution(Askable(asked, askable), requested, run) && Finished(run[|run| - 1])
    && RecordsAre(run[|run| - 1], result.records) && StopIs(run[|run| - 1], result.stopped)
  }

  /** Every commit the sweep leaves a row for. */
  ghost predicate Leaves(rows: seq<Commit>, records: seq<Answered>, ext: string) {
    DirectExt(rows, ext) || RecordedExt(Asked(rows), records, ext)
  }

  ghost predicate DirectExt(rows: seq<Commit>, ext: string) {
    exists c :: c in rows && DirectState(c).Some? && c.ext == ext
  }

  ghost predicate DirectAs(rows: seq<Commit>, ext: string, state: FileState) {
    exists c :: c in rows && DirectState(c) == Some(state) && c.ext == ext
  }

  /** The state a row of the sweep may hold: the engine's own answer, or a record's. */
  ghost predicate Explains(rows: seq<Commit>, records: seq<Answered>, ext: string, state: FileState) {
    DirectAs(rows, ext, state) || RecordedAs(Asked(rows), records, ext, state)
  }

  ghost predicate RecordedAs(asked: seq<Commit>, records: seq<Answered>, ext: string, state: FileState) {
    exists r :: r in records && r.index < |asked| && asked[r.index].ext == ext && r.state == state
  }

  ghost predicate RecordedExt(asked: seq<Commit>, records: seq<Answered>, ext: string) {
    exists r :: r in records && r.index < |asked| && asked[r.index].ext == ext
  }

  /** The rows a committed sweep adds, and the states they hold. */
  ghost predicate SweepWrites(rows: seq<Commit>, records: seq<Answered>, before: Stored, after: Stored) {
    && (forall ext :: ext in after <==> ext in before || Leaves(rows, records, ext))
    && forall ext :: ext in after ==> (ext in before && after[ext] == before[ext]) || Explains(rows, records, ext, after[ext])
  }

  lemma WritesBoth(rows: seq<Commit>, records: seq<Answered>, before: Stored, direct: Stored, recorded: Stored)
    requires DirectAre(rows, direct)
    requires forall ext :: ext in recorded <==> RecordedExt(Asked(rows), records, ext)
    requires forall ext :: ext in recorded ==> RecordedAs(Asked(rows), records, ext, recorded[ext])
    ensures SweepWrites(rows, records, before, before + direct + recorded)
  {
    hide DirectExt, DirectAs, RecordedExt, RecordedAs, Asked;
  }

  /** A committed sweep of a pass that did not stop. */
  ghost predicate Swept(commits: seq<Commit>, limit: nat, before: Stored, after: Stored) {
    exists askable, requested, result :: SweptBy(commits, limit, before, after, askable, requested, result)
  }

  ghost predicate SweptBy(commits: seq<Commit>, limit: nat, before: Stored, after: Stored,
                          askable: Commit -> bool, requested: Option<int>, result: Result)
  {
    var rows := Batch(Queue(commits, before), limit);
    PassEnds(Asked(rows), askable, requested, result) && result.stopped.None? && SweepWrites(rows, result.records, before, after)
  }

  /** What the engine has answered itself after these rows. */
  ghost predicate DirectAre(rows: seq<Commit>, direct: Stored) {
    && (forall ext :: ext in direct <==> DirectExt(rows, ext))
    && forall ext :: ext in direct ==> DirectAs(rows, ext, direct[ext])
  }

  lemma DirectGrows(rows: seq<Commit>, direct: Stored, c: Commit)
    requires DirectAre(rows, direct)
    ensures DirectState(c).Some? ==> DirectAre(rows + [c], direct[c.ext := DirectState(c).value])
    ensures DirectState(c).None? ==> DirectAre(rows + [c], direct)
  {
    hide DirectState, DirectExt, DirectAs;
    forall ext
      ensures DirectExt(rows + [c], ext) <==> DirectExt(rows, ext) || (DirectState(c).Some? && c.ext == ext)
    {
      DirectSplits(rows, c, ext, Unavailable);
    }
    forall ext, state
      ensures DirectAs(rows + [c], ext, state) <==> DirectAs(rows, ext, state) || (DirectState(c) == Some(state) && c.ext == ext)
    {
      DirectSplits(rows, c, ext, state);
    }
  }

  lemma DirectSplits(rows: seq<Commit>, c: Commit, ext: string, state: FileState)
    ensures DirectExt(rows + [c], ext) <==> DirectExt(rows, ext) || (DirectState(c).Some? && c.ext == ext)
    ensures DirectAs(rows + [c], ext, state) <==> DirectAs(rows, ext, state) || (DirectState(c) == Some(state) && c.ext == ext)
  {
    hide DirectState;
    assert c in rows + [c];
    assert forall d :: d in rows ==> d in rows + [c];
  }

  /** What a sweep may leave, however its pass and its transaction end. */
  ghost predicate SweepEnds(commits: seq<Commit>, limit: nat, before: Stored, after: Stored) {
    after == before || exists records :: SweepWrites(Batch(Queue(commits, before), limit), records, before, after)
  }

  /** The engine's own answers, and the commits left to ask for, in row order. */
  method Triage(rows: seq<Commit>) returns (direct: Stored, asked: seq<Commit>)
    ensures asked == Asked(rows) && DirectAre(rows, direct)
  {
    hide DirectAre, DirectState;
    direct, asked := map[], [];
    NothingDirect();
    for i := 0 to |rows|
      invariant asked == Asked(rows[..i]) && DirectAre(rows[..i], direct)
    {
      assert rows[..i + 1][..i] == rows[..i] && rows[..i + 1] == rows[..i] + [rows[i]];
      DirectGrows(rows[..i], direct, rows[i]);
      var answer := DirectState(rows[i]);
      if answer.Some? {
        direct := direct[rows[i].ext := answer.value];
      } else {
        asked := asked + [rows[i]];
      }
    }
    assert rows[..|rows|] == rows;
  }

  lemma NothingDirect()
    ensures DirectAre([], map[])
  {
  }

  ghost predicate AnswersCommit(asked: seq<Commit>, records: seq<Answered>, c: Commit, state: FileState) {
    exists r :: r in records && r.index < |asked| && asked[r.index] == c && r.state == state
  }

  /** What a committed sweep stores for a commit of its batch: a merge as one, a commit without a sha as
      unavailable, and any other with the state of a record for it, if it got one. */
  ghost predicate RowSays(asked: seq<Commit>, records: seq<Answered>, after: Stored, c: Commit) {
    if c.merge then c.ext in after && after[c.ext] == MergeCommit
    else if c.sha == "" then c.ext in after && after[c.ext] == Unavailable
    else if c.ext in after then AnswersCommit(asked, records, c, after[c.ext])
    else forall state :: !AnswersCommit(asked, records, c, state)
  }

  ghost predicate OneEach(rows: seq<Commit>) {
    forall c, d :: c in rows && d in rows && c.ext == d.ext ==> c == d
  }

  lemma RowsSay(rows: seq<Commit>, records: seq<Answered>, before: Stored, after: Stored, c: Commit)
    requires OneEach(rows) && (forall d :: d in rows ==> d.ext !in before) && c in rows
    requires SweepWrites(rows, records, before, after)
    ensures RowSays(Asked(rows), records, after, c)
  {
    hide Asked;
    AskedAre(rows, c);
    forall d
      ensures d in Asked(rows) <==> d in rows && DirectState(d).None?
    {
      AskedAre(rows, d);
    }
    if c.ext in after {
      assert Explains(rows, records, c.ext, after[c.ext]);
      if r :| r in records && r.index < |Asked(rows)| && Asked(rows)[r.index].ext == c.ext && r.state == after[c.ext] {
        assert Asked(rows)[r.index] in Asked(rows);
      }
    } else {
      assert !Leaves(rows, records, c.ext);
    }
    if c.merge || c.sha == "" {
      assert DirectExt(rows, c.ext);
    }
  }

  lemma AllRowsSay(commits: seq<Commit>, limit: nat, records: seq<Answered>, before: Stored, after: Stored)
    requires DistinctCommits(commits) && SweepWrites(Batch(Queue(commits, before), limit), records, before, after)
    ensures var rows := Batch(Queue(commits, before), limit); forall c :: c in rows ==> RowSays(Asked(rows), records, after, c)
  {
    hide RowSays, SweepWrites, Queue, Asked;
    var rows := Batch(Queue(commits, before), limit);
    QueuedAreDistinct(commits, before, limit);
    forall c | c in rows
      ensures RowSays(Asked(rows), records, after, c)
    {
      RowsSay(rows, records, before, after, c);
    }
  }

  lemma QueuedAreDistinct(commits: seq<Commit>, stored: Stored, limit: nat)
    requires DistinctCommits(commits)
    ensures OneEach(Batch(Queue(commits, stored), limit))
    ensures forall d :: d in Batch(Queue(commits, stored), limit) ==> d.ext !in stored
  {
    QueueMembers(commits, stored);
    assert forall d :: d in Batch(Queue(commits, stored), limit) ==> d in Queue(commits, stored);
  }

  class Store {
    const commits: seq<Commit>
    var stored: Stored

    constructor (commits: seq<Commit>)
      ensures this.commits == commits && stored == map[]
    {
      this.commits := commits;
      stored := map[];
    }

    /** One sweep, given how its pass ended; a failed transaction writes nothing. Every row of the batch
        holds the engine's own answer or its record's state. */
    method EnrichCommitFiles(limit: nat, askable: Commit -> bool, ghost requested: Option<int>, result: Result, commit: bool)
      returns (written: nat)
      requires PassEnds(Asked(Batch(Queue(commits, stored), limit)), askable, requested, result)
      modifies this`stored
      ensures limit == 0 || !commit ==> stored == old(stored)
      ensures limit > 0 && commit ==> SweepWrites(Batch(Queue(commits, old(stored)), limit), result.records, old(stored), stored)
      ensures limit > 0 && commit && result.stopped.None? ==> Swept(commits, limit, old(stored), stored)
      ensures SweepEnds(commits, limit, old(stored), stored)
      ensures limit > 0 && commit && DistinctCommits(commits) ==>
                var rows := Batch(Queue(commits, old(stored)), limit);
                forall c :: c in rows ==> RowSays(Asked(rows), result.records, stored, c)
    {
      hide SweepWrites, PassEnds, Queue, Asked, RowSays, DistinctCommits;
      written := 0;
      if limit == 0 {
        return;
      }
      var rows := Batch(Queue(commits, stored), limit);
      var direct, asked := Triage(rows);
      PassIndices(asked, askable, requested, result);
      if commit {
        var recorded := Written(asked, result.records);
        WritesBoth(rows, result.records, stored, direct, recorded);
        stored := stored + direct + recorded;
        written := |direct| + |result.records|;
        if DistinctCommits(commits) {
          AllRowsSay(commits, limit, result.records, old(stored), stored);
        }
        if result.stopped.None? {
          assert SweptBy(commits, limit, old(stored), stored, askable, requested, result);
        }
      }
    }

    static method Written(asked: seq<Commit>, records: seq<Answered>) returns (rows: Stored)
      requires forall k :: 0 <= k < |records| ==> records[k].index < |asked|
      ensures forall ext :: ext in rows <==> RecordedExt(asked, records, ext)
      ensures forall ext :: ext in rows ==> RecordedAs(asked, records, ext, rows[ext])
    {
      rows := map[];
      for i := 0 to |records|
        invariant forall ext :: ext in rows <==> RecordedExt(asked, records[..i], ext)
        invariant forall ext :: ext in rows ==> RecordedAs(asked, records[..i], ext, rows[ext])
      {
        assert records[..i + 1] == records[..i] + [records[i]];
        assert records[i] in records[..i + 1];
        rows := rows[asked[records[i].index].ext := records[i].state];
      }
      assert records[..|records|] == records;
    }
  }

  lemma PassIndices(asked: seq<Commit>, askable: Commit -> bool, requested: Option<int>, result: Result)
    requires PassEnds(asked, askable, requested, result)
    ensures forall k :: 0 <= k < |result.records| ==> result.records[k].index < |asked|
  {
    var run :| PassRun(asked, askable, requested, run, result);
    ExecutionKeepsInv(Askable(asked, askable), requested, run, |run| - 1);
  }

  // ----- sweeps over time

  ghost predicate HasExt(rows: seq<Commit>, ext: string) { exists c :: c in rows && c.ext == ext }

  /** An unstopped pass leaves every commit of the batch with a row, and no other commit. */
  lemma UnstoppedLeavesBatch(rows: seq<Commit>, askable: Commit -> bool, requested: Option<int>, result: Result, ext: string)
    requires PassEnds(Asked(rows), askable, requested, result) && result.stopped.None?
    ensures Leaves(rows, result.records, ext) <==> HasExt(rows, ext)
  {
    var asked := Asked(rows);
    PassIndices(asked, askable, requested, result);
    if RecordedExt(asked, result.records, ext) {
      var r :| r in result.records && r.index < |asked| && asked[r.index].ext == ext;
      AskedAre(rows, asked[r.index]);
    }
    if c :| c in rows && c.ext == ext && DirectState(c).None? {
      AskedAre(rows, c);
      var i :| 0 <= i < |asked| && asked[i] == c;
      var run :| PassRun(asked, askable, requested, run, result);
      UnstoppedAnswersAll(Askable(asked, askable), requested, run, result, i);
      var state :| Answered(i, state) in result.records;
      assert RecordedExt(asked, result.records, ext);
    }
  }

  /** Removing a batch's rows from the queue leaves its tail. */
  lemma {:induction false} QueueWithout(commits: seq<Commit>, before: Stored, after: Stored, taken: nat)
    requires DistinctCommits(commits) && taken <= |Queue(commits, before)|
    requires forall ext :: ext in after <==> ext in before || HasExt(Queue(commits, before)[..taken], ext)
    ensures Queue(commits, after) == Queue(commits, before)[taken..]
  {
    hide HasExt;
    var queue := Queue(commits, before);
    if commits == [] {
      assert queue[taken..] == [];
    } else {
      QueueMembers(commits[1..], before);
      if commits[0].ext in before {
        QueueWithout(commits[1..], before, after, taken);
      } else if taken == 0 {
        assert queue[..0] == [] && queue[0..] == queue;
        NoExt();
        SameQueue(commits, before, after);
      } else {
        var first, rest := commits[0], Queue(commits[1..], before);
        assert queue == [first] + rest;
        assert queue[..taken] == [first] + rest[..taken - 1];
        var middle := before[first.ext := Unavailable];
        SameQueueTail(commits, before, middle);
        forall ext
          ensures ext in after <==> ext in middle || HasExt(rest[..taken - 1], ext)
        {
          HasExtSplits(first, rest[..taken - 1], ext);
        }
        QueueWithout(commits[1..], middle, after, taken - 1);
        assert first.ext in after by {
          HasExtSplits(first, rest[..taken - 1], first.ext);
        }
      }
    }
  }

  lemma NoExt()
    ensures forall ext :: !HasExt([], ext)
  {
  }

  lemma HasExtSplits(first: Commit, rest: seq<Commit>, ext: string)
    ensures HasExt([first] + rest, ext) <==> first.ext == ext || HasExt(rest, ext)
  {
    assert first in [first] + rest;
  }

  lemma {:induction false} QueueMembers(commits: seq<Commit>, stored: Stored)
    ensures forall c :: c in Queue(commits, stored) <==> c in commits && c.ext !in stored
    ensures |Queue(commits, stored)| <= |commits|
  {
    if commits != [] {
      QueueMembers(commits[1..], stored);
    }
  }

  lemma {:induction false} SameQueue(commits: seq<Commit>, before: Stored, after: Stored)
    requires forall c :: c in commits ==> (c.ext in before <==> c.ext in after)
    ensures Queue(commits, before) == Queue(commits, after)
  {
    if commits != [] {
      assert forall c :: c in commits[1..] ==> c in commits;
      SameQueue(commits[1..], before, after);
    }
  }

  lemma SameQueueTail(commits: seq<Commit>, before: Stored, after: Stored)
    requires DistinctCommits(commits) && commits != [] && after.Keys == before.Keys + {commits[0].ext}
    ensures Queue(commits[1..], before) == Queue(commits[1..], after)
  {
    SameQueue(commits[1..], before, after);
  }

  /** One such sweep removes the batch, and nothing else. */
  lemma SweepShortens(commits: seq<Commit>, limit: nat, before: Stored, after: Stored)
    requires DistinctCommits(commits) && Swept(commits, limit, before, after)
    ensures Queue(commits, after) == Queue(commits, before)[|Batch(Queue(commits, before), limit)|..]
  {
    var queue := Queue(commits, before);
    var rows := Batch(queue, limit);
    var askable, requested, result :| SweptBy(commits, limit, before, after, askable, requested, result);
    forall ext
      ensures ext in after <==> ext in before || HasExt(queue[..|rows|], ext)
    {
      UnstoppedLeavesBatch(rows, askable, requested, result, ext);
      assert queue[..|rows|] == rows;
    }
    QueueWithout(commits, before, after, |rows|);
  }

  /** Repeated sweeps of at least one commit empty the queue: after `n` of them `n * limit` commits, or
      all, are gone. */
  lemma {:induction false} SweepsDrain(commits: seq<Commit>, limit: nat, states: seq<Stored>)
    requires DistinctCommits(commits) && limit > 0 && states != []
    requires forall i :: 0 <= i < |states| - 1 ==> Swept(commits, limit, states[i], states[i + 1])
    ensures |Queue(commits, states[|states| - 1])| ==
            if (|states| - 1) * limit <= |Queue(commits, states[0])| then |Queue(commits, states[0])| - (|states| - 1) * limit else 0
  {
    if |states| > 1 {
      var front := states[..|states| - 1];
      SweepsDrain(commits, limit, front);
      assert Swept(commits, limit, states[|states| - 2], states[|states| - 2 + 1]);
      SweepShortens(commits, limit, states[|states| - 2], states[|states| - 1]);
      assert (|states| - 1) * limit == (|states| - 2) * limit + limit;
    }
  }

  lemma {:induction false} MoreRowsShorterQueue(commits: seq<Commit>, before: Stored, after: Stored)
    requires before.Keys <= after.Keys
    ensures forall c :: c in Queue(commits, after) ==> c in Queue(commits, before)
    ensures |Queue(commits, after)| <= |Queue(commits, before)|
  {
    if commits != [] {
      MoreRowsShorterQueue(commits[1..], before, after);
    }
  }

  /** However the sweeps of a history end (stopped, failed, rolled back or complete), the queue only loses
      commits and no stored row disappears. */
  lemma {:induction false} QueueNeverGrows(commits: seq<Commit>, limits: seq<nat>, states: seq<Stored>)
    requires |states| == |limits| + 1
    requires forall i :: 0 <= i < |limits| ==> SweepEnds(commits, limits[i], states[i], states[i + 1])
    ensures forall c :: c in Queue(commits, states[|limits|]) ==> c in Queue(commits, states[0])
    ensures |Queue(commits, states[|limits|])| <= |Queue(commits, states[0])|
    ensures states[0].Keys <= states[|limits|].Keys
  {
    if limits == [] {
      assert states[|limits|] == states[0];
    } else {
      var last := |limits| - 1;
      assert SweepEnds(commits, limits[last], states[last], states[last + 1]);
      QueueNeverGrows(commits, limits[..last], states[..|limits|]);
      SweepKeepsRows(commits, limits[last], states[last], states[last + 1]);
      MoreRowsShorterQueue(commits, states[last], states[last + 1]);
    }
  }

  lemma SweepKeepsRows(commits: seq<Commit>, limit: nat, before: Stored, after: Stored)
    requires SweepEnds(commits, limit, before, after)
    ensures before.Keys <= after.Keys
  {
    hide Leaves, Explains;
  }
}
