/** The watermark of a source, while the provider keeps changing issues during a paged fetch. */
module Watermark {
  import opened Options

  type Id = nat

  /** An issue at the provider: its last update, in milliseconds, and the version it made. */
  datatype Issue = Issue(updated: nat, version: nat)

  /** A stored watermark's text: a provider timestamp, which has whole seconds, or a run's start. */
  datatype Mark = Seconds(s: nat) | Millis(ms: nat)

  /** The provider shows update times in whole seconds. */
  function Shown(updated: nat): nat { updated / 1000 }

  function Floor(m: Mark): nat { if m.Seconds? then m.s else m.ms / 1000 }

  /** `updatedAt < since` on the texts. In one second the provider's `…05Z` is not less than `…05.123Z`,
      because `Z` sorts after the point. */
  predicate Before(shown: nat, since: Option<Mark>) { since.Some? && shown < Floor(since.value) }

  /** The watermark a run reports, capped at its start. */
  function CapAtRunStart(latest: Option<nat>, startedAt: nat): Option<Mark> {
    if latest.None? then None
    else if latest.value * 1000 > startedAt then Some(Millis(startedAt))
    else Some(Seconds(latest.value))
  }

  /** The SQLite driver takes a new watermark as it is; the Postgres driver keeps the greater text. */
  datatype Driver = Coalesce | Greatest

  predicate TextLess(a: Mark, b: Mark) {
    || Floor(a) < Floor(b)
    || (Floor(a) == Floor(b) && ((a.Millis? && b.Seconds?) || (a.Millis? && b.Millis? && a.ms < b.ms)))
  }

  function Stored(d: Driver, prior: Option<Mark>, reported: Option<Mark>): Option<Mark> {
    if reported.None? then prior
    else if d.Coalesce? || prior.None? then reported
    else if TextLess(reported.value, prior.value) then prior
    else reported
  }

  // ----- the system

  /** Position in the provider's list, newest first; a page starts after the last one's end. */
  datatype Position = Position(shown: nat, id: Id)

  predicate Later(p: Position, q: Position) { p.shown < q.shown || (p.shown == q.shown && p.id < q.id) }

  /** How far the paging of a run has come. */
  datatype Paging = Going | Ended | Failed

  datatype Run = Run(startedAt: nat, since: Option<Mark>, cursor: Option<Position>, paging: Paging,
                     records: map<Id, nat>, latest: Option<nat>)

  datatype State = State(now: nat, issues: map<Id, Issue>, store: map<Id, nat>, watermark: Option<Mark>, run: Option<Run>)

  function At(s: State, id: Id): Position
    requires id in s.issues
  {
    Position(Shown(s.issues[id].updated), id)
  }

  predicate AfterCursor(p: Position, cursor: Option<Position>) { cursor.None? || Later(p, cursor.value) }

  /** Up to and including the page's last entry. */
  predicate OnPage(s: State, id: Id, cursor: Option<Position>, last: Position) {
    id in s.issues && AfterCursor(At(s, id), cursor) && !Later(At(s, id), last)
  }

  function Newest(a: Option<nat>, b: Option<nat>): Option<nat> {
    if a.None? then b else if b.None? then a else if a.value < b.value then b else a
  }

  /** The provider creates or updates an issue. */
  ghost predicate Updates(s: State, t: State, id: Id, time: nat) {
    && time >= s.now
    && t == s.(now := time, issues := s.issues[id := Issue(time, if id in s.issues then s.issues[id].version + 1 else 0)])
  }

  ghost predicate Starts(s: State, t: State, full: bool) {
    && s.run.None?
    && t == s.(run := Some(Run(s.now, if full then None else s.watermark, None, Going, map[], None)))
  }

  /** One page, ending at `last`: its entries are kept until one is older than `since`. Paging ends there,
      or when nothing is left. */
  ghost predicate Pages(s: State, t: State, last: Position, newest: Option<nat>) {
    && s.run.Some? && s.run.value.paging.Going?
    && AfterCursor(last, s.run.value.cursor)
    && var run := s.run.value;
       var kept := map id | id in s.issues && OnPage(s, id, run.cursor, last) && !Before(At(s, id).shown, run.since) :: s.issues[id].version;
       var stop := exists id :: OnPage(s, id, run.cursor, last) && Before(At(s, id).shown, run.since);
       var done := forall id :: id in s.issues ==> !Later(At(s, id), last);
       && NewestOf(s, kept.Keys, newest)
       && t == s.(run := Some(run.(cursor := Some(last), records := run.records + kept, latest := Newest(run.latest, newest),
                                   paging := if stop || done then Ended else Going)))
  }

  /** The latest update time among the entries kept. */
  ghost predicate NewestOf(s: State, ids: set<Id>, newest: Option<nat>) {
    && (newest.None? <==> ids == {})
    && (forall id :: id in ids && id in s.issues && newest.Some? ==> At(s, id).shown <= newest.value)
    && (newest.Some? ==> exists id :: id in ids && id in s.issues && At(s, id).shown == newest.value)
  }

  /** A page request fails: the run goes on to its end, incomplete. */
  ghost predicate FailsPage(s: State, t: State) {
    && s.run.Some? && s.run.value.paging.Going?
    && t == s.(run := Some(s.run.value.(paging := Failed)))
  }

  /** The run's transaction commits. `others` is the newest timestamp of the run's other records; the
      watermark is withheld when a project was omitted or some lookup failed. */
  ghost predicate Commits(s: State, t: State, d: Driver, others: Option<nat>, withheld: bool) {
    && s.run.Some? && !s.run.value.paging.Going?
    && var run := s.run.value;
       var reported := if withheld then None else CapAtRunStart(Newest(run.latest, others), run.startedAt);
       t == s.(store := s.store + run.records, watermark := Stored(d, s.watermark, reported), run := None)
  }

  /** A failed fetch, a dry run or a rolled-back transaction. */
  ghost predicate Aborts(s: State, t: State) { s.run.Some? && t == s.(run := None) }

  ghost predicate Step(s: State, t: State, d: Driver) {
    || (exists id, time :: Updates(s, t, id, time))
    || (exists full :: Starts(s, t, full))
    || (exists last, newest :: Pages(s, t, last, newest))
    || FailsPage(s, t)
    || (exists others, withheld :: Commits(s, t, d, others, withheld))
    || Aborts(s, t)
  }

  /** A source never fetched before. */
  predicate Fresh(s: State) {
    s.store == map[] && s.watermark.None? && s.run.None? && forall id :: id in s.issues ==> s.issues[id].updated <= s.now
  }

  ghost predicate Execution(run: seq<State>, d: Driver) {
    && run != [] && Fresh(run[0])
    && forall i :: 0 <= i < |run| - 1 ==> Step(run[i], run[i + 1], d)
  }

  // ----- safety

  predicate Current(s: State, id: Id)
    requires id in s.issues
  {
    id in s.store && s.store[id] == s.issues[id].version
  }

  /** Every issue last updated strictly before the watermark is stored at that version. */
  ghost predicate Safe(s: State) {
    forall id :: id in s.issues && Before(At(s, id).shown, s.watermark) ==> Current(s, id)
  }

  /** What a run has read of an issue nobody changed since the run began. */
  ghost predicate Covers(s: State, run: Run, id: Id)
    requires id in s.issues
  {
    s.issues[id].updated < run.startedAt ==>
      && (id in run.records ==> run.records[id] == s.issues[id].version)
      && (!Before(At(s, id).shown, run.since) && (run.paging.Ended? || !AfterCursor(At(s, id), run.cursor)) ==> id in run.records)
  }

  ghost predicate RunInv(s: State, run: Run) {
    && run.startedAt <= s.now
    && (s.watermark.Some? ==> Floor(s.watermark.value) <= Shown(run.startedAt))
    && (run.since == s.watermark || run.since.None?)
    && (run.cursor.None? ==> run.records == map[])
    && forall id {:trigger Covers(s, run, id)} {:trigger id in s.issues} :: id in s.issues ==> Covers(s, run, id)
  }

  /** What every step keeps, whether issues were lost or not. */
  ghost predicate Tracking(s: State) {
    && (forall id :: id in s.issues ==> s.issues[id].updated <= s.now)
    && (s.watermark.Some? ==> Floor(s.watermark.value) <= Shown(s.now))
    && (s.run.Some? ==> RunInv(s, s.run.value))
  }

  ghost predicate Inv(s: State) { Safe(s) && Tracking(s) }

  lemma LaterInstantLaterSecond(a: nat, b: nat)
    requires a <= b
    ensures Shown(a) <= Shown(b)
  {
  }

  lemma UpdateKeeps(s: State, t: State, id: Id, time: nat)
    requires Tracking(s) && Updates(s, t, id, time)
    ensures Tracking(t) && (Safe(s) ==> Safe(t))
  {
    LaterInstantLaterSecond(s.now, time);
    forall other | Safe(s) && other in t.issues && Before(At(t, other).shown, t.watermark)
      ensures Current(t, other)
    {
      assert other != id;
      assert Current(s, other);
    }
    if s.run.Some? {
      forall other | other in t.issues
        ensures Covers(t, s.run.value, other)
      {
        if other != id {
          assert Covers(s, s.run.value, other);
        }
      }
    }
  }

  lemma StartKeeps(s: State, t: State, full: bool)
    requires Tracking(s) && Starts(s, t, full)
    ensures Tracking(t) && (Safe(s) ==> Safe(t))
  {
    SameSafety(s, t);
    assert forall id :: id in t.issues ==> Covers(t, t.run.value, id);
  }

  lemma PageCovers(s: State, t: State, last: Position, newest: Option<nat>, id: Id)
    requires Pages(s, t, last, newest) && id in s.issues && Covers(s, s.run.value, id)
    ensures Covers(t, t.run.value, id)
  {
    var run := s.run.value;
    if s.issues[id].updated < run.startedAt && !Before(At(s, id).shown, run.since) && !OnPage(s, id, run.cursor, last) {
      if t.run.value.paging.Ended? && AfterCursor(At(s, id), run.cursor) {
        assert Later(At(s, id), last);
        StopsOnlyPast(s, last, id);
      }
    }
  }

  /** If paging stops at an entry older than `since`, whatever follows it is older too. */
  lemma StopsOnlyPast(s: State, last: Position, id: Id)
    requires s.run.Some? && id in s.issues && Later(At(s, id), last) && !Before(At(s, id).shown, s.run.value.since)
    ensures !exists other :: OnPage(s, other, s.run.value.cursor, last) && Before(At(s, other).shown, s.run.value.since)
  {
  }

  lemma PageKeeps(s: State, t: State, last: Position, newest: Option<nat>)
    requires Tracking(s) && Pages(s, t, last, newest)
    ensures Tracking(t) && (Safe(s) ==> Safe(t))
  {
    hide Covers, OnPage, NewestOf, Safe;
    SameSafety(s, t);
    forall id | id in t.issues
      ensures Covers(t, t.run.value, id)
    {
      assert Covers(s, s.run.value, id);
      PageCovers(s, t, last, newest, id);
    }
  }

  lemma SameSafety(s: State, t: State)
    requires t.issues == s.issues && t.store == s.store && t.watermark == s.watermark
    ensures Safe(t) <==> Safe(s)
  {
    forall id | id in s.issues
      ensures Current(t, id) <==> Current(s, id)
      ensures At(t, id) == At(s, id)
    {
    }
  }

  lemma FailKeeps(s: State, t: State)
    requires Tracking(s) && FailsPage(s, t)
    ensures Tracking(t) && (Safe(s) ==> Safe(t))
  {
    SameSafety(s, t);
    forall id | id in t.issues
      ensures Covers(t, t.run.value, id)
    {
      assert Covers(s, s.run.value, id);
    }
  }

  /** The cap and either driver keep the watermark at or before the run's start, or where it was. */
  lemma NewMarkIsBounded(d: Driver, prior: Option<Mark>, latest: Option<nat>, startedAt: nat, withheld: bool)
    requires prior.Some? ==> Floor(prior.value) <= Shown(startedAt)
    ensures var m := Stored(d, prior, if withheld then None else CapAtRunStart(latest, startedAt));
            && (m.Some? ==> Floor(m.value) <= Shown(startedAt))
            && (withheld ==> m == prior)
  {
  }

  /** The instant a mark's text names. */
  function Instant(m: Mark): nat { if m.Seconds? then m.s * 1000 else m.ms }

  /** What a commit makes of the watermark. It stays where it was if withheld or if the run has no record.
      The reported mark is the earlier of the newest record's second and the run's start; the SQLite driver
      stores it as it is. The Postgres driver keeps the later of it and the old mark, and in one second a
      mark without milliseconds is the later. */
  lemma CommitMovesMark(s: State, t: State, d: Driver, others: Option<nat>, withheld: bool)
    requires Commits(s, t, d, others, withheld)
    ensures withheld || (s.run.value.latest.None? && others.None?) ==> t.watermark == s.watermark
    ensures !withheld && (s.run.value.latest.Some? || others.Some?) ==>
              var a, b := if s.run.value.latest.Some? then s.run.value.latest.value else 0, if others.Some? then others.value else 0;
              var newest, start := (if a < b then b else a) * 1000, s.run.value.startedAt;
              var reported := if newest > start then start else newest;
              && t.watermark.Some?
              && (d.Coalesce? || s.watermark.None? ==> Instant(t.watermark.value) == reported)
              && (d.Greatest? && s.watermark.Some? ==>
                    && (t.watermark == s.watermark || Instant(t.watermark.value) == reported)
                    && (reported / 1000 > Instant(s.watermark.value) / 1000 ==> Instant(t.watermark.value) == reported)
                    && (reported / 1000 < Instant(s.watermark.value) / 1000 ==> t.watermark == s.watermark)
                    && (reported / 1000 == Instant(s.watermark.value) / 1000 && s.watermark.value.Seconds? && newest > start ==> t.watermark == s.watermark)
                    && (reported / 1000 == Instant(s.watermark.value) / 1000 && s.watermark.value.Millis? ==>
                          Instant(t.watermark.value) == if newest > start && s.watermark.value.ms > start then s.watermark.value.ms else reported))
  {
    var run := s.run.value;
    var newest := Newest(run.latest, others);
    if !withheld && newest.Some? {
      var mark := CapAtRunStart(newest, run.startedAt).value;
      assert Floor(mark) == Instant(mark) / 1000;
      assert s.watermark.Some? ==> Floor(s.watermark.value) == Instant(s.watermark.value) / 1000;
    }
  }

  lemma UpdatedBeforeStart(updated: nat, startedAt: nat)
    requires Shown(updated) < Shown(startedAt)
    ensures updated < startedAt
  {
  }

  lemma CommitKeepsTracking(s: State, t: State, d: Driver, others: Option<nat>, withheld: bool)
    requires Tracking(s) && Commits(s, t, d, others, withheld)
    ensures Tracking(t)
    ensures t.watermark.Some? ==> Floor(t.watermark.value) <= Shown(s.run.value.startedAt)
    ensures withheld ==> t.watermark == s.watermark
  {
    var run := s.run.value;
    NewMarkIsBounded(d, s.watermark, Newest(run.latest, others), run.startedAt, withheld);
    LaterInstantLaterSecond(run.startedAt, s.now);
  }

  // ----- which commits lose an issue

  /** An issue this run was asked for and did not reach, which the new watermark would put behind it. */
  predicate Stranded(s: State, run: Run, mark: Option<Mark>, id: Id) {
    && id in s.issues && !Current(s, id)
    && id !in run.records && AfterCursor(At(s, id), run.cursor)
    && !Before(At(s, id).shown, run.since) && Before(At(s, id).shown, mark)
  }

  /** The run ends between these states and strands some issue. */
  ghost predicate Strands(s: State, t: State) {
    s.run.Some? && t.run.None? && exists id :: Stranded(s, s.run.value, t.watermark, id)
  }

  /** What becomes of one issue behind the new watermark: it is current after the commit unless the run
      stranded it. */
  lemma CurrentUnlessStranded(s: State, t: State, d: Driver, others: Option<nat>, withheld: bool, id: Id)
    requires Inv(s) && Commits(s, t, d, others, withheld)
    requires id in s.issues && Before(At(s, id).shown, t.watermark)
    ensures Current(t, id) <==> !Stranded(s, s.run.value, t.watermark, id)
  {
    var run := s.run.value;
    CommitKeepsTracking(s, t, d, others, withheld);
    UpdatedBeforeStart(s.issues[id].updated, run.startedAt);
    assert Covers(s, run, id);
    if Before(At(s, id).shown, s.watermark) {
      assert Current(s, id);
    }
  }

  /** A commit is safe exactly when it strands no issue. */
  lemma CommitIsSafeExactlyWhen(s: State, t: State, d: Driver, others: Option<nat>, withheld: bool)
    requires Inv(s) && Commits(s, t, d, others, withheld)
    ensures Safe(t) <==> forall id :: !Stranded(s, s.run.value, t.watermark, id)
  {
    forall id | id in s.issues && Before(At(s, id).shown, t.watermark)
      ensures Current(t, id) <==> !Stranded(s, s.run.value, t.watermark, id)
    {
      CurrentUnlessStranded(s, t, d, others, withheld, id);
    }
    assert forall id :: id in s.issues ==> At(t, id) == At(s, id);
    if id :| Stranded(s, s.run.value, t.watermark, id) {
      assert Before(At(t, id).shown, t.watermark) && !Current(t, id);
    }
  }

  /** A paging that ended strands nothing, and neither does a watermark left where it was. */
  lemma OnlyCutPagingStrands(s: State, t: State, d: Driver, others: Option<nat>, withheld: bool)
    requires Inv(s) && Commits(s, t, d, others, withheld)
    requires s.run.value.paging.Ended? || t.watermark == s.watermark
    ensures !Strands(s, t)
  {
    var run := s.run.value;
    CommitKeepsTracking(s, t, d, others, withheld);
    forall id
      ensures !Stranded(s, run, t.watermark, id)
    {
      if id in s.issues && Before(At(s, id).shown, t.watermark) {
        UpdatedBeforeStart(s.issues[id].updated, run.startedAt);
        assert Covers(s, run, id);
        assert t.watermark == s.watermark ==> Current(s, id);
      }
    }
  }

  lemma AbortStrandsNothing(s: State, t: State)
    requires Inv(s) && Aborts(s, t)
    ensures Inv(t) && !Strands(s, t)
  {
    SameSafety(s, t);
    forall id
      ensures !Stranded(s, s.run.value, t.watermark, id)
    {
      assert id in s.issues && Before(At(s, id).shown, s.watermark) ==> Current(s, id);
    }
  }

  /** A step out of a safe state is safe exactly when it strands no issue. */
  lemma StepIsSafeExactlyWhen(s: State, t: State, d: Driver)
    requires Inv(s) && Step(s, t, d)
    ensures Safe(t) <==> !Strands(s, t)
    ensures Tracking(t)
  {
    hide Tracking, Safe, Pages, Commits, Stranded;
    if id, time :| Updates(s, t, id, time) {
      UpdateKeeps(s, t, id, time);
    } else if full :| Starts(s, t, full) {
      StartKeeps(s, t, full);
    } else if last, newest :| Pages(s, t, last, newest) {
      PageKeeps(s, t, last, newest);
      PagesGoOn(s, t, last, newest);
    } else if FailsPage(s, t) {
      FailKeeps(s, t);
    } else if others, withheld :| Commits(s, t, d, others, withheld) {
      CommitKeepsTracking(s, t, d, others, withheld);
      CommitIsSafeExactlyWhen(s, t, d, others, withheld);
      CommitsEndRun(s, t, d, others, withheld);
    } else {
      AbortStrandsNothing(s, t);
    }
  }

  lemma PagesGoOn(s: State, t: State, last: Position, newest: Option<nat>)
    requires Pages(s, t, last, newest)
    ensures t.run.Some?
  {
  }

  lemma CommitsEndRun(s: State, t: State, d: Driver, others: Option<nat>, withheld: bool)
    requires Commits(s, t, d, others, withheld)
    ensures s.run.Some? && t.run.None?
  {
  }

  lemma {:induction false} SafeWhileUnstranded(run: seq<State>, d: Driver, k: nat)
    requires Execution(run, d) && k < |run|
    requires forall i :: 0 <= i < k ==> !Strands(run[i], run[i + 1])
    ensures Inv(run[k])
  {
    if k > 0 {
      SafeWhileUnstranded(run, d, k - 1);
      assert Step(run[k - 1], run[k - 1 + 1], d) && !Strands(run[k - 1], run[k - 1 + 1]);
      StepIsSafeExactlyWhen(run[k - 1], run[k], d);
    }
  }

  lemma {:induction false} UnstrandedWhileSafe(run: seq<State>, d: Driver, k: nat)
    requires Execution(run, d) && k < |run|
    requires forall i :: 0 <= i <= k ==> Safe(run[i])
    ensures forall i :: 0 <= i < k ==> !Strands(run[i], run[i + 1])
  {
    hide Safe, Strands, Step;
    if k > 0 {
      UnstrandedWhileSafe(run, d, k - 1);
      SafeWhileUnstranded(run, d, k - 1);
      assert Step(run[k - 1], run[k - 1 + 1], d);
      StepIsSafeExactlyWhen(run[k - 1], run[k], d);
    }
  }

  /** Watermark safety over every execution, updates landing during paging included, with either driver: it
      holds throughout exactly when no run ends by stranding an issue. */
  lemma ExecutionIsSafeExactlyWhen(run: seq<State>, d: Driver)
    requires Execution(run, d)
    ensures (forall i :: 0 <= i < |run| ==> Safe(run[i])) <==> forall i :: 0 <= i < |run| - 1 ==> !Strands(run[i], run[i + 1])
  {
    hide Safe, Strands, Step;
    if forall i :: 0 <= i < |run| ==> Safe(run[i]) {
      UnstrandedWhileSafe(run, d, |run| - 1);
    } else if forall i :: 0 <= i < |run| - 1 ==> !Strands(run[i], run[i + 1]) {
      forall k | 0 <= k < |run|
        ensures Safe(run[k])
      {
        SafeWhileUnstranded(run, d, k);
      }
    }
  }

  /** A paging that failed leaves the watermark where it was. */
  predicate HoldsBack(s: State, t: State) {
    s.run.Some? && s.run.value.paging.Failed? && t.run.None? ==> t.watermark == s.watermark
  }

  /** In particular every execution is safe in which no failed paging moves the watermark. */
  lemma {:induction false} ExecutionIsSafe(run: seq<State>, d: Driver, k: nat)
    requires Execution(run, d) && k < |run|
    requires forall i :: 0 <= i < k ==> HoldsBack(run[i], run[i + 1])
    ensures Inv(run[k])
  {
    if k > 0 {
      ExecutionIsSafe(run, d, k - 1);
      var s, t := run[k - 1], run[k];
      assert Step(s, run[k - 1 + 1], d) && HoldsBack(s, run[k - 1 + 1]);
      StepIsSafeExactlyWhen(s, t, d);
      if others, withheld :| Commits(s, t, d, others, withheld) {
        OnlyCutPagingStrands(s, t, d, others, withheld);
      } else if Aborts(s, t) {
        AbortStrandsNothing(s, t);
      }
    }
  }

  // ----- recovery

  lemma StepKeepsTracking(s: State, t: State, d: Driver)
    requires Tracking(s) && Step(s, t, d)
    ensures Tracking(t)
  {
    hide Tracking, Safe;
    if id, time :| Updates(s, t, id, time) {
      UpdateKeeps(s, t, id, time);
    } else if full :| Starts(s, t, full) {
      StartKeeps(s, t, full);
    } else if last, newest :| Pages(s, t, last, newest) {
      PageKeeps(s, t, last, newest);
    } else if FailsPage(s, t) {
      FailKeeps(s, t);
    } else if others, withheld :| Commits(s, t, d, others, withheld) {
      CommitKeepsTracking(s, t, d, others, withheld);
    } else {
      AbortKeepsTracking(s, t);
    }
  }

  lemma AbortKeepsTracking(s: State, t: State)
    requires Tracking(s) && Aborts(s, t)
    ensures Tracking(t)
  {
  }

  lemma {:induction false} ExecutionTracks(run: seq<State>, d: Driver, k: nat)
    requires Execution(run, d) && k < |run|
    ensures Tracking(run[k])
  {
    if k > 0 {
      ExecutionTracks(run, d, k - 1);
      assert Step(run[k - 1], run[k - 1 + 1], d);
      StepKeepsTracking(run[k - 1], run[k], d);
    }
  }

  /** Whatever earlier runs stranded, the commit of a full run whose paging ended makes the store safe. */
  lemma FullRunRecovers(run: seq<State>, d: Driver, k: nat, others: Option<nat>, withheld: bool)
    requires Execution(run, d) && k + 1 < |run| && Commits(run[k], run[k + 1], d, others, withheld)
    requires run[k].run.value.since.None? && run[k].run.value.paging.Ended?
    ensures Inv(run[k + 1])
  {
    hide Execution;
    var s, t := run[k], run[k + 1];
    ExecutionTracks(run, d, k);
    CommitKeepsTracking(s, t, d, others, withheld);
    forall id | id in t.issues && Before(At(t, id).shown, t.watermark)
      ensures Current(t, id)
    {
      assert Covers(s, s.run.value, id);
      UpdatedBeforeStart(s.issues[id].updated, s.run.value.startedAt);
    }
  }

  // ----- the failing case

  /** The first page of a first run is read, the second request fails, and the run's watermark is still
      the newest issue's: the older issue is stranded. */
  lemma FailedPageLosesAnIssue(d: Driver) returns (run: seq<State>)
    ensures Execution(run, d) && |run| == 5
    ensures run[3].run.Some? && Stranded(run[3], run[3].run.value, run[4].watermark, 2) && !Safe(run[4])
  {
    hide Pages, Starts, Commits, FailsPage, Step, Safe;
    var issues: map<Id, Issue> := map[1 := Issue(3000, 0), 2 := Issue(1000, 0)];
    var s0 := State(5000, issues, map[], None, None);
    var begun := Run(5000, None, None, Going, map[], None);
    var s1 := s0.(run := Some(begun));
    var paged := begun.(cursor := Some(Position(3, 1)), records := map[1 := 0], latest := Some(3));
    var s2 := s0.(run := Some(paged));
    var s3 := s0.(run := Some(paged.(paging := Failed)));
    var s4 := State(5000, issues, map[1 := 0], Some(Seconds(3)), None);
    run := [s0, s1, s2, s3, s4];
    StartIsStep(s0, s1, d);
    FirstPage(s1, s2, begun, paged, issues);
    PageIsStep(s1, s2, d, Position(3, 1), Some(3));
    FailureIsStep(s2, s3, d);
    CommitIsStep(s3, s4, d, paged);
    StaleIsUnsafe(s4, 2);
    ExecutionOfFive(s0, s1, s2, s3, s4, d);
  }

  lemma StaleIsUnsafe(s: State, id: Id)
    requires id in s.issues && Before(At(s, id).shown, s.watermark) && !Current(s, id)
    ensures !Safe(s)
  {
  }

  lemma ExecutionOfFive(s0: State, s1: State, s2: State, s3: State, s4: State, d: Driver)
    requires Fresh(s0) && Step(s0, s1, d) && Step(s1, s2, d) && Step(s2, s3, d) && Step(s3, s4, d)
    ensures Execution([s0, s1, s2, s3, s4], d)
  {
    hide Step;
  }

  lemma StartIsStep(s: State, t: State, d: Driver)
    requires s.run.None? && t == s.(run := Some(Run(s.now, s.watermark, None, Going, map[], None)))
    ensures Step(s, t, d)
  {
    assert Starts(s, t, false);
  }

  lemma PageIsStep(s: State, t: State, d: Driver, last: Position, newest: Option<nat>)
    requires Pages(s, t, last, newest)
    ensures Step(s, t, d)
  {
  }

  lemma FailureIsStep(s: State, t: State, d: Driver)
    requires s.run.Some? && s.run.value.paging.Going? && t == s.(run := Some(s.run.value.(paging := Failed)))
    ensures Step(s, t, d)
  {
    assert FailsPage(s, t);
  }

  lemma CommitIsStep(s: State, t: State, d: Driver, paged: Run)
    requires s.run == Some(paged.(paging := Failed)) && paged.latest == Some(3) && paged.startedAt == 5000
    requires s.watermark.None? && s.store == map[]
    requires t == s.(store := paged.records, watermark := Some(Seconds(3)), run := None)
    ensures Step(s, t, d)
  {
    assert s.store + paged.records == paged.records;
    assert Commits(s, t, d, None, false);
  }

  lemma FirstPage(s: State, t: State, begun: Run, paged: Run, issues: map<Id, Issue>)
    requires issues == map[1 := Issue(3000, 0), 2 := Issue(1000, 0)]
    requires s == State(5000, issues, map[], None, Some(begun)) && t == s.(run := Some(paged))
    requires begun == Run(5000, None, None, Going, map[], None)
    requires paged == begun.(cursor := Some(Position(3, 1)), records := map[1 := 0], latest := Some(3))
    ensures Pages(s, t, Position(3, 1), Some(3))
  {
    var last := Position(3, 1);
    assert At(s, 1) == last && At(s, 2) == Position(1, 2);
    assert OnPage(s, 1, None, last) && !OnPage(s, 2, None, last);
    var kept := map id | id in s.issues && OnPage(s, id, None, last) && !Before(At(s, id).shown, None) :: s.issues[id].version;
    assert kept.Keys == {1} && kept[1] == 0;
    assert kept == map[1 := 0];
    var both := begun.records + kept;
    assert both.Keys == {1} && both[1] == 0;
    assert both == paged.records;
    assert NewestOf(s, kept.Keys, Some(3));
  }
}
