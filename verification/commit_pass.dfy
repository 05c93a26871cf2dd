/** One pass over a batch of commits, under every interleaving of its workers. */
module CommitPass {
  // The workers share a counter, an answer list and a stop flag, and interleave at every provider request.
  import opened Options

  datatype FileState = Ok | MergeCommit | Unavailable

  /** A slot of the result array: not filled yet, filled without an answer, or answered. */
  datatype Slot = Unset | Null | Record(state: FileState)

  datatype Worker = Idle | Reading(index: nat) | Done

  /** How a provider request ends. `SourceWide` is about the token, `Failure` about the commit, the
      provider or the network. */
  datatype Answer = Files(merge: bool) | Unrenderable | Gone | SourceWide(message: string) | Failure(message: string)

  datatype Failed = Failed(index: nat, message: string)

  /** Per candidate: whether it is of an allowed project and has a full sha, so may be asked for. */
  datatype Pass = Pass(askable: seq<bool>)

  datatype State = State(next: nat, results: seq<Slot>, workers: seq<Worker>,
                         answered: nat, failed: seq<Failed>, stopped: Option<string>)

  /** How many commits may fail, with none answered, before the pass gives up. */
  const UNANSWERED_FAILURE_LIMIT: nat := 8

  /** Below one, or not a number, means sequential; no more workers than items. */
  function WorkerCount(requested: Option<int>, items: nat): (count: nat)
    ensures items == 0 ==> count == 0
    ensures items > 0 ==> 1 <= count <= items
  {
    var wanted := if requested.None? then 1 else requested.value;
    if items == 0 then 0 else if wanted < 1 then 1 else if wanted < items then wanted else items
  }

  function Begin(p: Pass, requested: Option<int>): State {
    State(0, seq(|p.askable|, _ => Unset), seq(WorkerCount(requested, |p.askable|), _ => Idle), 0, [], None)
  }

  // ----- the steps

  function Put(s: State, index: nat, slot: Slot): State
    requires index < |s.results|
  {
    s.(results := s.results[index := slot])
  }

  /** A free worker takes the next index and runs up to its request, or to the end of the item if it
      makes none. */
  function Claim(p: Pass, s: State, w: nat): State
    requires |s.results| == |p.askable| && w < |s.workers|
  {
    var i := s.next;
    var s := s.(next := s.next + 1);
    if i >= |p.askable| then s.(workers := s.workers[w := Done])
    else if !p.askable[i] then Put(s, i, Record(Unavailable))
    else if s.stopped.Some? then Put(s, i, Null)
    else s.(workers := s.workers[w := Reading(i)])
  }

  function OrElse(stopped: Option<string>, message: string): Option<string> {
    if stopped.Some? then stopped else Some(message)
  }

  /** A worker's request ends. */
  function Settle(s: State, w: nat, answer: Answer): State
    requires w < |s.workers| && s.workers[w].Reading? && s.workers[w].index < |s.results|
  {
    var i := s.workers[w].index;
    var s := s.(workers := s.workers[w := Idle]);
    match answer
    case Files(merge) => Put(s, i, Record(if merge then MergeCommit else Ok)).(answered := s.answered + 1)
    case Unrenderable => Put(s, i, Record(Unavailable))
    case Gone => Put(s, i, Record(Unavailable)).(answered := s.answered + 1)
    case SourceWide(message) => Put(s, i, Null).(stopped := OrElse(s.stopped, message))
    case Failure(message) =>
      var failed := s.failed + [Failed(i, message)];
      Put(s, i, Null).(failed := failed,
                       stopped := if s.answered == 0 && |failed| >= UNANSWERED_FAILURE_LIMIT then OrElse(s.stopped, message) else s.stopped)
  }

  ghost predicate Claims(p: Pass, s: State, t: State, w: nat) {
    |s.results| == |p.askable| && w < |s.workers| && s.workers[w].Idle? && t == Claim(p, s, w)
  }

  ghost predicate Settles(s: State, t: State, w: nat, answer: Answer) {
    w < |s.workers| && s.workers[w].Reading? && s.workers[w].index < |s.results| && t == Settle(s, w, answer)
  }

  ghost predicate Step(p: Pass, s: State, t: State) {
    || (exists w: nat :: Claims(p, s, t, w))
    || (exists w: nat, answer :: Settles(s, t, w, answer))
  }

  ghost predicate Execution(p: Pass, requested: Option<int>, run: seq<State>) {
    && run != [] && run[0] == Begin(p, requested)
    && forall i :: 0 <= i < |run| - 1 ==> Step(p, run[i], run[i + 1])
  }

  ghost predicate Finished(s: State) { forall w :: 0 <= w < |s.workers| ==> s.workers[w].Done? }

  // ----- the invariant

  ghost predicate IsReading(s: State, index: nat) {
    exists w :: 0 <= w < |s.workers| && s.workers[w] == Reading(index)
  }

  ghost predicate IsFailed(failed: seq<Failed>, index: nat) {
    exists k :: 0 <= k < |failed| && failed[k].index == index
  }

  /** Filled exactly when claimed and no longer being read. */
  ghost predicate SlotsFollowClaims(p: Pass, s: State) {
    && |s.results| == |p.askable|
    && forall i: nat {:trigger s.results[i]} :: i < |s.results| ==> (s.results[i] == Unset <==> i >= s.next || IsReading(s, i))
  }

  ghost predicate ReadersAreApart(s: State) {
    && (forall w :: 0 <= w < |s.workers| && s.workers[w].Reading? ==> s.workers[w].index < |s.results| && s.workers[w].index < s.next)
    && (forall v, w :: 0 <= v < w < |s.workers| && s.workers[v].Reading? && s.workers[w].Reading? ==> s.workers[v].index != s.workers[w].index)
    && forall w :: 0 <= w < |s.workers| && s.workers[w].Done? ==> s.next >= |s.results|
  }

  ghost predicate FailuresAreNull(s: State) {
    && (forall k :: 0 <= k < |s.failed| ==> s.failed[k].index < |s.results| && s.results[s.failed[k].index] == Null)
    && forall j, k :: 0 <= j < k < |s.failed| ==> s.failed[j].index != s.failed[k].index
  }

  /** While the pass has not stopped, only set-aside commits lack an answer, and unless one was answered
      there are few of those. */
  ghost predicate UnstoppedIsAccounted(s: State) {
    s.stopped.None? ==>
      && (forall i: nat {:trigger s.results[i]} :: i < |s.results| && s.results[i] == Null ==> IsFailed(s.failed, i))
      && (s.answered > 0 || |s.failed| < UNANSWERED_FAILURE_LIMIT)
  }

  ghost predicate Inv(p: Pass, s: State) {
    SlotsFollowClaims(p, s) && ReadersAreApart(s) && FailuresAreNull(s) && UnstoppedIsAccounted(s)
  }

  lemma BeginInv(p: Pass, requested: Option<int>)
    ensures Inv(p, Begin(p, requested))
  {
  }

  lemma ClaimKeepsInv(p: Pass, s: State, t: State, w: nat)
    requires Inv(p, s) && Claims(p, s, t, w)
    ensures Inv(p, t)
  {
    ClaimMovesReaders(p, s, t, w);
  }

  lemma ClaimMovesReaders(p: Pass, s: State, t: State, w: nat)
    requires ReadersAreApart(s) && Claims(p, s, t, w)
    ensures forall i: nat :: IsReading(t, i) <==> IsReading(s, i) || t.workers[w] == Reading(i)
    ensures ReadersAreApart(t)
  {
    hide ReadersAreApart;
    if t.workers == s.workers {
      LaterClaim(s, t);
    } else {
      WorkerMoves(s, t, w);
    }
  }

  lemma LaterClaim(s: State, t: State)
    requires ReadersAreApart(s) && t.workers == s.workers && t.next >= s.next && |t.results| == |s.results|
    ensures ReadersAreApart(t)
  {
  }

  lemma WorkerMoves(s: State, t: State, w: nat)
    requires ReadersAreApart(s) && w < |s.workers| == |t.workers| && !s.workers[w].Reading?
    requires t.workers == s.workers[w := t.workers[w]] && t.next >= s.next && |t.results| == |s.results|
    requires t.workers[w].Reading? ==> s.next <= t.workers[w].index < t.next && t.workers[w].index < |s.results|
    requires t.workers[w].Done? ==> t.next >= |s.results|
    ensures forall i: nat :: IsReading(t, i) <==> IsReading(s, i) || t.workers[w] == Reading(i)
    ensures ReadersAreApart(t)
  {
    forall i: nat | IsReading(s, i)
      ensures IsReading(t, i)
    {
      var v :| 0 <= v < |s.workers| && s.workers[v] == Reading(i);
      assert t.workers[v] == Reading(i);
    }
  }

  lemma SettleMovesReaders(s: State, t: State, w: nat, answer: Answer)
    requires ReadersAreApart(s) && Settles(s, t, w, answer)
    ensures forall i: nat :: IsReading(t, i) <==> IsReading(s, i) && i != s.workers[w].index
    ensures ReadersAreApart(t)
  {
    assert forall v :: 0 <= v < |t.workers| && v != w ==> t.workers[v] == s.workers[v];
    forall i: nat | IsReading(s, i) && i != s.workers[w].index
      ensures IsReading(t, i)
    {
      var v :| 0 <= v < |s.workers| && s.workers[v] == Reading(i);
      assert t.workers[v] == Reading(i);
    }
  }

  lemma SettleKeepsSlots(p: Pass, s: State, t: State, w: nat, answer: Answer)
    requires Inv(p, s) && Settles(s, t, w, answer)
    ensures SlotsFollowClaims(p, t) && ReadersAreApart(t)
    ensures s.results[s.workers[w].index] == Unset
    ensures forall i :: 0 <= i < |s.results| && i != s.workers[w].index ==> t.results[i] == s.results[i]
  {
    SettleMovesReaders(s, t, w, answer);
    assert IsReading(s, s.workers[w].index);
  }

  lemma SettleKeepsInv(p: Pass, s: State, t: State, w: nat, answer: Answer)
    requires Inv(p, s) && Settles(s, t, w, answer)
    ensures Inv(p, t)
  {
    hide IsReading, SlotsFollowClaims, ReadersAreApart, FailuresAreNull, UnstoppedIsAccounted;
    SettleKeepsSlots(p, s, t, w, answer);
    SettleKeepsFailures(s, t, w, answer);
    SettleKeepsAccount(s, t, w, answer);
  }

  lemma SettleKeepsFailures(s: State, t: State, w: nat, answer: Answer)
    requires FailuresAreNull(s) && Settles(s, t, w, answer) && s.results[s.workers[w].index] == Unset
    ensures FailuresAreNull(t)
  {
  }

  lemma SettleKeepsAccount(s: State, t: State, w: nat, answer: Answer)
    requires UnstoppedIsAccounted(s) && Settles(s, t, w, answer)
    ensures UnstoppedIsAccounted(t)
  {
    var i := s.workers[w].index;
    forall j: nat | IsFailed(s.failed, j)
      ensures IsFailed(t.failed, j)
    {
      var k :| 0 <= k < |s.failed| && s.failed[k].index == j;
      assert t.failed[k].index == j;
    }
    if answer.Failure? {
      assert t.failed[|s.failed|].index == i;
      assert IsFailed(t.failed, i);
    }
  }

  lemma StepKeepsInv(p: Pass, s: State, t: State)
    requires Inv(p, s) && Step(p, s, t)
    ensures Inv(p, t)
  {
    if w: nat :| Claims(p, s, t, w) {
      ClaimKeepsInv(p, s, t, w);
    } else {
      var w: nat, answer :| Settles(s, t, w, answer);
      SettleKeepsInv(p, s, t, w, answer);
    }
  }

  /** Whatever the interleaving, the invariant holds in every state of every execution. */
  lemma {:induction false} ExecutionKeepsInv(p: Pass, requested: Option<int>, run: seq<State>, k: nat)
    requires Execution(p, requested, run) && k < |run|
    ensures Inv(p, run[k])
  {
    if k == 0 {
      BeginInv(p, requested);
    } else {
      ExecutionKeepsInv(p, requested, run, k - 1);
      assert Step(p, run[k - 1], run[k - 1 + 1]);
      StepKeepsInv(p, run[k - 1], run[k]);
    }
  }

  /** Each candidate is claimed once: a slot once filled is never written again, and nobody else is
      reading the candidate a worker reads. */
  lemma SlotsAreWrittenOnce(p: Pass, s: State, t: State, i: nat)
    requires Inv(p, s) && Step(p, s, t) && i < |s.results| && s.results[i] != Unset
    ensures i < |t.results| && t.results[i] == s.results[i]
  {
    if w: nat :| Claims(p, s, t, w) {
    } else {
      var w: nat, answer :| Settles(s, t, w, answer);
      SettleKeepsSlots(p, s, t, w, answer);
    }
  }

  // ----- every execution ends

  ghost function Busy(workers: seq<Worker>): nat {
    if workers == [] then 0
    else Busy(workers[..|workers| - 1]) + match workers[|workers| - 1] case Idle => 1 case Reading(_) => 2 case Done => 0
  }

  /** Candidates not yet claimed weigh more than anything a worker does with one. */
  ghost function Remaining(p: Pass, s: State): nat {
    2 * (if s.next < |p.askable| then |p.askable| - s.next else 0) + Busy(s.workers)
  }

  lemma {:induction false} BusyUpdate(workers: seq<Worker>, w: nat, to: Worker)
    requires w < |workers|
    ensures Busy(workers[w := to]) == Busy(workers)
            - (match workers[w] case Idle => 1 case Reading(_) => 2 case Done => 0)
            + (match to case Idle => 1 case Reading(_) => 2 case Done => 0)
  {
    var front := workers[..|workers| - 1];
    if w == |workers| - 1 {
      assert workers[w := to][..|workers| - 1] == front;
    } else {
      BusyUpdate(front, w, to);
      assert workers[w := to][..|workers| - 1] == front[w := to];
    }
  }

  lemma StepsAreBounded(p: Pass, s: State, t: State)
    requires Inv(p, s) && Step(p, s, t)
    ensures Remaining(p, t) < Remaining(p, s)
  {
    hide Inv, SlotsFollowClaims, ReadersAreApart, FailuresAreNull, UnstoppedIsAccounted;
    if w: nat :| Claims(p, s, t, w) {
      BusyUpdate(s.workers, w, t.workers[w]);
    } else {
      var w: nat, answer :| Settles(s, t, w, answer);
      BusyUpdate(s.workers, w, Idle);
    }
  }

  /** An execution takes at most this many steps, and can always go on until every worker is done. */
  lemma {:induction false} ExecutionsAreBounded(p: Pass, requested: Option<int>, run: seq<State>, k: nat)
    requires Execution(p, requested, run) && k < |run|
    ensures k + Remaining(p, run[k]) <= Remaining(p, run[0])
  {
    if k > 0 {
      ExecutionsAreBounded(p, requested, run, k - 1);
      ExecutionKeepsInv(p, requested, run, k - 1);
      assert Step(p, run[k - 1], run[k - 1 + 1]);
      StepsAreBounded(p, run[k - 1], run[k]);
    }
  }

  lemma NobodyIsStuck(p: Pass, s: State)
    requires Inv(p, s) && !Finished(s)
    ensures exists t :: Step(p, s, t)
  {
    var w :| 0 <= w < |s.workers| && !s.workers[w].Done?;
    if s.workers[w].Idle? {
      assert Claims(p, s, Claim(p, s, w), w);
      assert Step(p, s, Claim(p, s, w));
    } else {
      assert Settles(s, Settle(s, w, Gone), w, Gone);
      assert Step(p, s, Settle(s, w, Gone));
    }
  }

  // ----- the result

  /** A record of candidate `index`. */
  datatype Answered = Answered(index: nat, state: FileState)

  datatype Result = Result(records: seq<Answered>, stopped: Option<string>)

  /** Candidate `index` gets a record: it was answered, or it failed while another was answered. */
  ghost predicate IsRecorded(s: State, index: nat, state: FileState) {
    index < |s.results| && (s.results[index] == Record(state) || (s.answered > 0 && IsFailed(s.failed, index) && state == Unavailable))
  }

  /** Exactly the recorded candidates, each once. */
  ghost predicate RecordsAre(s: State, records: seq<Answered>) {
    && (forall k :: 0 <= k < |records| ==> IsRecorded(s, records[k].index, records[k].state))
    && (forall j, k :: 0 <= j < k < |records| ==> records[j].index != records[k].index)
    && forall i: nat, state :: IsRecorded(s, i, state) ==> Answered(i, state) in records
  }

  ghost predicate StopIs(s: State, stopped: Option<string>) {
    stopped == if s.stopped.Some? || s.answered > 0 || s.failed == [] then s.stopped else Some(s.failed[0].message)
  }

  /** The end of the pass: the non-null results in input order, then the commits set aside, which count
      as unavailable only if the provider answered some other commit. */
  method Collect(p: Pass, s: State) returns (result: Result)
    requires Inv(p, s)
    ensures RecordsAre(s, result.records) && StopIs(s, result.stopped)
  {
    hide SlotsFollowClaims, ReadersAreApart, UnstoppedIsAccounted;
    var records: seq<Answered> := [];
    for i := 0 to |s.results|
      invariant forall k :: 0 <= k < |records| ==> records[k].index < i && s.results[records[k].index] == Record(records[k].state)
      invariant forall j, k :: 0 <= j < k < |records| ==> records[j].index != records[k].index
      invariant forall j, state :: 0 <= j < i && s.results[j] == Record(state) ==> Answered(j, state) in records
    {
      if s.results[i].Record? {
        records := records + [Answered(i, s.results[i].state)];
      }
    }
    var stopped := s.stopped;
    if s.answered > 0 {
      records := AddFailed(p, s, records);
    } else if stopped.None? && s.failed != [] {
      stopped := Some(s.failed[0].message);
    }
    result := Result(records, stopped);
  }

  method AddFailed(p: Pass, s: State, answered: seq<Answered>) returns (records: seq<Answered>)
    requires Inv(p, s) && s.answered > 0
    requires forall k :: 0 <= k < |answered| ==> answered[k].index < |s.results| && s.results[answered[k].index] == Record(answered[k].state)
    requires forall j, k :: 0 <= j < k < |answered| ==> answered[j].index != answered[k].index
    requires forall j, state :: 0 <= j < |s.results| && s.results[j] == Record(state) ==> Answered(j, state) in answered
    ensures RecordsAre(s, records)
  {
    hide SlotsFollowClaims, ReadersAreApart, UnstoppedIsAccounted;
    records := answered;
    for i := 0 to |s.failed|
      invariant |records| == |answered| + i && records[..|answered|] == answered
      invariant forall k :: 0 <= k < i ==> records[|answered| + k] == Answered(s.failed[k].index, Unavailable)
    {
      records := records + [Answered(s.failed[i].index, Unavailable)];
    }
    FailedAdded(s, answered, records);
  }

  lemma FailedAdded(s: State, answered: seq<Answered>, records: seq<Answered>)
    requires FailuresAreNull(s) && s.answered > 0
    requires forall k :: 0 <= k < |answered| ==> answered[k].index < |s.results| && s.results[answered[k].index] == Record(answered[k].state)
    requires forall j, k :: 0 <= j < k < |answered| ==> answered[j].index != answered[k].index
    requires forall j, state :: 0 <= j < |s.results| && s.results[j] == Record(state) ==> Answered(j, state) in answered
    requires |records| == |answered| + |s.failed| && records[..|answered|] == answered
    requires forall k :: 0 <= k < |s.failed| ==> records[|answered| + k] == Answered(s.failed[k].index, Unavailable)
    ensures RecordsAre(s, records)
  {
    assert forall k :: 0 <= k < |answered| ==> records[k] == answered[k];
    forall k | 0 <= k < |records|
      ensures IsRecorded(s, records[k].index, records[k].state)
    {
      if k >= |answered| {
        assert records[|answered| + (k - |answered|)] == Answered(s.failed[k - |answered|].index, Unavailable);
        assert IsFailed(s.failed, records[k].index);
      }
    }
    forall j, k | 0 <= j < k < |records|
      ensures records[j].index != records[k].index
    {
      if k >= |answered| {
        assert records[|answered| + (k - |answered|)] == Answered(s.failed[k - |answered|].index, Unavailable);
        if j >= |answered| {
          assert records[|answered| + (j - |answered|)] == Answered(s.failed[j - |answered|].index, Unavailable);
        }
      }
    }
    forall i: nat, state | IsRecorded(s, i, state)
      ensures Answered(i, state) in records
    {
      if s.results[i] == Record(state) {
        assert Answered(i, state) in records[..|answered|];
      } else {
        var k :| 0 <= k < |s.failed| && s.failed[k].index == i;
        assert records[|answered| + k] == Answered(i, state);
      }
    }
  }

  ghost predicate HasRecord(s: State, index: nat) { exists state :: IsRecorded(s, index, state) }

  /** A finished pass answers every candidate exactly when each empty slot belongs to a commit set aside
      and, if there are such commits, the provider answered some other one. */
  lemma AnswersAllExactlyWhen(p: Pass, s: State)
    requires Inv(p, s) && Finished(s) && s.next >= |s.results|
    ensures (forall i: nat {:trigger HasRecord(s, i)} :: i < |s.results| ==> HasRecord(s, i)) <==>
            && (forall i: nat {:trigger s.results[i]} :: i < |s.results| && s.results[i] == Null ==> IsFailed(s.failed, i))
            && (s.answered > 0 || s.failed == [])
  {
    forall i: nat | i < |s.results|
      ensures s.results[i] != Unset
      ensures HasRecord(s, i) <==> s.results[i] != Null || (s.answered > 0 && IsFailed(s.failed, i))
    {
      assert !IsReading(s, i);
      assert s.results[i] != Null ==> IsRecorded(s, i, s.results[i].state);
      assert s.answered > 0 && IsFailed(s.failed, i) ==> IsRecorded(s, i, Unavailable);
    }
    assert s.failed != [] ==> s.results[s.failed[0].index] == Null;
  }

  /** A pass that ends without stopping answers every candidate. */
  lemma UnstoppedAnswersAll(p: Pass, requested: Option<int>, run: seq<State>, result: Result, i: nat)
    requires Execution(p, requested, run) && Finished(run[|run| - 1])
    requires RecordsAre(run[|run| - 1], result.records) && StopIs(run[|run| - 1], result.stopped) && result.stopped.None?
    requires i < |p.askable|
    ensures exists state :: Answered(i, state) in result.records
  {
    var s := run[|run| - 1];
    ExecutionKeepsInv(p, requested, run, |run| - 1);
    WorkersStay(p, requested, run, |run| - 1);
    assert s.workers[0].Done?;
    AnswersAllExactlyWhen(p, s);
    assert HasRecord(s, i);
    var state :| IsRecorded(s, i, state);
    assert Answered(i, state) in result.records;
  }

  lemma {:induction false} WorkersStay(p: Pass, requested: Option<int>, run: seq<State>, k: nat)
    requires Execution(p, requested, run) && k < |run|
    ensures |run[k].workers| == WorkerCount(requested, |p.askable|)
  {
    if k > 0 {
      WorkersStay(p, requested, run, k - 1);
      assert Step(p, run[k - 1], run[k - 1 + 1]);
    }
  }

  // ----- what the provider's answers become

  /** The step ends the request for candidate `index` with this answer. */
  ghost predicate Ends(s: State, t: State, index: nat, answer: Answer) {
    exists w: nat :: Settles(s, t, w, answer) && s.workers[w] == Reading(index)
  }

  ghost predicate EndedBefore(run: seq<State>, k: nat, index: nat, answer: Answer) {
    exists j :: 0 <= j < k && j + 1 < |run| && Ends(run[j], run[j + 1], index, answer)
  }

  /** The answer a record's state stands for. */
  ghost predicate Explained(p: Pass, run: seq<State>, k: nat, index: nat, slot: Slot)
    requires index < |p.askable|
  {
    match slot
    case Unset => true
    case Null =>
      || (exists message :: EndedBefore(run, k, index, SourceWide(message)))
      || (exists message :: EndedBefore(run, k, index, Failure(message)))
      || (exists j :: 0 <= j < k && j < |run| && run[j].stopped.Some? && p.askable[index])
    case Record(Ok) => EndedBefore(run, k, index, Files(false))
    case Record(MergeCommit) => EndedBefore(run, k, index, Files(true))
    case Record(Unavailable) => !p.askable[index] || EndedBefore(run, k, index, Gone) || EndedBefore(run, k, index, Unrenderable)
  }

  lemma StaysExplained(p: Pass, run: seq<State>, k: nat, index: nat, slot: Slot)
    requires index < |p.askable| && Explained(p, run, k, index, slot)
    ensures Explained(p, run, k + 1, index, slot)
  {
    forall answer | EndedBefore(run, k, index, answer)
      ensures EndedBefore(run, k + 1, index, answer)
    {
    }
  }

  lemma EndExplains(p: Pass, run: seq<State>, k: nat, w: nat, answer: Answer)
    requires k + 1 < |run| && Settles(run[k], run[k + 1], w, answer) && run[k].workers[w].index < |p.askable| == |run[k + 1].results|
    ensures Explained(p, run, k + 1, run[k].workers[w].index, run[k + 1].results[run[k].workers[w].index])
  {
    var index := run[k].workers[w].index;
    assert Ends(run[k], run[k + 1], index, answer);
    assert EndedBefore(run, k + 1, index, answer);
  }

  lemma ClaimExplains(p: Pass, run: seq<State>, k: nat, w: nat, index: nat)
    requires k + 1 < |run| && Claims(p, run[k], run[k + 1], w) && index < |p.askable| && run[k + 1].results[index] != run[k].results[index]
    ensures Explained(p, run, k + 1, index, run[k + 1].results[index])
  {
    assert run[k + 1].results[index] == Null ==> run[k].stopped.Some?;
  }

  /** Every slot, in every state of every execution, holds what the provider answered for its candidate: a
      file list, a merge, or unavailable for a commit that is gone or cannot be rendered or may not be asked
      for; and nothing for a failed request or one not made because the pass had stopped. */
  lemma {:induction false} SlotsHoldAnswers(p: Pass, requested: Option<int>, run: seq<State>, k: nat, index: nat)
    requires Execution(p, requested, run) && k < |run| && index < |p.askable|
    ensures index < |run[k].results| && Explained(p, run, k, index, run[k].results[index])
  {
    hide Inv, Explained, Claims, Settles;
    ResultsStay(p, requested, run, k);
    if k == 0 {
      UnsetIsExplained(p, run, index);
    } else {
      SlotsHoldAnswers(p, requested, run, k - 1, index);
      ResultsStay(p, requested, run, k - 1);
      var s, t := run[k - 1], run[k];
      assert Step(p, s, run[k - 1 + 1]);
      if t.results[index] == s.results[index] {
        StaysExplained(p, run, k - 1, index, s.results[index]);
      } else if w: nat :| Claims(p, s, t, w) {
        ClaimExplains(p, run, k - 1, w, index);
      } else {
        var w: nat, answer :| Settles(s, t, w, answer);
        OnlyOwnSlot(s, t, w, answer, index);
        EndExplains(p, run, k - 1, w, answer);
      }
    }
  }

  lemma UnsetIsExplained(p: Pass, run: seq<State>, index: nat)
    requires index < |p.askable|
    ensures Explained(p, run, 0, index, Unset)
  {
  }

  lemma OnlyOwnSlot(s: State, t: State, w: nat, answer: Answer, index: nat)
    requires Settles(s, t, w, answer) && index < |s.results| == |t.results| && t.results[index] != s.results[index]
    ensures s.workers[w].index == index
  {
  }

  lemma {:induction false} ResultsStay(p: Pass, requested: Option<int>, run: seq<State>, k: nat)
    requires Execution(p, requested, run) && k < |run|
    ensures |run[k].results| == |p.askable|
  {
    if k > 0 {
      ResultsStay(p, requested, run, k - 1);
      assert Step(p, run[k - 1], run[k - 1 + 1]);
    }
  }

  /** And an answer with a file list always becomes a record. */
  lemma AnswersBecomeRecords(s: State, t: State, index: nat, merge: bool)
    requires Ends(s, t, index, Files(merge))
    ensures index < |t.results| && t.results[index] == Record(if merge then MergeCommit else Ok)
  {
  }

  // ----- when a pass counts as answered, and when it stops

  ghost predicate IsAnswer(answer: Answer) { answer.Files? || answer.Gone? }

  ghost predicate AnsweredBefore(run: seq<State>, k: nat) {
    exists index: nat, answer :: IsAnswer(answer) && EndedBefore(run, k, index, answer)
  }

  lemma {:induction false} AnsweredExactlyWhen(p: Pass, requested: Option<int>, run: seq<State>, k: nat)
    requires Execution(p, requested, run) && k < |run|
    ensures run[k].answered > 0 <==> AnsweredBefore(run, k)
  {
    hide Ends, Claims, Settles;
    if k > 0 {
      AnsweredExactlyWhen(p, requested, run, k - 1);
      var s, t := run[k - 1], run[k];
      assert Step(p, s, run[k - 1 + 1]);
      AnsweredStep(p, s, t);
      if AnsweredBefore(run, k - 1) {
        var index: nat, answer :| IsAnswer(answer) && EndedBefore(run, k - 1, index, answer);
        assert EndedBefore(run, k, index, answer);
      }
      if t.answered > s.answered {
        var index: nat, answer :| IsAnswer(answer) && Ends(s, t, index, answer);
        assert Ends(run[k - 1], run[k - 1 + 1], index, answer);
        assert EndedBefore(run, k, index, answer);
      }
      if index: nat, answer :| IsAnswer(answer) && EndedBefore(run, k, index, answer) {
        var j :| 0 <= j < k && j + 1 < |run| && Ends(run[j], run[j + 1], index, answer);
        if j < k - 1 {
          assert EndedBefore(run, k - 1, index, answer);
        }
      }
    }
  }

  lemma AnsweredStep(p: Pass, s: State, t: State)
    requires Step(p, s, t)
    ensures t.answered >= s.answered
    ensures t.answered > s.answered <==> exists index: nat, answer :: IsAnswer(answer) && Ends(s, t, index, answer)
  {
    if w: nat, answer :| Settles(s, t, w, answer) {
      assert Ends(s, t, s.workers[w].index, answer);
    }
  }

  /** A pass stops only at a failure about the token, or at the eighth failure with nothing answered. */
  lemma StopsOnlyWhen(p: Pass, s: State, t: State)
    requires Step(p, s, t) && s.stopped.None? && t.stopped.Some?
    ensures || (exists index: nat :: Ends(s, t, index, SourceWide(t.stopped.value)))
            || (s.answered == 0 && |t.failed| >= 8 && exists index: nat :: Ends(s, t, index, Failure(t.stopped.value)))
  {
    var w: nat, answer :| Settles(s, t, w, answer);
    assert Ends(s, t, s.workers[w].index, answer);
  }

  /** Such a failure does stop it. */
  lemma StopsWhen(p: Pass, s: State, t: State)
    requires Step(p, s, t)
    ensures forall index: nat, message :: Ends(s, t, index, SourceWide(message)) ==> t.stopped.Some?
    ensures s.answered == 0 && |s.failed| >= 7 ==> forall index: nat, message :: Ends(s, t, index, Failure(message)) ==> t.stopped.Some?
  {
  }

  /** A stopped pass makes no further request and keeps its message. */
  lemma StoppedStaysQuiet(p: Pass, s: State, t: State)
    requires Step(p, s, t) && s.stopped.Some?
    ensures t.stopped == s.stopped && forall index: nat :: IsReading(t, index) ==> IsReading(s, index)
  {
    hide Claims, Settles;
    if w: nat :| Claims(p, s, t, w) {
      ClaimStaysQuiet(p, s, t, w);
    } else {
      var w: nat, answer :| Settles(s, t, w, answer);
      SettleStaysQuiet(s, t, w, answer);
    }
  }

  lemma ClaimStaysQuiet(p: Pass, s: State, t: State, w: nat)
    requires Claims(p, s, t, w) && s.stopped.Some?
    ensures t.stopped == s.stopped && forall index: nat :: IsReading(t, index) ==> IsReading(s, index)
  {
    assert forall v :: 0 <= v < |s.workers| && v != w ==> t.workers[v] == s.workers[v];
  }

  lemma SettleStaysQuiet(s: State, t: State, w: nat, answer: Answer)
    requires Settles(s, t, w, answer) && s.stopped.Some?
    ensures t.stopped == s.stopped && forall index: nat :: IsReading(t, index) ==> IsReading(s, index)
  {
    assert forall v :: 0 <= v < |s.workers| && v != w ==> t.workers[v] == s.workers[v];
  }

  // ----- requests in flight

  lemma {:induction false} ReadersFit(s: State, inFlight: set<nat>, n: nat)
    requires n <= |s.workers|
    requires forall index :: index in inFlight ==> exists w: nat :: w < n && s.workers[w] == Reading(index)
    ensures |inFlight| <= n
  {
    if n == 0 {
      assert forall index :: index !in inFlight;
    } else {
      var worker := s.workers[n - 1];
      var others := if worker.Reading? then inFlight - {worker.index} else inFlight;
      forall index | index in others
        ensures exists w: nat :: w < n - 1 && s.workers[w] == Reading(index)
      {
        var w: nat :| w < n && s.workers[w] == Reading(index);
        assert w != n - 1;
      }
      ReadersFit(s, others, n - 1);
      assert inFlight <= others + if worker.Reading? then {worker.index} else {};
    }
  }

  /** In no state of any run are more requests in flight than asked for: one at a time if that was less
      than one or not a number. */
  lemma InFlightIsBounded(p: Pass, requested: Option<int>, run: seq<State>, k: nat, inFlight: set<nat>)
    requires Execution(p, requested, run) && k < |run|
    requires forall index :: index in inFlight ==> IsReading(run[k], index)
    ensures |inFlight| <= if requested.Some? && requested.value >= 1 then requested.value else 1
  {
    hide Execution;
    WorkersStay(p, requested, run, k);
    ReadersFit(run[k], inFlight, |run[k].workers|);
  }

  /** And nobody idles for want of workers: there are as many as asked for, or as there are candidates. */
  lemma WorkersAreAsked(p: Pass, requested: Option<int>, run: seq<State>, k: nat)
    requires Execution(p, requested, run) && k < |run|
    ensures requested.Some? && 1 <= requested.value <= |p.askable| ==> |run[k].workers| == requested.value
    ensures requested.Some? && requested.value > |p.askable| ==> |run[k].workers| == |p.askable|
  {
    hide Execution;
    WorkersStay(p, requested, run, k);
  }
}
