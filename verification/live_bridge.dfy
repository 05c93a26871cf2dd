/** The Telegram bridge's stream loop, whose cursor moves only together with the cursor file. */
module TelegramBridge {
  // One connection's worth of its work is a legal run of the delivery protocol.
  import opened Options
  import opened LiveLog
  import opened LiveReceiver
  import opened LiveDelivery
  import CursorFile

  /** How sending one message ended: accepted, dropped as a poison 4xx, or thrown (auth, exhausted
      retries, abort). */
  datatype SendResult = Accepted | Poison | Thrown

  /** The bridge's view of a protocol state while it streams. */
  ghost predicate Mirrors(t: State, start: nat, cursor: nat, file: Option<nat>, unread: seq<Frame>) {
    t.phase == Streaming(start, cursor) && t.disk == file && t.conn.frames == unread
  }

  /** What a connection's frames come to: the cursor, the events acknowledged and those dropped, and
      whether a send threw. */
  datatype Outcome = Outcome(cursor: nat, sent: seq<nat>, dropped: set<nat>, threw: bool)

  /** After the first `n` frames. */
  ghost function OutcomeOf(start: nat, frames: seq<Frame>, results: nat -> SendResult, writes: nat -> CursorFile.WriteEnd, n: nat): Outcome
    requires n <= |frames|
  {
    if n == 0 then Outcome(start, [], {}, false)
    else
      var before := OutcomeOf(start, frames, results, writes, n - 1);
      match frames[n - 1]
      case Reset(maxSeq) => if before.threw || !writes(n - 1).Renamed? then before else before.(cursor := maxSeq)
      case Live(event) =>
        if before.threw || event <= before.cursor then before
        else
          match results(n - 1)
          case Thrown => before.(threw := true)
          case Accepted => Persisted(before.(sent := before.sent + [event]), event, writes(n - 1).Renamed?)
          case Poison => Persisted(before.(dropped := before.dropped + {event}), event, writes(n - 1).Renamed?)
  }

  ghost function Persisted(o: Outcome, event: nat, durable: bool): Outcome { if durable then o.(cursor := event) else o }

  ghost predicate IsLive(frames: seq<Frame>, i: nat, event: nat) { i < |frames| && frames[i] == Live(event) }

  /** An event is acknowledged only if Telegram accepted it, and dropped only as poison; and on a connection
      without resets whose cursor writes all succeed, every event frame newer than all before it is one or
      the other, unless a send threw. */
  lemma {:induction false} OutcomeIsFair(start: nat, frames: seq<Frame>, results: nat -> SendResult, writes: nat -> CursorFile.WriteEnd, n: nat)
    requires n <= |frames|
    ensures var o := OutcomeOf(start, frames, results, writes, n);
            && (forall e :: e in o.sent ==> exists i: nat :: i < n && IsLive(frames, i, e) && results(i) == Accepted)
            && (forall e :: e in o.dropped ==> exists i: nat :: i < n && IsLive(frames, i, e) && results(i) == Poison)
            && (o.threw ==> exists i: nat :: i < n && frames[i].Live? && results(i) == Thrown)
  {
    if n > 0 {
      OutcomeIsFair(start, frames, results, writes, n - 1);
      if frames[n - 1].Live? {
        assert IsLive(frames, n - 1, frames[n - 1].id);
      }
    }
  }

  /** On a connection without resets whose cursor writes all succeed, every event frame up to the first
      send that throws is dealt with once it is newer than the start: nothing is skipped but duplicates. */
  lemma {:induction false} OutcomeIsComplete(start: nat, frames: seq<Frame>, results: nat -> SendResult, writes: nat -> CursorFile.WriteEnd, n: nat)
    requires n <= |frames| && forall i :: 0 <= i < n ==> frames[i].Live? && writes(i).Renamed?
    requires forall i, j :: 0 <= i < j < n ==> frames[i].id < frames[j].id
    requires forall i :: 0 <= i < n ==> results(i) != Thrown
    ensures var o := OutcomeOf(start, frames, results, writes, n);
            && !o.threw && o.cursor == (if n > 0 && frames[n - 1].id > start then frames[n - 1].id else start)
            && forall i :: 0 <= i < n && frames[i].id > start ==>
                 (results(i) == Accepted ==> frames[i].id in o.sent) && (results(i) == Poison ==> frames[i].id in o.dropped)
  {
    hide OutcomeOf;
    if n == 0 {
      NothingRead(start, frames, results, writes);
    } else {
      OutcomeIsComplete(start, frames, results, writes, n - 1);
      LiveIsRead(start, frames, results, writes, n);
    }
  }

  lemma NothingRead(start: nat, frames: seq<Frame>, results: nat -> SendResult, writes: nat -> CursorFile.WriteEnd)
    ensures OutcomeOf(start, frames, results, writes, 0) == Outcome(start, [], {}, false)
  {
  }

  lemma LiveIsRead(start: nat, frames: seq<Frame>, results: nat -> SendResult, writes: nat -> CursorFile.WriteEnd, n: nat)
    requires 0 < n <= |frames| && frames[n - 1].Live? && writes(n - 1).Renamed? && results(n - 1) != Thrown
    ensures var before, o, e := OutcomeOf(start, frames, results, writes, n - 1), OutcomeOf(start, frames, results, writes, n), frames[n - 1].id;
            if before.threw || e <= before.cursor then o == before
            else if results(n - 1) == Accepted then o == before.(sent := before.sent + [e], cursor := e)
            else o == before.(dropped := before.dropped + {e}, cursor := e)
  {
  }

  class Bridge {
    var files: CursorFile.Files

    constructor (files: CursorFile.Files)
      ensures this.files == files
    {
      this.files := files;
    }

    /** The cursor a restart would read. */
    function Cursor(): Option<nat>
      reads this
    {
      CursorFile.CursorOf(files.cursor)
    }

    /** Persist the cursor; the file reads as before when the write fails. */
    method WriteCursor(cursor: nat, end: CursorFile.WriteEnd) returns (durable: bool)
      modifies this
      ensures durable <==> end.Renamed?
      ensures Cursor() == if durable then Some(cursor) else old(Cursor())
      ensures CursorFile.CrashPoint(old(files), cursor, files)
    {
      files, durable := CursorFile.WriteCursor(files, cursor, end);
    }

    /** Adopt a reset's number, in either direction, once it is durable. */
    method TakeReset(cfg: Config, ghost start: nat, cursor: nat, maxSeq: nat, end: CursorFile.WriteEnd, ghost rest: seq<Frame>,
                     ghost states: seq<State>, ghost run: seq<Action>)
      returns (now: nat, ghost longer: seq<State>, ghost more: seq<Action>)
      requires Execution(cfg, states, run) && Mirrors(states[|run|], start, cursor, Cursor(), [Reset(maxSeq)] + rest)
      modifies this
      ensures Execution(cfg, longer, more) && longer[0] == states[0]
      ensures Mirrors(longer[|more|], start, now, Cursor(), rest)
      ensures now == if end.Renamed? then maxSeq else cursor
      ensures longer[|more|].ledger.sent == states[|run|].ledger.sent && longer[|more|].ledger.dropped == states[|run|].ledger.dropped
    {
      assert ([Reset(maxSeq)] + rest)[1..] == rest;
      longer, more := Take(cfg, states, run, ReadReset(end.Renamed?));
      now := cursor;
      if maxSeq != cursor {
        var durable := WriteCursor(maxSeq, end);
        if durable {
          now := maxSeq;
        }
      }
    }

    /** Send an event newer than the cursor, then persist its number; a duplicate is skipped. A send that
        throws ends the connection. */
    method TakeLive(cfg: Config, ghost start: nat, cursor: nat, event: nat, result: SendResult, end: CursorFile.WriteEnd,
                    ghost rest: seq<Frame>, ghost states: seq<State>, ghost run: seq<Action>)
      returns (now: nat, threw: bool, ghost longer: seq<State>, ghost more: seq<Action>)
      requires Execution(cfg, states, run) && Mirrors(states[|run|], start, cursor, Cursor(), [Live(event)] + rest)
      modifies this
      ensures Execution(cfg, longer, more) && longer[0] == states[0]
      ensures !threw ==> Mirrors(longer[|more|], start, now, Cursor(), rest)
      ensures threw ==> longer[|more|].phase.Idle? && longer[|more|].disk == Cursor()
      ensures threw && Cursor().Some? ==> longer[|more|].phase.cursor == Cursor().value
      ensures threw <==> event > cursor && result == Thrown
      ensures now == if event > cursor && !threw && end.Renamed? then event else cursor
      ensures longer[|more|].ledger.sent ==
              states[|run|].ledger.sent + if event > cursor && result == Accepted then [event] else []
      ensures longer[|more|].ledger.dropped ==
              states[|run|].ledger.dropped + if event > cursor && result == Poison then {event} else {}
    {
      assert ([Live(event)] + rest)[1..] == rest;
      now, threw := cursor, false;
      longer, more := Take(cfg, states, run, ReadLive);
      if event <= cursor {
        return;
      }
      if result == Thrown {
        longer, more := Take(cfg, longer, more, SendFail(true));
        threw := true;
        return;
      }
      longer, more := Take(cfg, longer, more, SendDone(result == Poison));
      longer, more := Take(cfg, longer, more, Persist(end.Renamed?));
      var durable := WriteCursor(event, end);
      if durable {
        now := event;
      }
    }

    /** Read every frame written to one connection. `results` and `writes` say how the send and the
        cursor write for the frame at each position end. The work is an execution of the delivery
        protocol that ends with this cursor and this cursor file, or idle when a send threw. */
    method StreamOnce(cfg: Config, start: nat, frames: seq<Frame>, results: nat -> SendResult, writes: nat -> CursorFile.WriteEnd,
                      ghost s: State)
      returns (cursor: nat, threw: bool, ghost states: seq<State>, ghost run: seq<Action>)
      requires Mirrors(s, start, start, Cursor(), frames)
      modifies this
      ensures Execution(cfg, states, run) && states[0] == s
      ensures !threw ==> Mirrors(states[|run|], start, cursor, Cursor(), [])
      ensures threw ==> states[|run|].phase.Idle? && states[|run|].disk == Cursor()
      ensures threw && Cursor().Some? ==> states[|run|].phase.cursor == Cursor().value
      ensures var o := OutcomeOf(start, frames, results, writes, |frames|);
              && threw == o.threw && cursor == o.cursor
              && states[|run|].ledger.sent == s.ledger.sent + o.sent && states[|run|].ledger.dropped == s.ledger.dropped + o.dropped
    {
      cursor, threw, run, states := start, false, [], [s];
      var i := 0;
      while i < |frames|
        invariant 0 <= i <= |frames| && !threw
        invariant Execution(cfg, states, run) && states[0] == s
        invariant Mirrors(states[|run|], start, cursor, Cursor(), frames[i..])
        invariant Agrees(OutcomeOf(start, frames, results, writes, i), cursor, threw, s.ledger, states[|run|].ledger)
      {
        assert frames[i..] == [frames[i]] + frames[i + 1..];
        match frames[i] {
          case Reset(maxSeq) =>
            cursor, states, run := TakeReset(cfg, start, cursor, maxSeq, writes(i), frames[i + 1..], states, run);
          case Live(event) =>
            cursor, threw, states, run := TakeLive(cfg, start, cursor, event, results(i), writes(i), frames[i + 1..], states, run);
            if threw {
              ThrownStays(start, frames, results, writes, i + 1, |frames|);
              return;
            }
        }
        i := i + 1;
      }
    }
  }

  ghost predicate Agrees(o: Outcome, cursor: nat, threw: bool, before: Ledger, after: Ledger) {
    && threw == o.threw && cursor == o.cursor
    && after.sent == before.sent + o.sent && after.dropped == before.dropped + o.dropped
  }

  lemma {:induction false} ThrownStays(start: nat, frames: seq<Frame>, results: nat -> SendResult, writes: nat -> CursorFile.WriteEnd,
                                       n: nat, m: nat)
    requires n <= m <= |frames| && OutcomeOf(start, frames, results, writes, n).threw
    ensures OutcomeOf(start, frames, results, writes, m) == OutcomeOf(start, frames, results, writes, n)
  {
    if n < m {
      ThrownStays(start, frames, results, writes, n, m - 1);
    }
  }

  /** Record one more action of the execution. */
  lemma Take(cfg: Config, states: seq<State>, run: seq<Action>, a: Action)
    returns (longer: seq<State>, more: seq<Action>)
    requires Execution(cfg, states, run) && Enabled(states[|run|], a)
    ensures Execution(cfg, longer, more) && |more| == |run| + 1 && longer[0] == states[0]
    ensures longer[|more|] == Apply(cfg, states[|run|], a)
  {
    longer, more := states + [Apply(cfg, states[|run|], a)], run + [a];
  }
}
