/** The delivery protocol end to end: log, connection, and a bridge that may crash at any step. */
module LiveDelivery {
  // Each action is one synchronous stretch of the program, so every interleaving of the two processes is
  // a sequence of actions.
  import opened Options
  import opened LiveLog
  import opened LiveReceiver

  datatype Config = Config(replayLimit: nat, replayMaxBytes: nat)

  /** Where the bridge is. `start` is the cursor its current attempt connected with. */
  datatype Phase =
    | Down
    | Seeding(maxSeq: nat, headThen: nat)
    | Idle(cursor: nat)
    | Streaming(start: nat, cursor: nat)
    | Sending(start: nat, cursor: nat, event: nat)
    | Acked(start: nat, cursor: nat, event: nat)

  /** What became of the events: acknowledged by Telegram (in order), dropped as poison, given up by
      a reset frame the bridge read, or passed over with neither. */
  datatype Ledger = Ledger(sent: seq<nat>, dropped: set<nat>, givenUp: set<nat>, skipped: set<nat>)

  /** `conn` holds what is written to the bridge's response but not yet read. The last four fields
      are history: `pos` is the number the unread events follow, every event after `base` up to
      `done` has been dealt with, and `ledger` says how. */
  datatype State = State(
    rows: seq<Row>, head: nat,
    conn: Connection, phase: Phase, disk: Option<nat>,
    pos: nat, base: nat, done: nat, ledger: Ledger)

  /** `AppendUnsent` is a push whose handler throws after storing these rows, before it broadcasts any. */
  datatype Action =
    | Append(payload: seq<(DeliveryKey, int, nat)>, accepts: nat)
    | AppendUnsent(payload: seq<(DeliveryKey, int, nat)>)
    | Prune(count: nat)
    | Evict
    | Start(readable: bool)
    | SeedPersist(ok: bool)
    | Retry(readable: bool)
    | Accept(accepts: nat)
    | ReadReset(ok: bool)
    | ReadLive
    | SendDone(poison: bool)
    | SendFail(readable: bool)
    | Persist(ok: bool)
    | Disconnect(clean: bool, readable: bool)
    | Crash

  const CLOSED := Connection([], None)

  const INIT := State([], 0, CLOSED, Down, None, 0, 0, 0, Ledger([], {}, {}, {}))

  /** Number of the oldest retained row, or of the next one when the log is empty. */
  function Oldest(s: State): int { s.head + 1 - |s.rows| }

  predicate Connected(phase: Phase) { phase.Streaming? || phase.Sending? || phase.Acked? }

  predicate ResetPending(s: State) { s.conn.frames != [] && s.conn.frames[0].Reset? }

  function Between(lo: nat, hi: nat): (between: set<nat>)
    ensures forall e: nat :: e in between <==> lo < e <= hi
  {
    if hi <= lo then {} else Between(lo, hi - 1) + {hi}
  }

  function Numbered(payload: seq<(DeliveryKey, int, nat)>, first: nat): seq<Row> {
    seq(|payload|, i requires 0 <= i < |payload| => Row(first + i, payload[i].0, payload[i].1, payload[i].2))
  }

  predicate Enabled(s: State, a: Action) {
    match a
    case Append(_, _) => true
    case AppendUnsent(_) => true
    case Prune(count) => count <= |s.rows|
    case Evict => Connected(s.phase)
    case Start(_) => s.phase.Down?
    case SeedPersist(_) => s.phase.Seeding?
    case Retry(_) => s.phase.Idle?
    case Accept(_) => s.phase.Idle?
    case ReadReset(_) => s.phase.Streaming? && ResetPending(s)
    case ReadLive => s.phase.Streaming? && s.conn.frames != [] && s.conn.frames[0].Live?
    case SendDone(_) => s.phase.Sending?
    case SendFail(_) => s.phase.Sending?
    case Persist(_) => s.phase.Acked?
    case Disconnect(_, _) => s.phase.Streaming?
    case Crash => true
  }

  /** The cursor the bridge resumes with: the file's, or the fallback when the file cannot be read. */
  function Reload(s: State, readable: bool, fallback: nat): nat {
    if readable && s.disk.Some? then s.disk.value else fallback
  }

  /** What the unread events of a new connection follow. */
  function PosAfter(decision: Decision, cursor: nat, head: nat): nat {
    if decision.Reseed? || decision.backlog == [] then head else cursor
  }

  function Apply(cfg: Config, s: State, a: Action): State
    requires Enabled(s, a)
  {
    match a
    case Append(payload, accepts) =>
      s.(rows := s.rows + Numbered(payload, s.head + 1), head := s.head + |payload|,
         conn := Delivered(s.conn, s.head + 1, |payload|, accepts))
    case AppendUnsent(payload) =>
      s.(rows := s.rows + Numbered(payload, s.head + 1), head := s.head + |payload|)
    case Prune(count) => s.(rows := s.rows[count..])
    case Evict => s.(conn := s.conn.(mark := None))
    case Start(readable) =>
      if readable && s.disk.Some? then s.(phase := Idle(s.disk.value))
      else s.(phase := Seeding(Newest(s.rows), s.head))
    case SeedPersist(ok) =>
      if !ok then s.(phase := Down)
      else
        var seeded := s.(disk := Some(s.phase.maxSeq), phase := Idle(s.phase.maxSeq), done := Max(s.done, s.phase.headThen));
        if s.disk.None? then seeded.(base := s.phase.headThen)
        else seeded.(ledger := s.ledger.(skipped := s.ledger.skipped + Between(s.done, s.phase.headThen)))
    case Retry(readable) => s.(phase := Idle(Reload(s, readable, s.phase.cursor)))
    case Accept(accepts) =>
      var decision := Decide(s.rows, s.phase.cursor, cfg.replayLimit, cfg.replayMaxBytes);
      s.(phase := Streaming(s.phase.cursor, s.phase.cursor),
         conn := Opened(decision, s.phase.cursor, accepts),
         pos := PosAfter(decision, s.phase.cursor, s.head))
    case ReadReset(ok) =>
      var maxSeq := s.conn.frames[0].maxSeq;
      var read := s.(conn := s.conn.(frames := s.conn.frames[1..]), done := Max(s.done, s.pos),
                     ledger := s.ledger.(givenUp := s.ledger.givenUp + Between(s.done, s.pos)));
      if maxSeq != s.phase.cursor && ok
      then read.(phase := Streaming(s.phase.start, maxSeq), disk := Some(maxSeq)) else read
    case ReadLive =>
      var event := s.conn.frames[0].id;
      s.(conn := s.conn.(frames := s.conn.frames[1..]), pos := event,
         phase := if event <= s.phase.cursor then s.phase else Sending(s.phase.start, s.phase.cursor, event))
    case SendDone(poison) =>
      var event := s.phase.event;
      var skipped := s.ledger.skipped + if event > 0 then Between(s.done, event - 1) else {};
      s.(phase := Acked(s.phase.start, s.phase.cursor, event), done := Max(s.done, event),
         ledger := if poison then s.ledger.(dropped := s.ledger.dropped + {event}, skipped := skipped)
                   else s.ledger.(sent := s.ledger.sent + [event], skipped := skipped))
    case SendFail(readable) => s.(phase := Idle(Reload(s, readable, s.phase.start)), conn := CLOSED)
    case Persist(ok) =>
      if ok then s.(phase := Streaming(s.phase.start, s.phase.event), disk := Some(s.phase.event))
      else s.(phase := Streaming(s.phase.start, s.phase.cursor))
    case Disconnect(clean, readable) =>
      s.(phase := Idle(Reload(s, readable, if clean then s.phase.cursor else s.phase.start)), conn := CLOSED)
    case Crash => s.(phase := Down, conn := CLOSED)
  }

  // ----- what every step keeps

  ghost predicate Accounted(ledger: Ledger, e: nat) {
    e in ledger.sent || e in ledger.dropped || e in ledger.givenUp || e in ledger.skipped
  }

  /** The event frames not yet read. */
  function Unread(s: State): seq<Frame> {
    if ResetPending(s) then s.conn.frames[1..] else s.conn.frames
  }

  /** Event frames only, with increasing numbers after `pos` and up to `head`. */
  ghost predicate Climbs(frames: seq<Frame>, pos: nat, head: nat) {
    && (forall i :: 0 <= i < |frames| ==> frames[i].Live? && pos < frames[i].id <= head)
    && forall i, j :: 0 <= i < j < |frames| && frames[i].Live? && frames[j].Live? ==> frames[i].id < frames[j].id
  }

  /** The connection carries increasing event numbers after `pos`. */
  ghost predicate WireOk(s: State) {
    && s.pos <= s.head
    && Climbs(Unread(s), s.pos, s.head)
    && (ResetPending(s) ==>
          s.phase.Streaming? && (s.conn.frames[0].maxSeq == s.pos || (s.conn.frames[0].maxSeq == 0 && Oldest(s) > s.pos)))
  }

  ghost predicate PhaseOk(s: State) {
    match s.phase
    case Down => true
    case Seeding(maxSeq, headThen) =>
      headThen <= s.head && s.done <= headThen && (maxSeq == headThen || (maxSeq == 0 && Oldest(s) > headThen))
    case Idle(cursor) => cursor <= s.done
    case Streaming(start, cursor) => start <= s.done && cursor <= s.done
    case Sending(start, cursor, event) => start <= s.done && cursor <= s.done && cursor < event == s.pos
    case Acked(start, cursor, event) => start <= s.done && cursor < event == s.pos && event <= s.done
  }

  ghost predicate LedgerOk(ledger: Ledger, base: nat, done: nat) {
    && (forall e: nat :: base < e <= done ==> Accounted(ledger, e))
    && (forall e: nat :: Accounted(ledger, e) ==> 0 < e <= done)
  }

  ghost predicate Inv(s: State) {
    && Contiguous(s.rows, s.head + 1)
    && s.base <= s.done <= s.head
    && LedgerOk(s.ledger, s.base, s.done)
    && PhaseOk(s)
    && (s.disk.Some? ==> s.disk.value <= s.done)
    && (s.disk.None? ==> (s.phase.Down? || s.phase.Seeding?) && s.done == 0 && s.ledger == INIT.ledger)
    && (if Connected(s.phase) then WireOk(s) else s.conn == CLOSED)
  }

  lemma InvInit()
    ensures Inv(INIT)
  {
  }

  lemma AppendKeepsInv(cfg: Config, s: State, a: Action)
    requires Inv(s) && a.Append?
    ensures Inv(Apply(cfg, s, a))
  {
    var t := Apply(cfg, s, a);
    assert Contiguous(t.rows, t.head + 1);
    assert Oldest(t) == Oldest(s);
    if Connected(s.phase) {
      DeliveryKeepsWire(s, t, |a.payload|, a.accepts);
    }
  }

  lemma DeliveryKeepsWire(s: State, t: State, count: nat, accepts: nat)
    requires WireOk(s)
    requires t.head == s.head + count && t.conn == Delivered(s.conn, s.head + 1, count, accepts)
    requires t.pos == s.pos && t.phase == s.phase && Oldest(t) == Oldest(s)
    ensures WireOk(t)
  {
    hide Climbs, Run;
    if s.conn.mark.Some? {
      var got := if accepts < count then accepts else count;
      ClimbsOn(Unread(s), s.pos, s.head, got, count);
      UnreadDelivered(s, t, got);
    } else {
      ClimbsOn(Unread(s), s.pos, s.head, 0, count);
      NothingDelivered(Unread(s), s.head);
    }
  }

  lemma NothingDelivered(frames: seq<Frame>, head: nat)
    ensures frames + Run(head + 1, 0) == frames
  {
  }

  lemma UnreadDelivered(s: State, t: State, got: nat)
    requires t.conn.frames == s.conn.frames + Run(s.head + 1, got)
    ensures Unread(t) == Unread(s) + Run(s.head + 1, got)
    ensures ResetPending(t) == ResetPending(s)
  {
    assert got > 0 ==> Run(s.head + 1, got)[0].Live?;
  }

  lemma ClimbsOn(frames: seq<Frame>, pos: nat, head: nat, got: nat, count: nat)
    requires Climbs(frames, pos, head) && pos <= head && got <= count
    ensures Climbs(frames + Run(head + 1, got), pos, head + count)
  {
    var more := frames + Run(head + 1, got);
    assert forall i :: 0 <= i < |more| ==> more[i] == if i < |frames| then frames[i] else Live(head + 1 + i - |frames|);
  }

  lemma OpenedWire(cfg: Config, s: State, accepts: nat)
    requires Contiguous(s.rows, s.head + 1) && s.phase.Idle? && s.phase.cursor <= s.head
    ensures WireOk(Apply(cfg, s, Accept(accepts))) && !Gapped(Apply(cfg, s, Accept(accepts)))
  {
    hide Decide, Matching, Contiguous, Climbs;
    var cursor := s.phase.cursor;
    var decision := Decide(s.rows, cursor, cfg.replayLimit, cfg.replayMaxBytes);
    DecisionShape(s.rows, s.head + 1, cursor, cfg.replayLimit, cfg.replayMaxBytes);
    var t := Apply(cfg, s, Accept(accepts));
    if !decision.Reseed? {
      ReplayedIsRun(decision.backlog, cursor, accepts);
    }
    assert Unread(t) == Run(t.pos + 1, |Unread(t)|);
    RunClimbs(t.pos, |Unread(t)|, s.head);
  }

  lemma ReplayedIsRun(backlog: seq<Row>, cursor: nat, accepts: nat)
    requires forall i :: 0 <= i < |backlog| ==> backlog[i].id == cursor + 1 + i
    ensures Replayed(backlog, cursor, accepts).frames == Run(cursor + 1, Min(accepts, |backlog|))
  {
    assert Lives(backlog) == Run(cursor + 1, |backlog|);
    assert accepts < |backlog| ==> Lives(backlog)[..accepts] == Run(cursor + 1, accepts);
  }

  lemma RunClimbs(pos: nat, count: nat, head: nat)
    requires pos + count <= head
    ensures Climbs(Run(pos + 1, count), pos, head)
  {
  }

  lemma ReadKeepsWire(s: State, t: State, event: nat)
    requires WireOk(s) && !ResetPending(s) && s.conn.frames != [] && s.conn.frames[0] == Live(event)
    requires t.conn == s.conn.(frames := s.conn.frames[1..]) && t.pos == event && t.head == s.head && t.rows == s.rows
    ensures s.pos < event && WireOk(t)
  {
    assert forall i :: 0 <= i < |t.conn.frames| ==> t.conn.frames[i] == s.conn.frames[i + 1];
  }

  lemma LedgerExtends(before: Ledger, after: Ledger, base: nat, done: nat, newDone: nat, added: set<nat>)
    requires LedgerOk(before, base, done) && done <= newDone
    requires forall e: nat :: Accounted(after, e) <==> Accounted(before, e) || e in added
    requires forall e: nat :: done < e <= newDone ==> e in added
    requires forall e: nat :: e in added ==> 0 < e <= newDone
    ensures LedgerOk(after, base, newDone)
  {
    forall e: nat | base < e <= newDone
      ensures Accounted(after, e)
    {
      assert e <= done ==> Accounted(before, e);
    }
  }

  lemma SeedKeepsInv(cfg: Config, s: State, ok: bool)
    requires Inv(s) && s.phase.Seeding?
    ensures Inv(Apply(cfg, s, SeedPersist(ok)))
  {
    var t := Apply(cfg, s, SeedPersist(ok));
    if ok && s.disk.Some? {
      LedgerExtends(s.ledger, t.ledger, s.base, s.done, t.done, Between(s.done, s.phase.headThen));
    }
  }

  lemma ReadResetKeepsInv(cfg: Config, s: State, ok: bool)
    requires Inv(s) && Enabled(s, ReadReset(ok))
    ensures Inv(Apply(cfg, s, ReadReset(ok)))
  {
    var t := Apply(cfg, s, ReadReset(ok));
    LedgerExtends(s.ledger, t.ledger, s.base, s.done, t.done, Between(s.done, s.pos));
    assert Unread(t) == Unread(s);
  }

  lemma ReadLiveKeepsInv(cfg: Config, s: State)
    requires Inv(s) && Enabled(s, ReadLive)
    ensures Inv(Apply(cfg, s, ReadLive))
  {
    assert s.conn.frames == Unread(s);
    ReadKeepsWire(s, Apply(cfg, s, ReadLive), s.conn.frames[0].id);
  }

  lemma SendDoneKeepsInv(cfg: Config, s: State, poison: bool)
    requires Inv(s) && s.phase.Sending?
    ensures Inv(Apply(cfg, s, SendDone(poison)))
  {
    var t := Apply(cfg, s, SendDone(poison));
    var event := s.phase.event;
    LedgerExtends(s.ledger, t.ledger, s.base, s.done, t.done, Between(s.done, event - 1) + {event});
  }

  lemma ReceiverKeepsInv(cfg: Config, s: State, a: Action)
    requires Inv(s) && Enabled(s, a) && (a.AppendUnsent? || a.Prune? || a.Evict?)
    ensures Inv(Apply(cfg, s, a))
  {
    var t := Apply(cfg, s, a);
    assert Contiguous(t.rows, t.head + 1);
    assert a.AppendUnsent? ==> Oldest(t) == Oldest(s);
  }

  lemma BridgeKeepsInv(cfg: Config, s: State, a: Action)
    requires Inv(s) && Enabled(s, a)
    requires a.Start? || a.Retry? || a.SendFail? || a.Persist? || a.Disconnect? || a.Crash?
    ensures Inv(Apply(cfg, s, a))
  {
  }

  /** Every action keeps the invariant. */
  lemma StepKeepsInv(cfg: Config, s: State, a: Action)
    requires Inv(s) && Enabled(s, a)
    ensures Inv(Apply(cfg, s, a))
  {
    match a
    case Append(_, _) => AppendKeepsInv(cfg, s, a);
    case AppendUnsent(_) => ReceiverKeepsInv(cfg, s, a);
    case Prune(_) => ReceiverKeepsInv(cfg, s, a);
    case Evict => ReceiverKeepsInv(cfg, s, a);
    case SeedPersist(ok) => SeedKeepsInv(cfg, s, ok);
    case Accept(accepts) => OpenedWire(cfg, s, accepts);
    case ReadReset(ok) => ReadResetKeepsInv(cfg, s, ok);
    case ReadLive => ReadLiveKeepsInv(cfg, s);
    case SendDone(poison) => SendDoneKeepsInv(cfg, s, poison);
    case _ => BridgeKeepsInv(cfg, s, a);
  }

  // ----- when an event is passed over

  /** An existing cursor file that cannot be read at start is treated as a cold start. */
  predicate ForgetsCursor(s: State, a: Action) {
    a.Start? && !a.readable && s.disk.Some?
  }

  /** A client at cursor 0 is accepted without a reset by a log retention has emptied. */
  predicate AcceptedBlind(s: State, a: Action) {
    a.Accept? && s.phase.Idle? && s.phase.cursor == 0 && s.rows == [] && s.head > 0
  }

  /** Rows are stored for a registered subscriber that will never be sent them. */
  predicate StoredUnsent(s: State, a: Action) {
    a.AppendUnsent? && a.payload != [] && s.conn.mark.Some?
  }

  /** The unread events leave a number out, or the next event delivered would. */
  predicate Gapped(s: State) {
    || Unread(s) != Run(s.pos + 1, |Unread(s)|)
    || (s.conn.mark.Some? && s.pos + |Unread(s)| != s.head)
  }

  /** Some event frame, read or still to come on this connection, leaves undealt-with events behind. */
  predicate Blind(s: State) {
    || (s.phase.Streaming? && !ResetPending(s) && s.done < s.pos)
    || (s.phase.Sending? && s.done + 1 < s.phase.event)
    || (Connected(s.phase) && Gapped(s))
  }

  predicate Reseeding(s: State) {
    s.phase.Seeding? && s.disk.Some?
  }

  /** An event is passed over in a step exactly when the step acknowledges an event beyond the next one
      to be dealt with, or persists a new seed over a forgotten cursor with events in between. */
  lemma SkipsExactlyWhen(cfg: Config, s: State, a: Action)
    requires Inv(s) && Enabled(s, a)
    ensures Apply(cfg, s, a).ledger.skipped != s.ledger.skipped <==>
            || (a.SendDone? && s.done + 1 < s.phase.event)
            || (a == SeedPersist(true) && Reseeding(s) && s.done < s.phase.headThen)
  {
    var t := Apply(cfg, s, a);
    assert s.done + 1 !in s.ledger.skipped by {
      assert s.done + 1 in s.ledger.skipped ==> Accounted(s.ledger, s.done + 1);
    }
    if a.SendDone? {
      assert s.done + 1 < s.phase.event ==> s.done + 1 in t.ledger.skipped;
      assert s.done + 1 >= s.phase.event ==> Between(s.done, s.phase.event - 1) == {};
    } else if a == SeedPersist(true) && Reseeding(s) {
      assert s.done < s.phase.headThen ==> s.done + 1 in t.ledger.skipped;
      assert s.done == s.phase.headThen ==> Between(s.done, s.phase.headThen) == {};
    }
  }

  /** A connection becomes blind only where the receiver accepts cursor 0 on an emptied log with an event
      still to be dealt with, or stores rows without broadcasting them to it; and there it does. */
  lemma BlindExactlyWhen(cfg: Config, s: State, a: Action)
    requires Inv(s) && Enabled(s, a) && !Blind(s)
    ensures Blind(Apply(cfg, s, a)) <==> (AcceptedBlind(s, a) && s.done < s.head) || StoredUnsent(s, a)
  {
    var t := Apply(cfg, s, a);
    match a
    case Append(_, _) => DeliveryStaysSighted(s, t, |a.payload|, a.accepts);
    case AppendUnsent(_) => ReceiverBlindness(cfg, s, a);
    case Prune(_) => ReceiverBlindness(cfg, s, a);
    case Evict => ReceiverBlindness(cfg, s, a);
    case Accept(_) => AcceptBlindness(cfg, s, a);
    case ReadReset(_) => FrameStaysSighted(cfg, s, a);
    case ReadLive => FrameStaysSighted(cfg, s, a);
    case _ => BridgeStaysSighted(cfg, s, a);
  }

  lemma ReceiverBlindness(cfg: Config, s: State, a: Action)
    requires Inv(s) && Enabled(s, a) && !Blind(s) && (a.AppendUnsent? || a.Prune? || a.Evict?)
    ensures Blind(Apply(cfg, s, a)) <==> StoredUnsent(s, a)
  {
    hide LedgerOk, Climbs, Contiguous;
  }

  lemma FrameStaysSighted(cfg: Config, s: State, a: Action)
    requires Inv(s) && Enabled(s, a) && !Blind(s) && (a.ReadReset? || a.ReadLive?)
    ensures !Blind(Apply(cfg, s, a))
  {
    hide LedgerOk, Contiguous;
    var t := Apply(cfg, s, a);
    if a.ReadReset? {
      assert Unread(t) == Unread(s);
    } else {
      assert s.conn.frames[0] == Run(s.pos + 1, |s.conn.frames|)[0];
      assert Unread(t) == Run(s.pos + 2, |Unread(t)|);
    }
  }

  lemma BridgeStaysSighted(cfg: Config, s: State, a: Action)
    requires Inv(s) && Enabled(s, a) && !Blind(s)
    requires !a.Append? && !a.AppendUnsent? && !a.Prune? && !a.Evict? && !a.Accept? && !a.ReadReset? && !a.ReadLive?
    ensures !Blind(Apply(cfg, s, a))
  {
    hide LedgerOk, Climbs, Contiguous;
  }

  lemma DeliveryStaysSighted(s: State, t: State, count: nat, accepts: nat)
    requires !Blind(s) && (!Connected(s.phase) ==> s.conn == CLOSED)
    requires t.head == s.head + count && t.conn == Delivered(s.conn, s.head + 1, count, accepts)
    requires t.pos == s.pos && t.phase == s.phase && t.done == s.done
    ensures !Blind(t)
  {
    if s.conn.mark.Some? {
      var got := if accepts < count then accepts else count;
      UnreadDelivered(s, t, got);
      assert Unread(s) + Run(s.head + 1, got) == Run(s.pos + 1, |Unread(s)| + got);
    }
  }

  lemma AcceptBlindness(cfg: Config, s: State, a: Action)
    requires Inv(s) && a.Accept? && s.phase.Idle?
    ensures Blind(Apply(cfg, s, a)) <==> AcceptedBlind(s, a) && s.done < s.head
  {
    hide Decide, Matching, Contiguous, WireOk, LedgerOk;
    var t := Apply(cfg, s, a);
    OpenedWire(cfg, s, a.accepts);
    DecisionShape(s.rows, s.head + 1, s.phase.cursor, cfg.replayLimit, cfg.replayMaxBytes);
    EmptiedIsReplayed(cfg.replayLimit, cfg.replayMaxBytes);
    var decision := Decide(s.rows, s.phase.cursor, cfg.replayLimit, cfg.replayMaxBytes);
    if !decision.Reseed? {
      ReplayedIsRun(decision.backlog, s.phase.cursor, a.accepts);
    }
  }

  lemma EmptiedIsReplayed(limit: nat, maxBytes: nat)
    ensures Decide([], 0, limit, maxBytes) == Replay([])
  {
    assert Matching([], false, 0, None) == [];
  }

  // ----- executions

  predicate Step(cfg: Config, s: State, a: Action, t: State) {
    Enabled(s, a) && t == Apply(cfg, s, a)
  }

  /** The states a run of actions goes through. */
  ghost predicate Execution(cfg: Config, states: seq<State>, run: seq<Action>) {
    && |states| == |run| + 1
    && forall i :: 0 <= i < |run| ==> Step(cfg, states[i], run[i], states[i + 1])
  }

  lemma {:induction false} ExecutionKeepsInv(cfg: Config, states: seq<State>, run: seq<Action>, i: nat)
    requires Execution(cfg, states, run) && Inv(states[0]) && i <= |run|
    ensures Inv(states[i])
  {
    if i > 0 {
      ExecutionKeepsInv(cfg, states, run, i - 1);
      assert Step(cfg, states[i - 1], run[i - 1], states[i]);
      StepKeepsInv(cfg, states[i - 1], run[i - 1]);
    }
  }

  predicate Loses(s: State, a: Action) {
    ForgetsCursor(s, a) || AcceptedBlind(s, a) || StoredUnsent(s, a)
  }

  predicate Unharmed(s: State) {
    !Blind(s) && !Reseeding(s) && s.ledger.skipped == {}
  }

  lemma StaysUnharmed(cfg: Config, s: State, a: Action, t: State)
    requires Step(cfg, s, a, t)
    requires Inv(s) && Unharmed(s) && !Loses(s, a)
    ensures Inv(t) && Unharmed(t)
  {
    StepKeepsInv(cfg, s, a);
    SkipsExactlyWhen(cfg, s, a);
    BlindExactlyWhen(cfg, s, a);
    assert Reseeding(t) ==> a.Start?;
  }

  lemma {:induction false} StaysLossless(cfg: Config, states: seq<State>, run: seq<Action>, i: nat)
    requires Execution(cfg, states, run) && i <= |run| && Inv(states[0]) && Unharmed(states[0])
    requires forall k :: 0 <= k < |run| ==> !Loses(states[k], run[k])
    ensures Inv(states[i]) && Unharmed(states[i])
  {
    if i > 0 {
      StaysLossless(cfg, states, run, i - 1);
      StaysUnharmed(cfg, states[i - 1], run[i - 1], states[i]);
    }
  }

  /** No silent loss. In every state of every execution (appends, pushes that fail half-way, prunes,
      connects, drops, evictions, failed sends and cursor writes, crashes), each event after the seed up
      to the persisted cursor was acknowledged, dropped as poison, given up by a reset the bridge read, or
      passed over; and nothing is passed over unless some step starts over an unreadable cursor, connects
      at cursor 0 to an emptied log, or stores rows without broadcasting them to a registered bridge. */
  lemma NoSilentLoss(cfg: Config, states: seq<State>, run: seq<Action>, i: nat)
    requires Execution(cfg, states, run) && states[0] == INIT && i <= |run|
    ensures states[i].disk.Some? ==> states[i].disk.value <= states[i].done
    ensures forall e: nat :: states[i].base < e <= states[i].done ==> Accounted(states[i].ledger, e)
    ensures (forall k :: 0 <= k < |run| ==> !Loses(states[k], run[k])) ==> states[i].ledger.skipped == {}
  {
    ExecutionKeepsInv(cfg, states, run, i);
    if forall k :: 0 <= k < |run| ==> !Loses(states[k], run[k]) {
      StaysLossless(cfg, states, run, i);
    }
  }

  // ----- when an event is given up

  /** Step `k` answered a reset, the head being `pos`, to a cursor out of reach. */
  ghost predicate ResetAt(cfg: Config, states: seq<State>, run: seq<Action>, k: nat, pos: nat) {
    && k < |run| && k < |states| && run[k].Accept? && states[k].phase.Idle? && states[k].head == pos
    && OutOfReach(states[k].rows, states[k].phase.cursor, cfg.replayLimit)
  }

  lemma AcceptResets(cfg: Config, s: State, accepts: nat)
    requires Inv(s) && s.phase.Idle?
    ensures ResetPending(Apply(cfg, s, Accept(accepts))) <==> OutOfReach(s.rows, s.phase.cursor, cfg.replayLimit)
    ensures ResetPending(Apply(cfg, s, Accept(accepts))) ==> Apply(cfg, s, Accept(accepts)).pos == s.head
  {
    hide Decide, OutOfReach, LedgerOk, WireOk;
    ReseedsExactlyWhen(s.rows, s.head + 1, s.phase.cursor, cfg.replayLimit, cfg.replayMaxBytes);
    DecisionShape(s.rows, s.head + 1, s.phase.cursor, cfg.replayLimit, cfg.replayMaxBytes);
    var decision := Decide(s.rows, s.phase.cursor, cfg.replayLimit, cfg.replayMaxBytes);
    if !decision.Reseed? {
      ReplayedIsRun(decision.backlog, s.phase.cursor, accepts);
    }
  }

  /** A reset stays pending from the connection on, at the number it was answered at. */
  lemma ResetStays(cfg: Config, s: State, a: Action)
    requires Inv(s) && Enabled(s, a) && !a.Accept? && ResetPending(Apply(cfg, s, a))
    ensures ResetPending(s) && Apply(cfg, s, a).pos == s.pos
  {
    hide LedgerOk, Contiguous;
    var t := Apply(cfg, s, a);
    if a.Append? && s.conn.mark.Some? {
      var got := if a.accepts < |a.payload| then a.accepts else |a.payload|;
      UnreadDelivered(s, t, got);
    }
  }

  lemma DoneNeverDrops(cfg: Config, s: State, a: Action)
    requires Enabled(s, a)
    ensures Apply(cfg, s, a).done >= s.done
  {
  }

  lemma {:induction false} PendingResetHasCause(cfg: Config, states: seq<State>, run: seq<Action>, i: nat) returns (k: nat)
    requires Execution(cfg, states, run) && states[0] == INIT && i <= |run| && ResetPending(states[i])
    ensures k < i && ResetAt(cfg, states, run, k, states[i].pos) && states[k].phase.cursor <= states[i].done
  {
    hide Inv, OutOfReach, ResetPending;
    InitialIsQuiet();
    var s, t := states[i - 1], states[i];
    assert Step(cfg, s, run[i - 1], t);
    ExecutionKeepsInv(cfg, states, run, i - 1);
    DoneNeverDrops(cfg, s, run[i - 1]);
    if run[i - 1].Accept? {
      AcceptResets(cfg, s, run[i - 1].accepts);
      IdleIsBehind(s);
      k := i - 1;
    } else {
      ResetStays(cfg, s, run[i - 1]);
      k := PendingResetHasCause(cfg, states, run, i - 1);
    }
  }

  lemma InitialIsQuiet()
    ensures Inv(INIT) && !ResetPending(INIT)
  {
  }

  lemma IdleIsBehind(s: State)
    requires Inv(s)
    ensures s.phase.Idle? ==> s.phase.cursor <= s.done
  {
  }

  /** A step gives events up exactly when it reads a reset beyond what has been dealt with. */
  lemma GivesUpExactlyWhen(cfg: Config, s: State, a: Action)
    requires Inv(s) && Enabled(s, a)
    ensures forall e: nat :: e in Apply(cfg, s, a).ledger.givenUp && e !in s.ledger.givenUp <==> a.ReadReset? && s.done < e <= s.pos
  {
    hide WireOk, Contiguous;
    forall e: nat | e > s.done
      ensures e !in s.ledger.givenUp
    {
      assert !Accounted(s.ledger, e);
    }
  }

  /** Over every run an event is given up only because the bridge had connected with a cursor ahead of the
      log, behind a number no longer retained, or more than the replay limit behind, and only events after
      that cursor and up to the head of that moment are. */
  lemma {:induction false} GivenUpOnlyOutOfReach(cfg: Config, states: seq<State>, run: seq<Action>, i: nat, e: nat) returns (k: nat)
    requires Execution(cfg, states, run) && states[0] == INIT && i <= |run| && e in states[i].ledger.givenUp
    ensures k < i && k < |run| && run[k].Accept? && states[k].phase.Idle? && states[k].phase.cursor < e <= states[k].head
    ensures OutOfReach(states[k].rows, states[k].phase.cursor, cfg.replayLimit)
  {
    hide Inv, OutOfReach;
    InitialIsQuiet();
    var s, t := states[i - 1], states[i];
    assert Step(cfg, s, run[i - 1], t);
    ExecutionKeepsInv(cfg, states, run, i - 1);
    if e in s.ledger.givenUp {
      k := GivenUpOnlyOutOfReach(cfg, states, run, i - 1, e);
    } else {
      GivesUpExactlyWhen(cfg, s, run[i - 1]);
      k := PendingResetHasCause(cfg, states, run, i - 1);
    }
  }

  // ----- when an event is sent twice

  /** A cursor that cannot replay a handled event: it is current, or all that follows it up to
      `done` has left the log. */
  predicate Settled(s: State, cursor: nat) {
    cursor == s.done || (cursor < s.done && Oldest(s) > s.done)
  }

  predicate Synced(s: State) {
    && (s.disk.Some? && !s.phase.Acked? ==> Settled(s, s.disk.value))
    && match s.phase
       case Idle(cursor) => Settled(s, cursor)
       case Streaming(_, cursor) => Settled(s, cursor) && s.pos >= s.done
       case Sending(_, _, event) => event > s.done
       case Acked(_, _, event) => event == s.done
       case _ => true
  }

  /** The steps that leave the bridge a cursor behind a handled event the log still holds: a failed
      cursor write, a crash between a send and its cursor write, or an unreadable cursor after a stream
      that threw. */
  predicate FallsBack(s: State, a: Action) {
    match a
    case Persist(ok) => !ok && Oldest(s) <= s.done
    case ReadReset(ok) => !ok && s.done < s.pos && Oldest(s) <= s.pos
    case Crash => s.phase.Acked? && s.disk.Some? && s.disk.value < s.done && Oldest(s) <= s.done
    case SendFail(readable) => s.phase.Sending? && !readable && s.phase.start < s.done && Oldest(s) <= s.done
    case Disconnect(clean, readable) =>
      s.phase.Streaming? && !clean && !readable && s.phase.start < s.done && Oldest(s) <= s.done
    case _ => false
  }

  lemma AcceptStaysSynced(cfg: Config, s: State, accepts: nat)
    requires Inv(s) && s.phase.Idle? && Synced(s)
    ensures Synced(Apply(cfg, s, Accept(accepts)))
  {
    var cursor := s.phase.cursor;
    var decision := Decide(s.rows, cursor, cfg.replayLimit, cfg.replayMaxBytes);
    DecisionShape(s.rows, s.head + 1, cursor, cfg.replayLimit, cfg.replayMaxBytes);
    BacklogIsRetained(s.rows, s.head + 1, cursor, cfg.replayLimit, cfg.replayMaxBytes);
  }

  lemma BacklogIsRetained(rows: seq<Row>, next: nat, cursor: nat, limit: nat, maxBytes: nat)
    requires Contiguous(rows, next)
    ensures var decision := Decide(rows, cursor, limit, maxBytes);
      !decision.Reseed? && decision.backlog != [] ==> decision.backlog[0].id >= next - |rows|
  {
    var lo, hi := FilterSlice(rows, cursor, None);
    var all := Matching(rows, false, cursor, None);
    assert all != [] ==> all[0] == rows[lo];
  }

  lemma ReceiverStaysSynced(cfg: Config, s: State, a: Action)
    requires Inv(s) && Enabled(s, a) && Synced(s) && (a.Append? || a.AppendUnsent? || a.Prune? || a.Evict?)
    ensures Synced(Apply(cfg, s, a))
  {
  }

  lemma CursorStaysSynced(cfg: Config, s: State, a: Action)
    requires Inv(s) && Enabled(s, a) && Synced(s)
    requires a.Start? || a.SeedPersist? || a.Retry? || a.SendFail? || a.Disconnect? || a.Crash?
    ensures Synced(Apply(cfg, s, a)) <==> !FallsBack(s, a)
  {
  }

  lemma FrameStaysSynced(cfg: Config, s: State, a: Action)
    requires Inv(s) && Enabled(s, a) && Synced(s) && (a.ReadReset? || a.ReadLive? || a.SendDone? || a.Persist?)
    ensures Synced(Apply(cfg, s, a)) <==> !FallsBack(s, a)
  {
    var t := Apply(cfg, s, a);
    match a
    case ReadReset(ok) => assert Oldest(t) == Oldest(s) && t.done == Max(s.done, s.pos);
    case ReadLive => assert s.conn.frames == Unread(s);
    case SendDone(_) => assert t.done == s.phase.event;
    case Persist(_) =>
  }

  /** A step leaves a synced state exactly when it falls back, and an event acknowledged in a synced state
      is newer than everything dealt with before. */
  lemma DesyncsExactlyWhen(cfg: Config, s: State, a: Action)
    requires Inv(s) && Enabled(s, a) && Synced(s)
    ensures Synced(Apply(cfg, s, a)) <==> !FallsBack(s, a)
    ensures a.SendDone? ==> s.phase.event > s.done
  {
    match a
    case Append(_, _) => ReceiverStaysSynced(cfg, s, a);
    case AppendUnsent(_) => ReceiverStaysSynced(cfg, s, a);
    case Prune(_) => ReceiverStaysSynced(cfg, s, a);
    case Evict => ReceiverStaysSynced(cfg, s, a);
    case Accept(accepts) => AcceptStaysSynced(cfg, s, accepts);
    case ReadReset(_) => FrameStaysSynced(cfg, s, a);
    case ReadLive => FrameStaysSynced(cfg, s, a);
    case SendDone(_) => FrameStaysSynced(cfg, s, a);
    case Persist(_) => FrameStaysSynced(cfg, s, a);
    case _ => CursorStaysSynced(cfg, s, a);
  }

  /** An event frame on the wire is one the bridge has dealt with before. */
  ghost predicate Replays(s: State) {
    exists i :: 0 <= i < |Unread(s)| && Unread(s)[i].Live? && Unread(s)[i].id <= s.done
  }

  /** What falling back costs: a new connection carries a handled event exactly when the cursor is
      unsettled, the receiver does not answer with a reset, and a frame gets through. */
  lemma ReplaysExactlyWhen(cfg: Config, s: State, accepts: nat)
    requires Inv(s) && s.phase.Idle?
    ensures Replays(Apply(cfg, s, Accept(accepts))) <==>
            && !Settled(s, s.phase.cursor) && accepts > 0
            && !Decide(s.rows, s.phase.cursor, cfg.replayLimit, cfg.replayMaxBytes).Reseed?
  {
    var cursor := s.phase.cursor;
    var t := Apply(cfg, s, Accept(accepts));
    var decision := Decide(s.rows, cursor, cfg.replayLimit, cfg.replayMaxBytes);
    DecisionShape(s.rows, s.head + 1, cursor, cfg.replayLimit, cfg.replayMaxBytes);
    BacklogIsRetained(s.rows, s.head + 1, cursor, cfg.replayLimit, cfg.replayMaxBytes);
    if !decision.Reseed? {
      var backlog := decision.backlog;
      assert forall i :: 0 <= i < |Unread(t)| ==> Unread(t)[i] == Live(cursor + 1 + i);
      assert Unread(t) == [] <==> backlog == [] || accepts == 0;
      assert Replays(t) ==> Unread(t)[0] == Live(cursor + 1) && cursor < s.done;
      assert Unread(t) != [] && cursor < s.done ==> Unread(t)[0].id <= t.done;
    }
  }

  ghost predicate Ascending(sent: seq<nat>) {
    forall i, j :: 0 <= i < j < |sent| ==> sent[i] < sent[j]
  }

  /** Each event was dealt with in exactly one way. */
  ghost predicate Exclusive(ledger: Ledger) {
    && Ascending(ledger.sent)
    && ledger.dropped !! ledger.givenUp !! ledger.skipped
    && forall e :: e in ledger.sent ==> e !in ledger.dropped + ledger.givenUp + ledger.skipped
  }

  lemma SyncedStepIsExclusive(cfg: Config, s: State, a: Action)
    requires Inv(s) && Enabled(s, a) && Synced(s) && Exclusive(s.ledger)
    ensures Exclusive(Apply(cfg, s, a).ledger)
  {
    forall e: nat | e > s.done
      ensures e !in s.ledger.sent && e !in s.ledger.dropped && e !in s.ledger.givenUp && e !in s.ledger.skipped
    {
      assert !Accounted(s.ledger, e);
    }
    assert forall e :: e in s.ledger.sent ==> e <= s.done;
    match a
    case SendDone(poison) =>
      AppendAscends(s.ledger.sent, s.done, s.phase.event);
    case ReadReset(_) =>
      assert Exclusive(s.ledger.(givenUp := s.ledger.givenUp + Between(s.done, s.pos)));
    case SeedPersist(ok) =>
      assert Exclusive(s.ledger.(skipped := s.ledger.skipped + Between(s.done, s.phase.headThen)));
    case _ =>
  }

  lemma AppendAscends(sent: seq<nat>, done: nat, event: nat)
    requires Ascending(sent) && event > done && forall e :: e in sent ==> e <= done
    ensures Ascending(sent + [event])
  {
    assert forall i :: 0 <= i < |sent| ==> sent[i] in sent;
  }

  ghost predicate Faultless(s: State) {
    Inv(s) && Synced(s) && Exclusive(s.ledger)
  }

  lemma FaultlessStep(cfg: Config, s: State, a: Action, t: State)
    requires Step(cfg, s, a, t)
    requires Faultless(s) && !FallsBack(s, a)
    ensures Faultless(t)
  {
    StepKeepsInv(cfg, s, a);
    DesyncsExactlyWhen(cfg, s, a);
    SyncedStepIsExclusive(cfg, s, a);
  }

  lemma {:induction false} StaysFaultless(cfg: Config, states: seq<State>, run: seq<Action>, i: nat)
    requires Execution(cfg, states, run) && i <= |run| && Faultless(states[0])
    requires forall k :: 0 <= k < |run| ==> !FallsBack(states[k], run[k])
    ensures Faultless(states[i])
  {
    if i > 0 {
      StaysFaultless(cfg, states, run, i - 1);
      FaultlessStep(cfg, states[i - 1], run[i - 1], states[i]);
    }
  }

  /** Conservation: in a run that never falls back the channel receives events in strictly increasing order, so
      none twice, and each event after the seed up to `done` was acknowledged, dropped, given up or
      passed over in exactly one of the four ways. */
  lemma DeliveredAtMostOnce(cfg: Config, states: seq<State>, run: seq<Action>, i: nat)
    requires Execution(cfg, states, run) && states[0] == INIT && i <= |run|
    requires forall k :: 0 <= k < |run| ==> !FallsBack(states[k], run[k])
    ensures Exclusive(states[i].ledger)
    ensures forall e: nat :: states[i].base < e <= states[i].done ==> Accounted(states[i].ledger, e)
  {
    assert Faultless(INIT);
    StaysFaultless(cfg, states, run, i);
  }

  // ----- the exceptions are real

  const KEY := DeliveryKey("github:github.com", "delivery", 0)

  const EVENT := Append([(KEY, 0, 0)], 1)

  const SMALL := Config(10, 0)

  const ROW := Row(1, KEY, 0, 0)

  /** A bridge seeded on an empty log. */
  const SEEDED := State([], 0, CLOSED, Idle(0), Some(0), 0, 0, 0, INIT.ledger)

  lemma SeededIsReachable()
    ensures Execution(SMALL, [INIT, INIT.(phase := Seeding(0, 0)), SEEDED], [Start(true), SeedPersist(true)])
  {
  }

  /** One event is appended and pruned before the bridge connects: it is accepted at cursor 0 without
      a reset, and the next event passes over the first. */
  lemma EmptiedLogLosesAnEvent() returns (states: seq<State>)
    ensures Execution(SMALL, states, [EVENT, Prune(1), Accept(0), EVENT, ReadLive, SendDone(false)])
    ensures states[0] == SEEDED && states[6].ledger == Ledger([2], {}, {}, {1})
  {
    var s1 := Apply(SMALL, SEEDED, EVENT);
    var s2 := Apply(SMALL, s1, Prune(1));
    assert s2 == SEEDED.(head := 1);
    assert Decide([], 0, 10, 0) == Replay([]);
    assert Lives([]) == [];
    var s3 := Apply(SMALL, s2, Accept(0));
    assert s3.conn == Connection([], Some(0));
    var s4 := Apply(SMALL, s3, EVENT);
    assert s4.conn.frames == [Live(2)];
    var s5 := Apply(SMALL, s4, ReadLive);
    assert Between(0, 1) == {1};
    states := [SEEDED, s1, s2, s3, s4, s5, Apply(SMALL, s5, SendDone(false))];
  }

  lemma SeededConnects()
    ensures Step(SMALL, SEEDED, Accept(0), SEEDED.(phase := Streaming(0, 0), conn := Connection([], Some(0))))
  {
    EmptiedIsReplayed(10, 0);
    assert Lives([]) == [];
  }

  /** A push stores a row while the bridge is connected, and its handler throws before the broadcast: the
      next event passes over that row. */
  lemma UnsentRowLosesAnEvent() returns (states: seq<State>)
    ensures Execution(SMALL, states, [Accept(0), AppendUnsent([(KEY, 0, 0)]), EVENT, ReadLive, SendDone(false)])
    ensures states[0] == SEEDED && states[5].ledger == Ledger([2], {}, {}, {1})
  {
    hide Decide, Opened;
    var s1 := SEEDED.(phase := Streaming(0, 0), conn := Connection([], Some(0)));
    SeededConnects();
    var s2 := Apply(SMALL, s1, AppendUnsent([(KEY, 0, 0)]));
    var s3 := Apply(SMALL, s2, EVENT);
    assert s3.conn.frames == [Live(2)];
    var s4 := Apply(SMALL, s3, ReadLive);
    assert Between(0, 1) == {1};
    states := [SEEDED, s1, s2, s3, s4, Apply(SMALL, s4, SendDone(false))];
  }

  /** The bridge restarts while its cursor file cannot be read: it seeds itself at the newest event,
      and the event stored meanwhile is passed over. */
  lemma UnreadableCursorLosesAnEvent() returns (states: seq<State>)
    ensures Execution(SMALL, states, [EVENT, Crash, Start(false), SeedPersist(true)])
    ensures states[0] == SEEDED && states[4].ledger == Ledger([], {}, {}, {1})
  {
    var s1 := Apply(SMALL, SEEDED, EVENT);
    var s2 := Apply(SMALL, s1, Crash);
    var s3 := Apply(SMALL, s2, Start(false));
    assert Between(0, 1) == {1};
    states := [SEEDED, s1, s2, s3, Apply(SMALL, s3, SeedPersist(true))];
  }

  lemma DecideOne()
    ensures Decide([ROW], 0, 10, 0) == Replay([ROW])
    ensures Lives([ROW]) == [Live(1)]
  {
    assert Within(ROW, 0, None) && Filter([ROW][1..], 0, None) == [];
    assert Matching([ROW], false, 0, None) == [ROW];
  }

  /** The bridge has sent and persisted the one event of the log, and is still connected. */
  const SENT := State([ROW], 1, Connection([], Some(1)), Streaming(0, 1), Some(1), 1, 0, 1, Ledger([1], {}, {}, {}))

  lemma AcceptedAgain() returns (s1: State, s2: State)
    ensures Step(SMALL, SENT, Disconnect(false, false), s1) && Step(SMALL, s1, Accept(1), s2)
    ensures s2 == State([ROW], 1, Connection([Live(1)], Some(1)), Streaming(0, 0), Some(1), 0, 0, 1, Ledger([1], {}, {}, {}))
  {
    DecideOne();
    s1 := Apply(SMALL, SENT, Disconnect(false, false));
    s2 := Apply(SMALL, s1, Accept(1));
    assert s2.conn == Connection([Live(1)], Some(1));
  }

  /** Every cursor write succeeded and nothing crashed, yet an event is sent twice: the stream throws
      while the cursor file cannot be read, so the bridge falls back to the attempt's first cursor. */
  lemma UnreadableCursorRepeatsAnEvent() returns (states: seq<State>)
    ensures Execution(SMALL, states, [Disconnect(false, false), Accept(1), ReadLive, SendDone(false)])
    ensures states[0] == SENT && Synced(SENT) && states[4].ledger.sent == [1, 1]
  {
    hide Decide, Opened;
    var s1, s2 := AcceptedAgain();
    var s3 := Apply(SMALL, s2, ReadLive);
    states := [SENT, s1, s2, s3, Apply(SMALL, s3, SendDone(false))];
  }
}
