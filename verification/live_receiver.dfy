/** The receiver side of the live stream: webhook intake, broadcaster, and the replay-then-live handoff. */
module LiveReceiver {
  import opened Options
  import opened LiveLog

  /** Frames a resuming client acts on. Heartbeats, `retry` hints and id-less enrichment updates
      carry no cursor and are not modelled. */
  datatype Frame = Live(id: nat) | Reset(maxSeq: nat)

  /** One response: everything ever written to it, and its high-water mark while it is registered
      as a subscriber (none once it was closed or evicted). */
  datatype Connection = Connection(frames: seq<Frame>, mark: Option<nat>)

  type Hub = map<nat, Connection>

  /** Send one event: skip what the mark covers, evict when the write fails. */
  function SentAt(conn: Connection, event: nat, healthy: bool): Connection {
    if conn.mark.None? || event <= conn.mark.value then conn
    else if !healthy then conn.(mark := None)
    else Connection(conn.frames + [Live(event)], Some(event))
  }

  /** What one send may do: nothing to a response that is closed or was sent the event, else write the event
      to a healthy socket and move the mark, or close a response whose socket fails. */
  ghost predicate SentOnce(before: Connection, after: Connection, event: nat, healthy: bool) {
    && (before.mark.None? || before.mark.value >= event ==> after == before)
    && (before.mark.Some? && before.mark.value < event ==>
          if healthy then after.frames == before.frames + [Live(event)] && after.mark == Some(event)
          else after.frames == before.frames && after.mark.None?)
  }

  function Sent(hub: Hub, id: nat, event: nat, healthy: bool): Hub {
    if id in hub then hub[id := SentAt(hub[id], event, healthy)] else hub
  }

  /** One event fanned out to every connection at once. */
  function FannedOut(hub: Hub, event: nat, healthy: set<nat>): Hub {
    map id | id in hub :: SentAt(hub[id], event, id in healthy)
  }

  /** No response carries an event twice or out of order, and a mark covers all that was sent. */
  ghost predicate MarkCovers(conn: Connection) {
    && (forall i, j :: 0 <= i < j < |conn.frames| && conn.frames[i].Live? && conn.frames[j].Live? ==>
          conn.frames[i].id < conn.frames[j].id)
    && (conn.mark.Some? ==>
          forall i :: 0 <= i < |conn.frames| && conn.frames[i].Live? ==> conn.frames[i].id <= conn.mark.value)
  }

  /** Sending keeps a response increasing and its mark covering, whatever the event and the socket do. */
  lemma SentAtKeepsCover(conn: Connection, event: nat, healthy: bool)
    requires MarkCovers(conn)
    ensures MarkCovers(SentAt(conn, event, healthy))
    ensures conn.frames <= SentAt(conn, event, healthy).frames
  {
    var after := SentAt(conn, event, healthy);
    forall i, j | 0 <= i < j < |after.frames| && after.frames[i].Live? && after.frames[j].Live?
      ensures after.frames[i].id < after.frames[j].id
    {
      assert i < |conn.frames| && after.frames[i] == conn.frames[i];
    }
  }

  /** The fan-out as the loop performs it, one subscriber after another. */
  ghost function SentTo(hub: Hub, ids: seq<nat>, event: nat, healthy: set<nat>): Hub {
    if ids == [] then hub
    else var last := |ids| - 1;
         Sent(SentTo(hub, ids[..last], event, healthy), ids[last], event, ids[last] in healthy)
  }

  lemma {:induction false} SentToPointwise(hub: Hub, ids: seq<nat>, event: nat, healthy: set<nat>, id: nat)
    ensures id in SentTo(hub, ids, event, healthy) <==> id in hub
    ensures id in hub ==> SentTo(hub, ids, event, healthy)[id] ==
                          if id in ids then SentAt(hub[id], event, id in healthy) else hub[id]
  {
    if ids != [] {
      SentToPointwise(hub, ids[..|ids| - 1], event, healthy, id);
    }
  }

  /** The evicting loop and the simultaneous fan-out agree, in any iteration order. */
  lemma FanoutOrderIsIrrelevant(hub: Hub, ids: seq<nat>, event: nat, healthy: set<nat>)
    requires forall id :: id in hub && hub[id].mark.Some? ==> id in ids
    ensures SentTo(hub, ids, event, healthy) == FannedOut(hub, event, healthy)
  {
    forall id
      ensures id in SentTo(hub, ids, event, healthy) <==> id in hub
      ensures id in hub ==> SentTo(hub, ids, event, healthy)[id] == FannedOut(hub, event, healthy)[id]
    {
      SentToPointwise(hub, ids, event, healthy, id);
    }
  }

  function Registered(hub: Hub): set<nat> {
    set id | id in hub && hub[id].mark.Some?
  }

  class Broadcaster {
    const maxConnections: nat
    var responses: Hub
    var nextId: nat

    ghost predicate Valid()
      reads this
    {
      forall id :: id in responses ==> id < nextId
    }

    constructor (maxConnections: nat)
      ensures Valid() && responses == map[] && this.maxConnections == maxConnections
    {
      this.maxConnections := maxConnections;
      responses, nextId := map[], 1;
    }

    method HasCapacity() returns (free: bool)
      ensures free <==> |Registered(responses)| < maxConnections
    {
      free := |Registered(responses)| < maxConnections;
    }

    /** Register a connection with its resume cursor as the initial mark. */
    method Add(mark: nat) returns (id: nat)
      requires Valid()
      modifies this
      ensures Valid() && id !in old(responses)
      ensures responses == old(responses)[id := Connection([], Some(mark))]
    {
      id := nextId;
      nextId := nextId + 1;
      responses := responses[id := Connection([], Some(mark))];
    }

    method Remove(id: nat)
      requires Valid() && id in responses
      modifies this`responses
      ensures Valid() && responses == old(responses)[id := old(responses)[id].(mark := None)]
    {
      responses := responses[id := responses[id].(mark := None)];
    }

    /** The raw, unguarded write of a reset frame. */
    method WriteReset(id: nat, maxSeq: nat)
      requires Valid() && id in responses
      modifies this`responses
      ensures Valid()
      ensures responses == old(responses)[id := Connection(old(responses)[id].frames + [Reset(maxSeq)], old(responses)[id].mark)]
    {
      responses := responses[id := Connection(responses[id].frames + [Reset(maxSeq)], responses[id].mark)];
    }

    method Send(id: nat, event: nat, healthy: bool)
      requires Valid() && id in responses
      modifies this`responses
      ensures Valid() && responses == Sent(old(responses), id, event, healthy)
    {
      var conn := responses[id];
      if conn.mark.None? || event <= conn.mark.value {
        assert responses == responses[id := conn];
        return;
      }
      if healthy {
        conn := Connection(conn.frames + [Live(event)], Some(event));
      } else {
        conn := conn.(mark := None);
      }
      responses := responses[id := conn];
    }

    /** Iterates a snapshot of the subscribers, since a failed write evicts mid-loop. */
    method Broadcast(event: nat, healthy: set<nat>)
      requires Valid()
      modifies this`responses
      ensures Valid() && responses == FannedOut(old(responses), event, healthy)
      ensures forall id :: id in responses <==> id in old(responses)
      ensures forall id :: id in responses ==> SentOnce(old(responses[id]), responses[id], event, id in healthy)
    {
      var pending := Registered(responses);
      ghost var ids := [];
      while pending != {}
        invariant Valid() && responses.Keys == old(responses).Keys
        invariant pending <= Registered(old(responses))
        invariant responses == SentTo(old(responses), ids, event, healthy)
        invariant forall id :: id in Registered(old(responses)) && id !in pending ==> id in ids
        decreases |pending|
      {
        var id :| id in pending;
        pending := pending - {id};
        Send(id, event, id in healthy);
        assert (ids + [id])[..|ids|] == ids;
        ids := ids + [id];
      }
      FanoutOrderIsIrrelevant(old(responses), ids, event, healthy);
    }
  }

  // ----- connecting

  /** What the receiver does with a resume cursor. */
  datatype Decision =
    | Reseed(stale: bool, maxSeq: nat)     // reset frame, then live from the head
    | Prefix(backlog: seq<Row>)            // in-order prefix of the backlog, then close
    | Replay(backlog: seq<Row>)            // whole backlog, then live

  function Decide(rows: seq<Row>, cursor: nat, limit: nat, maxBytes: nat): Decision {
    var all := Matching(rows, false, cursor, None);
    var backlog := all[..Fit(all, limit, maxBytes)];
    if cursor > Newest(rows) then Reseed(true, Newest(rows))
    else if backlog != [] && backlog[0].id > cursor + 1 then Reseed(false, Newest(rows))
    else if Min(|all|, limit + 1) > limit then Reseed(false, Newest(rows))
    else if |backlog| < Min(|all|, limit + 1) then Prefix(backlog)
    else Replay(backlog)
  }

  function Lives(rows: seq<Row>): seq<Frame> {
    seq(|rows|, i requires 0 <= i < |rows| => Live(rows[i].id))
  }

  /** The connection a decision opens; `accepts` is how many event frames the socket takes before a
      write fails. */
  function Opened(decision: Decision, cursor: nat, accepts: nat): Connection {
    match decision
    case Reseed(_, maxSeq) => Connection([Reset(maxSeq)], Some(maxSeq))
    case Prefix(backlog) => Replayed(backlog, cursor, accepts).(mark := None)
    case Replay(backlog) => Replayed(backlog, cursor, accepts)
  }

  function Replayed(backlog: seq<Row>, cursor: nat, accepts: nat): Connection {
    if accepts < |backlog| then Connection(Lives(backlog)[..accepts], None)
    else Connection(Lives(backlog), Some(if backlog == [] then cursor else Newest(backlog)))
  }

  /** On a contiguous log a replay starts right after the cursor and reaches the head; it can be
      empty only at the head, or at cursor 0 on a log retention emptied. */
  lemma DecisionShape(rows: seq<Row>, next: nat, cursor: nat, limit: nat, maxBytes: nat)
    requires Contiguous(rows, next)
    ensures match Decide(rows, cursor, limit, maxBytes)
      case Reseed(_, maxSeq) => maxSeq == if rows == [] then 0 else next - 1
      case Prefix(backlog) =>
        && backlog != [] && cursor + |backlog| < next - 1
        && forall i :: 0 <= i < |backlog| ==> backlog[i].id == cursor + 1 + i
      case Replay(backlog) =>
        && (forall i :: 0 <= i < |backlog| ==> backlog[i].id == cursor + 1 + i)
        && (backlog != [] || rows != [] ==> cursor + |backlog| == next - 1)
        && (backlog == [] && rows == [] ==> cursor == 0)
  {
    if rows == [] {
      assert Matching(rows, false, cursor, None) == [];
    } else if cursor < Newest(rows) {
      var lo := AfterIsSuffix(rows, next, cursor);
      var all := rows[lo..];
      FitIsLongest(all, limit, maxBytes, Fit(all, limit, maxBytes));
      assert all[0] == rows[lo];
    } else {
      FilterKeepsNone(rows, cursor, None);
    }
  }

  /** A cursor the receiver cannot serve: ahead of the log, behind a number no longer retained, or behind by
      more rows than are ever replayed. */
  predicate OutOfReach(rows: seq<Row>, cursor: nat, limit: nat) {
    || (rows == [] && cursor > 0)
    || (rows != [] && (cursor > rows[|rows| - 1].id || cursor + 1 < rows[0].id || rows[|rows| - 1].id - cursor > limit))
  }

  /** A reset is answered exactly to a cursor out of reach, and it is called stale exactly when the cursor
      is ahead. */
  lemma ReseedsExactlyWhen(rows: seq<Row>, next: nat, cursor: nat, limit: nat, maxBytes: nat)
    requires Contiguous(rows, next)
    ensures Decide(rows, cursor, limit, maxBytes).Reseed? <==> OutOfReach(rows, cursor, limit)
    ensures Decide(rows, cursor, limit, maxBytes).Reseed? ==>
              (Decide(rows, cursor, limit, maxBytes).stale <==> cursor > if rows == [] then 0 else next - 1)
  {
    if rows == [] {
      assert Matching(rows, false, cursor, None) == [];
    } else if cursor < Newest(rows) {
      var lo := AfterIsSuffix(rows, next, cursor);
      var all := rows[lo..];
      FitIsLongest(all, limit, maxBytes, Fit(all, limit, maxBytes));
      SuffixStart(rows, next, cursor, lo);
    } else {
      FilterKeepsNone(rows, cursor, None);
    }
  }

  /** Where the rows after a cursor begin. */
  lemma SuffixStart(rows: seq<Row>, next: nat, cursor: nat, lo: nat)
    requires Contiguous(rows, next) && lo < |rows| && cursor < rows[lo].id
    requires Matching(rows, false, cursor, None) == rows[lo..]
    ensures lo == if cursor + 1 < rows[0].id then 0 else cursor + 1 - rows[0].id
  {
    hide Reverse;
    if lo > 0 && cursor < rows[lo - 1].id {
      MatchedAscending(rows, cursor, rows[lo - 1]);
    }
  }

  lemma MatchedAscending(rows: seq<Row>, cursor: nat, row: Row)
    requires row in rows && row.id > cursor
    ensures row in Matching(rows, false, cursor, None)
  {
    FilterMembers(rows, cursor, None, row);
  }

  /** What is replayed when no reset is: of the rows after the cursor, the longest prefix inside the row
      limit and the byte budget, or a single row. */
  lemma ReplayIsLongestFit(rows: seq<Row>, next: nat, cursor: nat, limit: nat, maxBytes: nat)
    requires Contiguous(rows, next) && rows != [] && !OutOfReach(rows, cursor, limit)
    ensures var decision, behind := Decide(rows, cursor, limit, maxBytes), rows[|rows| - (next - 1 - cursor)..];
            && !decision.Reseed? && decision.backlog <= behind
            && LongestFit(behind, limit, maxBytes, |decision.backlog|)
            && (decision.Replay? <==> decision.backlog == behind)
  {
    ReseedsExactlyWhen(rows, next, cursor, limit, maxBytes);
    if cursor < Newest(rows) {
      var lo := AfterIsSuffix(rows, next, cursor);
      SuffixStart(rows, next, cursor, lo);
      FitIsLongest(rows[lo..], limit, maxBytes, Fit(rows[lo..], limit, maxBytes));
    } else {
      FilterKeepsNone(rows, cursor, None);
      FitIsLongest([], limit, maxBytes, 0);
    }
  }

  lemma AfterIsSuffix(rows: seq<Row>, next: nat, cursor: nat) returns (lo: nat)
    requires Contiguous(rows, next) && cursor < Newest(rows)
    ensures lo < |rows| && Matching(rows, false, cursor, None) == rows[lo..]
    ensures forall i :: lo <= i < |rows| ==> rows[i].id == next - |rows| + i
    ensures cursor < rows[lo].id
  {
    var hi;
    lo, hi := FilterSlice(rows, cursor, None);
    AfterReachesEnd(rows, cursor, lo, hi);
  }

  lemma AfterReachesEnd(rows: seq<Row>, after: nat, lo: nat, hi: nat)
    requires Ordered(rows) && rows != []
    requires lo <= hi <= |rows| && Filter(rows, after, None) == rows[lo..hi]
    requires after < Newest(rows)
    ensures lo < hi == |rows|
  {
    var front, last := rows[..|rows| - 1], rows[|rows| - 1..];
    assert rows == front + last;
    FilterAppends(front, last, after, None);
    FilterKeepsAll(last, after, None);
    assert rows[lo..hi][hi - lo - 1] == last[0];
  }

  /** The replay loop on one connection; the write with index `accepts` fails. */
  ghost function SentEach(conn: Connection, backlog: seq<Row>, accepts: nat): Connection {
    if backlog == [] then conn
    else var last := |backlog| - 1;
         SentAt(SentEach(conn, backlog[..last], accepts), backlog[last].id, last < accepts)
  }

  lemma {:induction false} ReplayShape(cursor: nat, backlog: seq<Row>, accepts: nat)
    requires Ordered(backlog) && forall row :: row in backlog ==> row.id > cursor
    ensures SentEach(Connection([], Some(cursor)), backlog, accepts) == Replayed(backlog, cursor, accepts)
  {
    if backlog == [] {
      assert Lives(backlog) == [];
    } else {
      var last := |backlog| - 1;
      ReplayShape(cursor, backlog[..last], accepts);
      assert Lives(backlog) == Lives(backlog[..last]) + [Live(backlog[last].id)];
      if accepts < |backlog| {
        assert Lives(backlog)[..accepts] == Lives(backlog[..last])[..accepts];
        assert accepts == last ==> Lives(backlog[..last])[..accepts] == Lives(backlog[..last]);
      }
    }
  }

  lemma MatchesAreAfter(rows: seq<Row>, cursor: nat)
    requires Ordered(rows)
    ensures Ordered(Matching(rows, false, cursor, None))
    ensures forall row :: row in Matching(rows, false, cursor, None) ==> row.id > cursor
  {
    var lo, hi := FilterSlice(rows, cursor, None);
    assert forall i :: lo <= i < hi ==> rows[lo].id <= rows[i].id;
  }

  lemma BacklogIsAfter(rows: seq<Row>, cursor: nat, limit: nat, maxBytes: nat)
    requires Ordered(rows)
    ensures var decision := Decide(rows, cursor, limit, maxBytes);
      !decision.Reseed? ==> Ordered(decision.backlog) && forall row :: row in decision.backlog ==> row.id > cursor
  {
    MatchesAreAfter(rows, cursor);
  }

  lemma OpenedMarkBelow(rows: seq<Row>, next: nat, cursor: nat, limit: nat, maxBytes: nat, accepts: nat)
    requires ValidRows(rows, next)
    ensures var conn := Opened(Decide(rows, cursor, limit, maxBytes), cursor, accepts); conn.mark.Some? ==> conn.mark.value < next
  {
    var decision := Decide(rows, cursor, limit, maxBytes);
    if !decision.Reseed? && decision.backlog != [] {
      var last := decision.backlog[|decision.backlog| - 1];
      FilterMembers(rows, cursor, None, last);
      assert last in Filter(rows, cursor, None);
    }
  }

  predicate StartsWithReset(conn: Connection) { conn.frames != [] && conn.frames[0].Reset? }

  lemma OpenedWithReset(rows: seq<Row>, next: nat, cursor: nat, limit: nat, maxBytes: nat, accepts: nat)
    requires Contiguous(rows, next)
    ensures StartsWithReset(Opened(Decide(rows, cursor, limit, maxBytes), cursor, accepts)) <==> OutOfReach(rows, cursor, limit)
  {
    ReseedsExactlyWhen(rows, next, cursor, limit, maxBytes);
  }

  ghost predicate Known(rows: seq<Row>, key: DeliveryKey) { exists row :: row in rows && row.key == key }

  /** The rows a delivery adds: each event once, unless its key is stored already. */
  ghost function Ingested(rows: seq<Row>, next: nat, inputs: seq<(DeliveryKey, int, nat)>): seq<Row> {
    if inputs == [] then []
    else
      var before, last := Ingested(rows, next, inputs[..|inputs| - 1]), inputs[|inputs| - 1];
      if Known(rows + before, last.0) then before else before + [Row(next + |before|, last.0, last.1, last.2)]
  }

  /** The first input with its key. */
  ghost predicate FirstOfKey(inputs: seq<(DeliveryKey, int, nat)>, i: nat) {
    i < |inputs| && forall j :: 0 <= j < i ==> inputs[j].0 != inputs[i].0
  }

  /** An added row is the first input of a key that was not stored. */
  ghost predicate ComesFrom(rows: seq<Row>, inputs: seq<(DeliveryKey, int, nat)>, row: Row, i: nat) {
    FirstOfKey(inputs, i) && inputs[i] == (row.key, row.receivedAt, row.bytes) && !Known(rows, row.key)
  }

  /** Each row added is the first input of a new key and takes the next number; no key is added twice; and
      every key of the delivery is stored in the end. */
  ghost predicate StoresEachKeyOnce(rows: seq<Row>, next: nat, inputs: seq<(DeliveryKey, int, nat)>, added: seq<Row>) {
    && (forall k :: 0 <= k < |added| ==> added[k].id == next + k && Added(rows, inputs, added[k]))
    && (forall j, k :: 0 <= j < k < |added| ==> added[j].key != added[k].key)
    && (forall i :: 0 <= i < |inputs| ==> Known(rows + added, inputs[i].0))
  }

  ghost predicate Added(rows: seq<Row>, inputs: seq<(DeliveryKey, int, nat)>, row: Row) {
    exists i: nat :: ComesFrom(rows, inputs, row, i)
  }

  /** A delivery stores exactly the keys it brings, each once. */
  lemma {:induction false} IngestsEachKeyOnce(rows: seq<Row>, next: nat, inputs: seq<(DeliveryKey, int, nat)>)
    ensures StoresEachKeyOnce(rows, next, inputs, Ingested(rows, next, inputs))
  {
    hide StoresEachKeyOnce, Known;
    if inputs == [] {
      NothingIngested(rows, next);
    } else {
      var front, last := inputs[..|inputs| - 1], inputs[|inputs| - 1];
      var before := Ingested(rows, next, front);
      assert inputs == front + [last];
      IngestsEachKeyOnce(rows, next, front);
      if Known(rows + before, last.0) {
        IngestSkips(rows, next, front, before, last);
      } else {
        IngestTakes(rows, next, front, before, last);
      }
    }
  }

  lemma NothingIngested(rows: seq<Row>, next: nat)
    ensures StoresEachKeyOnce(rows, next, [], [])
  {
  }

  lemma AddedStays(rows: seq<Row>, inputs: seq<(DeliveryKey, int, nat)>, last: (DeliveryKey, int, nat), row: Row)
    requires Added(rows, inputs, row)
    ensures Added(rows, inputs + [last], row)
  {
    var i: nat :| ComesFrom(rows, inputs, row, i);
    assert ComesFrom(rows, inputs + [last], row, i);
  }

  lemma IngestSkips(rows: seq<Row>, next: nat, front: seq<(DeliveryKey, int, nat)>, before: seq<Row>, last: (DeliveryKey, int, nat))
    requires StoresEachKeyOnce(rows, next, front, before) && Known(rows + before, last.0)
    ensures StoresEachKeyOnce(rows, next, front + [last], before)
  {
    hide Added, Known;
    forall k | 0 <= k < |before|
      ensures Added(rows, front + [last], before[k])
    {
      AddedStays(rows, front, last, before[k]);
    }
  }

  lemma IngestTakes(rows: seq<Row>, next: nat, front: seq<(DeliveryKey, int, nat)>, before: seq<Row>, last: (DeliveryKey, int, nat))
    requires StoresEachKeyOnce(rows, next, front, before) && !Known(rows + before, last.0)
    ensures StoresEachKeyOnce(rows, next, front + [last], before + [Row(next + |before|, last.0, last.1, last.2)])
  {
    hide Added, Known;
    var row := Row(next + |before|, last.0, last.1, last.2);
    var added := before + [row];
    NewKeyIsFirst(rows, before, front, last);
    NewRowIsAdded(rows, front, last, row);
    forall k | 0 <= k < |before|
      ensures Added(rows, front + [last], before[k])
    {
      AddedStays(rows, front, last, before[k]);
    }
    KnownAppends(rows, before, added);
    LastIsKnown(rows, added);
  }

  lemma NewRowIsAdded(rows: seq<Row>, front: seq<(DeliveryKey, int, nat)>, last: (DeliveryKey, int, nat), row: Row)
    requires FirstOfKey(front + [last], |front|) && !Known(rows, last.0) && last == (row.key, row.receivedAt, row.bytes)
    ensures Added(rows, front + [last], row)
  {
    assert ComesFrom(rows, front + [last], row, |front|);
  }

  lemma LastIsKnown(rows: seq<Row>, added: seq<Row>)
    requires added != []
    ensures Known(rows + added, added[|added| - 1].key)
  {
    assert added[|added| - 1] in rows + added;
  }

  lemma KnownAppends(rows: seq<Row>, before: seq<Row>, added: seq<Row>)
    requires before <= added
    ensures forall key :: Known(rows + before, key) ==> Known(rows + added, key)
  {
    assert forall row :: row in rows + before ==> row in rows + added;
  }

  lemma NewKeyIsFirst(rows: seq<Row>, before: seq<Row>, front: seq<(DeliveryKey, int, nat)>, last: (DeliveryKey, int, nat))
    requires !Known(rows + before, last.0) && forall i :: 0 <= i < |front| ==> Known(rows + before, front[i].0)
    ensures FirstOfKey(front + [last], |front|) && !Known(rows, last.0)
    ensures forall k :: 0 <= k < |before| ==> before[k].key != last.0
  {
    assert forall row :: row in rows ==> row in rows + before;
    assert forall k :: 0 <= k < |before| ==> before[k] in rows + before;
  }

  /** Where a push's handler throws: while it appends, with so many inputs stored, or in the profile lookup
      between the appends and the broadcast. */
  datatype Failure = AppendThrows(stored: nat) | LookupThrows

  function StoredInputs(inputs: seq<(DeliveryKey, int, nat)>, failure: Option<Failure>): seq<(DeliveryKey, int, nat)> {
    if failure.Some? && failure.value.AppendThrows? && failure.value.stored < |inputs| then inputs[..failure.value.stored]
    else inputs
  }

  class Receiver {
    const store: LiveStore
    const broadcaster: Broadcaster
    const replayLimit: nat
    const replayMaxBytes: nat

    constructor (store: LiveStore, broadcaster: Broadcaster, replayLimit: nat, replayMaxBytes: nat)
      ensures this.store == store && this.broadcaster == broadcaster
      ensures this.replayLimit == replayLimit && this.replayMaxBytes == replayMaxBytes
    {
      this.store, this.broadcaster := store, broadcaster;
      this.replayLimit, this.replayMaxBytes := replayLimit, replayMaxBytes;
    }

    /** The checks a stream request goes through before anything is written. */
    method DecideSse(cursor: nat) returns (decision: Decision)
      requires store.Valid()
      ensures decision == Decide(store.rows, cursor, replayLimit, replayMaxBytes)
    {
      var maxSeq := store.MaxSeq();
      if cursor > maxSeq {
        return Reseed(true, maxSeq);
      }
      var backlog, matched := store.Page(false, replayLimit, replayMaxBytes, cursor, None);
      if backlog != [] && backlog[0].id > cursor + 1 {
        return Reseed(false, maxSeq);
      }
      if matched > replayLimit {
        return Reseed(false, maxSeq);
      }
      decision := if |backlog| < matched then Prefix(backlog) else Replay(backlog);
    }

    /** Accept or refuse a stream request. The new connection carries exactly the decided frames, up
        to the write that failed, and no other connection is touched. */
    method HandleSse(cursor: nat, accepts: nat) returns (id: Option<nat>)
      requires store.Valid() && broadcaster.Valid()
      modifies broadcaster
      ensures broadcaster.Valid()
      ensures id.None? <==> |Registered(old(broadcaster.responses))| >= broadcaster.maxConnections
      ensures id.None? ==> broadcaster.responses == old(broadcaster.responses)
      ensures id.Some? ==> id.value !in old(broadcaster.responses)
      ensures id.Some? ==>
                broadcaster.responses == old(broadcaster.responses)
                  [id.value := Opened(Decide(store.rows, cursor, replayLimit, replayMaxBytes), cursor, accepts)]
      ensures id.Some? && Contiguous(store.rows, store.next) ==>
                (StartsWithReset(broadcaster.responses[id.value]) <==> OutOfReach(store.rows, cursor, replayLimit))
      ensures old(MarksBelow(broadcaster.responses, store.next)) ==> MarksBelow(broadcaster.responses, store.next)
    {
      hide OutOfReach, StartsWithReset, Contiguous, Decide, Lives, Ordered;
      var free := broadcaster.HasCapacity();
      if !free {
        return None;
      }
      var decision := DecideSse(cursor);
      OpenedMarkBelow(store.rows, store.next, cursor, replayLimit, replayMaxBytes, accepts);
      if Contiguous(store.rows, store.next) {
        OpenedWithReset(store.rows, store.next, cursor, replayLimit, replayMaxBytes, accepts);
      }
      BacklogIsAfter(store.rows, cursor, replayLimit, replayMaxBytes);
      var sub;
      match decision {
        case Reseed(_, maxSeq) =>
          sub := SendReset(maxSeq);
        case Prefix(backlog) =>
          sub := ReplayTo(cursor, backlog, accepts);
          broadcaster.Remove(sub);
        case Replay(backlog) =>
          sub := ReplayTo(cursor, backlog, accepts);
      }
      id := Some(sub);
    }

    method SendReset(maxSeq: nat) returns (id: nat)
      requires broadcaster.Valid()
      modifies broadcaster
      ensures broadcaster.Valid() && id !in old(broadcaster.responses)
      ensures broadcaster.responses == old(broadcaster.responses)[id := Connection([Reset(maxSeq)], Some(maxSeq))]
    {
      id := broadcaster.Add(maxSeq);
      broadcaster.WriteReset(id, maxSeq);
      assert [] + [Reset(maxSeq)] == [Reset(maxSeq)];
    }

    /** Register, then replay: an event appended meanwhile is deduplicated by the mark. */
    method ReplayTo(cursor: nat, backlog: seq<Row>, accepts: nat) returns (id: nat)
      requires broadcaster.Valid() && Ordered(backlog)
      requires forall row :: row in backlog ==> row.id > cursor
      modifies broadcaster
      ensures broadcaster.Valid() && id !in old(broadcaster.responses)
      ensures broadcaster.responses == old(broadcaster.responses)[id := Replayed(backlog, cursor, accepts)]
    {
      id := broadcaster.Add(cursor);
      var i := 0;
      while i < |backlog|
        invariant 0 <= i <= |backlog|
        invariant broadcaster.Valid()
        invariant broadcaster.responses ==
                  old(broadcaster.responses)[id := SentEach(Connection([], Some(cursor)), backlog[..i], accepts)]
      {
        assert backlog[..i + 1][..i] == backlog[..i];
        broadcaster.Send(id, backlog[i].id, i < accepts);
        i := i + 1;
      }
      assert backlog[..i] == backlog;
      ReplayShape(cursor, backlog, accepts);
    }

    method AppendAll(inputs: seq<(DeliveryKey, int, nat)>) returns (appended: seq<Row>)
      requires store.Valid()
      modifies store
      ensures store.Valid()
      ensures store.rows == old(store.rows) + appended && store.next == old(store.next) + |appended|
      ensures appended == Ingested(old(store.rows), old(store.next), inputs)
      ensures forall i :: 0 <= i < |appended| ==> appended[i].id == old(store.next) + i
    {
      hide ValidRows, Contiguous;
      appended := [];
      var i := 0;
      while i < |inputs|
        invariant 0 <= i <= |inputs|
        invariant store.Valid()
        invariant store.rows == old(store.rows) + appended && store.next == old(store.next) + |appended|
        invariant appended == Ingested(old(store.rows), old(store.next), inputs[..i])
        invariant forall k :: 0 <= k < |appended| ==> appended[k].id == old(store.next) + k
      {
        assert inputs[..i + 1][..i] == inputs[..i];
        var event := store.Append(inputs[i].0, inputs[i].1, inputs[i].2);
        if event.Some? {
          appended := appended + [event.value];
        }
        i := i + 1;
      }
      assert inputs[..i] == inputs;
    }

    method BroadcastAll(appended: seq<Row>, ghost first: nat, healthy: nat -> set<nat>)
      requires broadcaster.Valid()
      requires forall i :: 0 <= i < |appended| ==> appended[i].id == first + i
      modifies broadcaster`responses
      ensures broadcaster.Valid()
      ensures broadcaster.responses == Broadcasts(old(broadcaster.responses), first, |appended|, healthy)
    {
      var k := 0;
      while k < |appended|
        invariant 0 <= k <= |appended|
        invariant broadcaster.Valid()
        invariant broadcaster.responses == Broadcasts(old(broadcaster.responses), first, k, healthy)
      {
        broadcaster.Broadcast(appended[k].id, healthy(appended[k].id));
        k := k + 1;
      }
    }

    /** Durable append of every new event of a delivery, then one broadcast per appended row. A
        redelivery appends nothing, so it broadcasts nothing. If the handler throws first, the rows
        stored until then stay and none of them is broadcast. */
    method HandleWebhook(inputs: seq<(DeliveryKey, int, nat)>, failure: Option<Failure>, healthy: nat -> set<nat>)
      returns (appended: seq<Row>)
      requires store.Valid() && broadcaster.Valid()
      modifies store, broadcaster`responses
      ensures store.Valid() && broadcaster.Valid()
      ensures store.rows == old(store.rows) + appended && store.next == old(store.next) + |appended|
      ensures appended == Ingested(old(store.rows), old(store.next), StoredInputs(inputs, failure))
      ensures forall i :: 0 <= i < |appended| ==> appended[i].id == old(store.next) + i
      ensures var n := if failure.Some? && failure.value.AppendThrows? && failure.value.stored < |inputs| then failure.value.stored else |inputs|;
              StoresEachKeyOnce(old(store.rows), old(store.next), inputs[..n], appended)
      ensures failure.None? ==>
                broadcaster.responses == Broadcasts(old(broadcaster.responses), old(store.next), |appended|, healthy)
      ensures failure.Some? ==> broadcaster.responses == old(broadcaster.responses)
      ensures failure.None? && old(MarksBelow(broadcaster.responses, store.next)) ==>
                && MarksBelow(broadcaster.responses, store.next)
                && AllServed(old(broadcaster.responses), broadcaster.responses, old(store.next), |appended|, healthy)
    {
      IngestsEachKeyOnce(store.rows, store.next, StoredInputs(inputs, failure));
      assert inputs[..|inputs|] == inputs;
      appended := AppendAll(StoredInputs(inputs, failure));
      if failure.Some? {
        return;
      }
      BroadcastAll(appended, old(store.next), healthy);
      if old(MarksBelow(broadcaster.responses, store.next)) {
        BroadcastsServe(old(broadcaster.responses), old(store.next), |appended|, healthy);
      }
    }
  }

  /** No subscriber's mark is at or beyond the next number. */
  ghost predicate MarksBelow(hub: Hub, next: nat) {
    forall id :: id in hub && hub[id].mark.Some? ==> hub[id].mark.value < next
  }

  /** Every registered subscriber got the new events in order as far as its socket took them. */
  ghost predicate AllServed(before: Hub, after: Hub, first: nat, count: nat, healthy: nat -> set<nat>) {
    && after.Keys == before.Keys
    && forall id :: id in before ==> Served(before[id], after[id], id, first, count, healthy)
  }

  ghost predicate Served(before: Connection, after: Connection, id: nat, first: nat, count: nat, healthy: nat -> set<nat>) {
    if before.mark.None? then after == before
    else exists accepts :: Accepts(id, first, count, healthy, accepts) && after == Delivered(before, first, count, accepts)
  }

  lemma BroadcastsServe(hub: Hub, first: nat, count: nat, healthy: nat -> set<nat>)
    requires MarksBelow(hub, first)
    ensures AllServed(hub, Broadcasts(hub, first, count, healthy), first, count, healthy)
    ensures MarksBelow(Broadcasts(hub, first, count, healthy), first + count)
  {
    hide Broadcasts, Accepts;
    SameSubscribers(hub, first, count, healthy);
    forall id | id in hub
      ensures Served(hub[id], Broadcasts(hub, first, count, healthy)[id], id, first, count, healthy)
      ensures Broadcasts(hub, first, count, healthy)[id].mark.Some? ==> Broadcasts(hub, first, count, healthy)[id].mark.value < first + count
    {
      var accepts := FanoutToOne(hub, first, count, healthy, id);
    }
  }

  lemma {:induction false} SameSubscribers(hub: Hub, first: nat, count: nat, healthy: nat -> set<nat>)
    ensures Broadcasts(hub, first, count, healthy).Keys == hub.Keys
  {
    if count > 0 {
      SameSubscribers(hub, first, count - 1, healthy);
    }
  }

  // ----- the fan-out seen by one subscriber

  /** `count` consecutive new events, numbered from `first`, broadcast in order. */
  ghost function Broadcasts(hub: Hub, first: nat, count: nat, healthy: nat -> set<nat>): Hub {
    if count == 0 then hub
    else FannedOut(Broadcasts(hub, first, count - 1, healthy), first + count - 1, healthy(first + count - 1))
  }

  function Run(first: nat, count: nat): seq<Frame> {
    seq(count, i requires 0 <= i => Live(first + i))
  }

  /** New events as a connection receives them: all of them, or a prefix and then eviction. */
  function Delivered(conn: Connection, first: nat, count: nat, accepts: nat): Connection {
    if conn.mark.None? then conn
    else if accepts < count then Connection(conn.frames + Run(first, accepts), None)
    else Connection(conn.frames + Run(first, count), if count == 0 then conn.mark else Some(first + count - 1))
  }

  /** A subscriber below the new numbers receives a gap-free prefix of them, and is evicted exactly
      when that prefix is not everything. */
  lemma {:induction false} FanoutToOne(hub: Hub, first: nat, count: nat, healthy: nat -> set<nat>, id: nat)
    returns (accepts: nat)
    requires id in hub && (hub[id].mark.Some? ==> hub[id].mark.value < first)
    ensures id in Broadcasts(hub, first, count, healthy)
    ensures Broadcasts(hub, first, count, healthy)[id] == Delivered(hub[id], first, count, accepts)
    ensures hub[id].mark.Some? ==> Accepts(id, first, count, healthy, accepts)
  {
    hide Delivered, SentAt, Accepts;
    accepts := 0;
    if count == 0 {
      NoneDelivered(hub[id], id, first, healthy);
    } else {
      var event := first + count - 1;
      var before := FanoutToOne(hub, first, count - 1, healthy, id);
      assert Broadcasts(hub, first, count, healthy) == FannedOut(Broadcasts(hub, first, count - 1, healthy), event, healthy(event));
      accepts := OneMoreDelivered(hub[id], id, first, count, before, healthy);
    }
  }

  lemma NoneDelivered(conn: Connection, id: nat, first: nat, healthy: nat -> set<nat>)
    ensures Delivered(conn, first, 0, 0) == conn && Accepts(id, first, 0, healthy, 0)
  {
    assert conn.frames + Run(first, 0) == conn.frames;
  }

  /** The socket takes the first `accepts` of the events, and if that is not all of them it fails next. */
  ghost predicate Accepts(id: nat, first: nat, count: nat, healthy: nat -> set<nat>, accepts: nat) {
    && accepts <= count
    && (forall event :: first <= event < first + accepts ==> id in healthy(event))
    && (accepts < count ==> id !in healthy(first + accepts))
  }

  lemma OneMoreDelivered(conn: Connection, id: nat, first: nat, count: nat, before: nat, healthy: nat -> set<nat>)
    returns (accepts: nat)
    requires count > 0 && (conn.mark.Some? ==> conn.mark.value < first && Accepts(id, first, count - 1, healthy, before))
    ensures SentAt(Delivered(conn, first, count - 1, before), first + count - 1, id in healthy(first + count - 1)) ==
            Delivered(conn, first, count, accepts)
    ensures conn.mark.Some? ==> Accepts(id, first, count, healthy, accepts)
  {
    accepts := before;
    if Delivered(conn, first, count - 1, before).mark.Some? {
      accepts := if id in healthy(first + count - 1) then count else count - 1;
      assert conn.frames + Run(first, count - 1) + [Live(first + count - 1)] == conn.frames + Run(first, count);
    }
  }
}
