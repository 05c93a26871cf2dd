/** The append-only live-event log: idempotent append, retention, and the byte-bounded page. */
module LiveLog {
  // Both the SSE replay and the snapshot read through the page.
  import opened Options

  /** Fixed allowance for the small columns of a row. */
  const ROW_OVERHEAD_BYTES: nat := 2048

  datatype DeliveryKey = DeliveryKey(sourceId: string, eventId: string, ordinal: nat)

  /** One stored event; `id` is the never-reused append number the stream calls `seq`. */
  datatype Row = Row(id: nat, key: DeliveryKey, receivedAt: int, bytes: nat)

  ghost predicate Ordered(rows: seq<Row>) {
    forall i, j :: 0 <= i < j < |rows| ==> rows[i].id < rows[j].id
  }

  /** The retained rows are exactly the last `|rows|` numbers handed out before `next`. */
  ghost predicate Contiguous(rows: seq<Row>, next: nat) {
    && |rows| < next
    && forall i :: 0 <= i < |rows| ==> rows[i].id == next - |rows| + i
  }

  ghost predicate ClockNeverWentBack(rows: seq<Row>) {
    forall i, j :: 0 <= i < j < |rows| ==> rows[i].receivedAt <= rows[j].receivedAt
  }

  function Newest(rows: seq<Row>): nat {
    if rows == [] then 0 else rows[|rows| - 1].id
  }

  predicate Within(row: Row, after: int, before: Option<nat>) {
    after < row.id && (before.Some? ==> row.id < before.value)
  }

  function Filter(rows: seq<Row>, after: int, before: Option<nat>): seq<Row> {
    if rows == [] then []
    else if Within(rows[0], after, before) then [rows[0]] + Filter(rows[1..], after, before)
    else Filter(rows[1..], after, before)
  }

  function Reverse(rows: seq<Row>): seq<Row> {
    seq(|rows|, i requires 0 <= i < |rows| => rows[|rows| - 1 - i])
  }

  /** The rows a read matches, in the order it asks for. */
  function Matching(rows: seq<Row>, newestFirst: bool, after: int, before: Option<nat>): seq<Row> {
    if newestFirst then Reverse(Filter(rows, after, before)) else Filter(rows, after, before)
  }

  function Weight(rows: seq<Row>): nat {
    if rows == [] then 0 else Weight(rows[..|rows| - 1]) + rows[|rows| - 1].bytes + ROW_OVERHEAD_BYTES
  }

  /** How many of the matched rows a page takes, growing one row at a time. */
  function Fit(matched: seq<Row>, limit: nat, maxBytes: nat): (take: nat)
    ensures take <= |matched| && take <= limit
  {
    if matched == [] || limit == 0 then 0 else Grow(matched, limit, maxBytes, 1)
  }

  function Grow(matched: seq<Row>, limit: nat, maxBytes: nat, take: nat): (grown: nat)
    requires take <= |matched| && take <= limit
    ensures take <= grown <= |matched| && grown <= limit
    decreases |matched| - take
  {
    if take < |matched| && take < limit && Weight(matched[..take + 1]) <= maxBytes
    then Grow(matched, limit, maxBytes, take + 1)
    else take
  }

  /** The page is the longest prefix inside the row limit and the byte budget, or a single row. */
  ghost predicate LongestFit(matched: seq<Row>, limit: nat, maxBytes: nat, take: nat) {
    && take <= |matched| && take <= limit
    && (take == 0 ==> matched == [] || limit == 0)
    && (take > 1 ==> Weight(matched[..take]) <= maxBytes)
    && forall longer :: take < longer <= |matched| && longer <= limit && longer > 1 ==>
         Weight(matched[..longer]) > maxBytes
  }

  /** What a list of rows counts for: their payload bytes, and 2048 more for each. */
  lemma {:induction false} WeightIs(rows: seq<Row>, payload: nat)
    requires forall i :: 0 <= i < |rows| ==> rows[i].bytes == payload
    ensures Weight(rows) == |rows| * (payload + 2048)
  {
    if rows != [] {
      WeightIs(rows[..|rows| - 1], payload);
    }
  }

  lemma {:induction false} WeightAdds(left: seq<Row>, right: seq<Row>)
    ensures Weight(left + right) == Weight(left) + Weight(right)
  {
    if right == [] {
      assert left + right == left;
    } else {
      assert (left + right)[..|left + right| - 1] == left + right[..|right| - 1];
      WeightAdds(left, right[..|right| - 1]);
    }
  }

  lemma {:induction false} WeightGrows(rows: seq<Row>, a: nat, b: nat)
    requires a <= b <= |rows|
    ensures Weight(rows[..a]) <= Weight(rows[..b])
    decreases b
  {
    if a < b {
      assert rows[..b][..b - 1] == rows[..b - 1];
      WeightGrows(rows, a, b - 1);
    }
  }

  lemma {:induction false} GrowStops(matched: seq<Row>, limit: nat, maxBytes: nat, take: nat)
    requires 1 <= take <= |matched| && take <= limit
    requires take > 1 ==> Weight(matched[..take]) <= maxBytes
    ensures LongestFit(matched, limit, maxBytes, Grow(matched, limit, maxBytes, take))
    decreases |matched| - take
  {
    if take < |matched| && take < limit {
      if Weight(matched[..take + 1]) <= maxBytes {
        GrowStops(matched, limit, maxBytes, take + 1);
      } else {
        forall longer | take < longer <= |matched|
          ensures Weight(matched[..longer]) > maxBytes
        {
          WeightGrows(matched, take + 1, longer);
        }
      }
    }
  }

  /** The incremental count is the declarative longest fit, and nothing else is. */
  lemma FitIsLongest(matched: seq<Row>, limit: nat, maxBytes: nat, take: nat)
    ensures LongestFit(matched, limit, maxBytes, take) <==> take == Fit(matched, limit, maxBytes)
  {
    if matched != [] && limit != 0 {
      GrowStops(matched, limit, maxBytes, 1);
      var fit := Fit(matched, limit, maxBytes);
      if LongestFit(matched, limit, maxBytes, take) {
        assert fit <= take;
        assert take <= fit;
      }
    }
  }

  // ----- a bounded read is a slice of the log

  /** How many rows have a number up to `bound`. */
  ghost function CountUpTo(rows: seq<Row>, bound: int): (c: nat)
    requires Ordered(rows)
    ensures c <= |rows|
    ensures forall i :: 0 <= i < |rows| ==> (i < c <==> rows[i].id <= bound)
  {
    if rows == [] then 0
    else if rows[|rows| - 1].id <= bound then |rows|
    else CountUpTo(rows[..|rows| - 1], bound)
  }

  lemma {:induction false} FilterKeepsAll(rows: seq<Row>, after: int, before: Option<nat>)
    requires forall row :: row in rows ==> Within(row, after, before)
    ensures Filter(rows, after, before) == rows
  {
    if rows != [] {
      FilterKeepsAll(rows[1..], after, before);
    }
  }

  lemma {:induction false} FilterKeepsNone(rows: seq<Row>, after: int, before: Option<nat>)
    requires forall row :: row in rows ==> !Within(row, after, before)
    ensures Filter(rows, after, before) == []
  {
    if rows != [] {
      FilterKeepsNone(rows[1..], after, before);
    }
  }

  lemma {:induction false} FilterAppends(left: seq<Row>, right: seq<Row>, after: int, before: Option<nat>)
    ensures Filter(left + right, after, before) == Filter(left, after, before) + Filter(right, after, before)
  {
    if left == [] {
      assert left + right == right;
    } else {
      assert (left + right)[1..] == left[1..] + right;
      FilterAppends(left[1..], right, after, before);
    }
  }

  /** On an ordered log the bounds select exactly the rows between two positions. */
  lemma FilterIsSlice(rows: seq<Row>, after: int, before: Option<nat>, lo: nat, hi: nat)
    requires lo <= hi <= |rows|
    requires forall i :: 0 <= i < |rows| ==> (Within(rows[i], after, before) <==> lo <= i < hi)
    ensures Filter(rows, after, before) == rows[lo..hi]
  {
    assert rows == rows[..lo] + rows[lo..hi] + rows[hi..];
    FilterAppends(rows[..lo] + rows[lo..hi], rows[hi..], after, before);
    FilterAppends(rows[..lo], rows[lo..hi], after, before);
    FilterKeepsNone(rows[..lo], after, before);
    FilterKeepsAll(rows[lo..hi], after, before);
    FilterKeepsNone(rows[hi..], after, before);
  }

  /** Where the slice a bounded read selects begins and ends. */
  lemma FilterSlice(rows: seq<Row>, after: int, before: Option<nat>) returns (lo: nat, hi: nat)
    requires Ordered(rows)
    ensures lo <= hi <= |rows|
    ensures Filter(rows, after, before) == rows[lo..hi]
    ensures lo < hi ==> after < rows[lo].id && (lo > 0 ==> rows[lo - 1].id <= after)
  {
    lo := CountUpTo(rows, after);
    hi := if before.None? then |rows| else CountUpTo(rows, before.value - 1);
    hi := if hi < lo then lo else hi;
    FilterIsSlice(rows, after, before, lo, hi);
  }

  lemma ReverseSplits(rows: seq<Row>, lo: nat, hi: nat, take: nat)
    requires lo + take <= hi <= |rows|
    ensures Reverse(rows[lo..hi])[..take] == Reverse(rows[hi - take..hi])
    ensures Reverse(rows[lo..hi])[take..] == Reverse(rows[lo..hi - take])
  {
  }

  /** Reading back the number range spanned by a prefix of the matches yields that prefix. */
  lemma RangeReadsPrefix(rows: seq<Row>, newestFirst: bool, after: int, before: Option<nat>,
                         matched: seq<Row>, take: nat)
    requires Ordered(rows)
    requires matched == Matching(rows, newestFirst, after, before)
    requires 0 < take <= |matched|
    ensures matched[..take] == RangeOf(rows, newestFirst, matched[0].id, matched[take - 1].id)
  {
    var a, b := FilterSlice(rows, after, before);
    if newestFirst {
      assert matched == Reverse(rows[a..b]);
      SpanNewestFirst(rows, a, b, take);
    } else {
      assert matched == rows[a..b];
      SpanOldestFirst(rows, a, b, take);
    }
  }

  lemma SpanNewestFirst(rows: seq<Row>, lo: nat, hi: nat, take: nat)
    requires Ordered(rows) && 0 < take <= hi - lo && hi <= |rows|
    ensures var m := Reverse(rows[lo..hi]); m[..take] == RangeOf(rows, true, m[0].id, m[take - 1].id)
  {
    hide Reverse, RangeOf, Ordered;
    ReverseEnds(rows, lo, hi, take);
    ReverseSplits(rows, lo, hi, take);
    RangeNewestFirst(rows, hi - take, hi);
  }

  lemma ReverseEnds(rows: seq<Row>, lo: nat, hi: nat, take: nat)
    requires 0 < take <= hi - lo && hi <= |rows|
    ensures var m := Reverse(rows[lo..hi]); |m| == hi - lo && m[0] == rows[hi - 1] && m[take - 1] == rows[hi - take]
  {
  }

  lemma RangeNewestFirst(rows: seq<Row>, lo: nat, hi: nat)
    requires Ordered(rows) && lo < hi <= |rows|
    ensures RangeOf(rows, true, rows[hi - 1].id, rows[lo].id) == Reverse(rows[lo..hi])
  {
    hide Reverse, Filter;
    assert rows[lo].id <= rows[hi - 1].id;
    RangeReadsSlice(rows, lo, hi);
  }

  lemma SpanOldestFirst(rows: seq<Row>, lo: nat, hi: nat, take: nat)
    requires Ordered(rows) && 0 < take <= hi - lo && hi <= |rows|
    ensures var m := rows[lo..hi]; m[..take] == RangeOf(rows, false, m[0].id, m[take - 1].id)
  {
    RangeReadsSlice(rows, lo, lo + take);
    assert rows[lo..hi][..take] == rows[lo..lo + take];
  }

  function RangeOf(rows: seq<Row>, newestFirst: bool, one: nat, other: nat): seq<Row> {
    Matching(rows, newestFirst, Min(one, other) - 1, Some(Max(one, other) + 1))
  }

  lemma RangeReadsSlice(rows: seq<Row>, lo: nat, hi: nat)
    requires Ordered(rows) && lo < hi <= |rows|
    ensures Filter(rows, rows[lo].id - 1, Some(rows[hi - 1].id + 1)) == rows[lo..hi]
  {
    FilterIsSlice(rows, rows[lo].id - 1, Some(rows[hi - 1].id + 1), lo, hi);
  }

  function Min(a: nat, b: nat): nat { if a <= b then a else b }

  function Max(a: nat, b: nat): nat { if a <= b then b else a }

  // ----- retention

  function Younger(rows: seq<Row>, cutoff: int): seq<Row> {
    if rows == [] then []
    else if rows[0].receivedAt < cutoff then Younger(rows[1..], cutoff)
    else [rows[0]] + Younger(rows[1..], cutoff)
  }

  function NewestRows(rows: seq<Row>, maxRows: nat): seq<Row> {
    if |rows| > maxRows then rows[|rows| - maxRows..] else rows
  }

  /** What retention leaves: rows inside the TTL, then the newest `maxRows` of them. */
  function Retained(rows: seq<Row>, cutoff: int, maxRows: nat): seq<Row> {
    NewestRows(Younger(rows, cutoff), maxRows)
  }

  lemma {:induction false} YoungerIsSuffix(rows: seq<Row>, cutoff: int) returns (k: nat)
    requires ClockNeverWentBack(rows)
    ensures k <= |rows| && Younger(rows, cutoff) == rows[k..]
    ensures forall i :: 0 <= i < |rows| ==> (i < k <==> rows[i].receivedAt < cutoff)
  {
    if rows == [] {
      k := 0;
    } else {
      var rest := YoungerIsSuffix(rows[1..], cutoff);
      if rows[0].receivedAt < cutoff {
        k := rest + 1;
      } else {
        assert forall i :: 0 <= i < |rows[1..]| ==> rows[1..][i] == rows[i + 1] && rows[0].receivedAt <= rows[i + 1].receivedAt;
        assert |rows[1..]| > 0 ==> rows[1..][0] == rows[1];
        assert rest == 0;
        k := 0;
      }
    }
  }

  /** Unique numbers in order, unique delivery keys, and no number handed out beyond `next`. */
  ghost predicate ValidRows(rows: seq<Row>, next: nat) {
    && next >= 1
    && Ordered(rows)
    && (forall i :: 0 <= i < |rows| ==> 1 <= rows[i].id < next)
    && (forall i, j :: 0 <= i < j < |rows| ==> rows[i].key != rows[j].key)
  }

  lemma TailIsNewer(rows: seq<Row>, next: nat, row: Row)
    requires ValidRows(rows, next) && rows != [] && row in rows[1..]
    ensures rows[0].id < row.id && rows[0].key != row.key
  {
    var i :| 0 <= i < |rows[1..]| && rows[1..][i] == row;
    assert rows[i + 1] == row;
  }

  lemma TailStaysValid(rows: seq<Row>, next: nat)
    requires ValidRows(rows, next) && rows != []
    ensures ValidRows(rows[1..], next)
  {
    assert forall i :: 0 <= i < |rows[1..]| ==> rows[1..][i] == rows[i + 1];
  }

  lemma PrependedStaysValid(first: Row, rest: seq<Row>, next: nat)
    requires ValidRows(rest, next) && 1 <= first.id < next
    requires forall row :: row in rest ==> first.id < row.id && first.key != row.key
    ensures ValidRows([first] + rest, next)
  {
    var rows := [first] + rest;
    forall i, j | 0 <= i < j < |rows|
      ensures rows[i].id < rows[j].id && rows[i].key != rows[j].key
    {
      assert rows[j] == rest[j - 1] && rest[j - 1] in rest;
      assert i > 0 ==> rows[i] == rest[i - 1];
    }
  }

  lemma {:induction false} YoungerStaysValid(rows: seq<Row>, next: nat, cutoff: int)
    requires ValidRows(rows, next)
    ensures ValidRows(Younger(rows, cutoff), next)
    ensures |Younger(rows, cutoff)| <= |rows|
    ensures forall row :: row in Younger(rows, cutoff) ==> row in rows
  {
    hide ValidRows;
    if rows == [] {
      assert Younger(rows, cutoff) == rows;
    } else {
      var rest := Younger(rows[1..], cutoff);
      TailStaysValid(rows, next);
      YoungerStaysValid(rows[1..], next, cutoff);
      forall row | row in rest
        ensures rows[0].id < row.id && rows[0].key != row.key
      {
        TailIsNewer(rows, next, row);
      }
      FirstIsNumbered(rows, next);
      PrependedStaysValid(rows[0], rest, next);
    }
  }

  lemma FirstIsNumbered(rows: seq<Row>, next: nat)
    requires ValidRows(rows, next) && rows != []
    ensures 1 <= rows[0].id < next
  {
  }

  /** With a clock that never goes back, retention removes an oldest prefix, so the log stays
      contiguous: a row stays exactly when it is inside the TTL and among the newest `maxRows`, so the
      newest row does when it is inside the TTL and the cap is not zero. */
  lemma RetentionDropsOldestPrefix(rows: seq<Row>, next: nat, cutoff: int, maxRows: nat) returns (k: nat)
    requires Contiguous(rows, next) && ClockNeverWentBack(rows)
    ensures k <= |rows| && Retained(rows, cutoff, maxRows) == rows[k..]
    ensures Contiguous(rows[k..], next)
    ensures rows != [] ==> (k < |rows| <==> rows[|rows| - 1].receivedAt >= cutoff && maxRows > 0)
    ensures forall i :: 0 <= i < |rows| ==> (k <= i <==> rows[i].receivedAt >= cutoff && |rows| - i <= maxRows)
  {
    var expired := YoungerIsSuffix(rows, cutoff);
    k := if |rows| - expired > maxRows then |rows| - maxRows else expired;
    assert Retained(rows, cutoff, maxRows) == rows[k..];
  }

  // ----- the store

  class LiveStore {
    var rows: seq<Row>
    var next: nat

    ghost predicate Valid()
      reads this
    {
      ValidRows(rows, next)
    }

    constructor ()
      ensures Valid() && rows == [] && next == 1
    {
      rows, next := [], 1;
    }

    /** Insert-or-ignore on the delivery key: a redelivery changes nothing and yields no event. */
    method Append(key: DeliveryKey, receivedAt: int, bytes: nat) returns (event: Option<Row>)
      requires Valid()
      modifies this
      ensures Valid()
      ensures event.None? <==> exists row :: row in old(rows) && row.key == key
      ensures event.None? ==> rows == old(rows) && next == old(next)
      ensures event.Some? ==>
                && event.value == Row(old(next), key, receivedAt, bytes)
                && rows == old(rows) + [event.value] && next == old(next) + 1
      ensures old(Contiguous(rows, next)) ==> Contiguous(rows, next)
    {
      var i := 0;
      while i < |rows|
        invariant 0 <= i <= |rows|
        invariant forall k :: 0 <= k < i ==> rows[k].key != key
        invariant rows == old(rows) && next == old(next)
      {
        if rows[i].key == key {
          return None;
        }
        i := i + 1;
      }
      var row := Row(next, key, receivedAt, bytes);
      rows, next := rows + [row], next + 1;
      event := Some(row);
    }

    method MaxSeq() returns (m: nat)
      requires Valid()
      ensures m == Newest(rows)
      ensures forall row :: row in rows ==> row.id <= m
    {
      m := if rows == [] then 0 else rows[|rows| - 1].id;
    }

    /** Sizes the matches, grows the prefix, then loads it back as a number range. */
    method Page(newestFirst: bool, limit: nat, maxBytes: nat, after: int, before: Option<nat>)
      returns (events: seq<Row>, matched: nat)
      requires Valid()
      ensures
        var all := Matching(rows, newestFirst, after, before);
        && matched == Min(|all|, limit + 1)
        && LongestFit(all, limit, maxBytes, |events|)
        && events == all[..|events|]
        && events == all[..Fit(all, limit, maxBytes)]
    {
      var all := Matching(rows, newestFirst, after, before);
      var sizes := if |all| > limit + 1 then all[..limit + 1] else all;
      matched := |sizes|;
      var candidates := if |sizes| > limit then sizes[..limit] else sizes;
      var take := TakePrefix(all, candidates, limit, maxBytes);
      FitIsLongest(all, limit, maxBytes, take);
      if take == 0 {
        return [], matched;
      }
      RangeReadsPrefix(rows, newestFirst, after, before, all, take);
      events := RangeOf(rows, newestFirst, candidates[0].id, candidates[take - 1].id);
    }

    /** Grow the prefix while it fits the budget; the first row is always taken. */
    static method TakePrefix(ghost all: seq<Row>, candidates: seq<Row>, ghost limit: nat, maxBytes: nat) returns (take: nat)
      requires candidates == all[..Min(|all|, limit)]
      ensures LongestFit(all, limit, maxBytes, take) && take <= |candidates|
    {
      take := 0;
      var used := 0;
      while take < |candidates|
        invariant 0 <= take <= |candidates|
        invariant used == Weight(all[..take])
        invariant take > 1 ==> used <= maxBytes
      {
        assert all[..take + 1][..take] == all[..take];
        used := used + candidates[take].bytes + ROW_OVERHEAD_BYTES;
        if take > 0 && used > maxBytes {
          forall longer | take < longer <= |all|
            ensures Weight(all[..longer]) > maxBytes
          {
            WeightGrows(all, take + 1, longer);
          }
          return;
        }
        take := take + 1;
      }
    }

    /** TTL delete, then delete at or below the number of the first row over the cap. */
    method Prune(cutoff: int, maxRows: nat) returns (deleted: nat)
      requires Valid()
      modifies this
      ensures Valid() && next == old(next)
      ensures rows == Retained(old(rows), cutoff, maxRows)
      ensures deleted == |old(rows)| - |rows|
    {
      var before := |rows|;
      YoungerStaysValid(rows, next, cutoff);
      rows := Younger(rows, cutoff);
      if |rows| > maxRows {
        var cut := rows[|rows| - 1 - maxRows].id;
        AboveCutIsSuffix(rows, |rows| - maxRows);
        rows := Filter(rows, cut, None);
      }
      deleted := before - |rows|;
    }
  }

  lemma AboveCutIsSuffix(rows: seq<Row>, k: nat)
    requires Ordered(rows) && 0 < k <= |rows|
    ensures Filter(rows, rows[k - 1].id, None) == rows[k..]
  {
    FilterIsSlice(rows, rows[k - 1].id, None, k, |rows|);
  }

  // ----- snapshot paging

  /** One snapshot page: its rows, and where the next older page starts (none when complete). */
  datatype SnapshotPage = SnapshotPage(events: seq<Row>, nextBefore: Option<nat>)

  function Snapshot(rows: seq<Row>, limit: nat, maxBytes: nat, after: int, before: Option<nat>): SnapshotPage {
    var all := Matching(rows, true, after, before);
    var events := all[..Fit(all, limit, maxBytes)];
    var truncated := Min(|all|, limit + 1) > |events|;
    SnapshotPage(events, if truncated && events != [] then Some(events[|events| - 1].id) else None)
  }

  /** A page followed by the page before it starts where the first one stopped. */
  lemma NextPageContinues(rows: seq<Row>, limit: nat, maxBytes: nat, after: int, before: Option<nat>)
    requires Ordered(rows) && limit >= 1
    ensures
      var page := Snapshot(rows, limit, maxBytes, after, before);
      var all := Matching(rows, true, after, before);
      && page.events <= all
      && (page.nextBefore.None? ==> page.events == all)
      && (page.nextBefore.Some? ==>
           && page.events != []
           && page.nextBefore == Some(page.events[|page.events| - 1].id)
           && Matching(rows, true, after, page.nextBefore) == all[|page.events|..])
  {
    var all := Matching(rows, true, after, before);
    var take := Fit(all, limit, maxBytes);
    FitIsLongest(all, limit, maxBytes, take);
    if 0 < take < |all| {
      OlderRowsAreTheRest(rows, after, before, all, take);
    }
  }

  lemma OlderRowsAreTheRest(rows: seq<Row>, after: int, before: Option<nat>, all: seq<Row>, take: nat)
    requires Ordered(rows)
    requires all == Matching(rows, true, after, before)
    requires 0 < take <= |all|
    ensures all[take..] == Matching(rows, true, after, Some(all[take - 1].id))
  {
    var a, b := FilterSlice(rows, after, before);
    assert all == Reverse(rows[a..b]);
    RestNewestFirst(rows, after, a, b, take);
  }

  lemma RestNewestFirst(rows: seq<Row>, after: int, lo: nat, hi: nat, take: nat)
    requires Ordered(rows) && 0 < take <= hi - lo && hi <= |rows|
    requires after < rows[lo].id && (lo > 0 ==> rows[lo - 1].id <= after)
    ensures var all := Reverse(rows[lo..hi]); all[take..] == Reverse(Filter(rows, after, Some(all[take - 1].id)))
  {
    hide Reverse, Filter;
    ReverseEnds(rows, lo, hi, take);
    SliceBelow(rows, after, lo, hi - take);
    ReverseSplits(rows, lo, hi, take);
  }

  lemma SliceBelow(rows: seq<Row>, after: int, lo: nat, hi: nat)
    requires Ordered(rows) && lo <= hi < |rows|
    requires after < rows[lo].id && (lo > 0 ==> rows[lo - 1].id <= after)
    ensures Filter(rows, after, Some(rows[hi].id)) == rows[lo..hi]
  {
    FilterIsSlice(rows, after, Some(rows[hi].id), lo, hi);
  }

  /** Every page of a walk that follows `next_before` until it is absent. */
  ghost function Walk(rows: seq<Row>, limit: nat, maxBytes: nat, after: int, before: Option<nat>): seq<Row>
    requires Ordered(rows) && limit >= 1
    decreases |Matching(rows, true, after, before)|
  {
    NextPageContinues(rows, limit, maxBytes, after, before);
    var page := Snapshot(rows, limit, maxBytes, after, before);
    if page.nextBefore.None? then page.events
    else page.events + Walk(rows, limit, maxBytes, after, page.nextBefore)
  }

  /** Snapshot paging is lossless: the walk terminates and returns each matching row exactly once,
      newest first, for every row limit and byte budget. */
  lemma {:induction false} WalkIsLossless(rows: seq<Row>, limit: nat, maxBytes: nat, after: int, before: Option<nat>)
    requires Ordered(rows) && limit >= 1
    ensures Walk(rows, limit, maxBytes, after, before) == Matching(rows, true, after, before)
    decreases |Matching(rows, true, after, before)|
  {
    NextPageContinues(rows, limit, maxBytes, after, before);
    var page := Snapshot(rows, limit, maxBytes, after, before);
    if page.nextBefore.Some? {
      WalkIsLossless(rows, limit, maxBytes, after, page.nextBefore);
    }
  }

  /** Without bounds that is the whole retained log, newest first. */
  lemma WholeLogWalk(rows: seq<Row>, limit: nat, maxBytes: nat)
    requires Ordered(rows) && limit >= 1
    ensures Walk(rows, limit, maxBytes, -1, None) == Reverse(rows)
  {
    WalkIsLossless(rows, limit, maxBytes, -1, None);
    FilterKeepsAll(rows, -1, None);
  }

  // ----- paging while the log moves on

  /** A log and the next number it hands out. */
  datatype Log = Log(rows: seq<Row>, next: nat)

  /** Between two pages the oldest `k` rows were pruned and newer ones appended. */
  ghost predicate MovesBy(log: Log, later: Log, k: nat) {
    && k <= |log.rows| && log.rows[k..] <= later.rows && log.next <= later.next
    && forall i :: |log.rows| - k <= i < |later.rows| ==> later.rows[i].id >= log.next
  }

  ghost predicate Moves(log: Log, later: Log) { exists k: nat :: MovesBy(log, later, k) }

  /** The logs the pages of one walk are read from, in order. */
  ghost predicate Moving(logs: seq<Log>) {
    && (forall i :: 0 <= i < |logs| ==> ValidRows(logs[i].rows, logs[i].next))
    && forall i :: 0 <= i < |logs| - 1 ==> Moves(logs[i], logs[i + 1])
  }

  /** Every page of a walk whose pages are read from these logs in turn. */
  ghost function WalkOver(logs: seq<Log>, limit: nat, maxBytes: nat, after: int, before: Option<nat>): seq<Row> {
    if logs == [] then []
    else
      var page := Snapshot(logs[0].rows, limit, maxBytes, after, before);
      if page.nextBefore.None? then page.events
      else page.events + WalkOver(logs[1..], limit, maxBytes, after, page.nextBefore)
  }

  /** The walk reaches a page that is not truncated. */
  ghost predicate Completes(logs: seq<Log>, limit: nat, maxBytes: nat, after: int, before: Option<nat>) {
    && logs != []
    && var next := Snapshot(logs[0].rows, limit, maxBytes, after, before).nextBefore;
       next.None? || Completes(logs[1..], limit, maxBytes, after, next)
  }

  /** Below a number handed out before, a later log matches a newest-first prefix of what it matched. */
  lemma LaterMatchesPrefix(log: Log, later: Log, after: int, bound: nat)
    requires Moves(log, later) && bound <= log.next
    ensures Matching(later.rows, true, after, Some(bound)) <= Matching(log.rows, true, after, Some(bound))
  {
    hide Filter;
    var k: nat :| MovesBy(log, later, k);
    var kept, added := log.rows[k..], later.rows[|log.rows| - k..];
    assert later.rows == kept + added && log.rows == log.rows[..k] + kept;
    FilterAppends(kept, added, after, Some(bound));
    FilterKeepsNone(added, after, Some(bound));
    FilterAppends(log.rows[..k], kept, after, Some(bound));
    ReverseJoins(Filter(log.rows[..k], after, Some(bound)), Filter(kept, after, Some(bound)));
    assert Filter(kept, after, Some(bound)) + [] == Filter(kept, after, Some(bound));
  }

  lemma ReverseJoins(left: seq<Row>, right: seq<Row>)
    ensures Reverse(left + right) == Reverse(right) + Reverse(left)
  {
  }

  /** What the first page leaves for the rest of the walk. */
  lemma PageThenMove(logs: seq<Log>, limit: nat, maxBytes: nat, after: int, before: Option<nat>)
    requires Moving(logs) && |logs| > 1 && limit >= 1
    requires Snapshot(logs[0].rows, limit, maxBytes, after, before).nextBefore.Some?
    ensures Moving(logs[1..])
    ensures
      var page := Snapshot(logs[0].rows, limit, maxBytes, after, before);
      var all := Matching(logs[0].rows, true, after, before);
      && page.events != [] && page.events <= all
      && Matching(logs[1].rows, true, after, page.nextBefore) <= all[|page.events|..]
  {
    var page := Snapshot(logs[0].rows, limit, maxBytes, after, before);
    NextPageContinues(logs[0].rows, limit, maxBytes, after, before);
    var last := page.events[|page.events| - 1];
    MatchedIsRow(logs[0].rows, after, before, last);
    assert Moves(logs[0], logs[0 + 1]);
    LaterMatchesPrefix(logs[0], logs[1], after, last.id);
    var rest := logs[1..];
    forall i | 0 <= i < |rest| - 1
      ensures Moves(rest[i], rest[i + 1])
    {
      assert Moves(logs[i + 1], logs[i + 1 + 1]);
    }
  }

  lemma MatchedIsRow(rows: seq<Row>, after: int, before: Option<nat>, row: Row)
    requires Ordered(rows)
    ensures row in Matching(rows, true, after, before) <==> row in rows && Within(row, after, before)
  {
    var matched := Filter(rows, after, before);
    FilterMembers(rows, after, before, row);
    assert forall i :: 0 <= i < |matched| ==> Reverse(matched)[|matched| - 1 - i] == matched[i];
  }

  lemma {:induction false} FilterMembers(rows: seq<Row>, after: int, before: Option<nat>, row: Row)
    ensures row in Filter(rows, after, before) <==> row in rows && Within(row, after, before)
  {
    if rows != [] {
      FilterMembers(rows[1..], after, before, row);
      assert rows == [rows[0]] + rows[1..];
    }
  }

  /** A walk completes within as many pages as the first log matches rows, and one more. */
  lemma {:induction false} WalkCompletes(logs: seq<Log>, limit: nat, maxBytes: nat, after: int, before: Option<nat>)
    requires Moving(logs) && limit >= 1 && logs != [] && |logs| > |Matching(logs[0].rows, true, after, before)|
    ensures Completes(logs, limit, maxBytes, after, before)
  {
    hide Snapshot, Matching;
    var next := Snapshot(logs[0].rows, limit, maxBytes, after, before).nextBefore;
    if next.Some? {
      PageNotEmpty(logs[0], limit, maxBytes, after, before);
      PageThenMove(logs, limit, maxBytes, after, before);
      WalkCompletes(logs[1..], limit, maxBytes, after, next);
    }
  }

  lemma PageNotEmpty(log: Log, limit: nat, maxBytes: nat, after: int, before: Option<nat>)
    requires Ordered(log.rows) && limit >= 1 && Snapshot(log.rows, limit, maxBytes, after, before).nextBefore.Some?
    ensures |Matching(log.rows, true, after, before)| > 0
  {
    NextPageContinues(log.rows, limit, maxBytes, after, before);
  }

  /** A row of an early log that a late one still holds was never out of the log. */
  lemma {:induction false} RetainedThroughout(logs: seq<Log>, row: Row)
    requires Moving(logs) && |logs| > 1 && row in logs[0].rows && row in logs[|logs| - 1].rows
    ensures row in logs[1].rows
    decreases |logs|
  {
    if |logs| > 2 {
      var front := logs[..|logs| - 1];
      assert Moving(front);
      assert Moves(logs[|logs| - 2], logs[|logs| - 2 + 1]);
      NextNeverDrops(front);
      WasThere(logs[|logs| - 2], logs[|logs| - 1], row);
      RetainedThroughout(front, row);
    }
  }

  lemma {:induction false} NextNeverDrops(logs: seq<Log>)
    requires Moving(logs) && logs != []
    ensures logs[0].next <= logs[|logs| - 1].next
  {
    if |logs| > 1 {
      var front := logs[..|logs| - 1];
      assert Moves(logs[|logs| - 2], logs[|logs| - 2 + 1]);
      NextNeverDrops(front);
    }
  }

  lemma WasThere(log: Log, later: Log, row: Row)
    requires Moves(log, later) && row in later.rows && row.id < log.next
    ensures row in log.rows
  {
    var k: nat :| MovesBy(log, later, k);
    var i :| 0 <= i < |later.rows| && later.rows[i] == row;
    assert row == log.rows[k..][i];
  }

  /** Paging loses nothing while rows are appended and pruned between pages: the walk returns a prefix of
      what the first log matched, newest first, so no row twice and none out of order, and that prefix
      holds every row the log still retains when the walk ends. */
  lemma {:induction false} WalkOverIsLossless(logs: seq<Log>, limit: nat, maxBytes: nat, after: int, before: Option<nat>)
    requires Moving(logs) && limit >= 1 && Completes(logs, limit, maxBytes, after, before)
    ensures WalkOver(logs, limit, maxBytes, after, before) <= Matching(logs[0].rows, true, after, before)
    ensures forall row :: row in Matching(logs[0].rows, true, after, before) && row in logs[|logs| - 1].rows ==>
              row in WalkOver(logs, limit, maxBytes, after, before)
  {
    var page := Snapshot(logs[0].rows, limit, maxBytes, after, before);
    var all := Matching(logs[0].rows, true, after, before);
    NextPageContinues(logs[0].rows, limit, maxBytes, after, before);
    if page.nextBefore.Some? {
      PageThenMove(logs, limit, maxBytes, after, before);
      WalkOverIsLossless(logs[1..], limit, maxBytes, after, page.nextBefore);
      RestOfWalk(logs, limit, maxBytes, after, before);
    }
  }

  lemma RestOfWalk(logs: seq<Log>, limit: nat, maxBytes: nat, after: int, before: Option<nat>)
    requires Moving(logs) && |logs| > 1 && limit >= 1
    requires Snapshot(logs[0].rows, limit, maxBytes, after, before).nextBefore.Some?
    requires
      var next := Snapshot(logs[0].rows, limit, maxBytes, after, before).nextBefore;
      var rest, matched := WalkOver(logs[1..], limit, maxBytes, after, next), Matching(logs[1].rows, true, after, next);
      rest <= matched && forall row :: row in matched && row in logs[|logs| - 1].rows ==> row in rest
    ensures WalkOver(logs, limit, maxBytes, after, before) <= Matching(logs[0].rows, true, after, before)
    ensures forall row :: row in Matching(logs[0].rows, true, after, before) && row in logs[|logs| - 1].rows ==>
              row in WalkOver(logs, limit, maxBytes, after, before)
  {
    hide Matching, Moving;
    var page := Snapshot(logs[0].rows, limit, maxBytes, after, before);
    var all := Matching(logs[0].rows, true, after, before);
    var rest := WalkOver(logs[1..], limit, maxBytes, after, page.nextBefore);
    PageThenMove(logs, limit, maxBytes, after, before);
    NextPage(logs, limit, maxBytes, after, before);
    assert all == page.events + all[|page.events|..];
    assert WalkOver(logs, limit, maxBytes, after, before) == page.events + rest;
    forall row | row in all && row in logs[|logs| - 1].rows
      ensures row in page.events + rest
    {
      if row !in page.events {
        assert row in all[|page.events|..];
        MatchedIsRow(logs[0].rows, after, page.nextBefore, row);
        RetainedThroughout(logs, row);
        MatchedIsRow(logs[1].rows, after, page.nextBefore, row);
      }
    }
  }

  lemma NextPage(logs: seq<Log>, limit: nat, maxBytes: nat, after: int, before: Option<nat>)
    requires Moving(logs) && |logs| > 1 && limit >= 1
    requires Snapshot(logs[0].rows, limit, maxBytes, after, before).nextBefore.Some?
    ensures
      var page := Snapshot(logs[0].rows, limit, maxBytes, after, before);
      Matching(logs[0].rows, true, after, page.nextBefore) == Matching(logs[0].rows, true, after, before)[|page.events|..]
    ensures Ordered(logs[0].rows) && Ordered(logs[1].rows)
  {
    NextPageContinues(logs[0].rows, limit, maxBytes, after, before);
  }
}
