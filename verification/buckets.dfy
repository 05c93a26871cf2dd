/** Splitting a time range into series buckets that start at local hours, midnights, weeks or months of a
    time zone. */
module Buckets {
  import opened Options
  import opened Calendar

  /** Instants in milliseconds; both ends belong to the range. */
  datatype Range = Range(from: int, to: int)

  datatype Bucket = Hours(step: nat) | Day | Week | Month

  /** The sub-day widths in use. */
  predicate ValidBucket(b: Bucket) { b.Hours? ==> b.step in {2, 4, 6} }

  const DAY_MS: int := 86_400_000
  const HOUR_MS: int := 3_600_000

  /** A time zone: the local date of an instant, and the instant a local hour of a date starts (hour 24
      being the next date's start). Dates are day numbers. */
  datatype Zone = Zone(dateAt: int -> int, hourStart: (int, int) -> int)

  function DayStart(z: Zone, date: int): int { z.hourStart(date, 0) }

  /** Every instant lies between the start of its local date and the start of the next, and local hours
      start in order. */
  ghost predicate Regular(z: Zone) {
    && (forall t :: z.hourStart(z.dateAt(t), 0) <= t < z.hourStart(z.dateAt(t) + 1, 0))
    && (forall date, h, k :: 0 <= h <= k <= 24 ==> z.hourStart(date, h) <= z.hourStart(date, k))
    && forall date :: z.hourStart(date, 24) == z.hourStart(date + 1, 0)
  }

  const UTC: Zone := Zone((t: int) => t / DAY_MS, (date: int, hour: int) => date * DAY_MS + hour * HOUR_MS)

  lemma UtcIsRegular()
    ensures Regular(UTC)
  {
    forall t
      ensures UTC.hourStart(UTC.dateAt(t), 0) <= t < UTC.hourStart(UTC.dateAt(t) + 1, 0)
    {
    }
  }

  lemma {:induction false} DaysStartInOrder(z: Zone, d: int, e: int)
    requires Regular(z) && d <= e
    ensures DayStart(z, d) <= DayStart(z, e)
    decreases e - d
  {
    if d < e {
      DaysStartInOrder(z, d, e - 1);
      assert z.hourStart(e - 1, 24) == z.hourStart(e - 1 + 1, 0);
    }
  }

  /** The next bucket's first date. */
  function Advance(date: int, b: Bucket): int {
    match b
    case Hours(_) => date + 1
    case Day => date + 1
    case Week => date + 7
    case Month => NextMonth(date)
  }

  lemma AdvanceMovesOn(date: int, b: Bucket)
    ensures Advance(date, b) > date
  {
    if b.Month? {
      NextMonthAdvances(date);
    }
  }

  // ----- what a split should be

  /** Consecutive intervals from `from` to `to` with nothing between, before or after them. An interval
      may be empty (a local date the zone skips), never reversed further. */
  ghost predicate Tiles(ranges: seq<Range>, from: int, to: int) {
    && |ranges| > 0 && ranges[0].from == from && ranges[|ranges| - 1].to == to
    && (forall i :: 0 <= i < |ranges| ==> ranges[i].from <= ranges[i].to + 1)
    && forall i :: 0 <= i < |ranges| - 1 ==> ranges[i + 1].from == ranges[i].to + 1
  }

  ghost predicate NoneEmpty(ranges: seq<Range>) {
    forall i :: 0 <= i < |ranges| ==> ranges[i].from <= ranges[i].to
  }

  function Max(a: int, b: int): int { if a >= b then a else b }

  function Min(a: int, b: int): int { if a <= b then a else b }

  function Clip(start: int, end: int, range: Range): Range { Range(Max(start, range.from), Min(end, range.to)) }

  /** The first date of the `i`-th bucket. */
  function Nth(first: int, b: Bucket, i: nat): int {
    if i == 0 then first else Advance(Nth(first, b, i - 1), b)
  }

  /** The `i`-th range runs from the start of the `i`-th bucket's first date to just before the next
      bucket's, clipped to the whole range. */
  ghost predicate OnDates(ranges: seq<Range>, range: Range, b: Bucket, z: Zone) {
    forall i: nat {:trigger ranges[i]} :: i < |ranges| ==>
      ranges[i] == Clip(DayStart(z, Nth(z.dateAt(range.from), b, i)), DayStart(z, Nth(z.dateAt(range.from), b, i + 1)) - 1, range)
  }

  /** A range is one cell of the local clock's grid, clipped to the whole range. */
  ghost predicate Cell(r: Range, range: Range, step: nat, z: Zone) {
    exists date, hour :: CellAt(r, range, step, z, date, hour)
  }

  ghost predicate CellAt(r: Range, range: Range, step: nat, z: Zone, date: int, hour: int) {
    step > 0 && 0 <= hour < 24 && hour % step == 0 && r == Clip(z.hourStart(date, hour), z.hourStart(date, hour + step) - 1, range)
  }

  /** Tiles so far: they end just before the cursor, which is past `from`, or the cursor is the start of
      the first bucket. */
  ghost predicate TilesUpTo(ranges: seq<Range>, from: int, to: int, cursor: int) {
    if ranges == [] then cursor <= from
    else if cursor <= to then from < cursor && Tiles(ranges, from, cursor - 1)
    else Tiles(ranges, from, to)
  }

  lemma TileGrows(ranges: seq<Range>, from: int, to: int, cursor: int, next: int)
    requires from <= to && cursor <= to && cursor <= next && (ranges == [] ==> from < next)
    requires TilesUpTo(ranges, from, to, cursor)
    ensures TilesUpTo(ranges + [Range(Max(cursor, from), Min(next - 1, to))], from, to, next)
  {
  }

  /** Day, week and month buckets. */
  method BucketRanges(range: Range, b: Bucket, z: Zone) returns (ranges: seq<Range>)
    requires Regular(z) && ValidBucket(b)
    ensures range.to < range.from ==> ranges == []
    ensures range.from <= range.to ==> Tiles(ranges, range.from, range.to)
    ensures !b.Hours? ==> OnDates(ranges, range, b, z)
    ensures !b.Hours? && ranges != [] ==>
              exists dates :: StepDates(dates, b, z.dateAt(range.from)) && BeginOn(ranges, dates, range, z)
    ensures b.Hours? ==> OnGrid(ranges, range, b.step, z)
  {
    hide Regular, Tiles, OnDates, OnGrid, Clip, Advance, Nth;
    ranges := [];
    if b.Hours? {
      ranges := SubDayBucketRanges(range, b.step, z);
      return;
    }
    NoBuckets(range, b, z);
    if range.to < range.from {
      return;
    }
    var cursorDate := z.dateAt(range.from);
    var cursor := DayStart(z, cursorDate);
    while cursor <= range.to
      invariant cursor == DayStart(z, cursorDate) && cursorDate == Nth(z.dateAt(range.from), b, |ranges|)
      invariant TilesUpTo(ranges, range.from, range.to, cursor) && OnDates(ranges, range, b, z)
      decreases z.dateAt(range.to) - cursorDate
    {
      var nextDate := Advance(cursorDate, b);
      var next := DayStart(z, nextDate);
      OneMoreBucket(range, b, z, ranges, cursorDate);
      ranges := ranges + [Clip(cursor, next - 1, range)];
      cursorDate, cursor := nextDate, next;
    }
    ghost var dates := DatesBegin(ranges, range, b, z);
  }

  /** The first dates of the buckets: the first is the local date of the range's start, and each next one
      is a day, a week of seven days, or the length of its own month later. */
  ghost predicate StepDates(dates: seq<int>, b: Bucket, first: int) {
    && dates != [] && dates[0] == first
    && forall i :: 0 <= i < |dates| - 1 ==> dates[i + 1] == dates[i] + StepDays(dates[i], b)
  }

  function StepDays(date: int, b: Bucket): int {
    match b
    case Hours(_) => 1
    case Day => 1
    case Week => 7
    case Month => DaysInMonth(Civil(date).year, Civil(date).month)
  }

  /** Each range begins where its bucket's first date does, but the first one where the whole range does. */
  ghost predicate BeginOn(ranges: seq<Range>, dates: seq<int>, range: Range, z: Zone) {
    |dates| == |ranges| && forall i :: 0 <= i < |ranges| ==> ranges[i].from == if i == 0 then range.from else z.hourStart(dates[i], 0)
  }

  lemma {:induction false} NthSteps(first: int, b: Bucket, n: nat) returns (dates: seq<int>)
    ensures |dates| == n + 1 && StepDates(dates, b, first) && forall i: nat :: i <= n ==> dates[i] == Nth(first, b, i)
  {
    hide Advance, StepDays;
    if n == 0 {
      dates := [first];
    } else {
      dates := NthSteps(first, b, n - 1);
      AdvanceIsStep(dates[n - 1], b);
      dates := dates + [Nth(first, b, n)];
    }
  }

  lemma AdvanceIsStep(date: int, b: Bucket)
    ensures Advance(date, b) == date + StepDays(date, b)
  {
    if b.Month? {
      NextMonthAdvances(date);
    }
  }

  lemma {:induction false} NthGrows(first: int, b: Bucket, i: nat)
    ensures Nth(first, b, i) >= first + i
  {
    if i > 0 {
      NthGrows(first, b, i - 1);
      AdvanceMovesOn(Nth(first, b, i - 1), b);
    }
  }

  lemma DatesBegin(ranges: seq<Range>, range: Range, b: Bucket, z: Zone) returns (dates: seq<int>)
    requires Regular(z) && Tiles(ranges, range.from, range.to) && OnDates(ranges, range, b, z)
    ensures StepDates(dates, b, z.dateAt(range.from)) && BeginOn(ranges, dates, range, z)
  {
    var first := z.dateAt(range.from);
    dates := NthSteps(first, b, |ranges| - 1);
    forall i: nat | 0 < i < |ranges|
      ensures ranges[i].from == z.hourStart(dates[i], 0)
    {
      NthGrows(first, b, i);
      DaysStartInOrder(z, first + 1, dates[i]);
      assert dates[i] == Nth(first, b, i);
    }
  }

  lemma NoBuckets(range: Range, b: Bucket, z: Zone)
    requires Regular(z)
    ensures OnDates([], range, b, z) && Nth(z.dateAt(range.from), b, 0) == z.dateAt(range.from)
    ensures TilesUpTo([], range.from, range.to, DayStart(z, z.dateAt(range.from)))
  {
  }

  lemma OneMoreBucket(range: Range, b: Bucket, z: Zone, ranges: seq<Range>, date: int)
    requires Regular(z) && range.from <= range.to && DayStart(z, date) <= range.to
    requires date == Nth(z.dateAt(range.from), b, |ranges|)
    requires TilesUpTo(ranges, range.from, range.to, DayStart(z, date)) && OnDates(ranges, range, b, z)
    ensures Advance(date, b) > date && date <= z.dateAt(range.to) && Advance(date, b) == Nth(z.dateAt(range.from), b, |ranges| + 1)
    ensures var next := ranges + [Clip(DayStart(z, date), DayStart(z, Advance(date, b)) - 1, range)];
            TilesUpTo(next, range.from, range.to, DayStart(z, Advance(date, b))) && OnDates(next, range, b, z)
  {
    hide Regular, Tiles, TilesUpTo, OnDates;
    DatesGrow(range, b, z, ranges, date);
    DateNotPast(z, date, range.to);
    AdvanceMovesOn(date, b);
    DaysStartInOrder(z, date, Advance(date, b));
    FirstBucketPassesFrom(range, z, ranges, date, Advance(date, b));
    TileGrows(ranges, range.from, range.to, DayStart(z, date), DayStart(z, Advance(date, b)));
  }

  lemma DatesGrow(range: Range, b: Bucket, z: Zone, ranges: seq<Range>, date: int)
    requires date == Nth(z.dateAt(range.from), b, |ranges|) && OnDates(ranges, range, b, z)
    ensures Advance(date, b) == Nth(z.dateAt(range.from), b, |ranges| + 1)
    ensures OnDates(ranges + [Clip(DayStart(z, date), DayStart(z, Advance(date, b)) - 1, range)], range, b, z)
  {
    hide Clip, Advance, DayStart;
  }

  lemma FirstBucketPassesFrom(range: Range, z: Zone, ranges: seq<Range>, date: int, next: int)
    requires Regular(z) && date < next && (ranges == [] ==> date == z.dateAt(range.from))
    ensures ranges == [] ==> range.from < DayStart(z, next)
  {
    DaysStartInOrder(z, date + 1, next);
  }

  /** A date that has started by `t` is not after the date of `t`. */
  lemma DateNotPast(z: Zone, date: int, t: int)
    requires Regular(z) && DayStart(z, date) <= t
    ensures date <= z.dateAt(t)
  {
    if date > z.dateAt(t) {
      DaysStartInOrder(z, z.dateAt(t) + 1, date);
    }
  }

  ghost predicate OnGrid(ranges: seq<Range>, range: Range, step: nat, z: Zone) {
    NoneEmpty(ranges) && forall i :: 0 <= i < |ranges| ==> Cell(ranges[i], range, step, z)
  }

  /** Sub-day buckets follow the local clock; only the non-empty ones are kept. */
  method SubDayBucketRanges(range: Range, step: nat, z: Zone) returns (ranges: seq<Range>)
    requires Regular(z) && step in {2, 4, 6}
    ensures range.to < range.from ==> ranges == []
    ensures range.from <= range.to ==> Tiles(ranges, range.from, range.to)
    ensures OnGrid(ranges, range, step, z)
  {
    hide Regular, Tiles, OnGrid, Clip;
    ranges := [];
    NoCells(range, step, z);
    if range.to < range.from {
      return;
    }
    var cursorDate := z.dateAt(range.from);
    while true
      invariant TilesUpTo(ranges, range.from, range.to, DayStart(z, cursorDate)) && OnGrid(ranges, range, step, z)
      decreases z.dateAt(range.to) - cursorDate
    {
      var hour := 0;
      while hour < 24
        invariant 0 <= hour <= 24 && hour % step == 0 && (hour > 0 ==> DayStart(z, cursorDate) <= range.to)
        invariant TilesUpTo(ranges, range.from, range.to, z.hourStart(cursorDate, hour)) && OnGrid(ranges, range, step, z)
      {
        var start := z.hourStart(cursorDate, hour);
        if start > range.to {
          return;
        }
        OneMoreCell(range, step, z, ranges, cursorDate, hour);
        var cell := Clip(start, z.hourStart(cursorDate, hour + step) - 1, range);
        if cell.from <= cell.to {
          ranges := ranges + [cell];
        }
        hour := hour + step;
      }
      DateNotPast(z, cursorDate, range.to);
      DayEnds(z, cursorDate);
      cursorDate := cursorDate + 1;
    }
  }

  lemma DayEnds(z: Zone, date: int)
    requires Regular(z)
    ensures z.hourStart(date, 24) == DayStart(z, date + 1)
  {
  }

  lemma NoCells(range: Range, step: nat, z: Zone)
    requires Regular(z)
    ensures OnGrid([], range, step, z)
    ensures TilesUpTo([], range.from, range.to, DayStart(z, z.dateAt(range.from)))
  {
  }

  lemma OneMoreCell(range: Range, step: nat, z: Zone, ranges: seq<Range>, date: int, hour: nat)
    requires Regular(z) && range.from <= range.to && step in {2, 4, 6} && hour < 24 && hour % step == 0
    requires z.hourStart(date, hour) <= range.to
    requires TilesUpTo(ranges, range.from, range.to, z.hourStart(date, hour)) && OnGrid(ranges, range, step, z)
    ensures hour + step <= 24 && (hour + step) % step == 0
    ensures var cell := Clip(z.hourStart(date, hour), z.hourStart(date, hour + step) - 1, range);
            var next := if cell.from <= cell.to then ranges + [cell] else ranges;
            TilesUpTo(next, range.from, range.to, z.hourStart(date, hour + step)) && OnGrid(next, range, step, z)
  {
    hide Regular, Tiles, TilesUpTo, OnGrid, Clip;
    HourFits(hour, step);
    HoursInOrder(z, date, hour, hour + step);
    CellsGrow(range, step, z, ranges, date, hour);
    CellTiles(ranges, range, z.hourStart(date, hour), z.hourStart(date, hour + step));
  }

  lemma HoursInOrder(z: Zone, date: int, h: nat, k: nat)
    requires Regular(z) && h <= k <= 24
    ensures z.hourStart(date, h) <= z.hourStart(date, k)
  {
  }

  lemma CellsGrow(range: Range, step: nat, z: Zone, ranges: seq<Range>, date: int, hour: nat)
    requires OnGrid(ranges, range, step, z) && step > 0 && hour < 24 && hour % step == 0
    ensures var cell := Clip(z.hourStart(date, hour), z.hourStart(date, hour + step) - 1, range);
            OnGrid(if cell.from <= cell.to then ranges + [cell] else ranges, range, step, z)
  {
    hide Clip;
    assert CellAt(Clip(z.hourStart(date, hour), z.hourStart(date, hour + step) - 1, range), range, step, z, date, hour);
  }

  lemma CellTiles(ranges: seq<Range>, range: Range, start: int, next: int)
    requires range.from <= range.to && start <= range.to && start <= next
    requires TilesUpTo(ranges, range.from, range.to, start)
    ensures var cell := Clip(start, next - 1, range);
            TilesUpTo(if cell.from <= cell.to then ranges + [cell] else ranges, range.from, range.to, next)
  {
    if ranges == [] && next <= range.from {
    } else {
      TileGrows(ranges, range.from, range.to, start, next);
    }
  }

  lemma HourFits(hour: nat, step: nat)
    requires hour < 24 && step in {2, 4, 6} && hour % step == 0
    ensures hour + step <= 24 && (hour + step) % step == 0
  {
  }

  // ----- each instant is in exactly one bucket

  predicate In(t: Option<int>, range: Range) { t.Some? && range.from <= t.value <= range.to }

  function Hits(t: Option<int>, ranges: seq<Range>): nat {
    if ranges == [] then 0
    else Hits(t, ranges[..|ranges| - 1]) + if In(t, ranges[|ranges| - 1]) then 1 else 0
  }

  lemma TilesWithoutLast(ranges: seq<Range>, from: int, to: int)
    requires Tiles(ranges, from, to) && |ranges| > 1
    ensures Tiles(ranges[..|ranges| - 1], from, ranges[|ranges| - 1].from - 1)
  {
  }

  lemma {:induction false} TilesAreForward(ranges: seq<Range>, from: int, to: int)
    requires Tiles(ranges, from, to)
    ensures from <= to + 1
  {
    if |ranges| > 1 {
      TilesWithoutLast(ranges, from, to);
      TilesAreForward(ranges[..|ranges| - 1], from, ranges[|ranges| - 1].from - 1);
    }
  }

  lemma {:induction false} EachInstantOnce(ranges: seq<Range>, from: int, to: int, t: Option<int>)
    requires Tiles(ranges, from, to)
    ensures Hits(t, ranges) == if In(t, Range(from, to)) then 1 else 0
  {
    var front := ranges[..|ranges| - 1];
    if |ranges| == 1 {
      assert Hits(t, front) == 0;
    } else {
      TilesWithoutLast(ranges, from, to);
      TilesAreForward(front, from, ranges[|ranges| - 1].from - 1);
      EachInstantOnce(front, from, ranges[|ranges| - 1].from - 1, t);
    }
  }
}
