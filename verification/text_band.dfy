/** Reading activities of a range in two layers: a coarse band over the text that an index can scan, then
    the exact instants. */
module TextBand {
  import opened Options
  import opened Calendar
  import opened Texts

  const DAY_MS: int := 86_400_000
  const MINUTE_MS: int := 60_000

  /** How far the band is widened on both sides. */
  const COARSE_MARGIN_MS: int := 48 * 3_600_000

  /** The largest magnitude of a JavaScript time value. */
  const MAX_TIME: int := 8_640_000_000_000_000

  // ----- text

  /** Byte order. The text is digits and punctuation: SQLite compares it so, and so does Postgres under the
      C collation. */
  predicate Leq(a: string, b: string) {
    a == "" || (b != "" && (a[0] < b[0] || (a[0] == b[0] && Leq(a[1..], b[1..]))))
  }

  /** `YYYY-MM-DD`. */
  function DateText(d: Date): string
    requires Valid(d) && 0 <= d.year <= 9999
  {
    Digits(d.year, 4) + "-" + Digits(d.month, 2) + "-" + Digits(d.day, 2)
  }

  function TimeText(ms: nat): string {
    "T" + Digits(ms / 3_600_000, 2) + ":" + Digits(ms / MINUTE_MS % 60, 2) + ":" + Digits(ms / 1000 % 60, 2) + "." + Digits(ms % 1000, 3) + "Z"
  }

  /** `toISOString`: four-digit years plain, others signed with six digits; none outside the time range. */
  function IsoText(ms: int): Option<string> {
    if ms < -MAX_TIME || ms > MAX_TIME then None
    else
      var d := Civil(ms / DAY_MS);
      var rest := "-" + Digits(d.month, 2) + "-" + Digits(d.day, 2) + TimeText(ms % DAY_MS);
      Some(if 0 <= d.year <= 9999 then DateText(d) + TimeText(ms % DAY_MS)
           else if d.year > 9999 then "+" + Digits(d.year, 6) + rest
           else "-" + Digits(-d.year, 6) + rest)
  }

  /** A stored timestamp as RFC 3339 (section 5.6) writes it: a four-digit-year local date, then time of
      day and offset as text. `offset` is in minutes east of UTC; a leap second may end the day. */
  datatype Row = Row(date: Date, rest: string, timeOfDay: int, offset: int)

  predicate WellFormed(row: Row) {
    && Valid(row.date) && 0 <= row.date.year <= 9999
    && 0 <= row.timeOfDay < DAY_MS + 1000 && -14 * 60 <= row.offset <= 14 * 60
  }

  function RowText(row: Row): string
    requires WellFormed(row)
  {
    DateText(row.date) + row.rest
  }

  function Instant(row: Row): int
    requires WellFormed(row)
  {
    DayNumber(row.date) * DAY_MS + row.timeOfDay - row.offset * MINUTE_MS
  }

  // ----- the band

  datatype Band = Band(coarseFrom: string, coarseTo: string, from: int, to: int)

  /** None stands for the error thrown on an unparseable end, or one too close to the end of time. */
  function ActivityRangeBounds(from: Option<int>, to: Option<int>): Option<Band> {
    if from.None? || to.None? then None
    else
      var low, high := IsoText(from.value - COARSE_MARGIN_MS), IsoText(to.value + COARSE_MARGIN_MS);
      if low.None? || high.None? then None else Some(Band(low.value, high.value, from.value, to.value))
  }

  predicate InBand(row: Row, band: Band)
    requires WellFormed(row)
  {
    Leq(band.coarseFrom, RowText(row)) && Leq(RowText(row), band.coarseTo)
  }

  predicate InRange(row: Row, from: int, to: int)
    requires WellFormed(row)
  {
    from <= Instant(row) <= to
  }

  ghost predicate AllWellFormed(rows: seq<Row>) { forall i :: 0 <= i < |rows| ==> WellFormed(rows[i]) }

  /** What an instant filter alone selects. */
  function RowsInRange(rows: seq<Row>, from: int, to: int): seq<Row>
    requires AllWellFormed(rows)
  {
    if rows == [] then []
    else RowsInRange(rows[..|rows| - 1], from, to) + if InRange(rows[|rows| - 1], from, to) then [rows[|rows| - 1]] else []
  }

  /** What the two layers select. */
  function ListActivitiesInRange(rows: seq<Row>, band: Band): seq<Row>
    requires AllWellFormed(rows)
  {
    if rows == [] then []
    else
      var last := rows[|rows| - 1];
      ListActivitiesInRange(rows[..|rows| - 1], band) + if InBand(last, band) && InRange(last, band.from, band.to) then [last] else []
  }

  /** Two rows name the same instant exactly when their local times differ by as much as their offsets: a
      clock east of UTC shows a later time. */
  lemma SameInstantExactlyWhen(r: Row, s: Row)
    requires WellFormed(r) && WellFormed(s)
    ensures Instant(r) == Instant(s) <==>
            (DayNumber(r.date) - DayNumber(s.date)) * 86_400_000 + r.timeOfDay - s.timeOfDay == (r.offset - s.offset) * 60_000
  {
  }

  /** With a UTC clock an instant is the day's start and the time of day. */
  lemma UtcInstant(row: Row)
    requires WellFormed(row) && row.offset == 0
    ensures Instant(row) == DayNumber(row.date) * 86_400_000 + row.timeOfDay
  {
  }

  /** The instant filter keeps the rows from one end to the other, both included, in their order. */
  lemma {:induction false} RangeKeepsRow(left: seq<Row>, row: Row, from: int, to: int)
    requires AllWellFormed(left) && WellFormed(row)
    ensures RowsInRange(left + [row], from, to) == RowsInRange(left, from, to) + if from <= Instant(row) && Instant(row) <= to then [row] else []
  {
    assert (left + [row])[..|left|] == left;
  }

  /** A time of day is written as its hours, minutes, seconds and milliseconds. */
  lemma TimeTextIs(at: nat, hours: nat, minutes: nat, seconds: nat, ms: nat)
    requires hours < 24 && minutes < 60 && seconds < 60 && ms < 1000 && at == ((hours * 60 + minutes) * 60 + seconds) * 1000 + ms
    ensures TimeText(at) == "T" + Digits(hours, 2) + ":" + Digits(minutes, 2) + ":" + Digits(seconds, 2) + "." + Digits(ms, 3) + "Z"
  {
    hide Digits, TimeText;
    ClockParts(at, hours, minutes, seconds, ms);
    PartsAreWritten(at, hours, minutes, seconds, ms);
  }

  lemma PartsAreWritten(at: nat, hours: nat, minutes: nat, seconds: nat, ms: nat)
    requires at / 3_600_000 == hours && at / MINUTE_MS % 60 == minutes && at / 1000 % 60 == seconds && at % 1000 == ms
    ensures TimeText(at) == "T" + Digits(hours, 2) + ":" + Digits(minutes, 2) + ":" + Digits(seconds, 2) + "." + Digits(ms, 3) + "Z"
  {
    hide Digits;
  }

  lemma ClockParts(at: nat, hours: nat, minutes: nat, seconds: nat, ms: nat)
    requires minutes < 60 && seconds < 60 && ms < 1000 && at == ((hours * 60 + minutes) * 60 + seconds) * 1000 + ms
    ensures at / 3_600_000 == hours && at / MINUTE_MS == hours * 60 + minutes && at / MINUTE_MS % 60 == minutes
    ensures at / 1000 == (hours * 60 + minutes) * 60 + seconds && at / 1000 % 60 == seconds && at % 1000 == ms
  {
    assert at == 1000 * ((hours * 60 + minutes) * 60 + seconds) + ms;
    assert at == 60_000 * (hours * 60 + minutes) + (seconds * 1000 + ms) && seconds * 1000 + ms < 60_000;
    assert at == 3_600_000 * hours + (minutes * 60_000 + seconds * 1000 + ms) && minutes * 60_000 + seconds * 1000 + ms < 3_600_000;
  }

  /** A date's text reads back as its year, month and day. */
  lemma DateTextReads(d: Date)
    requires Valid(d) && 0 <= d.year <= 9999
    ensures var text := DateText(d);
            && |text| == 10 && text[4] == '-' && text[7] == '-'
            && AllDigits(text[..4]) && AllDigits(text[5..7]) && AllDigits(text[8..])
            && Value(text[..4]) == d.year && Value(text[5..7]) == d.month && Value(text[8..]) == d.day
  {
    hide Digits, Value;
    var text := DateText(d);
    Powers();
    ValueOfDigits(d.year, 4);
    ValueOfDigits(d.month, 2);
    ValueOfDigits(d.day, 2);
    assert text[..4] == Digits(d.year, 4) && text[5..7] == Digits(d.month, 2) && text[8..] == Digits(d.day, 2);
  }

  /** There is a band unless an end cannot be parsed or, widened by two days, leaves the range of times. */
  lemma BandExistsExactlyWhen(from: Option<int>, to: Option<int>)
    ensures ActivityRangeBounds(from, to).Some? <==>
            && from.Some? && to.Some?
            && -8_640_000_000_000_000 <= from.value - 172_800_000 <= 8_640_000_000_000_000
            && -8_640_000_000_000_000 <= to.value + 172_800_000 <= 8_640_000_000_000_000
  {
  }

  // ----- text order and date order

  /** The texts first differ at `k`, where `a` is smaller. */
  predicate LessAt(a: string, b: string, k: nat) {
    k < |a| && k < |b| && a[..k] == b[..k] && a[k] < b[k]
  }

  lemma {:induction false} LessAtDecides(a: string, b: string, k: nat)
    requires LessAt(a, b, k)
    ensures Leq(a, b) && !Leq(b, a)
  {
    if k > 0 {
      assert a[0] == a[..k][0] == b[..k][0] == b[0];
      assert a[1..][..k - 1] == a[..k][1..] && b[1..][..k - 1] == b[..k][1..];
      LessAtDecides(a[1..], b[1..], k - 1);
    }
  }

  lemma LessAtExtends(a: string, b: string, k: nat, before: string, x: string, y: string)
    requires LessAt(a, b, k)
    ensures LessAt(before + a + x, before + b + y, |before| + k)
  {
    var left, right := before + a + x, before + b + y;
    assert left[..|before| + k] == before + a[..k];
    assert right[..|before| + k] == before + b[..k];
  }

  lemma {:induction false} DigitsAreOrdered(n: nat, m: nat, width: nat) returns (k: nat)
    requires n < m < Pow10(width)
    ensures LessAt(Digits(n, width), Digits(m, width), k)
  {
    if n / 10 < m / 10 {
      k := DigitsAreOrdered(n / 10, m / 10, width - 1);
      LessAtExtends(Digits(n / 10, width - 1), Digits(m / 10, width - 1), k, "", [DigitChar(n % 10)], [DigitChar(m % 10)]);
      LastDigit(n, width);
      LastDigit(m, width);
    } else {
      k := width - 1;
      LastDigit(n, width);
      LastDigit(m, width);
    }
  }

  lemma LastDigit(n: nat, width: nat)
    requires width > 0
    ensures Digits(n, width) == "" + Digits(n / 10, width - 1) + [DigitChar(n % 10)]
    ensures Digits(n, width)[..width - 1] == Digits(n / 10, width - 1)
  {
  }

  /** Four-digit-year dates compare as texts the way they compare as dates, whatever follows them. */
  lemma DateTextsAreOrdered(d: Date, e: Date, x: string, y: string)
    requires Valid(d) && Valid(e) && 0 <= d.year <= 9999 && 0 <= e.year <= 9999 && Before(d, e)
    ensures Leq(DateText(d) + x, DateText(e) + y) && !Leq(DateText(e) + y, DateText(d) + x)
  {
    hide Leq, Digits, Pow10;
    Powers();
    var dm, em := Digits(d.month, 2), Digits(e.month, 2);
    var dd, ed := Digits(d.day, 2), Digits(e.day, 2);
    var before, a, b, left, right, k;
    if d.year < e.year {
      k := DigitsAreOrdered(d.year, e.year, 4);
      before, a, b := "", Digits(d.year, 4), Digits(e.year, 4);
      left, right := "-" + dm + "-" + dd + x, "-" + em + "-" + ed + y;
    } else if d.month < e.month {
      k := DigitsAreOrdered(d.month, e.month, 2);
      before, a, b := Digits(d.year, 4) + "-", dm, em;
      left, right := "-" + dd + x, "-" + ed + y;
    } else {
      k := DigitsAreOrdered(d.day, e.day, 2);
      before, a, b := Digits(d.year, 4) + "-" + dm + "-", dd, ed;
      left, right := x, y;
    }
    LessAtExtends(a, b, k, before, left, right);
    assert before + a + left == DateText(d) + x;
    assert before + b + right == DateText(e) + y;
    LessAtDecides(DateText(d) + x, DateText(e) + y, |before| + k);
  }

  lemma Powers()
    ensures Pow10(2) == 100 && Pow10(4) == 10000
  {
    assert Pow10(1) == 10 && Pow10(3) == 10 * Pow10(2);
  }

  /** Signed years sort before every row's text. */
  lemma SignsComeFirst(row: Row, text: string)
    requires WellFormed(row) && text != "" && (text[0] == '+' || text[0] == '-')
    ensures Leq(text, RowText(row)) && !Leq(RowText(row), text)
  {
    assert RowText(row)[0] == Digits(row.date.year, 4)[0];
  }

  // ----- the margin

  /** A row at or after `from` has a later local date than the coarse bound. */
  lemma LowDateIsEarlier(row: Row, from: int)
    requires WellFormed(row) && from <= Instant(row)
    ensures Before(Civil((from - COARSE_MARGIN_MS) / DAY_MS), row.date)
  {
    var n := (from - COARSE_MARGIN_MS) / DAY_MS;
    CivilIsInverse(n, row.date);
    DayOrderIsDateOrder(Civil(n), row.date);
    LowDayIsEarlier(DayNumber(row.date), row.timeOfDay, row.offset, from);
  }

  lemma LowDayIsEarlier(day: int, timeOfDay: int, offset: int, from: int)
    requires timeOfDay < DAY_MS + 1000 && -14 * 60 <= offset && from <= day * DAY_MS + timeOfDay - offset * MINUTE_MS
    ensures (from - COARSE_MARGIN_MS) / DAY_MS < day
  {
    assert from - COARSE_MARGIN_MS < day * DAY_MS;
  }

  /** A row at or before `to` has an earlier local date than the coarse bound. */
  lemma HighDateIsLater(row: Row, to: int)
    requires WellFormed(row) && Instant(row) <= to
    ensures Before(row.date, Civil((to + COARSE_MARGIN_MS) / DAY_MS))
  {
    var n := (to + COARSE_MARGIN_MS) / DAY_MS;
    CivilIsInverse(n, row.date);
    DayOrderIsDateOrder(row.date, Civil(n));
    HighDayIsLater(DayNumber(row.date), row.timeOfDay, row.offset, to);
  }

  lemma HighDayIsLater(day: int, timeOfDay: int, offset: int, to: int)
    requires 0 <= timeOfDay && offset <= 14 * 60 && day * DAY_MS + timeOfDay - offset * MINUTE_MS <= to
    ensures day < (to + COARSE_MARGIN_MS) / DAY_MS
  {
    assert (day + 1) * DAY_MS <= to + COARSE_MARGIN_MS;
  }

  // ----- exactness

  /** The upper coarse bound still has a four-digit year. */
  predicate EndsBeforeYear10000(to: int) { Civil((to + COARSE_MARGIN_MS) / DAY_MS).year <= 9999 }

  /** It does when `to` is more than the margin before the year 10000. */
  lemma Year10000(to: int)
    ensures EndsBeforeYear10000(to) <==> to + 48 * 3_600_000 < DayNumber(Date(10000, 1, 1)) * 86_400_000
  {
    var n := (to + COARSE_MARGIN_MS) / DAY_MS;
    CivilIsInverse(n, Date(10000, 1, 1));
    DayOrderIsDateOrder(Civil(n), Date(10000, 1, 1));
  }

  lemma LowBoundPasses(row: Row, from: int)
    requires WellFormed(row) && from <= Instant(row) && IsoText(from - COARSE_MARGIN_MS).Some?
    ensures Leq(IsoText(from - COARSE_MARGIN_MS).value, RowText(row))
  {
    hide Leq, Digits;
    var ms := from - COARSE_MARGIN_MS;
    var d := Civil(ms / DAY_MS);
    LowDateIsEarlier(row, from);
    if 0 <= d.year {
      DateTextsAreOrdered(d, row.date, TimeText(ms % DAY_MS), row.rest);
    } else {
      SignsComeFirst(row, IsoText(ms).value);
    }
  }

  lemma HighBoundPassesExactlyWhen(row: Row, to: int)
    requires WellFormed(row) && Instant(row) <= to && IsoText(to + COARSE_MARGIN_MS).Some?
    ensures Leq(RowText(row), IsoText(to + COARSE_MARGIN_MS).value) <==> EndsBeforeYear10000(to)
  {
    hide Leq, Digits;
    var ms := to + COARSE_MARGIN_MS;
    var d := Civil(ms / DAY_MS);
    HighDateIsLater(row, to);
    if d.year <= 9999 {
      DateTextsAreOrdered(row.date, d, row.rest, TimeText(ms % DAY_MS));
    } else {
      SignsComeFirst(row, IsoText(ms).value);
    }
  }

  /** A row whose instant is in range passes the band if and only if the upper bound has a four-digit
      year. */
  lemma BandKeepsRowExactlyWhen(row: Row, from: int, to: int, band: Band)
    requires WellFormed(row) && InRange(row, from, to) && ActivityRangeBounds(Some(from), Some(to)) == Some(band)
    ensures InBand(row, band) <==> EndsBeforeYear10000(to)
  {
    hide Leq, IsoText;
    LowBoundPasses(row, from);
    HighBoundPassesExactlyWhen(row, to);
  }

  /** The two-layer read selects exactly what the instant filter selects, in the same order, if and only
      if the upper bound has a four-digit year or nothing is in range. */
  lemma {:induction false} TwoLayersAreExactWhen(rows: seq<Row>, from: int, to: int, band: Band)
    requires AllWellFormed(rows) && ActivityRangeBounds(Some(from), Some(to)) == Some(band)
    ensures ListActivitiesInRange(rows, band) == RowsInRange(rows, from, to) <==>
            EndsBeforeYear10000(to) || RowsInRange(rows, from, to) == []
    ensures !EndsBeforeYear10000(to) ==> ListActivitiesInRange(rows, band) == []
  {
    hide IsoText, InBand, InRange, EndsBeforeYear10000;
    assert band.from == from && band.to == to;
    if rows != [] {
      TwoLayersAreExactWhen(rows[..|rows| - 1], from, to, band);
      var last := rows[|rows| - 1];
      if InRange(last, from, to) {
        BandKeepsRowExactlyWhen(last, from, to, band);
      }
    }
  }

  /** A range that reaches into the last two days of 9999 loses every row it should find. */
  lemma EndOf9999LosesRows(row: Row, from: int, to: int, band: Band)
    requires to == DayNumber(Date(9999, 12, 31)) * DAY_MS && row == Row(Date(9999, 12, 30), "T12:00:00Z", 43_200_000, 0)
    requires from == to - DAY_MS && ActivityRangeBounds(Some(from), Some(to)) == Some(band)
    ensures RowsInRange([row], from, to) == [row] && ListActivitiesInRange([row], band) == []
  {
    hide IsoText;
    assert DayNumber(Date(9999, 12, 31)) == DayNumber(Date(9999, 12, 30)) + 1;
    YearStep(9999);
    YearIsItsMonths(9999);
    assert DayNumber(Date(10000, 1, 1)) == DayNumber(Date(9999, 12, 31)) + 1;
    Year10000(to);
    TwoLayersAreExactWhen([row], from, to, band);
    assert [row][..0] == [];
  }
}
