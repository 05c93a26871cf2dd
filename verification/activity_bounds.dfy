/** The write-maintained cache of each repository's earliest and latest activity. */
module ActivityBounds {
  // Dirty buckets are recomputed at the end of a transaction, or at once outside one.
  import opened Options

  type Project = Option<string>

  /** The bucket's rows as the refresh reads them: the id breaks ties between equal instants. */
  datatype InstantRow = InstantRow(id: nat, at: string)

  datatype Extent = Extent(since: string, last: string)

  /** The instant a timestamp text stands for; none when the text cannot be parsed. */
  type Clock = string -> Option<int>

  // ----- the two selections

  predicate Dated(clock: Clock, row: InstantRow) { clock(row.at).Some? }

  /** By instant, then by id; both rows must have an instant. */
  predicate Before(clock: Clock, x: InstantRow, y: InstantRow) {
    && Dated(clock, x) && Dated(clock, y)
    && (clock(x.at).value < clock(y.at).value || (clock(x.at).value == clock(y.at).value && x.id < y.id))
  }

  ghost predicate Earliest(clock: Clock, rows: set<InstantRow>, x: InstantRow) {
    x in rows && Dated(clock, x) && forall y :: y in rows && Dated(clock, y) && y != x ==> Before(clock, x, y)
  }

  ghost predicate Latest(clock: Clock, rows: set<InstantRow>, x: InstantRow) {
    x in rows && Dated(clock, x) && forall y :: y in rows && Dated(clock, y) && y != x ==> Before(clock, y, x)
  }

  /** What the cache should hold for a bucket with these rows: nothing when no row has an instant, else
      the texts of the first and the last row, ties going to the smaller and to the larger id. */
  ghost predicate Extremes(clock: Clock, rows: set<InstantRow>, extent: Option<Extent>) {
    match extent
    case None => forall x :: x in rows ==> !Dated(clock, x)
    case Some(e) =>
      && (exists x :: Earliest(clock, rows, x) && x.at == e.since)
      && (exists x :: Latest(clock, rows, x) && x.at == e.last)
  }

  lemma ExtremesAreUnique(clock: Clock, rows: set<InstantRow>, one: Option<Extent>, two: Option<Extent>)
    requires Extremes(clock, rows, one) && Extremes(clock, rows, two)
    ensures one == two
  {
  }

  ghost predicate DistinctIds(rows: seq<InstantRow>) {
    forall i, j :: 0 <= i < j < |rows| ==> rows[i].id != rows[j].id
  }

  ghost function Elements(rows: seq<InstantRow>): set<InstantRow> { set x | x in rows }

  /** The Postgres driver's loop over a bucket's rows, with running minimum and maximum. */
  method BoundsFromRows(clock: Clock, rows: seq<InstantRow>) returns (extent: Option<Extent>)
    requires DistinctIds(rows)
    ensures Extremes(clock, Elements(rows), extent)
    ensures extent.None? <==> forall x :: x in rows ==> clock(x.at).None?
    ensures extent.Some? ==> FirstOf(clock, rows, extent.value.since) && LastOf(clock, rows, extent.value.last)
  {
    var first, last: Option<InstantRow> := None, None;
    var i := 0;
    while i < |rows|
      invariant 0 <= i <= |rows|
      invariant Running(clock, Elements(rows[..i]), first, last)
    {
      var row := rows[i];
      assert rows[..i + 1] == rows[..i] + [row];
      assert Elements(rows[..i + 1]) == Elements(rows[..i]) + {row};
      assert forall y :: y in rows[..i] ==> y.id != row.id;
      ghost var before := (first, last);
      if Dated(clock, row) {
        if first.None? || Before(clock, row, first.value) {
          first := Some(row);
        }
        if last.None? || Before(clock, last.value, row) {
          last := Some(row);
        }
      }
      RunningGrows(clock, Elements(rows[..i]), row, before.0, before.1, first, last);
      i := i + 1;
    }
    assert rows[..i] == rows;
    assert forall y :: y in rows <==> y in Elements(rows);
    if first.Some? && last.Some? {
      RunningEnds(clock, rows, first.value, last.value);
    }
    extent := if first.None? || last.None? then None else Some(Extent(first.value.at, last.value.at));
  }

  /** The text of a row no other dated row is earlier than, the smallest id among equals. */
  ghost predicate FirstOf(clock: Clock, rows: seq<InstantRow>, text: string) {
    exists x :: x in rows && x.at == text && clock(x.at).Some? && forall y :: y in rows && clock(y.at).Some? ==>
      clock(x.at).value < clock(y.at).value || (clock(x.at).value == clock(y.at).value && x.id <= y.id)
  }

  /** The text of a row no other dated row is later than, the largest id among equals. */
  ghost predicate LastOf(clock: Clock, rows: seq<InstantRow>, text: string) {
    exists x :: x in rows && x.at == text && clock(x.at).Some? && forall y :: y in rows && clock(y.at).Some? ==>
      clock(x.at).value > clock(y.at).value || (clock(x.at).value == clock(y.at).value && x.id >= y.id)
  }

  lemma RunningEnds(clock: Clock, rows: seq<InstantRow>, first: InstantRow, last: InstantRow)
    requires Earliest(clock, Elements(rows), first) && Latest(clock, Elements(rows), last)
    ensures FirstOf(clock, rows, first.at) && LastOf(clock, rows, last.at)
  {
    assert forall y :: y in rows <==> y in Elements(rows);
  }

  /** The running minimum and maximum after these rows. */
  ghost predicate Running(clock: Clock, rows: set<InstantRow>, first: Option<InstantRow>, last: Option<InstantRow>) {
    match (first, last)
    case (Some(x), Some(y)) => Earliest(clock, rows, x) && Latest(clock, rows, y)
    case _ => first.None? && last.None? && forall x :: x in rows ==> !Dated(clock, x)
  }

  lemma RunningGrows(clock: Clock, rows: set<InstantRow>, row: InstantRow,
                     first: Option<InstantRow>, last: Option<InstantRow>,
                     first': Option<InstantRow>, last': Option<InstantRow>)
    requires Running(clock, rows, first, last) && forall y :: y in rows ==> y.id != row.id
    requires first' == if Dated(clock, row) && (first.None? || Before(clock, row, first.value)) then Some(row) else first
    requires last' == if Dated(clock, row) && (last.None? || Before(clock, last.value, row)) then Some(row) else last
    ensures Running(clock, rows + {row}, first', last')
  {
  }

  /** Rows with an instant, in the order of the SQLite driver's window: by instant, then by id. */
  function OrderBy(clock: Clock, rows: seq<InstantRow>, descending: bool): (sorted: seq<InstantRow>)
    ensures forall i :: 0 <= i < |sorted| ==> Dated(clock, sorted[i])
  {
    if rows == [] then []
    else if !Dated(clock, rows[0]) then OrderBy(clock, rows[1..], descending)
    else Insert(clock, rows[0], OrderBy(clock, rows[1..], descending), descending)
  }

  function Insert(clock: Clock, row: InstantRow, sorted: seq<InstantRow>, descending: bool): (longer: seq<InstantRow>)
    requires Dated(clock, row) && forall i :: 0 <= i < |sorted| ==> Dated(clock, sorted[i])
    ensures forall i :: 0 <= i < |longer| ==> Dated(clock, longer[i])
  {
    if sorted == [] then [row]
    else if if descending then Before(clock, sorted[0], row) else Before(clock, row, sorted[0]) then [row] + sorted
    else [sorted[0]] + Insert(clock, row, sorted[1..], descending)
  }

  /** The SQLite driver's query: the first value of each of the two orders. */
  function WindowBounds(clock: Clock, rows: seq<InstantRow>): (extent: Option<Extent>) {
    var up, down := OrderBy(clock, rows, false), OrderBy(clock, rows, true);
    if up == [] || down == [] then None else Some(Extent(up[0].at, down[0].at))
  }

  ghost predicate Heads(clock: Clock, rows: set<InstantRow>, sorted: seq<InstantRow>, descending: bool) {
    if sorted == [] then forall x :: x in rows ==> !Dated(clock, x)
    else if descending then Latest(clock, rows, sorted[0])
    else Earliest(clock, rows, sorted[0])
  }

  lemma InsertHeads(clock: Clock, rows: set<InstantRow>, row: InstantRow, sorted: seq<InstantRow>, descending: bool)
    requires Dated(clock, row) && forall i :: 0 <= i < |sorted| ==> Dated(clock, sorted[i])
    requires Heads(clock, rows, sorted, descending) && forall y :: y in rows ==> y.id != row.id
    ensures Heads(clock, rows + {row}, Insert(clock, row, sorted, descending), descending)
  {
  }

  lemma {:induction false} OrderByHeads(clock: Clock, rows: seq<InstantRow>, descending: bool)
    requires DistinctIds(rows)
    ensures Heads(clock, Elements(rows), OrderBy(clock, rows, descending), descending)
  {
    if rows != [] {
      var rest := rows[1..];
      OrderByHeads(clock, rest, descending);
      assert forall y :: y in rest ==> y.id != rows[0].id;
      assert rows == [rows[0]] + rest;
      assert Elements(rows) == Elements(rest) + {rows[0]};
      if Dated(clock, rows[0]) {
        InsertHeads(clock, Elements(rest), rows[0], OrderBy(clock, rest, descending), descending);
      } else {
        UndatedHeads(clock, Elements(rest), rows[0], OrderBy(clock, rest, descending), descending);
      }
    }
  }

  lemma UndatedHeads(clock: Clock, rows: set<InstantRow>, row: InstantRow, sorted: seq<InstantRow>, descending: bool)
    requires !Dated(clock, row) && Heads(clock, rows, sorted, descending)
    ensures Heads(clock, rows + {row}, sorted, descending)
  {
  }

  /** The window's two first values are the extremes too, so whatever satisfies `Extremes` (the loop's
      result does) equals them. */
  lemma WindowIsExtremes(clock: Clock, rows: seq<InstantRow>, extent: Option<Extent>)
    requires DistinctIds(rows)
    ensures Extremes(clock, Elements(rows), extent) <==> extent == WindowBounds(clock, rows)
  {
    OrderByHeads(clock, rows, false);
    OrderByHeads(clock, rows, true);
    var up, down := OrderBy(clock, rows, false), OrderBy(clock, rows, true);
    assert up == [] <==> down == [];
    assert Extremes(clock, Elements(rows), WindowBounds(clock, rows));
    if Extremes(clock, Elements(rows), extent) {
      ExtremesAreUnique(clock, Elements(rows), extent, WindowBounds(clock, rows));
    }
  }

  /** Two readings of timestamps that put these texts in the same order, ties included. */
  ghost predicate OrderAlike(one: Clock, two: Clock, texts: iset<string>) {
    && (forall a :: a in texts ==> (one(a).Some? <==> two(a).Some?))
    && forall a, b :: a in texts && b in texts && one(a).Some? && one(b).Some? && two(a).Some? && two(b).Some? ==>
         (one(a).value < one(b).value <==> two(a).value < two(b).value)
  }

  ghost function Texts(rows: seq<InstantRow>): iset<string> { iset row | row in rows :: row.at }

  /** Both drivers compute the same row as long as their databases' clocks order its timestamps alike. */
  lemma DriversAgree(sqlite: Clock, postgres: Clock, rows: seq<InstantRow>, extent: Option<Extent>)
    requires DistinctIds(rows) && OrderAlike(sqlite, postgres, Texts(rows))
    ensures Extremes(postgres, Elements(rows), extent) <==> extent == WindowBounds(sqlite, rows)
  {
    forall x, y | x in rows && y in rows
      ensures Dated(sqlite, x) <==> Dated(postgres, x)
      ensures Before(sqlite, x, y) <==> Before(postgres, x, y)
    {
      assert x.at in Texts(rows) && y.at in Texts(rows);
    }
    SameExtremes(sqlite, postgres, Elements(rows), extent);
    WindowIsExtremes(sqlite, rows, extent);
  }

  lemma SameExtremes(one: Clock, two: Clock, rows: set<InstantRow>, extent: Option<Extent>)
    requires forall x :: x in rows ==> (Dated(one, x) <==> Dated(two, x))
    requires forall x, y :: x in rows && y in rows ==> (Before(one, x, y) <==> Before(two, x, y))
    ensures Extremes(one, rows, extent) <==> Extremes(two, rows, extent)
  {
    forall x
      ensures Earliest(one, rows, x) <==> Earliest(two, rows, x)
      ensures Latest(one, rows, x) <==> Latest(two, rows, x)
    {
    }
  }

  lemma OneRow(clock: Clock, at: string)
    ensures var rows := [InstantRow(0, at)];
            DistinctIds(rows) && Texts(rows) == iset{at} && (WindowBounds(clock, rows).Some? <==> clock(at).Some?)
  {
    var rows := [InstantRow(0, at)];
    assert rows[0] in rows && rows[1..] == [];
    assert OrderBy(clock, rows[1..], false) == OrderBy(clock, rows[1..], true) == [];
  }

  /** Two rows whose ids go against the first clock: the second clock, which does not put `a` before `b`,
      picks `b` as the first. */
  lemma TwoRows(one: Clock, two: Clock, a: string, b: string)
    requires one(a).Some? && one(b).Some? && two(a).Some? && two(b).Some?
    requires one(a).value < one(b).value && two(a).value >= two(b).value
    ensures var rows := [InstantRow(1, a), InstantRow(0, b)];
            DistinctIds(rows) && Texts(rows) == iset{a, b} && WindowBounds(one, rows) != WindowBounds(two, rows)
  {
    var x, y := InstantRow(1, a), InstantRow(0, b);
    var rows := [x, y];
    assert rows[0] == x && rows[1] == y;
    assert Texts(rows) == iset{a, b} by {
      assert x in rows && y in rows;
    }
    WindowIsExtremes(one, rows, WindowBounds(one, rows));
    WindowIsExtremes(two, rows, WindowBounds(two, rows));
    assert Elements(rows) == {x, y};
    assert Before(one, x, y) && Before(two, y, x);
  }

  /** Over a set of timestamps that is also needed: the drivers agree on every bucket exactly when the two
      clocks order the timestamps alike. */
  lemma DriversAgreeExactlyWhen(sqlite: Clock, postgres: Clock, texts: iset<string>)
    ensures (forall rows :: DistinctIds(rows) && Texts(rows) <= texts ==> WindowBounds(sqlite, rows) == WindowBounds(postgres, rows))
            <==> OrderAlike(sqlite, postgres, texts)
  {
    if OrderAlike(sqlite, postgres, texts) {
      forall rows | DistinctIds(rows) && Texts(rows) <= texts
        ensures WindowBounds(sqlite, rows) == WindowBounds(postgres, rows)
      {
        assert OrderAlike(sqlite, postgres, Texts(rows));
        WindowIsExtremes(postgres, rows, WindowBounds(postgres, rows));
        DriversAgree(sqlite, postgres, rows, WindowBounds(postgres, rows));
      }
    } else if a :| a in texts && sqlite(a).Some? != postgres(a).Some? {
      OneRow(sqlite, a);
      OneRow(postgres, a);
    } else {
      var a, b :| a in texts && b in texts && sqlite(a).Some? && sqlite(b).Some? && postgres(a).Some? && postgres(b).Some?
                  && !(sqlite(a).value < sqlite(b).value <==> postgres(a).value < postgres(b).value);
      if sqlite(a).value < sqlite(b).value {
        TwoRows(sqlite, postgres, a, b);
      } else {
        TwoRows(postgres, sqlite, a, b);
      }
    }
  }

  // ----- the activity table

  datatype ActivityKey = ActivityKey(source: string, ext: string)

  datatype Activity = Activity(id: nat, project: Project, at: string)

  type Activities = map<ActivityKey, Activity>

  /** One upsert, as the sync engine issues it; `now` only stamps the cache row. */
  datatype Write = Write(source: string, ext: string, project: Project, at: string, now: string)

  /** A new row takes the next id; a known one keeps its id and takes every other column. */
  function Put(rows: Activities, next: nat, w: Write): Activities {
    var key := ActivityKey(w.source, w.ext);
    rows[key := Activity(if key in rows then rows[key].id else next, w.project, w.at)]
  }

  function NextId(rows: Activities, next: nat, w: Write): nat {
    if ActivityKey(w.source, w.ext) in rows then next else next + 1
  }

  function PutAll(rows: Activities, next: nat, writes: seq<Write>): Activities
    decreases |writes|
  {
    if writes == [] then rows else PutAll(Put(rows, next, writes[0]), NextId(rows, next, writes[0]), writes[1..])
  }

  ghost predicate NoneTo(writes: seq<Write>, key: ActivityKey) { forall w :: w in writes ==> ActivityKey(w.source, w.ext) != key }

  /** What writes leave of one activity: if they end with a write to it, its row has that write's project and
      time, under the id it had or a new one; what other writes follow does not matter. */
  ghost predicate HoldsLastWrite(before: Activities, next: nat, after: Activities, key: ActivityKey, w: Write) {
    && key in after && after[key].project == w.project && after[key].at == w.at
    && (if key in before then after[key].id == before[key].id else after[key].id >= next)
  }

  lemma {:induction false} UntouchedStays(rows: Activities, next: nat, writes: seq<Write>, key: ActivityKey)
    requires NoneTo(writes, key)
    ensures key in PutAll(rows, next, writes) <==> key in rows
    ensures key in rows ==> PutAll(rows, next, writes)[key] == rows[key]
    decreases |writes|
  {
    if writes != [] {
      assert writes[0] in writes && forall w :: w in writes[1..] ==> w in writes;
      UntouchedStays(Put(rows, next, writes[0]), NextId(rows, next, writes[0]), writes[1..], key);
    }
  }

  /** The last write wins: of all writes, a row shows the last one to its key. */
  lemma {:induction false} LastWriteWins(rows: Activities, next: nat, before: seq<Write>, w: Write, after: seq<Write>)
    requires NoneTo(after, ActivityKey(w.source, w.ext))
    ensures HoldsLastWrite(rows, next, PutAll(rows, next, before + [w] + after), ActivityKey(w.source, w.ext), w)
    decreases |before|
  {
    var key, writes := ActivityKey(w.source, w.ext), before + [w] + after;
    if before == [] {
      assert writes[0] == w && writes[1..] == after;
      UntouchedStays(Put(rows, next, w), NextId(rows, next, w), after, key);
    } else {
      assert writes[0] == before[0] && writes[1..] == before[1..] + [w] + after;
      LastWriteWins(Put(rows, next, before[0]), NextId(rows, next, before[0]), before[1..], w, after);
    }
  }

  ghost predicate LastTo(writes: seq<Write>, i: nat) {
    i < |writes| && NoneTo(writes[i + 1..], ActivityKey(writes[i].source, writes[i].ext))
  }

  lemma AllLastWritesWin(rows: Activities, next: nat, writes: seq<Write>)
    ensures forall i :: 0 <= i < |writes| && LastTo(writes, i) ==>
              HoldsLastWrite(rows, next, PutAll(rows, next, writes), ActivityKey(writes[i].source, writes[i].ext), writes[i])
  {
    hide PutAll, HoldsLastWrite, NoneTo;
    forall i | 0 <= i < |writes| && LastTo(writes, i)
      ensures HoldsLastWrite(rows, next, PutAll(rows, next, writes), ActivityKey(writes[i].source, writes[i].ext), writes[i])
    {
      assert writes == writes[..i] + [writes[i]] + writes[i + 1..];
      LastWriteWins(rows, next, writes[..i], writes[i], writes[i + 1..]);
    }
  }

  predicate InBucket(rows: Activities, key: ActivityKey, source: string, project: Project) {
    key in rows && key.source == source && rows[key].project == project
  }

  ghost function BucketRows(rows: Activities, source: string, project: Project): set<InstantRow> {
    set key | key in rows && InBucket(rows, key, source, project) :: InstantRow(rows[key].id, rows[key].at)
  }

  ghost predicate IdsAreKeys(rows: Activities, next: nat) {
    && (forall k :: k in rows ==> rows[k].id < next)
    && forall k, l :: k in rows && l in rows && k != l ==> rows[k].id != rows[l].id
  }

  /** An upsert changes at most two buckets: the one it writes into and the one it takes the row from. */
  lemma PutTouchesTwo(rows: Activities, next: nat, w: Write, source: string, project: Project)
    requires source != w.source || (project != w.project
               && (ActivityKey(w.source, w.ext) in rows ==> rows[ActivityKey(w.source, w.ext)].project != project))
    ensures BucketRows(Put(rows, next, w), source, project) == BucketRows(rows, source, project)
  {
    var after := Put(rows, next, w);
    forall k
      ensures InBucket(after, k, source, project) <==> InBucket(rows, k, source, project)
      ensures InBucket(rows, k, source, project) ==> after[k] == rows[k]
    {
    }
  }

  // ----- keys of the cache

  const NUL: char := '\0'

  function ProjectKey(project: Project): string {
    if project.None? then "null:" else "path:" + project.value
  }

  function BucketId(source: string, project: Project): string { source + [NUL] + ProjectKey(project) }

  lemma ProjectKeyParts(project: Project)
    ensures |ProjectKey(project)| >= 5
    ensures ProjectKey(project)[0] == if project.None? then 'n' else 'p'
    ensures ProjectKey(project)[5..] == if project.None? then "" else project.value
  {
  }

  lemma ProjectKeyIsInjective(p: Project, q: Project)
    requires ProjectKey(p) == ProjectKey(q)
    ensures p == q
  {
    hide ProjectKey;
    ProjectKeyParts(p);
    ProjectKeyParts(q);
  }

  /** One source continues the other across the separator and the prefix of a path. */
  predicate Extends(longer: string, shorter: string) { shorter + [NUL] + "path:" <= longer }

  /** The path holds what the longer source has more, a separator, and the other bucket's project. */
  predicate Swallows(source: string, project: Project, longer: string, project': Project) {
    Extends(longer, source) && project == Some(longer[|source| + 6..] + [NUL] + ProjectKey(project'))
  }

  /** Two buckets share a dirty key exactly when they are the same, or one source extends the other and
      the shorter one's path makes up for the difference, separator included. */
  lemma BucketIdsMeetExactlyWhen(source: string, project: Project, source': string, project': Project)
    ensures BucketId(source, project) == BucketId(source', project') <==>
            || (source == source' && project == project')
            || Swallows(source, project, source', project')
            || Swallows(source', project', source, project)
  {
    if Swallows(source, project, source', project') {
      SwallowedMeets(source, project, source', project');
    } else if Swallows(source', project', source, project) {
      SwallowedMeets(source', project', source, project);
    } else if BucketId(source, project) == BucketId(source', project') {
      if |source| < |source'| {
        MeetingSwallows(source, project, source', project');
      } else if |source'| < |source| {
        MeetingSwallows(source', project', source, project);
      } else {
        var id := BucketId(source, project);
        assert source == id[..|source|] && source' == id[..|source|];
        assert ProjectKey(project) == id[|source| + 1..] && ProjectKey(project') == id[|source| + 1..];
        ProjectKeyIsInjective(project, project');
      }
    }
  }

  lemma SwallowedMeets(source: string, project: Project, longer: string, project': Project)
    requires Swallows(source, project, longer, project')
    ensures BucketId(source, project) == BucketId(longer, project')
  {
    var more := longer[|source| + 6..];
    assert longer == source + [NUL] + "path:" + more;
    assert source + [NUL] + ("path:" + (more + [NUL] + ProjectKey(project'))) == source + [NUL] + "path:" + more + [NUL] + ProjectKey(project');
  }

  lemma MeetingSwallows(source: string, project: Project, longer: string, project': Project)
    requires |source| < |longer| && BucketId(source, project) == BucketId(longer, project')
    ensures Swallows(source, project, longer, project')
  {
    hide ProjectKey;
    var id := BucketId(source, project);
    var more := longer[|source| + 1..];
    assert longer == id[..|longer|] && source == id[..|source|] && id[|source|] == NUL;
    assert longer == source + [NUL] + more;
    var tail := more + [NUL] + ProjectKey(project');
    assert ProjectKey(project) == id[|source| + 1..] == tail;
    PathHoldsTail(project, more, project');
    assert more[5..] == longer[|source| + 6..];
  }

  /** A project key with a separator in it is a path's, and the separator comes after `path:`. */
  lemma PathHoldsTail(project: Project, more: string, project': Project)
    requires ProjectKey(project) == more + [NUL] + ProjectKey(project')
    ensures "path:" <= more && project == Some(more[5..] + [NUL] + ProjectKey(project'))
  {
    var key := ProjectKey(project);
    assert key[|more|] == NUL;
    assert |more| >= 5;
    assert key[..5] == more[..5];
    assert key[5..] == more[5..] + [NUL] + ProjectKey(project');
  }

  /** So a set of sources has colliding keys exactly when one of them extends another. */
  lemma SourcesMeetExactlyWhen(source: string, source': string)
    requires source != source'
    ensures (exists project, project' :: BucketId(source, project) == BucketId(source', project')) <==>
            Extends(source', source) || Extends(source, source')
  {
    if project, project' :| BucketId(source, project) == BucketId(source', project') {
      BucketIdsMeetExactlyWhen(source, project, source', project');
    }
    if Extends(source', source) {
      SwallowedMeets(source, Some(source'[|source| + 6..] + [NUL] + ProjectKey(None)), source', None);
    }
    if Extends(source, source') {
      SwallowedMeets(source', Some(source[|source'| + 6..] + [NUL] + ProjectKey(None)), source, None);
    }
  }

  /** No source extends another, so each dirty key is one bucket's. */
  ghost predicate Separate(sources: iset<string>) {
    forall a, b :: a in sources && b in sources ==> !Extends(a, b)
  }

  lemma SeparateKeys(sources: iset<string>, source: string, project: Project, source': string, project': Project)
    requires Separate(sources) && source in sources && source' in sources
    requires BucketId(source, project) == BucketId(source', project')
    ensures source == source' && project == project'
  {
    BucketIdsMeetExactlyWhen(source, project, source', project');
  }

  /** Source ids without a NUL are separate, whatever the project paths hold. */
  lemma NulFreeIsSeparate(sources: iset<string>)
    requires forall source :: source in sources ==> NUL !in source
    ensures Separate(sources)
  {
    forall a, b | a in sources && b in sources
      ensures !Extends(a, b)
    {
      ExtendedHasNul(a, b);
    }
  }

  lemma ExtendedHasNul(longer: string, shorter: string)
    ensures Extends(longer, shorter) ==> NUL in longer
  {
    if Extends(longer, shorter) {
      assert longer[|shorter|] == NUL;
    }
  }

  /** Two such buckets: marking the second would replace the first one's dirty entry. */
  lemma BucketIdCollides()
    ensures BucketId("s", Some("x\0path:y")) == BucketId("s\0path:x", Some("y"))
  {
    assert "path:" + "x\0path:y" == "path:x\0path:y";
    assert "s" + [NUL] + "path:x\0path:y" == "s\0path:x\0path:y";
    assert "s\0path:x" + [NUL] + "path:y" == "s\0path:x\0path:y";
  }

  // ----- the store

  datatype CacheKey = CacheKey(source: string, projectKey: string)

  datatype CacheRow = CacheRow(project: Project, since: string, last: string, updatedAt: string)

  type Cache = map<CacheKey, CacheRow>

  datatype Bucket = Bucket(source: string, project: Project, updatedAt: string)

  /** The cache row of one bucket is what recomputing it would give. */
  ghost predicate Exact(clock: Clock, rows: Activities, cache: Cache, source: string, project: Project) {
    var key := CacheKey(source, ProjectKey(project));
    && (key in cache ==> cache[key].project == project)
    && Extremes(clock, BucketRows(rows, source, project),
                if key in cache then Some(Extent(cache[key].since, cache[key].last)) else None)
  }

  /** Every bucket of every source is exact. */
  ghost predicate Settled(clock: Clock, sources: iset<string>, rows: Activities, cache: Cache) {
    forall source, project :: source in sources ==> Exact(clock, rows, cache, source, project)
  }

  ghost predicate ExactUnlessDirty(clock: Clock, sources: iset<string>, rows: Activities, cache: Cache, dirty: map<string, Bucket>) {
    forall source, project :: source in sources && BucketId(source, project) !in dirty ==> Exact(clock, rows, cache, source, project)
  }

  ghost predicate DirtyKeys(sources: iset<string>, dirty: map<string, Bucket>) {
    forall id :: id in dirty ==> dirty[id].source in sources && id == BucketId(dirty[id].source, dirty[id].project)
  }

  function Marked(dirty: map<string, Bucket>, source: string, project: Project, now: string): map<string, Bucket> {
    dirty[BucketId(source, project) := Bucket(source, project, now)]
  }

  /** A refresh of one bucket: what the driver writes into the cache for it. */
  ghost predicate Refreshed(clock: Clock, rows: Activities, before: Cache, after: Cache, bucket: Bucket) {
    && Exact(clock, rows, after, bucket.source, bucket.project)
    && (forall key :: key in after && key == CacheKey(bucket.source, ProjectKey(bucket.project)) ==> after[key].updatedAt == bucket.updatedAt)
    && forall key :: key != CacheKey(bucket.source, ProjectKey(bucket.project)) ==>
         (key in after <==> key in before) && (key in before ==> after[key] == before[key])
  }

  lemma RefreshSettlesBucket(clock: Clock, sources: iset<string>, rows: Activities, before: Cache, after: Cache, dirty: map<string, Bucket>, id: string)
    requires Separate(sources) && id in dirty && DirtyKeys(sources, dirty) && Refreshed(clock, rows, before, after, dirty[id])
    requires ExactUnlessDirty(clock, sources, rows, before, dirty)
    ensures ExactUnlessDirty(clock, sources, rows, after, dirty - {id}) && DirtyKeys(sources, dirty - {id})
  {
    var bucket := dirty[id];
    forall source, project | source in sources && BucketId(source, project) !in dirty - {id}
      ensures Exact(clock, rows, after, source, project)
    {
      if BucketId(source, project) == id {
        SeparateKeys(sources, source, project, bucket.source, bucket.project);
      } else {
        assert BucketId(source, project) !in dirty;
        if ProjectKey(project) == ProjectKey(bucket.project) {
          ProjectKeyIsInjective(project, bucket.project);
        }
      }
    }
  }

  lemma MarkedKeys(sources: iset<string>, dirty: map<string, Bucket>, source: string, project: Project, now: string)
    requires DirtyKeys(sources, dirty) && source in sources
    ensures DirtyKeys(sources, Marked(dirty, source, project, now))
    ensures Marked(dirty, source, project, now).Keys == dirty.Keys + {BucketId(source, project)}
  {
  }

  lemma MarkingCoversPut(clock: Clock, sources: iset<string>, rows: Activities, next: nat, cache: Cache, dirty: map<string, Bucket>, marked: map<string, Bucket>, w: Write)
    requires w.source in sources && DirtyKeys(sources, dirty) && ExactUnlessDirty(clock, sources, rows, cache, dirty)
    requires dirty.Keys + {BucketId(w.source, w.project)} <= marked.Keys
    requires ActivityKey(w.source, w.ext) in rows && rows[ActivityKey(w.source, w.ext)].project != w.project ==>
               BucketId(w.source, rows[ActivityKey(w.source, w.ext)].project) in marked
    ensures ExactUnlessDirty(clock, sources, Put(rows, next, w), cache, marked)
  {
    forall source, project | source in sources && BucketId(source, project) !in marked
      ensures Exact(clock, Put(rows, next, w), cache, source, project)
    {
      assert Exact(clock, rows, cache, source, project);
      PutTouchesTwo(rows, next, w, source, project);
    }
  }

  lemma PutKeepsIds(rows: Activities, next: nat, w: Write)
    requires IdsAreKeys(rows, next)
    ensures IdsAreKeys(Put(rows, next, w), NextId(rows, next, w))
  {
  }

  /** Some order of the bucket's rows among the activities visited so far. */
  ghost predicate Collected(rows: Activities, visited: set<ActivityKey>, bucket: Bucket, found: seq<InstantRow>) {
    && DistinctIds(found)
    && (forall x :: x in found ==> exists k :: k in visited && RowOf(rows, k, bucket, x))
    && forall k :: k in visited && InBucket(rows, k, bucket.source, bucket.project) ==> InstantRow(rows[k].id, rows[k].at) in found
  }

  predicate RowOf(rows: Activities, key: ActivityKey, bucket: Bucket, x: InstantRow) {
    InBucket(rows, key, bucket.source, bucket.project) && x == InstantRow(rows[key].id, rows[key].at)
  }

  lemma CollectOne(rows: Activities, next: nat, visited: set<ActivityKey>, bucket: Bucket, found: seq<InstantRow>, key: ActivityKey)
    requires IdsAreKeys(rows, next) && key in rows && key !in visited && visited <= rows.Keys
    requires Collected(rows, visited, bucket, found)
    ensures Collected(rows, visited + {key}, bucket,
                      if InBucket(rows, key, bucket.source, bucket.project) then found + [InstantRow(rows[key].id, rows[key].at)] else found)
  {
    if InBucket(rows, key, bucket.source, bucket.project) {
      var row := InstantRow(rows[key].id, rows[key].at);
      assert RowOf(rows, key, bucket, row);
      forall i | 0 <= i < |found|
        ensures found[i].id != row.id
      {
        assert found[i] in found;
      }
    }
  }

  lemma CollectedAll(rows: Activities, bucket: Bucket, found: seq<InstantRow>)
    requires Collected(rows, rows.Keys, bucket, found)
    ensures Elements(found) == BucketRows(rows, bucket.source, bucket.project)
  {
  }

  /** How a transaction's body ends: it runs through, or throws after some of its writes. */
  datatype Outcome = Commits | Throws(after: nat)

  class Store {
    const clock: Clock
    /** The configured source ids. */
    ghost const sources: iset<string>
    var activities: Activities
    var nextId: nat
    var cache: Cache
    var dirty: map<string, Bucket>
    var inTransaction: bool

    ghost predicate Valid()
      reads this
    {
      Tracked() && (!inTransaction ==> dirty == map[])
    }

    ghost predicate Tracked()
      reads this
    {
      Separate(sources) && IdsAreKeys(activities, nextId) && DirtyKeys(sources, dirty) && ExactUnlessDirty(clock, sources, activities, cache, dirty)
    }

    constructor (clock: Clock, ghost sources: iset<string>)
      requires Separate(sources)
      ensures Valid() && !inTransaction && activities == map[] && this.clock == clock && this.sources == sources
    {
      this.clock, this.sources := clock, sources;
      activities, cache, dirty := map[], map[], map[];
      nextId, inTransaction := 0, false;
    }

    /** Reads a bucket's rows, in any order. */
    method SelectRows(bucket: Bucket) returns (rows: seq<InstantRow>)
      requires IdsAreKeys(activities, nextId)
      ensures DistinctIds(rows) && Elements(rows) == BucketRows(activities, bucket.source, bucket.project)
    {
      rows := [];
      var unvisited := activities.Keys;
      while unvisited != {}
        invariant unvisited <= activities.Keys
        invariant Collected(activities, activities.Keys - unvisited, bucket, rows)
        decreases |unvisited|
      {
        var k :| k in unvisited;
        CollectOne(activities, nextId, activities.Keys - unvisited, bucket, rows, k);
        assert activities.Keys - unvisited + {k} == activities.Keys - (unvisited - {k});
        if InBucket(activities, k, bucket.source, bucket.project) {
          rows := rows + [InstantRow(activities[k].id, activities[k].at)];
        }
        unvisited := unvisited - {k};
      }
      assert activities.Keys - unvisited == activities.Keys;
      CollectedAll(activities, bucket, rows);
    }

    method Refresh(bucket: Bucket)
      requires IdsAreKeys(activities, nextId)
      modifies this`cache
      ensures Refreshed(clock, activities, old(cache), cache, bucket)
    {
      var rows := SelectRows(bucket);
      var extent := BoundsFromRows(clock, rows);
      var key := CacheKey(bucket.source, ProjectKey(bucket.project));
      if extent.None? {
        cache := cache - {key};
      } else {
        cache := cache[key := CacheRow(bucket.project, extent.value.since, extent.value.last, bucket.updatedAt)];
      }
    }

    /** Recomputes every dirty bucket and forgets them. */
    method Flush()
      requires Tracked()
      modifies this`cache, this`dirty
      ensures Valid() && dirty == map[] && Settled(clock, sources, activities, cache)
    {
      hide Exact, Refreshed, BucketId, IdsAreKeys, DirtyKeys, Separate;
      var buckets := dirty;
      while buckets != map[]
        invariant IdsAreKeys(activities, nextId) && DirtyKeys(sources, buckets)
        invariant ExactUnlessDirty(clock, sources, activities, cache, buckets)
        decreases |buckets|
      {
        var id :| id in buckets;
        ghost var before := cache;
        Refresh(buckets[id]);
        RefreshSettlesBucket(clock, sources, activities, before, cache, buckets, id);
        buckets := buckets - {id};
      }
      dirty := map[];
    }

    /** Upserts an activity, marks the bucket it enters and the bucket it leaves, and outside a
        transaction refreshes both at once. */
    method UpsertActivity(w: Write)
      requires Valid() && w.source in sources
      modifies this`activities, this`nextId, this`cache, this`dirty
      ensures Valid()
      ensures activities == Put(old(activities), old(nextId), w) && nextId == NextId(old(activities), old(nextId), w)
      ensures inTransaction ==> cache == old(cache)
      ensures !inTransaction ==> Settled(clock, sources, activities, cache)
    {
      hide BucketId, IdsAreKeys, DirtyKeys, ExactUnlessDirty, Settled, Separate;
      var key := ActivityKey(w.source, w.ext);
      var prev := if key in activities then Some(activities[key].project) else None;
      ghost var dirtyBefore := dirty;
      activities, nextId := Put(activities, nextId, w), NextId(activities, nextId, w);
      dirty := Marked(dirty, w.source, w.project, w.now);
      if prev.Some? && prev.value != w.project {
        dirty := Marked(dirty, w.source, prev.value, w.now);
      }
      PutKeepsIds(old(activities), old(nextId), w);
      MarkedKeys(sources, dirtyBefore, w.source, w.project, w.now);
      if prev.Some? {
        MarkedKeys(sources, Marked(dirtyBefore, w.source, w.project, w.now), w.source, prev.value, w.now);
      }
      MarkingCoversPut(clock, sources, old(activities), old(nextId), cache, dirtyBefore, dirty, w);
      if !inTransaction {
        Flush();
      }
    }

    /** A transaction whose body issues `writes`: it commits them all and leaves the cache exact, or
        restores both tables. */
    method Transaction(writes: seq<Write>, outcome: Outcome)
      requires Valid() && !inTransaction && forall i :: 0 <= i < |writes| ==> writes[i].source in sources
      modifies this
      ensures Valid() && !inTransaction && Settled(clock, sources, activities, cache)
      ensures outcome.Commits? ==> activities == PutAll(old(activities), old(nextId), writes)
      ensures outcome.Commits? ==> forall i :: 0 <= i < |writes| && LastTo(writes, i) ==>
                HoldsLastWrite(old(activities), old(nextId), activities, ActivityKey(writes[i].source, writes[i].ext), writes[i])
      ensures outcome.Throws? ==> activities == old(activities) && cache == old(cache)
    {
      var savedActivities, savedCache, savedNext := activities, cache, nextId;
      inTransaction := true;
      var count := match outcome case Commits => |writes| case Throws(after) => if after < |writes| then after else |writes|;
      var i := 0;
      while i < count
        invariant 0 <= i <= count <= |writes| && Valid() && inTransaction
        invariant PutAll(activities, nextId, writes[i..]) == PutAll(old(activities), old(nextId), writes)
      {
        assert writes[i..][1..] == writes[i + 1..];
        UpsertActivity(writes[i]);
        i := i + 1;
      }
      if outcome.Commits? {
        AllLastWritesWin(old(activities), old(nextId), writes);
        Flush();
      } else {
        dirty := map[];
        activities, cache, nextId := savedActivities, savedCache, savedNext;
      }
      inTransaction := false;
    }
  }
}
