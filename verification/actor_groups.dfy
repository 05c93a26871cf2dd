/** From activity rows to the groups the actor directory is made of: rows are grouped by their stored
    actor key, or by the key their name alone would give, and groups claimed by one configured identity
    are merged. */
module ActorGroups {
  import opened Options
  import opened ActorDirectory

  type Key = string

  type Source = string

  /** An emitted activity row: its trimmed actor string, the key stored for it and the key its name alone
      would give. */
  datatype Row = Row(source: Source, actor: string, stored: Option<Key>, derived: Option<Key>)

  /** What was seen under one key: every string with its count, and the sources in first-seen order. */
  datatype Seen = Seen(key: Key, names: multiset<string>, sources: seq<Source>)

  /** A configured identity's claim on a key. */
  datatype Claim = Claim(key: Key, name: string)

  /** The configured identities, the bot marker and the exclusions, as functions of what was seen. */
  datatype Config = Config(resolve: (Key, multiset<string>, Source) -> Option<Claim>, autoBot: Key -> bool, excluded: (Key, multiset<string>) -> bool)

  datatype Group = Group(key: Key, names: multiset<string>, claim: Option<Claim>, bot: bool)

  /** The key a row is grouped under; a row without an actor or a key is skipped. */
  function KeyOf(row: Row): Option<Key> {
    var key := if row.stored.Some? then row.stored else row.derived;
    if row.actor == "" || key.None? || key.value == "" then None else key
  }

  predicate HasStoredKey(row: Row) { row.stored.Some? && row.stored.value != "" }

  function NamesUnder(rows: seq<Row>, key: Key): multiset<string> {
    if rows == [] then multiset{}
    else
      var last := rows[|rows| - 1];
      NamesUnder(rows[..|rows| - 1], key) + if KeyOf(last) == Some(key) then multiset{last.actor} else multiset{}
  }

  function AddOnce<T(==)>(s: seq<T>, x: T): seq<T> { if x in s then s else s + [x] }

  function SourcesUnder(rows: seq<Row>, key: Key): seq<Source> {
    if rows == [] then []
    else
      var before, last := SourcesUnder(rows[..|rows| - 1], key), rows[|rows| - 1];
      if KeyOf(last) == Some(key) then AddOnce(before, last.source) else before
  }

  function KeysSeen(rows: seq<Row>): seq<Key> {
    if rows == [] then []
    else
      var before, key := KeysSeen(rows[..|rows| - 1]), KeyOf(rows[|rows| - 1]);
      if key.Some? then AddOnce(before, key.value) else before
  }

  ghost predicate SeenAre(rows: seq<Row>, seen: seq<Seen>) {
    && |seen| == |KeysSeen(rows)|
    && forall i {:trigger seen[i]} :: 0 <= i < |seen| ==>
         seen[i] == Seen(KeysSeen(rows)[i], NamesUnder(rows, KeysSeen(rows)[i]), SourcesUnder(rows, KeysSeen(rows)[i]))
  }

  lemma {:induction false} KeysAreDistinct(rows: seq<Row>)
    ensures forall i, j :: 0 <= i < j < |KeysSeen(rows)| ==> KeysSeen(rows)[i] != KeysSeen(rows)[j]
  {
    hide KeyOf;
    if rows != [] {
      KeysAreDistinct(rows[..|rows| - 1]);
    }
  }

  /** A key is seen exactly when some name was recorded under it, and an unseen key has no source either. */
  lemma {:induction false} SeenHasNames(rows: seq<Row>, key: Key)
    ensures key in KeysSeen(rows) <==> NamesUnder(rows, key) != multiset{}
    ensures key !in KeysSeen(rows) ==> SourcesUnder(rows, key) == []
  {
    hide KeyOf;
    if rows != [] {
      SeenHasNames(rows[..|rows| - 1], key);
    }
  }

  /** Records one row under its key. */
  function Record(seen: seq<Seen>, at: Option<nat>, key: Key, row: Row): seq<Seen>
    requires at.Some? ==> at.value < |seen|
  {
    if at.None? then seen + [Seen(key, multiset{row.actor}, [row.source])]
    else
      var s := seen[at.value];
      seen[at.value := s.(names := s.names + multiset{row.actor}, sources := AddOnce(s.sources, row.source))]
  }

  lemma RecordOne(rows: seq<Row>, row: Row, seen: seq<Seen>, at: Option<nat>, key: Key)
    requires SeenAre(rows, seen) && KeyOf(row) == Some(key)
    requires at.Some? ==> at.value < |seen| && seen[at.value].key == key
    requires at.None? ==> forall i :: 0 <= i < |seen| ==> seen[i].key != key
    ensures SeenAre(rows + [row], Record(seen, at, key, row))
  {
    hide NamesUnder, SourcesUnder, KeysSeen, KeyOf, AddOnce;
    KnownKey(rows, seen, at, key);
    KeysGrow(rows, row);
    forall i | 0 <= i < |Record(seen, at, key, row)|
      ensures Record(seen, at, key, row)[i] ==
              Seen(KeysSeen(rows + [row])[i], NamesUnder(rows + [row], KeysSeen(rows + [row])[i]), SourcesUnder(rows + [row], KeysSeen(rows + [row])[i]))
    {
      if i < |seen| {
        assert seen[i].key == KeysSeen(rows)[i];
        UnderGrows(rows, row, seen[i].key);
        OneIndex(rows, seen, at, key, i);
      } else {
        UnderGrows(rows, row, key);
        UnseenIsEmpty(rows, row, key);
      }
    }
  }

  lemma KeysGrow(rows: seq<Row>, row: Row)
    ensures KeysSeen(rows + [row]) ==
            if KeyOf(row).None? || KeyOf(row).value in KeysSeen(rows) then KeysSeen(rows) else KeysSeen(rows) + [KeyOf(row).value]
  {
    assert (rows + [row])[..|rows|] == rows;
  }

  lemma UnderGrows(rows: seq<Row>, row: Row, key: Key)
    ensures NamesUnder(rows + [row], key) == NamesUnder(rows, key) + if KeyOf(row) == Some(key) then multiset{row.actor} else multiset{}
    ensures SourcesUnder(rows + [row], key) ==
            if KeyOf(row) == Some(key) then AddOnce(SourcesUnder(rows, key), row.source) else SourcesUnder(rows, key)
  {
    assert (rows + [row])[..|rows|] == rows;
  }

  lemma UnseenIsEmpty(rows: seq<Row>, row: Row, key: Key)
    requires key !in KeysSeen(rows)
    ensures NamesUnder(rows, key) == multiset{} && AddOnce(SourcesUnder(rows, key), row.source) == [row.source]
  {
    SeenHasNames(rows, key);
  }

  lemma OneIndex(rows: seq<Row>, seen: seq<Seen>, at: Option<nat>, key: Key, i: nat)
    requires SeenAre(rows, seen) && i < |seen|
    requires at.Some? ==> at.value < |seen| && seen[at.value].key == key
    requires at.None? ==> forall i :: 0 <= i < |seen| ==> seen[i].key != key
    ensures seen[i].key == key <==> at == Some(i)
  {
    hide KeysSeen, NamesUnder, SourcesUnder;
    KeysAreDistinct(rows);
    assert seen[i].key == KeysSeen(rows)[i];
    assert at.Some? ==> seen[at.value].key == KeysSeen(rows)[at.value];
  }

  lemma KnownKey(rows: seq<Row>, seen: seq<Seen>, at: Option<nat>, key: Key)
    requires SeenAre(rows, seen)
    requires at.Some? ==> at.value < |seen| && seen[at.value].key == key
    requires at.None? ==> forall i :: 0 <= i < |seen| ==> seen[i].key != key
    ensures key in KeysSeen(rows) <==> at.Some?
  {
    hide KeysSeen;
    assert forall i :: 0 <= i < |seen| ==> seen[i].key == KeysSeen(rows)[i];
  }

  lemma SkipOne(rows: seq<Row>, row: Row, seen: seq<Seen>)
    requires SeenAre(rows, seen) && KeyOf(row).None?
    ensures SeenAre(rows + [row], seen)
  {
    assert (rows + [row])[..|rows|] == rows;
  }

  // ----- what was seen, in terms of the rows

  /** A row with an actor belongs to its stored key; only a row that has none belongs to the key its name
      gives. Nothing belongs to the empty key. */
  predicate BelongsTo(row: Row, key: Key) {
    row.actor != "" && key != "" && if row.stored.Some? then row.stored.value == key else row.derived == Some(key)
  }

  function RowsOf(rows: seq<Row>, key: Key, actor: string): set<nat> {
    set i: nat | i < |rows| && rows[i].actor == actor && BelongsTo(rows[i], key)
  }

  ghost predicate Met(rows: seq<Row>, meets: (Row, string) -> bool, x: string) {
    exists row :: row in rows && meets(row, x)
  }

  /** Some first rows meet `a` and not yet `b`. */
  ghost predicate MetBefore(rows: seq<Row>, meets: (Row, string) -> bool, a: string, b: string) {
    exists n: nat :: n <= |rows| && Met(rows[..n], meets, a) && !Met(rows[..n], meets, b)
  }

  /** `list` has what the rows meet, each once, in the order of the first meeting. */
  ghost predicate ListsMet(rows: seq<Row>, meets: (Row, string) -> bool, list: seq<string>) {
    && (forall x :: x in list <==> Met(rows, meets, x))
    && forall i, j :: 0 <= i < j < |list| ==> MetBefore(rows, meets, list[i], list[j])
  }

  lemma MetGrows(rows: seq<Row>, row: Row, meets: (Row, string) -> bool, x: string)
    ensures Met(rows + [row], meets, x) <==> Met(rows, meets, x) || meets(row, x)
  {
    assert forall r :: r in rows + [row] <==> r in rows || r == row;
  }

  lemma MetBeforeGrows(rows: seq<Row>, row: Row, meets: (Row, string) -> bool, a: string, b: string)
    requires MetBefore(rows, meets, a, b) || (Met(rows, meets, a) && !Met(rows, meets, b))
    ensures MetBefore(rows + [row], meets, a, b)
  {
    hide Met;
    assert rows[..|rows|] == rows;
    var n: nat :| n <= |rows| && Met(rows[..n], meets, a) && !Met(rows[..n], meets, b);
    assert (rows + [row])[..n] == rows[..n];
  }

  lemma ListsMore(rows: seq<Row>, row: Row, meets: (Row, string) -> bool, list: seq<string>, x: string)
    requires ListsMet(rows, meets, list) && meets(row, x) && forall y :: meets(row, y) ==> y == x
    ensures ListsMet(rows + [row], meets, if x in list then list else list + [x])
  {
    hide Met, MetBefore;
    var next := if x in list then list else list + [x];
    forall y
      ensures y in next <==> Met(rows + [row], meets, y)
    {
      MetGrows(rows, row, meets, y);
    }
    forall i, j | 0 <= i < j < |next|
      ensures MetBefore(rows + [row], meets, next[i], next[j])
    {
      assert list[i] in list;
      MetBeforeGrows(rows, row, meets, next[i], next[j]);
    }
  }

  lemma ListsNoMore(rows: seq<Row>, row: Row, meets: (Row, string) -> bool, list: seq<string>)
    requires ListsMet(rows, meets, list) && forall y :: !meets(row, y)
    ensures ListsMet(rows + [row], meets, list)
  {
    hide Met, MetBefore;
    forall y
      ensures y in list <==> Met(rows + [row], meets, y)
    {
      MetGrows(rows, row, meets, y);
    }
    forall i, j | 0 <= i < j < |list|
      ensures MetBefore(rows + [row], meets, list[i], list[j])
    {
      MetBeforeGrows(rows, row, meets, list[i], list[j]);
    }
  }

  lemma {:induction false} KeysAreMet(rows: seq<Row>)
    ensures ListsMet(rows, BelongsTo, KeysSeen(rows))
  {
    hide ListsMet, BelongsTo;
    if rows == [] {
      NothingIsMet(BelongsTo);
    } else {
      var front, row := rows[..|rows| - 1], rows[|rows| - 1];
      KeysAreMet(front);
      assert rows == front + [row];
      OneKey(row);
      if KeyOf(row).Some? {
        ListsMore(front, row, BelongsTo, KeysSeen(front), KeyOf(row).value);
      } else {
        ListsNoMore(front, row, BelongsTo, KeysSeen(front));
      }
    }
  }

  lemma NothingIsMet(meets: (Row, string) -> bool)
    ensures ListsMet([], meets, [])
  {
  }

  lemma OneKey(row: Row)
    ensures forall key :: BelongsTo(row, key) <==> KeyOf(row) == Some(key)
  {
  }

  function FromSource(key: Key): (Row, Source) -> bool {
    (row: Row, source: Source) => BelongsTo(row, key) && row.source == source
  }

  lemma {:induction false} SourcesAreMet(rows: seq<Row>, key: Key)
    ensures ListsMet(rows, FromSource(key), SourcesUnder(rows, key))
  {
    hide ListsMet, BelongsTo, KeyOf;
    if rows == [] {
      NothingIsMet(FromSource(key));
    } else {
      var front, row := rows[..|rows| - 1], rows[|rows| - 1];
      SourcesAreMet(front, key);
      assert rows == front + [row];
      OneKey(row);
      if KeyOf(row) == Some(key) {
        ListsMore(front, row, FromSource(key), SourcesUnder(front, key), row.source);
      } else {
        ListsNoMore(front, row, FromSource(key), SourcesUnder(front, key));
      }
    }
  }

  lemma {:induction false} NamesCountRows(rows: seq<Row>, key: Key, actor: string)
    ensures NamesUnder(rows, key)[actor] == |RowsOf(rows, key, actor)|
  {
    hide BelongsTo, KeyOf, RowsOf;
    if rows == [] {
      NoRowsOf(key, actor);
    } else {
      var front, row := rows[..|rows| - 1], rows[|rows| - 1];
      NamesCountRows(front, key, actor);
      OneKey(row);
      assert rows == front + [row];
      RowsOfGrows(front, row, key, actor);
    }
  }

  lemma NoRowsOf(key: Key, actor: string)
    ensures RowsOf([], key, actor) == {}
  {
  }

  lemma RowsOfGrows(rows: seq<Row>, row: Row, key: Key, actor: string)
    ensures |RowsOf(rows + [row], key, actor)| == |RowsOf(rows, key, actor)| + if row.actor == actor && BelongsTo(row, key) then 1 else 0
  {
    hide BelongsTo, RowsOf;
    var before, after, n: nat := RowsOf(rows, key, actor), RowsOf(rows + [row], key, actor), |rows|;
    assert n !in before by {
      InRowsOf(rows, key, actor, n);
    }
    forall i: nat
      ensures i in after <==> i in before || (i == n && row.actor == actor && BelongsTo(row, key))
    {
      InRowsOf(rows, key, actor, i);
      InRowsOf(rows + [row], key, actor, i);
    }
    if row.actor == actor && BelongsTo(row, key) {
      assert after == before + {n};
    } else {
      assert after == before;
    }
  }

  lemma InRowsOf(rows: seq<Row>, key: Key, actor: string, i: nat)
    ensures i in RowsOf(rows, key, actor) <==> i < |rows| && rows[i].actor == actor && BelongsTo(rows[i], key)
  {
    hide BelongsTo;
  }

  /** What was seen, in terms of the rows alone: one record for each key some row belongs to, in the order
      the keys are met, with how often each actor is met under it and the sources in the order met. */
  ghost predicate SeenSays(rows: seq<Row>, seen: seq<Seen>) {
    && ListsMet(rows, BelongsTo, seq(|seen|, i requires 0 <= i < |seen| => seen[i].key))
    && forall s :: s in seen ==> ListsMet(rows, FromSource(s.key), s.sources) && forall actor :: s.names[actor] == |RowsOf(rows, s.key, actor)|
  }

  lemma SeenIsSaid(rows: seq<Row>, seen: seq<Seen>)
    requires SeenAre(rows, seen)
    ensures SeenSays(rows, seen)
  {
    hide ListsMet, RowsOf, BelongsTo, NamesUnder, SourcesUnder, KeysSeen;
    var keys := seq(|seen|, i requires 0 <= i < |seen| => seen[i].key);
    assert forall i :: 0 <= i < |seen| ==> seen[i].key == KeysSeen(rows)[i];
    assert keys == KeysSeen(rows);
    KeysAreMet(rows);
    forall s | s in seen
      ensures ListsMet(rows, FromSource(s.key), s.sources) && forall actor :: s.names[actor] == |RowsOf(rows, s.key, actor)|
    {
      SourcesAreMet(rows, s.key);
      forall actor {
        NamesCountRows(rows, s.key, actor);
      }
    }
  }

  method IndexOfKey(seen: seq<Seen>, key: Key) returns (at: Option<nat>)
    ensures at.Some? ==> at.value < |seen| && seen[at.value].key == key
    ensures at.None? ==> forall i :: 0 <= i < |seen| ==> seen[i].key != key
  {
    at := None;
    for i := 0 to |seen|
      invariant at.Some? ==> at.value < |seen| && seen[at.value].key == key
      invariant at.None? ==> forall j :: 0 <= j < i ==> seen[j].key != key
    {
      if seen[i].key == key {
        at := Some(i);
      }
    }
  }

  /** The loop over the rows: what was seen under each key, and which keys came from the store or only
      from a name. */
  method Accumulate(rows: seq<Row>) returns (seen: seq<Seen>, storedKeys: set<Key>, derivedKeys: set<Key>)
    ensures SeenAre(rows, seen) && SeenSays(rows, seen)
    ensures forall key :: key in storedKeys <==> KeyFrom(rows, key, true)
    ensures forall key :: key in derivedKeys <==> KeyFrom(rows, key, false)
  {
    hide SeenAre, SeenSays;
    seen, storedKeys, derivedKeys := [], {}, {};
    NothingSeen();
    assert rows[..0] == [];
    for i := 0 to |rows|
      invariant SeenAre(rows[..i], seen)
      invariant forall key :: key in storedKeys <==> KeyFrom(rows[..i], key, true)
      invariant forall key :: key in derivedKeys <==> KeyFrom(rows[..i], key, false)
    {
      var row := rows[i];
      var key := KeyOf(row);
      assert rows[..i + 1] == rows[..i] + [row];
      KeyFromGrows(rows[..i], row);
      if key.Some? {
        var at := IndexOfKey(seen, key.value);
        RecordOne(rows[..i], row, seen, at, key.value);
        seen := Record(seen, at, key.value, row);
        if HasStoredKey(row) {
          storedKeys := storedKeys + {key.value};
        } else {
          derivedKeys := derivedKeys + {key.value};
        }
      } else {
        SkipOne(rows[..i], row, seen);
      }
    }
    assert rows[..|rows|] == rows;
    SeenIsSaid(rows, seen);
  }

  /** Some row with an actor has the key stored, or has none stored and its name gives this one. */
  ghost predicate KeyFrom(rows: seq<Row>, key: Key, stored: bool) {
    exists row :: row in rows && row.actor != "" && key != "" && if stored then row.stored == Some(key) else row.stored.None? && row.derived == Some(key)
  }

  lemma KeyFromGrows(rows: seq<Row>, row: Row)
    ensures forall key, stored :: KeyFrom(rows + [row], key, stored) <==>
              KeyFrom(rows, key, stored) || (KeyOf(row) == Some(key) && HasStoredKey(row) == stored)
  {
    assert row in rows + [row];
    assert forall r :: r in rows ==> r in rows + [row];
  }

  lemma NothingSeen()
    ensures SeenAre([], [])
  {
  }

  // ----- the configured merge

  /** The first source whose identities claim the key. */
  function ClaimFrom(c: Config, s: Seen, i: nat): Option<Claim>
    requires i <= |s.sources|
    decreases |s.sources| - i
  {
    if i == |s.sources| then None
    else
      var claim := c.resolve(s.key, s.names, s.sources[i]);
      if claim.Some? then claim else ClaimFrom(c, s, i + 1)
  }

  function ClaimOf(c: Config, s: Seen): Option<Claim> { ClaimFrom(c, s, 0) }

  /** The claim is that of the first source whose identities claim the key; none if no source's do. */
  ghost predicate ClaimedBy(c: Config, s: Seen, claim: Option<Claim>) {
    if claim.None? then forall i :: 0 <= i < |s.sources| ==> c.resolve(s.key, s.names, s.sources[i]).None?
    else
      exists i :: 0 <= i < |s.sources| && c.resolve(s.key, s.names, s.sources[i]) == claim
        && forall j :: 0 <= j < i ==> c.resolve(s.key, s.names, s.sources[j]).None?
  }

  lemma {:induction false} ClaimIsFirst(c: Config, s: Seen, i: nat)
    requires i <= |s.sources| && forall j :: 0 <= j < i ==> c.resolve(s.key, s.names, s.sources[j]).None?
    ensures ClaimedBy(c, s, ClaimFrom(c, s, i))
    decreases |s.sources| - i
  {
    if i < |s.sources| && c.resolve(s.key, s.names, s.sources[i]).None? {
      ClaimIsFirst(c, s, i + 1);
    }
  }

  lemma OnlyOneClaims(c: Config, s: Seen, a: Option<Claim>, b: Option<Claim>)
    requires ClaimedBy(c, s, a) && ClaimedBy(c, s, b)
    ensures a == b
  {
  }

  method FindClaim(c: Config, s: Seen) returns (claim: Option<Claim>)
    ensures claim == ClaimOf(c, s) && ClaimedBy(c, s, claim)
  {
    hide ClaimedBy;
    ClaimIsFirst(c, s, 0);
    claim := None;
    for i := 0 to |s.sources|
      invariant claim.None? && ClaimFrom(c, s, i) == ClaimOf(c, s)
    {
      claim := c.resolve(s.key, s.names, s.sources[i]);
      if claim.Some? {
        return;
      }
    }
  }

  function TargetOf(c: Config, s: Seen): Key {
    var claim := ClaimOf(c, s);
    if claim.Some? then claim.value.key else s.key
  }

  predicate BotOf(c: Config, s: Seen) { c.autoBot(s.key) || c.excluded(s.key, s.names) }

  function MergedNames(c: Config, seen: seq<Seen>, key: Key): multiset<string> {
    if seen == [] then multiset{}
    else
      var last := seen[|seen| - 1];
      MergedNames(c, seen[..|seen| - 1], key) + if TargetOf(c, last) == key then last.names else multiset{}
  }

  /** The claim of the first key that lands in the group. */
  function FirstClaim(c: Config, seen: seq<Seen>, key: Key): Option<Claim> {
    if seen == [] then None
    else if TargetOf(c, seen[0]) == key then ClaimOf(c, seen[0])
    else FirstClaim(c, seen[1..], key)
  }

  ghost predicate Reaches(c: Config, seen: seq<Seen>, key: Key) {
    exists s :: s in seen && TargetOf(c, s) == key
  }

  /** A group is a bot only when all of it is. */
  ghost predicate AllBots(c: Config, seen: seq<Seen>, key: Key) {
    forall s :: s in seen && TargetOf(c, s) == key ==> BotOf(c, s)
  }

  ghost predicate IsGroup(c: Config, seen: seq<Seen>, g: Group) {
    && Reaches(c, seen, g.key) && g.names == MergedNames(c, seen, g.key)
    && g.claim == FirstClaim(c, seen, g.key) && (g.bot <==> AllBots(c, seen, g.key))
  }

  ghost predicate GroupsAre(c: Config, seen: seq<Seen>, groups: seq<Group>) {
    && (forall i, j :: 0 <= i < j < |groups| ==> groups[i].key != groups[j].key)
    && (forall i :: 0 <= i < |groups| ==> IsGroup(c, seen, groups[i]))
    && forall s :: s in seen ==> exists i :: 0 <= i < |groups| && groups[i].key == TargetOf(c, s)
  }

  method IndexOfGroup(groups: seq<Group>, key: Key) returns (at: Option<nat>)
    ensures at.Some? ==> at.value < |groups| && groups[at.value].key == key
    ensures at.None? ==> forall i :: 0 <= i < |groups| ==> groups[i].key != key
  {
    at := None;
    for i := 0 to |groups|
      invariant at.Some? ==> at.value < |groups| && groups[at.value].key == key
      invariant at.None? ==> forall j :: 0 <= j < i ==> groups[j].key != key
    {
      if groups[i].key == key {
        at := Some(i);
      }
    }
  }

  function Join(groups: seq<Group>, at: Option<nat>, c: Config, s: Seen): seq<Group>
    requires at.Some? ==> at.value < |groups|
  {
    if at.None? then groups + [Group(TargetOf(c, s), s.names, ClaimOf(c, s), BotOf(c, s))]
    else
      var g := groups[at.value];
      groups[at.value := g.(names := g.names + s.names, bot := g.bot && BotOf(c, s))]
  }

  // ----- the groups, in terms of what was seen

  ghost predicate LandsIn(c: Config, s: Seen, key: Key) {
    exists claim :: ClaimedBy(c, s, claim) && key == if claim.Some? then claim.value.key else s.key
  }

  /** The first record that lands in the group gives its claim; its names are those of all that land in
      it, and it is a bot only if each of them is. */
  ghost predicate GroupSays(c: Config, seen: seq<Seen>, g: Group) {
    && (exists i :: 0 <= i < |seen| && LandsIn(c, seen[i], g.key) && ClaimedBy(c, seen[i], g.claim) && forall j :: 0 <= j < i ==> !LandsIn(c, seen[j], g.key))
    && (forall s :: s in seen && LandsIn(c, s, g.key) ==> s.names <= g.names)
    && (forall n :: n in g.names ==> exists s :: s in seen && LandsIn(c, s, g.key) && n in s.names)
    && (g.bot <==> forall s :: s in seen && LandsIn(c, s, g.key) ==> c.autoBot(s.key) || c.excluded(s.key, s.names))
  }

  /** Every record lands in a group, no two groups share a key, and no group is anything else. */
  ghost predicate GroupsSay(c: Config, seen: seq<Seen>, groups: seq<Group>) {
    && (forall i, j :: 0 <= i < j < |groups| ==> groups[i].key != groups[j].key)
    && (forall g :: g in groups ==> GroupSays(c, seen, g))
    && forall s :: s in seen ==> exists g :: g in groups && LandsIn(c, s, g.key)
  }

  lemma LandsInTarget(c: Config, s: Seen, key: Key)
    ensures LandsIn(c, s, key) <==> TargetOf(c, s) == key
  {
    hide ClaimedBy, ClaimFrom;
    ClaimIsFirst(c, s, 0);
    if claim :| ClaimedBy(c, s, claim) && key == if claim.Some? then claim.value.key else s.key {
      OnlyOneClaims(c, s, claim, ClaimOf(c, s));
    }
  }

  lemma {:induction false} FirstClaimIsFirst(c: Config, seen: seq<Seen>, key: Key) returns (i: nat)
    requires Reaches(c, seen, key)
    ensures i < |seen| && TargetOf(c, seen[i]) == key && FirstClaim(c, seen, key) == ClaimOf(c, seen[i])
    ensures forall j :: 0 <= j < i ==> TargetOf(c, seen[j]) != key
  {
    hide TargetOf, ClaimOf;
    if TargetOf(c, seen[0]) == key {
      i := 0;
    } else {
      assert seen == [seen[0]] + seen[1..];
      i := FirstClaimIsFirst(c, seen[1..], key);
      i := i + 1;
    }
  }

  lemma {:induction false} MergedNamesSay(c: Config, seen: seq<Seen>, key: Key)
    ensures forall s :: s in seen && TargetOf(c, s) == key ==> s.names <= MergedNames(c, seen, key)
    ensures forall n :: n in MergedNames(c, seen, key) ==> exists s :: s in seen && TargetOf(c, s) == key && n in s.names
  {
    hide TargetOf;
    if seen != [] {
      var front, last := seen[..|seen| - 1], seen[|seen| - 1];
      MergedNamesSay(c, front, key);
      assert forall s :: s in seen <==> s in front || s == last;
    }
  }

  lemma GroupIsSaid(c: Config, seen: seq<Seen>, g: Group)
    requires IsGroup(c, seen, g)
    ensures GroupSays(c, seen, g)
  {
    hide LandsIn, ClaimedBy, TargetOf, FirstClaim, MergedNames, ClaimOf;
    forall s {
      LandsInTarget(c, s, g.key);
    }
    var i := FirstClaimIsFirst(c, seen, g.key);
    ClaimIsFirst(c, seen[i], 0);
    ClaimOfIs(c, seen[i]);
    MergedNamesSay(c, seen, g.key);
  }

  lemma ClaimOfIs(c: Config, s: Seen)
    ensures ClaimOf(c, s) == ClaimFrom(c, s, 0)
  {
  }

  lemma GroupsAreSaid(c: Config, seen: seq<Seen>, groups: seq<Group>)
    requires GroupsAre(c, seen, groups)
    ensures GroupsSay(c, seen, groups)
  {
    hide IsGroup, GroupSays, LandsIn, TargetOf;
    forall g | g in groups
      ensures GroupSays(c, seen, g)
    {
      GroupIsSaid(c, seen, g);
    }
    forall s | s in seen
      ensures exists g :: g in groups && LandsIn(c, s, g.key)
    {
      var i :| 0 <= i < |groups| && groups[i].key == TargetOf(c, s);
      LandsInTarget(c, s, groups[i].key);
      assert groups[i] in groups;
    }
  }

  // ----- nothing is counted twice or lost by the merge

  function NamesSeen(seen: seq<Seen>): multiset<string> {
    if seen == [] then multiset{} else NamesSeen(seen[..|seen| - 1]) + seen[|seen| - 1].names
  }

  function NamesGrouped(groups: seq<Group>): multiset<string> {
    if groups == [] then multiset{} else NamesGrouped(groups[..|groups| - 1]) + groups[|groups| - 1].names
  }

  lemma {:induction false} JoinAdds(groups: seq<Group>, at: nat, names: multiset<string>, bot: bool)
    requires at < |groups|
    ensures NamesGrouped(groups[at := groups[at].(names := groups[at].names + names, bot := bot)]) == NamesGrouped(groups) + names
  {
    var next := groups[at := groups[at].(names := groups[at].names + names, bot := bot)];
    if at < |groups| - 1 {
      JoinAdds(groups[..|groups| - 1], at, names, bot);
      assert next[..|groups| - 1] == groups[..|groups| - 1][at := next[at]];
    } else {
      assert next[..|groups| - 1] == groups[..|groups| - 1];
    }
  }

  lemma JoinAddsNames(groups: seq<Group>, at: Option<nat>, c: Config, s: Seen)
    requires at.Some? ==> at.value < |groups|
    ensures NamesGrouped(Join(groups, at, c, s)) == NamesGrouped(groups) + s.names
  {
    hide TargetOf, ClaimOf, BotOf;
    if at.Some? {
      JoinAdds(groups, at.value, s.names, groups[at.value].bot && BotOf(c, s));
    } else {
      assert Join(groups, at, c, s)[..|groups|] == groups;
    }
  }

  /** Groups the keys by claim; the first claim names the group. */
  method MergeClaims(c: Config, seen: seq<Seen>) returns (groups: seq<Group>)
    ensures GroupsAre(c, seen, groups) && GroupsSay(c, seen, groups)
    ensures NamesGrouped(groups) == NamesSeen(seen)
  {
    hide GroupsAre, TargetOf, BotOf, Join, GroupsSay, ClaimedBy;
    groups := [];
    NoGroups(c);
    assert seen[..0] == [];
    for i := 0 to |seen|
      invariant GroupsAre(c, seen[..i], groups)
      invariant NamesGrouped(groups) == NamesSeen(seen[..i])
    {
      assert seen[..i + 1][..i] == seen[..i];
      assert seen[..i + 1] == seen[..i] + [seen[i]];
      var claim := FindClaim(c, seen[i]);
      var at := IndexOfGroup(groups, TargetOf(c, seen[i]));
      JoinOne(c, seen[..i], seen[i], groups, at);
      JoinAddsNames(groups, at, c, seen[i]);
      groups := Join(groups, at, c, seen[i]);
    }
    assert seen[..|seen|] == seen;
    GroupsAreSaid(c, seen, groups);
  }

  lemma NoGroups(c: Config)
    ensures GroupsAre(c, [], [])
  {
  }

  lemma {:induction false} FirstClaimGrows(c: Config, seen: seq<Seen>, s: Seen, key: Key)
    ensures FirstClaim(c, seen + [s], key) ==
            if Reaches(c, seen, key) then FirstClaim(c, seen, key) else if TargetOf(c, s) == key then ClaimOf(c, s) else None
  {
    hide TargetOf, ClaimOf;
    if seen == [] {
      assert [s][1..] == [];
      assert seen + [s] == [s];
    } else {
      FirstClaimGrows(c, seen[1..], s, key);
      assert (seen + [s])[1..] == seen[1..] + [s];
      assert seen == [seen[0]] + seen[1..];
    }
  }

  lemma GroupGrows(c: Config, seen: seq<Seen>, s: Seen, g: Group)
    requires IsGroup(c, seen, g)
    ensures IsGroup(c, seen + [s], if g.key == TargetOf(c, s) then g.(names := g.names + s.names, bot := g.bot && BotOf(c, s)) else g)
  {
    hide TargetOf, ClaimOf, BotOf;
    FirstClaimGrows(c, seen, s, g.key);
    assert (seen + [s])[..|seen|] == seen;
    assert forall x :: x in seen + [s] <==> x in seen || x == s;
  }

  lemma GroupBegins(c: Config, seen: seq<Seen>, s: Seen)
    requires !Reaches(c, seen, TargetOf(c, s))
    ensures IsGroup(c, seen + [s], Group(TargetOf(c, s), s.names, ClaimOf(c, s), BotOf(c, s)))
  {
    hide TargetOf, ClaimOf, BotOf;
    FirstClaimGrows(c, seen, s, TargetOf(c, s));
    assert (seen + [s])[..|seen|] == seen;
    assert forall x :: x in seen + [s] <==> x in seen || x == s;
    assert s in seen + [s];
    UnreachedIsEmpty(c, seen, TargetOf(c, s));
  }

  lemma {:induction false} UnreachedIsEmpty(c: Config, seen: seq<Seen>, key: Key)
    requires !Reaches(c, seen, key)
    ensures MergedNames(c, seen, key) == multiset{}
  {
    hide TargetOf;
    if seen != [] {
      assert seen[|seen| - 1] in seen;
      assert forall x :: x in seen[..|seen| - 1] ==> x in seen;
      UnreachedIsEmpty(c, seen[..|seen| - 1], key);
    }
  }

  lemma JoinOne(c: Config, seen: seq<Seen>, s: Seen, groups: seq<Group>, at: Option<nat>)
    requires GroupsAre(c, seen, groups)
    requires at.Some? ==> at.value < |groups| && groups[at.value].key == TargetOf(c, s)
    requires at.None? ==> forall i :: 0 <= i < |groups| ==> groups[i].key != TargetOf(c, s)
    ensures GroupsAre(c, seen + [s], Join(groups, at, c, s))
  {
    hide IsGroup, TargetOf, ClaimOf, BotOf;
    var next := Join(groups, at, c, s);
    forall i | 0 <= i < |groups|
      ensures IsGroup(c, seen + [s], next[i])
    {
      GroupGrows(c, seen, s, groups[i]);
    }
    if at.None? {
      assert !Reaches(c, seen, TargetOf(c, s));
      GroupBegins(c, seen, s);
    }
    forall x | x in seen + [s]
      ensures exists i :: 0 <= i < |next| && next[i].key == TargetOf(c, x)
    {
      if x in seen {
        var i :| 0 <= i < |groups| && groups[i].key == TargetOf(c, x);
        assert next[i].key == TargetOf(c, x);
      } else if at.Some? {
        assert next[at.value].key == TargetOf(c, x);
      } else {
        assert next[|groups|].key == TargetOf(c, x);
      }
    }
  }

  // ----- the directory's entries

  predicate Tops(names: multiset<string>, order: Order, a: string, b: string) {
    names[b] < names[a] || (names[b] == names[a] && order(a, b))
  }

  /** The most frequent string, the first in display order among equals. */
  function TopName(names: multiset<string>, order: Order): (top: string)
    requires |names| > 0 && IsTotal(order)
    ensures top in names && forall n :: n in names ==> Tops(names, order, top, n)
  {
    HasTop(names, names, order);
    var top :| top in names && forall n :: n in names ==> Tops(names, order, top, n);
    top
  }

  lemma {:induction false} HasTop(names: multiset<string>, part: multiset<string>, order: Order)
    requires |part| > 0 && IsTotal(order) && forall n :: n in part ==> n in names
    ensures exists top :: top in part && forall n :: n in part ==> Tops(names, order, top, n)
    decreases |part|
  {
    var x :| x in part;
    var rest := part[x := 0];
    if |rest| == 0 {
      assert rest == multiset{};
      assert forall n :: n in part && n != x ==> rest[n] == part[n];
      assert forall n :: n in part ==> n == x;
      assert x in part && forall n :: n in part ==> Tops(names, order, x, n);
    } else {
      HasTop(names, rest, order);
      var y :| y in rest && forall n :: n in rest ==> Tops(names, order, y, n);
      var top := if Tops(names, order, x, y) then x else y;
      assert forall n :: n in part ==> n == x || n in rest;
      assert top in part && forall n :: n in part ==> Tops(names, order, top, n);
    }
  }

  function DisplayName(g: Group, order: Order): string
    requires IsTotal(order)
  {
    if g.claim.Some? && g.claim.value.name != "" then g.claim.value.name
    else if |g.names| == 0 then g.key
    else TopName(g.names, order)
  }

  function NameSet(names: multiset<string>): set<string> { set n | n in names }

  function EntryOf(g: Group, storedKeys: set<Key>, derivedKeys: set<Key>, order: Order): Entry
    requires IsTotal(order)
  {
    Entry(DisplayName(g, order), NameSet(g.names) + {DisplayName(g, order)}, g.bot, g.claim.Some?,
          g.claim.None? && g.key in derivedKeys && g.key !in storedKeys)
  }

  /** A group's entry, in terms of the group and the rows. Its name is the configured one or, without
      that, its most frequent string. It is keyless if nobody claims it and no row of its key has the key
      stored. */
  ghost predicate EntrySays(rows: seq<Row>, g: Group, order: Order, e: Entry) {
    && (g.claim.Some? && g.claim.value.name != "" ==> e.name == g.claim.value.name)
    && (g.claim.None? && |g.names| > 0 ==>
          e.name in g.names && forall n :: n in g.names ==> g.names[n] < g.names[e.name] || (g.names[n] == g.names[e.name] && order(e.name, n)))
    && (forall x :: x in e.actors <==> x in g.names || x == e.name)
    && e.bot == g.bot && e.declared == g.claim.Some?
    && (e.keyless <==> g.claim.None? && (exists row :: row in rows && BelongsTo(row, g.key)) && forall row :: row in rows && BelongsTo(row, g.key) ==> row.stored.None?)
  }

  /** The entries, one per group, with every step said in terms of the step before it. */
  ghost predicate EntriesSay(c: Config, rows: seq<Row>, order: Order, entries: seq<Entry>, seen: seq<Seen>, groups: seq<Group>) {
    && SeenSays(rows, seen) && GroupsSay(c, seen, groups)
    && |entries| == |groups|
    && forall i :: 0 <= i < |groups| ==> EntrySays(rows, groups[i], order, entries[i])
  }

  /** The entries of these rows: one per group. */
  ghost predicate EntriesOf(c: Config, rows: seq<Row>, order: Order, entries: seq<Entry>) {
    exists seen, groups :: EntriesSay(c, rows, order, entries, seen, groups)
  }

  /** The identities published from the entries of these rows. */
  ghost predicate DirectoryOf(c: Config, rows: seq<Row>, order: Order, identities: seq<Identity>)
    requires IsTotal(order)
  {
    exists entries :: EntriesOf(c, rows, order, entries)
      && identities == Published(Survivors(entries, |entries|), order, |Survivors(entries, |entries|)|)
  }

  lemma EntryIsSaid(rows: seq<Row>, g: Group, storedKeys: set<Key>, derivedKeys: set<Key>, order: Order)
    requires IsTotal(order)
    requires forall key :: key in storedKeys <==> KeyFrom(rows, key, true)
    requires forall key :: key in derivedKeys <==> KeyFrom(rows, key, false)
    ensures EntrySays(rows, g, order, EntryOf(g, storedKeys, derivedKeys, order))
  {
    hide IsTotal, KeyFrom, BelongsTo;
    var e := EntryOf(g, storedKeys, derivedKeys, order);
    KeylessExactlyWhen(rows, g.key);
    assert e.keyless <==> g.claim.None? && KeyFrom(rows, g.key, false) && !KeyFrom(rows, g.key, true);
    if g.claim.None? && |g.names| > 0 {
      assert e.name == TopName(g.names, order);
      assert forall n :: n in g.names ==> Tops(g.names, order, e.name, n);
    }
  }

  lemma KeylessExactlyWhen(rows: seq<Row>, key: Key)
    ensures KeyFrom(rows, key, false) && !KeyFrom(rows, key, true) <==>
            (exists row :: row in rows && BelongsTo(row, key)) && forall row :: row in rows && BelongsTo(row, key) ==> row.stored.None?
  {
  }

  /** The whole directory, before it is sorted by name. */
  method BuildActorDirectory(c: Config, rows: seq<Row>, order: Order) returns (identities: seq<Identity>)
    requires IsTotal(order)
    ensures DirectoryOf(c, rows, order, identities)
    ensures AtMostOne(identities)
  {
    hide SeenAre, SeenSays, GroupsAre, GroupsSay, EntrySays, IsTotal, AtMostOne, Published, Survivors, KeyFrom;
    var seen, storedKeys, derivedKeys := Accumulate(rows);
    var groups := MergeClaims(c, seen);
    var entries := ListEntries(rows, groups, storedKeys, derivedKeys, order);
    assert EntriesSay(c, rows, order, entries, seen, groups);
    identities := BuildIdentities(entries, order);
    assert EntriesOf(c, rows, order, entries);
  }

  method ListEntries(ghost rows: seq<Row>, groups: seq<Group>, storedKeys: set<Key>, derivedKeys: set<Key>, order: Order) returns (list: seq<Entry>)
    requires IsTotal(order)
    requires forall key :: key in storedKeys <==> KeyFrom(rows, key, true)
    requires forall key :: key in derivedKeys <==> KeyFrom(rows, key, false)
    ensures |list| == |groups| && forall i :: 0 <= i < |groups| ==> EntrySays(rows, groups[i], order, list[i])
  {
    hide IsTotal, EntryOf, KeyFrom, EntrySays;
    list := [];
    for i := 0 to |groups|
      invariant |list| == i && forall j :: 0 <= j < i ==> EntrySays(rows, groups[j], order, list[j])
    {
      EntryIsSaid(rows, groups[i], storedKeys, derivedKeys, order);
      list := list + [EntryOf(groups[i], storedKeys, derivedKeys, order)];
    }
  }

  /** Every row that belongs to a key is addressable: its string belongs to some entry, and every entry
      has its name among its strings. */
  lemma RowsAreAddressable(c: Config, rows: seq<Row>, order: Order, entries: seq<Entry>, row: Row, key: Key)
    requires EntriesOf(c, rows, order, entries) && row in rows && BelongsTo(row, key)
    ensures Named(entries)
    ensures exists e :: e in entries && row.actor in e.actors
  {
    hide SeenSays, GroupsSay, BelongsTo;
    var seen: seq<Seen>, groups: seq<Group> :| EntriesSay(c, rows, order, entries, seen, groups);
    var s := SeenWith(rows, seen, row, key);
    var i := GroupWith(c, seen, groups, s);
    assert entries[i] in entries && row.actor in groups[i].names;
  }

  lemma SeenWith(rows: seq<Row>, seen: seq<Seen>, row: Row, key: Key) returns (s: Seen)
    requires SeenSays(rows, seen) && row in rows && BelongsTo(row, key)
    ensures s in seen && row.actor in s.names
  {
    hide BelongsTo, MetBefore;
    var keys := seq(|seen|, i requires 0 <= i < |seen| => seen[i].key);
    assert Met(rows, BelongsTo, key);
    var i :| 0 <= i < |keys| && keys[i] == key;
    s := seen[i];
    var k: nat :| k < |rows| && rows[k] == row;
    assert k in RowsOf(rows, key, row.actor);
  }

  lemma GroupWith(c: Config, seen: seq<Seen>, groups: seq<Group>, s: Seen) returns (i: nat)
    requires GroupsSay(c, seen, groups) && s in seen
    ensures i < |groups| && s.names <= groups[i].names
  {
    hide LandsIn;
    var g :| g in groups && LandsIn(c, s, g.key);
    assert GroupSays(c, seen, g);
    i :| 0 <= i < |groups| && groups[i] == g;
  }
}
