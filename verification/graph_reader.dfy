/** The bounded reader of the focused graph: one frontier at a time through capped edge reads. */
module GraphReader {
  import Sets
  import opened Options
  import opened Sorting
  import opened GraphNeighborhood
  import opened GraphResponse

  /** Live item rows (true when the row's repository is configured), live edge rows, the source each
      reference belongs to, and the configured sources. */
  datatype Store = Store(items: map<Ref, bool>, edges: seq<Edge>, sourceOf: Ref -> nat, configured: set<nat>)

  /** Edge rows have a primary key, and a configured repository belongs to a configured source. */
  ghost predicate ValidStore(s: Store) {
    && Distinct(s.edges)
    && forall r :: r in s.items && s.items[r] ==> s.sourceOf(r) in s.configured
  }

  /** A reference the projection keeps: its source is configured, and so is its repository if it has
      a live row. */
  predicate InConfig(s: Store, r: Ref) {
    s.sourceOf(r) in s.configured && (r in s.items ==> s.items[r])
  }

  function Filter(edges: seq<Edge>, keep: Edge -> bool): seq<Edge> {
    if edges == [] then []
    else if keep(edges[0]) then [edges[0]] + Filter(edges[1..], keep) else Filter(edges[1..], keep)
  }

  /** The whole store's projection, as the builder sees it. */
  function Projected(s: Store): seq<Edge> {
    Filter(s.edges, (e: Edge) => InConfig(s, e.from) && InConfig(s, e.to))
  }

  function KnownItems(s: Store): set<Ref> {
    set r | r in s.items && s.items[r]
  }

  lemma {:induction false} Filters(edges: seq<Edge>, keep: Edge -> bool)
    ensures forall e :: e in Filter(edges, keep) <==> e in edges && keep(e)
    ensures Distinct(edges) ==> Distinct(Filter(edges, keep))
  {
    if edges != [] {
      Filters(edges[1..], keep);
      assert edges == [edges[0]] + edges[1..];
      if Distinct(edges) {
        InTail(edges, edges[0]);
      }
    }
  }

  lemma {:induction false} FiltersNone(edges: seq<Edge>, keep: Edge -> bool)
    requires forall e :: !keep(e)
    ensures Filter(edges, keep) == []
  {
    if edges != [] {
      FiltersNone(edges[1..], keep);
    }
  }

  // ----- one capped edge read

  datatype EdgePage = EdgePage(rows: seq<Edge>, truncated: bool)

  function ToKey(e: Edge): Key { Key(0, e.to, e.from, e.kind) }

  function FromRows(edges: seq<Edge>, refs: set<Ref>): seq<Edge> {
    Sort(Filter(edges, (e: Edge) => e.from in refs), EdgeKey)
  }

  function ToRows(edges: seq<Edge>, refs: set<Ref>): seq<Edge> {
    Sort(Filter(edges, (e: Edge) => e.to in refs), ToKey)
  }

  /** Rows of either read, each once. */
  function Merge(one: seq<Edge>, other: seq<Edge>): seq<Edge> {
    one + Filter(other, (e: Edge) => e !in one)
  }

  /** Two directional reads with a sentinel row each, merged, sorted and cut to the limit. */
  function ReadEdges(edges: seq<Edge>, refs: set<Ref>, limit: nat): EdgePage {
    if refs == {} || limit == 0 then EdgePage([], false)
    else
      var from := Capped(FromRows(edges, refs), limit + 1);
      var to := Capped(ToRows(edges, refs), limit + 1);
      var merged := Sort(Merge(from, to), EdgeKey);
      EdgePage(Capped(merged, limit), |from| > limit || |to| > limit || |merged| > limit)
  }

  function IncidentTo(edges: seq<Edge>, refs: set<Ref>): seq<Edge> {
    Filter(edges, (e: Edge) => e.from in refs || e.to in refs)
  }

  lemma {:induction false} CountDistinct(s: seq<Edge>)
    requires Distinct(s)
    ensures |Elements(s)| == |s|
  {
    if s != [] {
      CountDistinct(s[1..]);
      forall e ensures e in Elements(s) <==> e in Elements(s[1..]) || e == s[0] { InTail(s, e); }
      InTail(s, s[0]);
      assert Elements(s) == Elements(s[1..]) + {s[0]};
    }
  }

  lemma FewerElements(s: seq<Edge>, t: seq<Edge>)
    requires Distinct(s) && Distinct(t) && forall e :: e in s ==> e in t
    ensures |s| <= |t|
    ensures (forall e :: e in t ==> e in s) ==> |s| == |t|
  {
    CountDistinct(s);
    CountDistinct(t);
    Sets.SubsetSize(Elements(s), Elements(t));
    if forall e :: e in t ==> e in s {
      assert Elements(s) == Elements(t);
    }
  }

  lemma ToKeyInjective()
    ensures Injective(ToKey)
  {
  }

  lemma DirectionalRows(edges: seq<Edge>, refs: set<Ref>)
    requires Distinct(edges)
    ensures Distinct(FromRows(edges, refs)) && forall e :: e in FromRows(edges, refs) <==> e in edges && e.from in refs
    ensures Distinct(ToRows(edges, refs)) && forall e :: e in ToRows(edges, refs) <==> e in edges && e.to in refs
  {
    var from, to := Filter(edges, (e: Edge) => e.from in refs), Filter(edges, (e: Edge) => e.to in refs);
    Filters(edges, (e: Edge) => e.from in refs);
    Filters(edges, (e: Edge) => e.to in refs);
    EdgeKeyInjective();
    ToKeyInjective();
    SortSorts(from, EdgeKey);
    SortSorts(to, ToKey);
    AscendingIsDistinct(Sort(from, EdgeKey), EdgeKey);
    AscendingIsDistinct(Sort(to, ToKey), ToKey);
  }

  lemma CappedIs(s: seq<Edge>, cap: nat)
    ensures forall e :: e in Capped(s, cap) ==> e in s
    ensures Distinct(s) ==> Distinct(Capped(s, cap))
    ensures |Capped(s, cap)| == if |s| <= cap then |s| else cap
  {
  }

  lemma Merges(one: seq<Edge>, other: seq<Edge>)
    requires Distinct(one) && Distinct(other)
    ensures Distinct(Merge(one, other))
    ensures forall e :: e in Merge(one, other) <==> e in one || e in other
  {
    Filters(other, (e: Edge) => e !in one);
    var extra := Filter(other, (e: Edge) => e !in one);
    forall i, j | 0 <= i < j < |one + extra|
      ensures (one + extra)[i] != (one + extra)[j]
    {
      if i < |one| <= j {
        assert one[i] in one && extra[j - |one|] in extra;
      }
    }
  }

  /** For a positive limit the truncated flag is true exactly when more edges touch the references than
      the limit, and an untruncated page holds exactly those edges. */
  lemma PageIsExact(edges: seq<Edge>, refs: set<Ref>, limit: nat)
    requires Distinct(edges) && refs != {} && limit > 0
    ensures ReadEdges(edges, refs, limit).truncated <==> |IncidentTo(edges, refs)| > limit
    ensures forall e :: e in ReadEdges(edges, refs, limit).rows ==> e in IncidentTo(edges, refs)
    ensures !ReadEdges(edges, refs, limit).truncated ==>
              forall e :: e in IncidentTo(edges, refs) ==> e in ReadEdges(edges, refs, limit).rows
  {
    var all := IncidentTo(edges, refs);
    var fromAll, toAll := FromRows(edges, refs), ToRows(edges, refs);
    var from, to := Capped(fromAll, limit + 1), Capped(toAll, limit + 1);
    var merged := Merge(from, to);
    DirectionalRows(edges, refs);
    Filters(edges, (e: Edge) => e.from in refs || e.to in refs);
    CappedIs(fromAll, limit + 1);
    CappedIs(toAll, limit + 1);
    Merges(from, to);
    EdgeKeyInjective();
    SortSorts(merged, EdgeKey);
    FewerElements(from, all);
    FewerElements(to, all);
    FewerElements(merged, all);
    CappedIs(Sort(merged, EdgeKey), limit);
    if |from| <= limit && |to| <= limit {
      assert from == fromAll && to == toAll;
      assert forall e :: e in all ==> e in merged;
    }
  }

  /** At limit zero the flag is always false, so it is exact precisely when the limit is positive or
      there is nothing to read. */
  lemma FlagExactness(edges: seq<Edge>, refs: set<Ref>, limit: nat)
    requires Distinct(edges)
    ensures (ReadEdges(edges, refs, limit).truncated <==> |IncidentTo(edges, refs)| > limit)
       <==> limit > 0 || IncidentTo(edges, refs) == []
  {
    if refs == {} {
      FiltersNone(edges, (e: Edge) => e.from in refs || e.to in refs);
    } else if limit > 0 {
      PageIsExact(edges, refs, limit);
    }
  }

  // ----- one frontier

  ghost predicate DistinctRefs(refs: seq<Ref>) {
    forall i, j :: 0 <= i < j < |refs| ==> refs[i] != refs[j]
  }

  function RefKey(r: Ref): Key { Key(0, r, 0, 0) }

  /** The configured sources of some references, each once. */
  function SourcesOf(s: Store, refs: seq<Ref>): (sources: seq<nat>)
    ensures forall r :: r in refs ==> s.sourceOf(r) in sources
    ensures forall j, k :: 0 <= j < k < |sources| ==> sources[j] != sources[k]
  {
    if refs == [] then []
    else
      var rest := SourcesOf(s, refs[1..]);
      if s.sourceOf(refs[0]) in rest then rest else [s.sourceOf(refs[0])] + rest
  }

  ghost predicate AtFrontier(e: Edge, unread: seq<Ref>) {
    e.from in unread || e.to in unread
  }

  /** All edges at the frontier's references of one source were read. */
  ghost predicate SourceRead(s: Store, unread: seq<Ref>, source: nat, got: seq<Edge>) {
    forall r, e :: r in unread && s.sourceOf(r) == source && e in s.edges && Touches(e, r) ==> e in got
  }

  // ----- how many rows a frontier can read

  function Times(e: Edge, n: nat): multiset<Edge> { multiset{}[e := n] }

  function Bit(b: bool): nat { if b then 1 else 0 }

  /** Each edge as often as it has ends in these sources. */
  function AtSources(s: Store, edges: seq<Edge>, sources: set<nat>): multiset<Edge> {
    if edges == [] then multiset{}
    else
      var e := edges[0];
      Times(e, Bit(s.sourceOf(e.from) in sources) + Bit(s.sourceOf(e.to) in sources)) + AtSources(s, edges[1..], sources)
  }

  function Sources(list: seq<nat>): set<nat> { set x | x in list }

  /** An edge has two ends. */
  lemma {:induction false} TwoEnds(s: Store, edges: seq<Edge>, sources: set<nat>)
    ensures |AtSources(s, edges, sources)| <= 2 * |edges|
  {
    if edges != [] {
      TwoEnds(s, edges[1..], sources);
      TimesSize(edges[0], Bit(s.sourceOf(edges[0].from) in sources) + Bit(s.sourceOf(edges[0].to) in sources));
    }
  }

  lemma NoRows(s: Store)
    ensures multiset([]) <= AtSources(s, s.edges, {})
  {
  }

  lemma TimesSize(e: Edge, n: nat)
    ensures |Times(e, n)| == n
  {
  }

  lemma {:induction false} DisjointSources(s: Store, edges: seq<Edge>, some: set<nat>, source: nat)
    requires source !in some
    ensures AtSources(s, edges, some + {source}) == AtSources(s, edges, some) + AtSources(s, edges, {source})
  {
    if edges != [] {
      DisjointSources(s, edges[1..], some, source);
    }
  }

  lemma {:induction false} AtSourceCounts(s: Store, edges: seq<Edge>, source: nat, e: Edge)
    requires e in edges && (s.sourceOf(e.from) == source || s.sourceOf(e.to) == source)
    ensures e in AtSources(s, edges, {source})
  {
    if e != edges[0] {
      assert e in edges[1..];
      AtSourceCounts(s, edges[1..], source, e);
    }
  }

  lemma {:induction false} DistinctCounts(rows: seq<Edge>, e: Edge)
    requires Distinct(rows)
    ensures multiset(rows)[e] == Bit(e in rows)
  {
    if rows != [] {
      assert rows == [rows[0]] + rows[1..];
      assert multiset(rows) == multiset{rows[0]} + multiset(rows[1..]);
      DistinctCounts(rows[1..], e);
      InTail(rows, rows[0]);
    }
  }

  /** Rows read for one source's references are among its edge ends. */
  lemma SourceRows(s: Store, refs: set<Ref>, source: nat, rows: seq<Edge>)
    requires Distinct(rows) && forall r :: r in refs ==> s.sourceOf(r) == source
    requires forall e :: e in rows ==> e in s.edges && (e.from in refs || e.to in refs)
    ensures multiset(rows) <= AtSources(s, s.edges, {source})
  {
    forall e
      ensures multiset(rows)[e] <= AtSources(s, s.edges, {source})[e]
    {
      DistinctCounts(rows, e);
      if e in rows {
        AtSourceCounts(s, s.edges, source, e);
      }
    }
  }

  lemma PageIsDistinct(edges: seq<Edge>, refs: set<Ref>, limit: nat)
    requires Distinct(edges) && refs != {} && limit > 0
    ensures Distinct(ReadEdges(edges, refs, limit).rows)
  {
    var from, to := Capped(FromRows(edges, refs), limit + 1), Capped(ToRows(edges, refs), limit + 1);
    DirectionalRows(edges, refs);
    CappedIs(FromRows(edges, refs), limit + 1);
    CappedIs(ToRows(edges, refs), limit + 1);
    Merges(from, to);
    EdgeKeyInjective();
    SortSorts(Merge(from, to), EdgeKey);
    AscendingIsDistinct(Sort(Merge(from, to), EdgeKey), EdgeKey);
    CappedIs(Sort(Merge(from, to), EdgeKey), limit);
  }

  lemma RowsAreFewer(rows: seq<Edge>, all: multiset<Edge>)
    requires multiset(rows) <= all
    ensures |rows| <= |all|
  {
    assert all == multiset(rows) + (all - multiset(rows));
    assert |multiset(rows)| == |rows|;
  }

  lemma OneMoreSource(s: Store, sources: seq<nat>, i: nat)
    requires i < |sources| && forall j, k :: 0 <= j < k < |sources| ==> sources[j] != sources[k]
    ensures AtSources(s, s.edges, Sources(sources[..i + 1])) ==
            AtSources(s, s.edges, Sources(sources[..i])) + AtSources(s, s.edges, {sources[i]})
  {
    assert sources[..i + 1] == sources[..i] + [sources[i]];
    assert Sources(sources[..i + 1]) == Sources(sources[..i]) + {sources[i]};
    DisjointSources(s, s.edges, Sources(sources[..i]), sources[i]);
  }

  /** A page is cut only when the ends read so far, with this source's, outnumber the shared limit. */
  lemma CutIsLarge(s: Store, sources: seq<nat>, i: nat, read: seq<Edge>)
    requires i < |sources| && forall j, k :: 0 <= j < k < |sources| ==> sources[j] != sources[k]
    requires multiset(read) <= AtSources(s, s.edges, Sources(sources[..i])) && |read| <= MAX_EDGES
    requires |AtSources(s, s.edges, {sources[i]})| > MAX_EDGES + 1 - |read|
    ensures 2 * |s.edges| > MAX_EDGES
  {
    RowsAreFewer(read, AtSources(s, s.edges, Sources(sources[..i])));
    OneMoreSource(s, sources, i);
    TwoEnds(s, s.edges, Sources(sources[..i + 1]));
  }

  method ReadSource(s: Store, unread: seq<Ref>, source: nat, remaining: nat) returns (page: EdgePage)
    requires Distinct(s.edges) && remaining > 0
    ensures forall e :: e in page.rows ==> e in s.edges && AtFrontier(e, unread)
    ensures !page.truncated ==> SourceRead(s, unread, source, page.rows)
    ensures multiset(page.rows) <= AtSources(s, s.edges, {source})
    ensures page.truncated ==> |AtSources(s, s.edges, {source})| > remaining
  {
    var refs := set r | r in unread && s.sourceOf(r) == source;
    page := ReadEdges(s.edges, refs, remaining);
    Filters(s.edges, (e: Edge) => e.from in refs || e.to in refs);
    if refs != {} {
      PageIsExact(s.edges, refs, remaining);
      SourceRows(s, refs, source, IncidentTo(s.edges, refs));
      PageIsDistinct(s.edges, refs, remaining);
      SourceRows(s, refs, source, page.rows);
      RowsAreFewer(IncidentTo(s.edges, refs), AtSources(s, s.edges, {source}));
    }
    if !page.truncated {
      forall r, e | r in unread && s.sourceOf(r) == source && e in s.edges && Touches(e, r)
        ensures e in page.rows
      {
        assert r in refs;
        assert e in IncidentTo(s.edges, refs);
      }
    }
  }

  /** Read the edges of a frontier source by source, under one shared limit. */
  method ReadFrontier(s: Store, unread: seq<Ref>) returns (frontierEdges: seq<Edge>, capped: bool)
    requires Distinct(s.edges)
    ensures forall e :: e in frontierEdges ==> e in s.edges && AtFrontier(e, unread)
    ensures !capped ==> forall e :: e in s.edges && AtFrontier(e, unread) ==> e in frontierEdges
    ensures capped ==> 2 * |s.edges| > MAX_EDGES
  {
    hide AtSources;
    frontierEdges, capped := [], false;
    NoRows(s);
    assert Sources([]) == {};
    var sources := SourcesOf(s, unread);
    var i := 0;
    while i < |sources|
      invariant 0 <= i <= |sources| && !capped
      invariant forall e :: e in frontierEdges ==> e in s.edges && AtFrontier(e, unread)
      invariant forall k :: 0 <= k < i ==> SourceRead(s, unread, sources[k], frontierEdges)
      invariant multiset(frontierEdges) <= AtSources(s, s.edges, Sources(sources[..i]))
    {
      RowsAreFewer(frontierEdges, AtSources(s, s.edges, Sources(sources[..i])));
      TwoEnds(s, s.edges, Sources(sources[..i]));
      if |frontierEdges| >= MAX_EDGES + 1 {
        capped := true;
        return;
      }
      var page := ReadSource(s, unread, sources[i], MAX_EDGES + 1 - |frontierEdges|);
      ghost var before := frontierEdges;
      OneMoreSource(s, sources, i);
      TwoEnds(s, s.edges, Sources(sources[..i + 1]));
      frontierEdges := frontierEdges + page.rows;
      if page.truncated {
        capped := true;
        CutIsLarge(s, sources, i, before);
        return;
      }
      forall k | 0 <= k < i + 1
        ensures SourceRead(s, unread, sources[k], frontierEdges)
      {
        if k < i {
          StillRead(s, unread, sources[k], before, frontierEdges);
        } else {
          StillRead(s, unread, sources[k], page.rows, frontierEdges);
        }
      }
      i := i + 1;
    }
    forall e | e in s.edges && AtFrontier(e, unread)
      ensures e in frontierEdges
    {
      var r := if e.from in unread then e.from else e.to;
      var k :| 0 <= k < |sources| && sources[k] == s.sourceOf(r);
      assert SourceRead(s, unread, sources[k], frontierEdges);
      assert Touches(e, r);
    }
  }

  lemma StillRead(s: Store, unread: seq<Ref>, source: nat, before: seq<Edge>, after: seq<Edge>)
    requires SourceRead(s, unread, source, before) && forall e :: e in before ==> e in after
    ensures SourceRead(s, unread, source, after)
  {
  }

  function Add(r: Ref, refs: seq<Ref>): seq<Ref> {
    if r in refs then refs else [r] + refs
  }

  /** The ends of some edges, each once. */
  function Ends(edges: seq<Edge>): seq<Ref> {
    if edges == [] then [] else Add(edges[0].from, Add(edges[0].to, Ends(edges[1..])))
  }

  ghost predicate IsEnd(edges: seq<Edge>, r: Ref) {
    exists e :: e in edges && Touches(e, r)
  }

  lemma {:induction false} EndsAre(edges: seq<Edge>)
    ensures forall r :: r in Ends(edges) <==> IsEnd(edges, r)
    ensures DistinctRefs(Ends(edges))
  {
    if edges != [] {
      EndsAre(edges[1..]);
      forall r
        ensures r in Ends(edges) <==> IsEnd(edges, r)
      {
        EndOfFirst(edges, r);
      }
    }
  }

  lemma EndOfFirst(edges: seq<Edge>, r: Ref)
    requires edges != []
    ensures IsEnd(edges, r) <==> Touches(edges[0], r) || IsEnd(edges[1..], r)
  {
    assert edges == [edges[0]] + edges[1..];
    assert edges[0] in edges;
  }

  function KeepRefs(refs: seq<Ref>, allowed: set<Ref>, visited: set<Ref>): (kept: seq<Ref>)
    ensures forall r :: r in kept <==> r in refs && r in allowed && r !in visited
    ensures DistinctRefs(refs) ==> DistinctRefs(kept)
  {
    if refs == [] then []
    else
      var rest := KeepRefs(refs[1..], allowed, visited);
      if refs[0] in allowed && refs[0] !in visited then [refs[0]] + rest else rest
  }

  /** What the reader has gathered: visited references, allowed references, the rows it holds, the
      edges it keeps, and the next frontier. */
  datatype Gathered = Gathered(visited: set<Ref>, allowed: set<Ref>, items: set<Ref>, edges: seq<Edge>, frontier: seq<Ref>)

  /** Look up the candidate ends of a frontier's edges, then keep the edges between allowed ends. A row
      outside the configured repositories rejects its reference; a reference without a row is allowed
      while its source is configured. */
  method Absorb(s: Store, g: Gathered, frontierEdges: seq<Edge>) returns (after: Gathered)
    requires forall r :: r in g.allowed ==> InConfig(s, r)
    requires g.items == set r | r in g.allowed && r in s.items
    ensures after.visited == g.visited + set r | r in g.frontier
    ensures forall r :: r in after.allowed <==>
              r in g.allowed || (IsEnd(frontierEdges, r) && s.sourceOf(r) in s.configured && (r in s.items ==> s.items[r]))
    ensures after.items == set r | r in after.allowed && r in s.items
    ensures forall e :: e in after.edges <==> e in g.edges || (e in frontierEdges && InConfig(s, e.from) && InConfig(s, e.to))
    ensures Distinct(g.edges) ==> Distinct(after.edges)
    ensures after.frontier == Capped(Sort(KeepRefs(Ends(frontierEdges), after.allowed, after.visited), RefKey), MAX_NODES + 1)
  {
    var candidates := Ends(frontierEdges);
    var visited := g.visited + set r | r in g.frontier;
    var found := set r | r in candidates && r !in g.allowed && s.sourceOf(r) in s.configured && r in s.items;
    var accepted := set r | r in found && s.items[r];
    var rejected := found - accepted;
    var missing := set r | r in candidates && s.sourceOf(r) in s.configured && r !in found;
    var allowed := g.allowed + accepted + missing;
    EndsAre(frontierEdges);
    var edges := KeepEdges(s, g.edges, frontierEdges, rejected, allowed);
    after := Gathered(visited, allowed, g.items + accepted, edges,
                      Capped(Sort(KeepRefs(candidates, allowed, visited), RefKey), MAX_NODES + 1));
  }

  method KeepEdges(ghost s: Store, kept: seq<Edge>, frontierEdges: seq<Edge>, rejected: set<Ref>, allowed: set<Ref>)
    returns (edges: seq<Edge>)
    requires forall r :: IsEnd(frontierEdges, r) ==> (InConfig(s, r) <==> r !in rejected && r in allowed)
    ensures Distinct(kept) ==> Distinct(edges)
    ensures forall e :: e in edges <==> e in kept || (e in frontierEdges && InConfig(s, e.from) && InConfig(s, e.to))
  {
    edges := kept;
    var i := 0;
    while i < |frontierEdges|
      invariant 0 <= i <= |frontierEdges|
      invariant Distinct(kept) ==> Distinct(edges)
      invariant forall e :: e in edges <==> e in kept || (e in frontierEdges[..i] && InConfig(s, e.from) && InConfig(s, e.to))
    {
      var e := frontierEdges[i];
      assert frontierEdges[..i + 1] == frontierEdges[..i] + [e];
      assert e in frontierEdges && Touches(e, e.from) && Touches(e, e.to);
      assert IsEnd(frontierEdges, e.from) && IsEnd(frontierEdges, e.to);
      if !(e.from in rejected || e.to in rejected) && e.from in allowed && e.to in allowed && e !in edges {
        edges := edges + [e];
      }
      i := i + 1;
    }
    assert frontierEdges[..i] == frontierEdges;
  }
}
