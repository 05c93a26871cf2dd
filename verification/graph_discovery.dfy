/** Which nodes survive the node cap, and by which edge each is found: the search's tie-breaks, without its keys. */
module GraphDiscovery {
  import opened Sorting
  import opened GraphNeighborhood
  import opened GraphResponse

  /** By start, then end, then type. */
  predicate EdgeBefore(e: Edge, f: Edge) {
    e.from < f.from || (e.from == f.from && (e.to < f.to || (e.to == f.to && e.kind < f.kind)))
  }

  /** `v` is found from the first node of the queue it is adjacent to, by the first edge between the two. */
  ghost predicate FirstAt(edges: set<Edge>, st: Search, i: nat, v: Ref) {
    && i < |st.queue| && v in st.tree && st.tree[v] in edges && Connects(st.tree[v], st.queue[i], v)
    && (forall j, e :: 0 <= j < i && e in edges ==> !Connects(e, st.queue[j], v))
    && forall e :: e in edges && Connects(e, st.queue[i], v) ==> e == st.tree[v] || EdgeBefore(st.tree[v], e)
  }

  ghost predicate FromFirst(edges: set<Edge>, st: Search, origin: seq<nat>) {
    && |origin| == |st.queue|
    && forall b :: 1 <= b < |origin| ==> origin[b] < b && FirstAt(edges, st, origin[b], st.queue[b])
  }

  /** Nodes are found parent by parent, and by reference under one parent. */
  ghost predicate InOrder(queue: seq<Ref>, origin: seq<nat>) {
    && |origin| == |queue|
    && forall a, b :: 1 <= a < b < |origin| ==> Earlier(queue, origin, a, origin[b], queue[b])
  }

  /** The node at `b` comes before a node `w` found at the parent at `i` would. */
  predicate Earlier(queue: seq<Ref>, origin: seq<nat>, b: nat, i: nat, w: Ref)
    requires b < |queue| && |origin| == |queue|
  {
    origin[b] < i || (origin[b] == i && queue[b] < w)
  }

  /** Why a neighbour `w` of the node at `i` is missing: it is too deep, or the cap was reached by nodes that
      all come before it. */
  ghost predicate LeftOut(st: Search, origin: seq<nat>, i: nat, w: Ref, depth: nat, maxNodes: nat)
    requires i < |st.queue| && st.queue[i] in st.hops && |origin| == |st.queue|
  {
    || st.hops[st.queue[i]] + 1 > depth
    || (|st.queue| >= maxNodes && forall b :: 1 <= b < |origin| ==> Earlier(st.queue, origin, b, i, w))
  }

  ghost predicate OmissionsOk(edges: set<Edge>, st: Search, origin: seq<nat>, cursor: nat, depth: nat, maxNodes: nat)
    requires Sized(st.hops, st.queue, maxNodes) && cursor <= |st.queue| && |origin| == |st.queue|
  {
    forall i, e, w :: 0 <= i < cursor && e in edges && Connects(e, st.queue[i], w) && w !in st.hops ==>
      LeftOut(st, origin, i, w, depth, maxNodes)
  }

  /** What holds when the nodes before `cursor` have been explored. */
  ghost predicate Discovery(edges: set<Edge>, st: Search, origin: seq<nat>, cursor: nat, depth: nat, maxNodes: nat) {
    && Sized(st.hops, st.queue, maxNodes) && cursor <= |st.queue| && FromFirst(edges, st, origin) && InOrder(st.queue, origin)
    && (forall b :: 1 <= b < |origin| ==> origin[b] < cursor)
    && OmissionsOk(edges, st, origin, cursor, depth, maxNodes)
  }

  /** And while the node at `cursor` is explored, its edges in `done` being through. */
  ghost predicate Discovering(edges: set<Edge>, st: Search, origin: seq<nat>, cursor: nat, done: set<Edge>, depth: nat, maxNodes: nat) {
    && Sized(st.hops, st.queue, maxNodes) && cursor < |st.queue| && FromFirst(edges, st, origin) && InOrder(st.queue, origin)
    && (forall b :: 1 <= b < |origin| ==>
          origin[b] < cursor || (origin[b] == cursor && exists e :: e in done && Other(e, st.queue[cursor]) == st.queue[b]))
    && OmissionsOk(edges, st, origin, cursor, depth, maxNodes)
    && forall e :: e in done && Other(e, st.queue[cursor]) !in st.hops ==>
         LeftOut(st, origin, cursor, Other(e, st.queue[cursor]), depth, maxNodes)
  }

  /** The edge is the next of the node's edges: those through come before it, the others after. */
  ghost predicate IsNext(edges: set<Edge>, ref: Ref, done: set<Edge>, e: Edge) {
    && e in edges && Touches(e, ref)
    && (forall f :: f in done ==> Less(NeighbourKey(ref)(f), NeighbourKey(ref)(e)))
    && forall f :: f in edges && Touches(f, ref) && f !in done && f != e ==> Less(NeighbourKey(ref)(e), NeighbourKey(ref)(f))
  }

  // ----- one edge

  /** While the search may still grow, nothing tried so far was left out. */
  lemma NothingLeftOut(edges: set<Edge>, focus: Ref, st: Search, origin: seq<nat>, cursor: nat, done: set<Edge>, depth: nat, maxNodes: nat)
    requires BfsInv(edges, focus, st, cursor, depth, maxNodes) && Discovering(edges, st, origin, cursor, done, depth, maxNodes)
    requires st.hops[st.queue[cursor]] + 1 <= depth && |st.hops| < maxNodes
    ensures forall i, e, w :: 0 <= i < cursor && e in edges && Connects(e, st.queue[i], w) ==> w in st.hops
    ensures forall e :: e in done ==> Other(e, st.queue[cursor]) in st.hops
  {
    hide Found, ExploredOk, CutsOk, TreeOk, FirstAt, Earlier, LeftOut;
    forall i, e, w | 0 <= i < cursor && e in edges && Connects(e, st.queue[i], w)
      ensures w in st.hops
    {
      NotLeftOut(st, origin, i, cursor, w, depth, maxNodes);
    }
    forall e | e in done
      ensures Other(e, st.queue[cursor]) in st.hops
    {
      NotLeftOut(st, origin, cursor, cursor, Other(e, st.queue[cursor]), depth, maxNodes);
    }
  }

  lemma NotLeftOut(st: Search, origin: seq<nat>, i: nat, cursor: nat, w: Ref, depth: nat, maxNodes: nat)
    requires i <= cursor < |st.queue| == |origin| && st.queue[i] in st.hops && st.queue[cursor] in st.hops
    requires st.hops[st.queue[i]] <= st.hops[st.queue[cursor]] < depth && |st.queue| < maxNodes
    ensures !LeftOut(st, origin, i, w, depth, maxNodes)
  {
  }

  /** A node not found although the search may still grow is adjacent to no node explored before, and found
      by no edge tried before. */
  lemma NewIsFirst(edges: set<Edge>, focus: Ref, st: Search, origin: seq<nat>, cursor: nat, done: set<Edge>, e: Edge,
                   depth: nat, maxNodes: nat)
    requires BfsInv(edges, focus, st, cursor, depth, maxNodes) && Discovering(edges, st, origin, cursor, done, depth, maxNodes)
    requires IsNext(edges, st.queue[cursor], done, e) && Other(e, st.queue[cursor]) !in st.hops
    requires st.hops[st.queue[cursor]] + 1 <= depth && |st.hops| < maxNodes
    ensures FirstAt(edges, Discover(st, st.queue[cursor], e), cursor, Other(e, st.queue[cursor]))
  {
    hide Found, ExploredOk, CutsOk, TreeOk, Earlier, LeftOut, FromFirst, InOrder, OmissionsOk;
    var ref, w := st.queue[cursor], Other(e, st.queue[cursor]);
    NothingLeftOut(edges, focus, st, origin, cursor, done, depth, maxNodes);
    forall f | f in edges && Connects(f, ref, w)
      ensures f == e || EdgeBefore(e, f)
    {
      assert Touches(f, ref) && Other(f, ref) == w;
      assert f !in done;
    }
  }

  lemma DiscoverKeepsFirst(edges: set<Edge>, st: Search, origin: seq<nat>, cursor: nat, e: Edge)
    requires cursor < |st.queue| && st.queue[cursor] in st.hops && FromFirst(edges, st, origin) && Other(e, st.queue[cursor]) !in st.tree
    requires FirstAt(edges, Discover(st, st.queue[cursor], e), cursor, Other(e, st.queue[cursor]))
    ensures FromFirst(edges, Discover(st, st.queue[cursor], e), origin + [cursor])
  {
    var t, after := Discover(st, st.queue[cursor], e), origin + [cursor];
    forall b | 1 <= b < |after|
      ensures after[b] < b && FirstAt(edges, t, after[b], t.queue[b])
    {
      if b < |origin| {
        OldStaysFirst(edges, st, t, origin[b], st.queue[b]);
      }
    }
  }

  lemma DiscoverKeepsOrder(edges: set<Edge>, st: Search, origin: seq<nat>, cursor: nat, done: set<Edge>, e: Edge, depth: nat, maxNodes: nat)
    requires Discovering(edges, st, origin, cursor, done, depth, maxNodes)
    requires IsNext(edges, st.queue[cursor], done, e) && Other(e, st.queue[cursor]) !in st.hops
    ensures InOrder(st.queue + [Other(e, st.queue[cursor])], origin + [cursor])
  {
    var queue, after := st.queue + [Other(e, st.queue[cursor])], origin + [cursor];
    forall a, b | 1 <= a < b < |after|
      ensures Earlier(queue, after, a, after[b], queue[b])
    {
      if b == |origin| {
        NewComesLast(st, origin, cursor, done, e, a);
      } else {
        assert Earlier(st.queue, origin, a, origin[b], st.queue[b]);
      }
    }
  }

  lemma OldStaysFirst(edges: set<Edge>, st: Search, t: Search, i: nat, v: Ref)
    requires FirstAt(edges, st, i, v) && st.queue <= t.queue && v in t.tree && t.tree[v] == st.tree[v]
    ensures FirstAt(edges, t, i, v)
  {
  }

  lemma NewComesLast(st: Search, origin: seq<nat>, cursor: nat, done: set<Edge>, e: Edge, a: nat)
    requires cursor < |st.queue| == |origin| && 1 <= a < |origin| && st.queue[a] != Other(e, st.queue[cursor])
    requires forall f :: f in done ==> Less(NeighbourKey(st.queue[cursor])(f), NeighbourKey(st.queue[cursor])(e))
    requires origin[a] < cursor || (origin[a] == cursor && exists f :: f in done && Other(f, st.queue[cursor]) == st.queue[a])
    ensures Earlier(st.queue + [Other(e, st.queue[cursor])], origin + [cursor], a, cursor, Other(e, st.queue[cursor]))
  {
  }

  lemma EdgeDiscovers(edges: set<Edge>, focus: Ref, st: Search, origin: seq<nat>, cursor: nat, done: set<Edge>, e: Edge,
                      depth: nat, maxNodes: nat) returns (after: seq<nat>)
    requires BfsInv(edges, focus, st, cursor, depth, maxNodes) && Discovering(edges, st, origin, cursor, done, depth, maxNodes)
    requires IsNext(edges, st.queue[cursor], done, e)
    ensures Discovering(edges, VisitEdge(st, st.queue[cursor], e, depth, maxNodes), after, cursor, done + {e}, depth, maxNodes)
  {
    hide FirstAt, Earlier, LeftOut, Found, ExploredOk, CutsOk, IsNext;
    var ref, w := st.queue[cursor], Other(e, st.queue[cursor]);
    if w in st.hops || st.hops[ref] + 1 > depth || |st.hops| >= maxNodes {
      after := origin;
      SkipKeeps(edges, st, origin, cursor, done, e, depth, maxNodes);
    } else {
      after := origin + [cursor];
      NewIsFirst(edges, focus, st, origin, cursor, done, e, depth, maxNodes);
      DiscoverKeepsFirst(edges, st, origin, cursor, e);
      DiscoverKeepsOrder(edges, st, origin, cursor, done, e, depth, maxNodes);
      NothingLeftOut(edges, focus, st, origin, cursor, done, depth, maxNodes);
      DiscoverKeepsOmissions(edges, st, origin, cursor, done, e, depth, maxNodes);
    }
  }

  lemma SkipKeeps(edges: set<Edge>, st: Search, origin: seq<nat>, cursor: nat, done: set<Edge>, e: Edge, depth: nat, maxNodes: nat)
    requires Discovering(edges, st, origin, cursor, done, depth, maxNodes) && IsNext(edges, st.queue[cursor], done, e)
    requires Other(e, st.queue[cursor]) in st.hops || st.hops[st.queue[cursor]] + 1 > depth || |st.hops| >= maxNodes
    requires forall i :: 0 <= i < |st.queue| ==> st.queue[i] in st.hops
    ensures Discovering(edges, VisitEdge(st, st.queue[cursor], e, depth, maxNodes), origin, cursor, done + {e}, depth, maxNodes)
  {
    var ref, w := st.queue[cursor], Other(e, st.queue[cursor]);
    var t := VisitEdge(st, ref, e, depth, maxNodes);
    forall b | 1 <= b < |origin|
      ensures FirstAt(edges, t, origin[b], t.queue[b])
    {
      OldStaysFirst(edges, st, t, origin[b], st.queue[b]);
    }
    if w !in st.hops && st.hops[ref] + 1 <= depth {
      forall b | 1 <= b < |origin|
        ensures Earlier(st.queue, origin, b, cursor, w)
      {
        NewComesLast(st, origin, cursor, done, e, b);
      }
    }
    assert forall i, w :: 0 <= i <= cursor && LeftOut(st, origin, i, w, depth, maxNodes) ==> LeftOut(t, origin, i, w, depth, maxNodes);
  }

  lemma DiscoverKeepsOmissions(edges: set<Edge>, st: Search, origin: seq<nat>, cursor: nat, done: set<Edge>, e: Edge, depth: nat, maxNodes: nat)
    requires Discovering(edges, st, origin, cursor, done, depth, maxNodes)
    requires Other(e, st.queue[cursor]) !in st.hops && |st.hops| < maxNodes
    requires forall i, f, w :: 0 <= i < cursor && f in edges && Connects(f, st.queue[i], w) ==> w in st.hops
    requires forall f :: f in done ==> Other(f, st.queue[cursor]) in st.hops
    requires FromFirst(edges, Discover(st, st.queue[cursor], e), origin + [cursor])
    requires InOrder(Discover(st, st.queue[cursor], e).queue, origin + [cursor])
    ensures Discovering(edges, Discover(st, st.queue[cursor], e), origin + [cursor], cursor, done + {e}, depth, maxNodes)
  {
    hide FirstAt, Earlier, LeftOut;
    var t, after := Discover(st, st.queue[cursor], e), origin + [cursor];
    assert t.queue[cursor] == st.queue[cursor];
    assert forall i :: 0 <= i < cursor ==> t.queue[i] == st.queue[i];
    forall b | 1 <= b < |after|
      ensures after[b] < cursor || (after[b] == cursor && exists f :: f in done + {e} && Other(f, t.queue[cursor]) == t.queue[b])
    {
      if b == |origin| {
        assert e in done + {e};
      } else if origin[b] == cursor {
        var f :| f in done && Other(f, st.queue[cursor]) == st.queue[b];
        assert f in done + {e};
      }
    }
  }

  // ----- one node, and all of them

  lemma {:induction false} EntriesDiscover(edges: set<Edge>, focus: Ref, st: Search, origin: seq<nat>, cursor: nat, entries: seq<Edge>, n: nat,
                                           depth: nat, maxNodes: nat) returns (after: seq<nat>)
    requires BfsInv(edges, focus, st, cursor, depth, maxNodes) && cursor < |st.queue|
    requires Discovery(edges, st, origin, cursor, depth, maxNodes) && n <= |entries|
    requires Ascending(entries, NeighbourKey(st.queue[cursor])) && forall e :: e in entries <==> e in edges && Touches(e, st.queue[cursor])
    ensures Discovering(edges, VisitAll(st, st.queue[cursor], entries[..n], depth, maxNodes), after, cursor, Elements(entries[..n]), depth, maxNodes)
  {
    hide Discovering, Discovery, IsNext, VisitEdge, Found, ExploredOk, CutsOk, TreeOk;
    var ref := st.queue[cursor];
    if n == 0 {
      after := origin;
      NothingThrough(edges, st, origin, cursor, depth, maxNodes);
    } else {
      var before := EntriesDiscover(edges, focus, st, origin, cursor, entries, n - 1, depth, maxNodes);
      assert entries[..n][..n - 1] == entries[..n - 1];
      ElementsOf(entries[..n]);
      EntryIsNext(edges, ref, entries, n - 1);
      MidVisit(edges, focus, st, cursor, entries, n - 1, depth, maxNodes);
      after := EdgeDiscovers(edges, focus, VisitAll(st, ref, entries[..n - 1], depth, maxNodes), before, cursor,
                             Elements(entries[..n - 1]), entries[n - 1], depth, maxNodes);
    }
  }

  lemma NothingThrough(edges: set<Edge>, st: Search, origin: seq<nat>, cursor: nat, depth: nat, maxNodes: nat)
    requires Discovery(edges, st, origin, cursor, depth, maxNodes) && cursor < |st.queue|
    ensures Discovering(edges, st, origin, cursor, Elements([]), depth, maxNodes)
  {
  }

  lemma EntryIsNext(edges: set<Edge>, ref: Ref, entries: seq<Edge>, k: nat)
    requires k < |entries| && Ascending(entries, NeighbourKey(ref)) && forall e :: e in entries <==> e in edges && Touches(e, ref)
    ensures IsNext(edges, ref, Elements(entries[..k]), entries[k])
  {
    assert entries[k] in entries;
    assert forall i :: 0 <= i < k ==> entries[..k][i] == entries[i] && entries[..k][i] in entries[..k];
    forall f | f in edges && Touches(f, ref) && f !in Elements(entries[..k]) && f != entries[k]
      ensures Less(NeighbourKey(ref)(entries[k]), NeighbourKey(ref)(f))
    {
      var i :| 0 <= i < |entries| && entries[i] == f;
    }
  }

  lemma MidVisit(edges: set<Edge>, focus: Ref, st: Search, cursor: nat, entries: seq<Edge>, n: nat, depth: nat, maxNodes: nat)
    requires BfsInv(edges, focus, st, cursor, depth, maxNodes) && cursor < |st.queue| && n <= |entries|
    requires forall e :: e in entries ==> e in edges && Touches(e, st.queue[cursor])
    ensures var mid := VisitAll(st, st.queue[cursor], entries[..n], depth, maxNodes);
            && BfsInv(edges, focus, mid, cursor, depth, maxNodes) && Sized(mid.hops, mid.queue, maxNodes)
            && cursor < |mid.queue| && mid.queue[cursor] == st.queue[cursor] && st.queue[cursor] in mid.hops
  {
    forall i | 0 <= i < n
      ensures entries[..n][i] in edges && Touches(entries[..n][i], st.queue[cursor])
    {
      assert entries[i] in entries;
    }
    VisitAllKeeps(edges, focus, st, cursor, entries[..n], depth, maxNodes);
  }

  lemma NodeDiscovers(edges: seq<Edge>, focus: Ref, st: Search, origin: seq<nat>, cursor: nat, depth: nat, maxNodes: nat)
    returns (after: seq<nat>)
    requires Distinct(edges) && BfsInv(Elements(edges), focus, st, cursor, depth, maxNodes) && cursor < |st.queue|
    requires Discovery(Elements(edges), st, origin, cursor, depth, maxNodes)
    ensures Discovery(Elements(edges), VisitAll(st, st.queue[cursor], Entries(edges, st.queue[cursor]), depth, maxNodes), after, cursor + 1, depth, maxNodes)
  {
    hide BfsInv;
    var ref := st.queue[cursor];
    var entries := Entries(edges, ref);
    IncidentIs(edges, ref);
    EntriesAre(edges, ref);
    NeighbourKeyInjective(ref);
    SortSorts(Incident(edges, ref), NeighbourKey(ref));
    after := EntriesDiscover(Elements(edges), focus, st, origin, cursor, entries, |entries|, depth, maxNodes);
    assert entries[..|entries|] == entries;
    MidVisit(Elements(edges), focus, st, cursor, entries, |entries|, depth, maxNodes);
    NodeIsThrough(Elements(edges), VisitAll(st, ref, entries, depth, maxNodes), after, cursor, Elements(entries), depth, maxNodes);
  }

  lemma NodeIsThrough(edges: set<Edge>, st: Search, origin: seq<nat>, cursor: nat, done: set<Edge>, depth: nat, maxNodes: nat)
    requires Discovering(edges, st, origin, cursor, done, depth, maxNodes)
    requires forall e :: e in edges && Touches(e, st.queue[cursor]) ==> e in done
    ensures Discovery(edges, st, origin, cursor + 1, depth, maxNodes)
  {
    forall i, e, w | 0 <= i < cursor + 1 && e in edges && Connects(e, st.queue[i], w) && w !in st.hops
      ensures LeftOut(st, origin, i, w, depth, maxNodes)
    {
      if i == cursor {
        assert e in done && Other(e, st.queue[cursor]) == w;
      }
    }
  }

  lemma {:induction false} ExploreDiscovers(edges: seq<Edge>, focus: Ref, st: Search, origin: seq<nat>, cursor: nat, depth: nat, maxNodes: nat)
    returns (after: seq<nat>)
    requires Distinct(edges) && BfsInv(Elements(edges), focus, st, cursor, depth, maxNodes)
    requires Discovery(Elements(edges), st, origin, cursor, depth, maxNodes)
    ensures var end := Explore(edges, st, cursor, depth, maxNodes); Discovery(Elements(edges), end, after, |end.queue|, depth, maxNodes)
    decreases maxNodes - cursor
  {
    hide Discovery, VisitAll, Entries, Found, ExploredOk, CutsOk, TreeOk;
    after := origin;
    if cursor < |st.queue| {
      ExploreStep(edges, focus, st, cursor, depth, maxNodes);
      var next := VisitAll(st, st.queue[cursor], Entries(edges, st.queue[cursor]), depth, maxNodes);
      after := NodeDiscovers(edges, focus, st, origin, cursor, depth, maxNodes);
      after := ExploreDiscovers(edges, focus, next, after, cursor + 1, depth, maxNodes);
    }
  }

  // ----- the response

  /** The nodes of a response in the order they are found: the focus, then node by node whatever is adjacent
      to it, by reference, until the depth or the cap stops the search. `origin[b]` is the position of the
      first node adjacent to the one at `b`. */
  ghost predicate FoundInOrder(edges: set<Edge>, focus: Ref, queue: seq<Ref>, origin: seq<nat>) {
    && queue != [] && queue[0] == focus && InOrder(queue, origin)
    && forall b :: 1 <= b < |queue| ==> origin[b] < b && IsFirstNeighbour(edges, queue, origin[b], queue[b])
  }

  ghost predicate IsFirstNeighbour(edges: set<Edge>, queue: seq<Ref>, i: nat, v: Ref) {
    && i < |queue|
    && (exists e :: e in edges && Connects(e, queue[i], v))
    && forall j, e :: 0 <= j < i && e in edges ==> !Connects(e, queue[j], v)
  }

  ghost predicate CutAfterAll(queue: seq<Ref>, origin: seq<nat>, i: nat, w: Ref)
    requires |origin| == |queue|
  {
    forall b :: 1 <= b < |queue| ==> Earlier(queue, origin, b, i, w)
  }

  /** Who survives the node cap: the returned nodes are the first ones of that order. A neighbour of a
      returned node that is left out is beyond the depth, or the cap is reached and every returned node
      comes before it. */
  lemma SurvivorsAreFirst(edges: seq<Edge>, items: set<Ref>, focus: Ref, depth: nat, maxNodes: nat, maxEdges: nat)
    returns (queue: seq<Ref>, origin: seq<nat>)
    requires maxNodes >= 1 && Distinct(edges)
    ensures FoundInOrder(Elements(edges), focus, queue, origin)
    ensures var r := Neighborhood(edges, items, focus, depth, maxNodes, maxEdges);
            && (forall v :: Returned(r, v) <==> v in queue) && |r.nodes| == |queue|
            && forall i, e, w :: 0 <= i < |queue| && e in edges && Connects(e, queue[i], w) && !Returned(r, w) ==>
                 (exists n :: n in r.nodes && n.ref == queue[i] && n.hop == depth) ||
                 (|queue| == maxNodes && CutAfterAll(queue, origin, i, w))
  {
    hide Bfs, Ranked, Explored, Neighborhood, Returned, Discovery, FoundInOrder, CutAfterAll;
    var st;
    st, origin := BfsDiscovers(edges, focus, depth, maxNodes);
    queue := st.queue;
    var r := Neighborhood(edges, items, focus, depth, maxNodes, maxEdges);
    ReturnedUnder(edges, items, focus, depth, maxNodes, maxEdges, st);
    FoundDeep(edges, items, focus, depth, maxNodes, maxEdges, st);
    DiscoveredInOrder(Elements(edges), focus, st, origin, depth, maxNodes);
    forall i, e, w | 0 <= i < |queue| && e in edges && Connects(e, queue[i], w) && !Returned(r, w)
      ensures (exists n :: n in r.nodes && n.ref == queue[i] && n.hop == depth) || (|queue| == maxNodes && CutAfterAll(queue, origin, i, w))
    {
      Omitted(Elements(edges), st, origin, depth, maxNodes, i, e, w);
    }
  }

  lemma DiscoveredInOrder(edges: set<Edge>, focus: Ref, st: Search, origin: seq<nat>, depth: nat, maxNodes: nat)
    requires Discovery(edges, st, origin, |st.queue|, depth, maxNodes) && st.queue != [] && st.queue[0] == focus
    ensures FoundInOrder(edges, focus, st.queue, origin) && |origin| == |st.queue|
  {
    hide Earlier, OmissionsOk;
    forall b | 1 <= b < |st.queue|
      ensures IsFirstNeighbour(edges, st.queue, origin[b], st.queue[b])
    {
      assert FirstAt(edges, st, origin[b], st.queue[b]);
    }
  }

  lemma Omitted(edges: set<Edge>, st: Search, origin: seq<nat>, depth: nat, maxNodes: nat, i: nat, e: Edge, w: Ref)
    requires Discovery(edges, st, origin, |st.queue|, depth, maxNodes)
    requires i < |st.queue| && e in edges && Connects(e, st.queue[i], w) && w !in st.hops
    ensures st.queue[i] in st.hops && |origin| == |st.queue|
    ensures st.hops[st.queue[i]] + 1 > depth || (|st.queue| == maxNodes && CutAfterAll(st.queue, origin, i, w))
  {
    assert LeftOut(st, origin, i, w, depth, maxNodes);
  }

  lemma BfsDiscovers(edges: seq<Edge>, focus: Ref, depth: nat, maxNodes: nat) returns (st: Search, origin: seq<nat>)
    requires maxNodes >= 1 && Distinct(edges)
    ensures st == Bfs(Sort(edges, EdgeKey), focus, depth, maxNodes) && Explored(Elements(edges), focus, st, depth, maxNodes)
    ensures Discovery(Elements(edges), st, origin, |st.queue|, depth, maxNodes)
    ensures st.queue != [] && st.queue[0] == focus && Sized(st.hops, st.queue, maxNodes) && forall v :: v in st.hops <==> v in st.queue
  {
    hide Discovery;
    st := SearchUnder(edges, focus, depth, maxNodes);
    var sorted := Sort(edges, EdgeKey);
    StartDiscovers(Elements(edges), focus, depth, maxNodes);
    origin := ExploreDiscovers(sorted, focus, Start(focus), [0], 0, depth, maxNodes);
  }

  lemma StartDiscovers(edges: set<Edge>, focus: Ref, depth: nat, maxNodes: nat)
    requires maxNodes >= 1
    ensures Discovery(edges, Start(focus), [0], 0, depth, maxNodes) && BfsInv(edges, focus, Start(focus), 0, depth, maxNodes)
  {
  }

  lemma FoundDeep(edges: seq<Edge>, items: set<Ref>, focus: Ref, depth: nat, maxNodes: nat, maxEdges: nat, st: Search)
    requires maxNodes >= 1 && st == Bfs(Sort(edges, EdgeKey), focus, depth, maxNodes)
    requires Explored(Elements(edges), focus, st, depth, maxNodes)
    ensures var r := Neighborhood(edges, items, focus, depth, maxNodes, maxEdges);
            |r.nodes| == |st.queue| && forall v :: v in st.hops && st.hops[v] + 1 > depth ==>
              exists n :: n in r.nodes && n.ref == v && n.hop == depth
  {
    hide Nodes, Ranked, Bfs;
    NodesAre(st, items, maxNodes);
    DeepestAreAtDepth(Elements(edges), focus, st, depth, maxNodes);
    forall v | v in st.hops && st.hops[v] + 1 > depth
      ensures exists n :: n in Nodes(st, items) && n.ref == v && n.hop == depth
    {
      assert Node(v, st.hops[v], v in items) in Nodes(st, items);
    }
  }

  lemma DeepestAreAtDepth(edges: set<Edge>, focus: Ref, st: Search, depth: nat, maxNodes: nat)
    requires Explored(edges, focus, st, depth, maxNodes)
    ensures forall v :: v in st.hops && st.hops[v] + 1 > depth ==> st.hops[v] == depth
    ensures |st.queue| == |st.hops|
  {
  }

  // ----- which edges survive their cap

  /** The greater hop of the two ends. */
  function FarHop(hops: map<Ref, nat>, e: Edge): nat {
    if e.from !in hops || e.to !in hops then 0
    else if hops[e.from] < hops[e.to] then hops[e.to]
    else hops[e.from]
  }

  /** The order edges are kept in: spanning-tree edges first, then by the hop of the farther end, then by
      start, end and type. */
  predicate RanksBefore(st: Search, e: Edge, f: Edge) {
    if (e in st.tree.Values) != (f in st.tree.Values) then e in st.tree.Values
    else FarHop(st.hops, e) < FarHop(st.hops, f) || (FarHop(st.hops, e) == FarHop(st.hops, f) && EdgeBefore(e, f))
  }

  predicate Induced(st: Search, edges: seq<Edge>, e: Edge) { e in edges && e.from in st.hops && e.to in st.hops }

  ghost predicate RankedOrder(st: Search, edges: seq<Edge>, ranked: seq<Edge>) {
    && (forall e :: e in ranked <==> Induced(st, edges, e))
    && forall i, j :: 0 <= i < j < |ranked| ==> RanksBefore(st, ranked[i], ranked[j])
  }

  /** The first of the induced edges in that order, as many as the cap allows. */
  ghost predicate KeptFirst(st: Search, edges: seq<Edge>, kept: seq<Edge>, cap: nat) {
    && (forall e :: e in kept ==> Induced(st, edges, e))
    && (forall i, j :: 0 <= i < j < |kept| ==> RanksBefore(st, kept[i], kept[j]))
    && (forall e, f :: e in kept && Induced(st, edges, f) && f !in kept ==> RanksBefore(st, e, f))
    && |kept| <= cap && (|kept| == cap || forall f :: Induced(st, edges, f) ==> f in kept)
  }

  /** The returned edges are those. */
  lemma EdgesAreRanked(edges: seq<Edge>, items: set<Ref>, focus: Ref, depth: nat, maxNodes: nat, maxEdges: nat) returns (st: Search)
    requires maxNodes >= 1 && Distinct(edges)
    ensures Explored(Elements(edges), focus, st, depth, maxNodes)
    ensures var r := Neighborhood(edges, items, focus, depth, maxNodes, maxEdges);
            (forall v :: Returned(r, v) <==> v in st.hops) && KeptFirst(st, edges, r.edges, maxEdges)
  {
    hide Bfs, Explored, Returned, Ranked, Nodes, RanksBefore, KeptFirst, RankedOrder;
    st := SearchUnder(edges, focus, depth, maxNodes);
    ReturnedUnder(edges, items, focus, depth, maxNodes, maxEdges, st);
    var sorted := Sort(edges, EdgeKey);
    assert forall e :: e in edges <==> e in Elements(edges);
    assert forall e :: e in sorted <==> e in Elements(sorted);
    RankedIsOrdered(sorted, st);
    CappedIsFirst(st, edges, sorted, Ranked(sorted, st), maxEdges);
  }

  lemma RankedIsOrdered(edges: seq<Edge>, st: Search)
    requires Distinct(edges)
    ensures RankedOrder(st, edges, Ranked(edges, st))
  {
    var key := DistanceKey(st.hops);
    var inside, outside := Pick(edges, st.hops, st.tree.Values, true), Pick(edges, st.hops, st.tree.Values, false);
    Picks(edges, st.hops, st.tree.Values, true);
    Picks(edges, st.hops, st.tree.Values, false);
    DistanceKeyInjective(st.hops);
    SortSorts(inside, key);
    SortSorts(outside, key);
    RankedAre(edges, st);
    var ranked, first := Ranked(edges, st), Sort(inside, key);
    forall i, j | 0 <= i < j < |ranked|
      ensures RanksBefore(st, ranked[i], ranked[j])
    {
      assert ranked[i] in ranked && ranked[j] in ranked;
      assert if i < |first| then ranked[i] in first else ranked[i] in Sort(outside, key);
      assert if j < |first| then ranked[j] in first else ranked[j] in Sort(outside, key);
      if (i < |first|) == (j < |first|) {
        assert Less(key(ranked[i]), key(ranked[j]));
      }
    }
  }

  lemma CappedIsFirst(st: Search, edges: seq<Edge>, sorted: seq<Edge>, ranked: seq<Edge>, cap: nat)
    requires RankedOrder(st, sorted, ranked) && forall e :: e in sorted <==> e in edges
    ensures KeptFirst(st, edges, Capped(ranked, cap), cap)
  {
    hide RanksBefore;
    var kept := Capped(ranked, cap);
    assert forall k :: 0 <= k < |kept| ==> kept[k] == ranked[k] && kept[k] in kept && kept[k] in ranked;
    forall e, f | e in kept && Induced(st, edges, f) && f !in kept
      ensures RanksBefore(st, e, f)
    {
      var i :| 0 <= i < |kept| && kept[i] == e;
      assert f in ranked;
      var j :| 0 <= j < |ranked| && ranked[j] == f;
      assert ranked[i] == e;
    }
  }
}
