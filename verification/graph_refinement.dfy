/** The frontier-by-frontier reader refines the builder run on the whole store. */
module GraphRefinement {
  import Sets
  import opened Options
  import opened Sorting
  import opened GraphNeighborhood
  import opened GraphResponse
  import opened GraphReader

  // ----- the response depends only on the edges at the nodes found

  ghost predicate AgreeAt(one: seq<Edge>, other: seq<Edge>, r: Ref) {
    forall e :: Touches(e, r) ==> (e in one <==> e in other)
  }

  lemma EntriesAgree(one: seq<Edge>, other: seq<Edge>, r: Ref)
    requires Distinct(one) && Distinct(other) && AgreeAt(one, other, r)
    ensures Entries(one, r) == Entries(other, r)
  {
    IncidentIs(one, r);
    IncidentIs(other, r);
    NeighbourKeyInjective(r);
    SortIsCanonical(Incident(one, r), Incident(other, r), NeighbourKey(r));
  }

  lemma {:induction false} ExploreAgrees(one: seq<Edge>, other: seq<Edge>, st: Search, cursor: nat, depth: nat, maxNodes: nat)
    requires Sized(st.hops, st.queue, maxNodes) && cursor <= |st.queue|
    requires Distinct(one) && Distinct(other)
    requires forall r :: r in Explore(one, st, cursor, depth, maxNodes).queue ==> AgreeAt(one, other, r)
    ensures Explore(other, st, cursor, depth, maxNodes) == Explore(one, st, cursor, depth, maxNodes)
    decreases maxNodes - cursor
  {
    if cursor < |st.queue| {
      var ref := st.queue[cursor];
      var next := VisitAll(st, ref, Entries(one, ref), depth, maxNodes);
      assert Explore(one, st, cursor, depth, maxNodes) == Explore(one, next, cursor + 1, depth, maxNodes);
      assert ref == Explore(one, st, cursor, depth, maxNodes).queue[cursor];
      EntriesAgree(one, other, ref);
      ExploreAgrees(one, other, next, cursor + 1, depth, maxNodes);
    }
  }

  lemma RankedAgrees(one: seq<Edge>, other: seq<Edge>, st: Search)
    requires Distinct(one) && Distinct(other)
    requires forall r :: r in st.hops ==> AgreeAt(one, other, r)
    ensures Ranked(one, st) == Ranked(other, st)
  {
    DistanceKeyInjective(st.hops);
    PickAgrees(one, other, st, true);
    PickAgrees(one, other, st, false);
  }

  lemma PickAgrees(one: seq<Edge>, other: seq<Edge>, st: Search, inTree: bool)
    requires Distinct(one) && Distinct(other)
    requires forall r :: r in st.hops ==> AgreeAt(one, other, r)
    ensures Sort(Pick(one, st.hops, st.tree.Values, inTree), DistanceKey(st.hops)) ==
            Sort(Pick(other, st.hops, st.tree.Values, inTree), DistanceKey(st.hops))
  {
    DistanceKeyInjective(st.hops);
    Picks(one, st.hops, st.tree.Values, inTree);
    Picks(other, st.hops, st.tree.Values, inTree);
    forall e: Edge | e.from in st.hops && e.to in st.hops
      ensures e in one <==> e in other
    {
      assert AgreeAt(one, other, e.from) && Touches(e, e.from);
    }
    SortIsCanonical(Pick(one, st.hops, st.tree.Values, inTree), Pick(other, st.hops, st.tree.Values, inTree), DistanceKey(st.hops));
  }

  lemma SortedDistinct(edges: seq<Edge>)
    requires Distinct(edges)
    ensures Distinct(Sort(edges, EdgeKey)) && forall e :: e in Sort(edges, EdgeKey) <==> e in edges
  {
    EdgeKeyInjective();
    SortSorts(edges, EdgeKey);
    AscendingIsDistinct(Sort(edges, EdgeKey), EdgeKey);
  }

  /** Two projections that agree at every node one of them finds give the same response. */
  lemma SameNeighborhood(one: seq<Edge>, other: seq<Edge>, oneItems: set<Ref>, otherItems: set<Ref>,
                         focus: Ref, depth: nat, maxNodes: nat, maxEdges: nat)
    requires maxNodes >= 1 && Distinct(one) && Distinct(other)
    requires forall r :: r in Bfs(Sort(one, EdgeKey), focus, depth, maxNodes).hops ==>
               AgreeAt(one, other, r) && (r in oneItems <==> r in otherItems)
    ensures Neighborhood(one, oneItems, focus, depth, maxNodes, maxEdges) == Neighborhood(other, otherItems, focus, depth, maxNodes, maxEdges)
  {
    hide Respond, Distinct, AgreeAt, Sort;
    var a, b := Sort(one, EdgeKey), Sort(other, EdgeKey);
    SortedDistinct(one);
    SortedDistinct(other);
    var st := Bfs(a, focus, depth, maxNodes);
    forall r | r in st.hops
      ensures AgreeAt(a, b, r)
    {
      SortedAgree(one, other, r);
    }
    ExploreAgrees(a, b, Start(focus), 0, depth, maxNodes);
    ResponseAgrees(a, b, oneItems, otherItems, st, maxEdges);
  }

  lemma SortedAgree(one: seq<Edge>, other: seq<Edge>, r: Ref)
    requires Distinct(one) && Distinct(other) && AgreeAt(one, other, r)
    ensures AgreeAt(Sort(one, EdgeKey), Sort(other, EdgeKey), r)
  {
    SortedDistinct(one);
    SortedDistinct(other);
  }

  lemma ResponseAgrees(one: seq<Edge>, other: seq<Edge>, oneItems: set<Ref>, otherItems: set<Ref>, st: Search, maxEdges: nat)
    requires Distinct(one) && Distinct(other) && forall r :: r in st.queue ==> r in st.hops
    requires forall r :: r in st.hops ==> AgreeAt(one, other, r) && (r in oneItems <==> r in otherItems)
    ensures Respond(one, oneItems, st, maxEdges) == Respond(other, otherItems, st, maxEdges)
  {
    hide Ranked, Nodes, AgreeAt, Distinct;
    RankedAgrees(one, other, st);
    NodesAgree(st, oneItems, otherItems);
  }

  lemma NodesAgree(st: Search, one: set<Ref>, other: set<Ref>)
    requires forall r :: r in st.queue ==> (r in one <==> r in other)
    ensures Nodes(st, one) == Nodes(st, other)
  {
    NodeKeyInjective(st.hops);
    SortSorts(st.queue, NodeKey(st.hops));
    var refs := Sort(st.queue, NodeKey(st.hops));
    assert forall i :: 0 <= i < |refs| ==> refs[i] in refs;
  }

  // ----- what the reader's loop keeps

  lemma {:induction false} MoreEdgesReachMore(some: set<Edge>, more: set<Edge>, focus: Ref, n: nat, v: Ref)
    requires some <= more && Reach(some, focus, n, v)
    ensures Reach(more, focus, n, v)
  {
    if n > 0 {
      var u, e :| e in some && Connects(e, u, v) && Reach(some, focus, n - 1, u);
      MoreEdgesReachMore(some, more, focus, n - 1, u);
    }
  }

  ghost predicate Sound(s: Store, focus: Ref, g: Gathered) {
    && (forall r :: r in g.allowed ==> InConfig(s, r))
    && g.items == (set r | r in g.allowed && r in s.items)
    && Distinct(g.edges) && (forall e :: e in g.edges ==> e in Projected(s) && e.from in g.allowed && e.to in g.allowed)
    && focus in g.allowed
    && forall v :: v in g.visited || v in g.frontier ==> v in g.allowed && Reachable(Elements(g.edges), focus, v)
  }

  /** After `hop` rounds: the kept edges are the projected edges at visited nodes, and every node
      within reach so far is visited or waiting. */
  ghost predicate Exact(s: Store, focus: Ref, g: Gathered, hop: nat) {
    && EdgesClosed(s, g)
    && EndsSeen(g)
    && ReachedBefore(Elements(Projected(s)), focus, g, hop)
    && ReachedAt(Elements(Projected(s)), focus, g, hop)
  }

  ghost predicate EdgesClosed(s: Store, g: Gathered) {
    forall e :: e in Projected(s) && (e.from in g.visited || e.to in g.visited) ==> e in g.edges
  }

  ghost predicate EndsSeen(g: Gathered) {
    forall r :: IsEnd(g.edges, r) ==> r in g.visited || r in g.frontier
  }

  ghost predicate ReachedBefore(graph: set<Edge>, focus: Ref, g: Gathered, hop: nat) {
    forall n: nat, v :: n < hop && Reach(graph, focus, n, v) ==> v in g.visited
  }

  ghost predicate ReachedAt(graph: set<Edge>, focus: Ref, g: Gathered, hop: nat) {
    forall v :: Reach(graph, focus, hop, v) ==> v in g.visited || v in g.frontier
  }

  /** More nodes are known to be reachable than the builder may return. */
  ghost predicate Overflow(focus: Ref, edges: seq<Edge>) {
    exists x: set<Ref> :: |x| > MAX_NODES && AllReachable(focus, edges, x)
  }

  ghost predicate AllReachable(focus: Ref, edges: seq<Edge>, x: set<Ref>) {
    forall v :: v in x ==> Reachable(Elements(edges), focus, v)
  }

  lemma ReachableMonotone(some: seq<Edge>, more: seq<Edge>, focus: Ref, v: Ref)
    requires forall e :: e in some ==> e in more
    requires Reachable(Elements(some), focus, v)
    ensures Reachable(Elements(more), focus, v)
  {
    var n: nat :| Reach(Elements(some), focus, n, v);
    assert Elements(some) <= Elements(more);
    MoreEdgesReachMore(Elements(some), Elements(more), focus, n, v);
  }

  lemma OverflowMonotone(some: seq<Edge>, more: seq<Edge>, focus: Ref)
    requires (forall e :: e in some ==> e in more) && Overflow(focus, some)
    ensures Overflow(focus, more)
  {
    var x: set<Ref> :| |x| > MAX_NODES && AllReachable(focus, some, x);
    forall v | v in x
      ensures Reachable(Elements(more), focus, v)
    {
      ReachableMonotone(some, more, focus, v);
    }
    assert AllReachable(focus, more, x);
  }

  /** One round of the loop, as facts about its result. */
  ghost predicate Round(s: Store, g: Gathered, frontierEdges: seq<Edge>, t: Gathered) {
    && (forall e :: e in frontierEdges ==> e in s.edges && AtFrontier(e, g.frontier))
    && t.visited == g.visited + (set r | r in g.frontier)
    && (forall r :: r in t.allowed <==> r in g.allowed || (InConfig(s, r) && IsEnd(frontierEdges, r)))
    && t.items == (set r | r in t.allowed && r in s.items)
    && (forall e :: e in t.edges <==> e in g.edges || (e in frontierEdges && InConfig(s, e.from) && InConfig(s, e.to)))
    && (Distinct(g.edges) ==> Distinct(t.edges))
    && t.frontier == Capped(Sort(KeepRefs(Ends(frontierEdges), t.allowed, t.visited), RefKey), MAX_NODES + 1)
  }

  ghost function Waiting(frontierEdges: seq<Edge>, t: Gathered): seq<Ref> {
    KeepRefs(Ends(frontierEdges), t.allowed, t.visited)
  }

  lemma FrontierIs(frontierEdges: seq<Edge>, t: Gathered)
    ensures |Sort(Waiting(frontierEdges, t), RefKey)| == |Waiting(frontierEdges, t)|
    ensures forall r :: r in Sort(Waiting(frontierEdges, t), RefKey) <==> IsEnd(frontierEdges, r) && r in t.allowed && r !in t.visited
    ensures DistinctRefs(Waiting(frontierEdges, t))
  {
    EndsAre(frontierEdges);
    assert Injective(RefKey);
    SortSorts(Waiting(frontierEdges, t), RefKey);
  }

  /** The projection keeps an edge when both its ends belong to configured sources and neither has a row in
      a repository that is not configured. */
  lemma ProjectedIs(s: Store)
    ensures forall e :: e in Projected(s) <==>
              && e in s.edges && s.sourceOf(e.from) in s.configured && s.sourceOf(e.to) in s.configured
              && (e.from in s.items ==> s.items[e.from]) && (e.to in s.items ==> s.items[e.to])
    ensures Distinct(s.edges) ==> Distinct(Projected(s))
  {
    Filters(s.edges, (e: Edge) => InConfig(s, e.from) && InConfig(s, e.to));
  }

  /** An allowed end of a frontier edge is reachable through the kept edges. */
  lemma EndReachable(s: Store, focus: Ref, g: Gathered, frontierEdges: seq<Edge>, t: Gathered, r: Ref)
    requires Sound(s, focus, g) && Round(s, g, frontierEdges, t)
    requires IsEnd(frontierEdges, r) && r in t.allowed
    ensures Reachable(Elements(t.edges), focus, r)
  {
    var e :| e in frontierEdges && Touches(e, r);
    assert InConfig(s, r);
    var u := if e.from in g.frontier then e.from else e.to;
    assert u in g.frontier && u in g.allowed;
    ReachableMonotone(g.edges, t.edges, focus, u);
    if u != r {
      assert InConfig(s, u);
      assert e in t.edges && Connects(e, u, r);
      var n: nat :| Reach(Elements(t.edges), focus, n, u);
      StepReaches(Elements(t.edges), focus, n, u, e, r);
    }
  }

  lemma RoundStaysSound(s: Store, focus: Ref, g: Gathered, frontierEdges: seq<Edge>, t: Gathered)
    requires Sound(s, focus, g) && Round(s, g, frontierEdges, t)
    ensures Sound(s, focus, t)
  {
    ProjectedIs(s);
    FrontierIs(frontierEdges, t);
    forall e | e in t.edges
      ensures e in Projected(s) && e.from in t.allowed && e.to in t.allowed
    {
      if e !in g.edges {
        assert Touches(e, e.from) && Touches(e, e.to);
        assert IsEnd(frontierEdges, e.from) && IsEnd(frontierEdges, e.to);
      }
    }
    forall v | v in t.visited || v in t.frontier
      ensures v in t.allowed && Reachable(Elements(t.edges), focus, v)
    {
      if v in g.visited || v in g.frontier {
        ReachableMonotone(g.edges, t.edges, focus, v);
      } else {
        assert v in Sort(Waiting(frontierEdges, t), RefKey);
        EndReachable(s, focus, g, frontierEdges, t, v);
      }
    }
  }

  ghost function RefSet(refs: seq<Ref>): set<Ref> { set r | r in refs }

  lemma {:induction false} RefCount(refs: seq<Ref>)
    requires DistinctRefs(refs)
    ensures |RefSet(refs)| == |refs|
  {
    if refs != [] {
      var tail := refs[1..];
      RefCount(tail);
      forall r
        ensures r in refs <==> r == refs[0] || r in tail
        ensures r in tail ==> r != refs[0]
      {
        RefInTail(refs, r);
      }
      assert RefSet(refs) == RefSet(tail) + {refs[0]};
    }
  }

  lemma RefInTail(refs: seq<Ref>, r: Ref)
    requires refs != [] && DistinctRefs(refs)
    ensures r in refs <==> r == refs[0] || r in refs[1..]
    ensures r in refs[1..] ==> r != refs[0]
  {
    assert refs == [refs[0]] + refs[1..];
    if r in refs[1..] {
      var i :| 0 <= i < |refs[1..]| && refs[1..][i] == r;
      assert refs[i + 1] == r;
    }
  }

  /** A frontier over its cap proves that too many nodes are reachable. */
  lemma CutFrontierOverflows(s: Store, focus: Ref, g: Gathered, frontierEdges: seq<Edge>, t: Gathered)
    requires Sound(s, focus, g) && Round(s, g, frontierEdges, t)
    requires |Waiting(frontierEdges, t)| > MAX_NODES + 1
    ensures Overflow(focus, t.edges)
  {
    FrontierIs(frontierEdges, t);
    EndsAre(frontierEdges);
    var waiting := Waiting(frontierEdges, t);
    RefCount(waiting);
    var x := RefSet(waiting);
    forall v | v in x
      ensures Reachable(Elements(t.edges), focus, v)
    {
      EndReachable(s, focus, g, frontierEdges, t, v);
    }
    assert AllReachable(focus, t.edges, x);
  }

  lemma RoundClosesEdges(s: Store, focus: Ref, g: Gathered, frontierEdges: seq<Edge>, t: Gathered)
    requires EdgesClosed(s, g) && Round(s, g, frontierEdges, t)
    requires forall e :: e in s.edges && AtFrontier(e, g.frontier) ==> e in frontierEdges
    ensures EdgesClosed(s, t)
  {
    ProjectedIs(s);
    forall e | e in Projected(s) && (e.from in t.visited || e.to in t.visited)
      ensures e in t.edges
    {
      assert e in g.edges || AtFrontier(e, g.frontier);
    }
  }

  /** An end of a kept edge was an end before, or is an allowed end of this frontier's edges. */
  lemma EndComesFrom(s: Store, g: Gathered, frontierEdges: seq<Edge>, t: Gathered, r: Ref)
    requires Round(s, g, frontierEdges, t) && IsEnd(t.edges, r)
    ensures IsEnd(g.edges, r) || (IsEnd(frontierEdges, r) && r in t.allowed)
  {
    hide InConfig;
    var e :| e in t.edges && Touches(e, r);
    if e in g.edges {
      assert IsEnd(g.edges, r);
    } else {
      assert IsEnd(frontierEdges, r) && InConfig(s, r);
    }
  }

  lemma RoundSeesEnds(s: Store, g: Gathered, frontierEdges: seq<Edge>, t: Gathered)
    requires EndsSeen(g) && Round(s, g, frontierEdges, t)
    requires |Waiting(frontierEdges, t)| <= MAX_NODES + 1
    ensures EndsSeen(t)
  {
    hide InConfig, IsEnd;
    FrontierIs(frontierEdges, t);
    forall r | IsEnd(t.edges, r)
      ensures r in t.visited || r in t.frontier
    {
      EndComesFrom(s, g, frontierEdges, t, r);
    }
  }

  lemma VisitedGrows(graph: set<Edge>, focus: Ref, g: Gathered, t: Gathered, hop: nat)
    requires ReachedBefore(graph, focus, g, hop) && ReachedAt(graph, focus, g, hop)
    requires t.visited == g.visited + set r | r in g.frontier
    ensures ReachedBefore(graph, focus, t, hop + 1)
  {
    forall n: nat, v | n < hop + 1 && Reach(graph, focus, n, v)
      ensures v in t.visited
    {
      assert n < hop || Reach(graph, focus, hop, v);
    }
  }

  lemma NextLevelSeen(s: Store, focus: Ref, t: Gathered, hop: nat)
    requires EdgesClosed(s, t) && EndsSeen(t) && ReachedBefore(Elements(Projected(s)), focus, t, hop + 1)
    ensures ReachedAt(Elements(Projected(s)), focus, t, hop + 1)
  {
    forall v | Reach(Elements(Projected(s)), focus, hop + 1, v)
      ensures v in t.visited || v in t.frontier
    {
      var u, e :| e in Elements(Projected(s)) && Connects(e, u, v) && Reach(Elements(Projected(s)), focus, hop, u);
      assert u in t.visited;
      assert e in t.edges && Touches(e, v);
      assert IsEnd(t.edges, v);
    }
  }

  /** A round with an uncapped read keeps exactness, unless its frontier was cut. */
  lemma RoundStaysExact(s: Store, focus: Ref, g: Gathered, frontierEdges: seq<Edge>, t: Gathered, hop: nat)
    requires Exact(s, focus, g, hop) && Round(s, g, frontierEdges, t)
    requires forall e :: e in s.edges && AtFrontier(e, g.frontier) ==> e in frontierEdges
    requires |Waiting(frontierEdges, t)| <= MAX_NODES + 1
    ensures Exact(s, focus, t, hop + 1)
  {
    RoundClosesEdges(s, focus, g, frontierEdges, t);
    RoundSeesEnds(s, g, frontierEdges, t);
    VisitedGrows(Elements(Projected(s)), focus, g, t, hop);
    NextLevelSeen(s, focus, t, hop);
  }

  // ----- the reader

  /** When nothing was capped, the kept edges hold every projected edge at every node the builder
      finds in them. */
  lemma KeptIsEnough(s: Store, focus: Ref, g: Gathered, hop: nat, depth: nat, r: Ref, st: Search)
    requires Sound(s, focus, g) && Exact(s, focus, g, hop)
    requires hop > depth || g.frontier == []
    requires Explored(Elements(g.edges), focus, st, depth, MAX_NODES) && r in st.hops
    ensures AgreeAt(g.edges, Projected(s), r)
  {
    hide Sound, Exact, Explored, Projected;
    ExploredIsReached(g.edges, focus, st, depth, r);
    KeptEdgesReach(s, focus, g, st.hops[r], r);
    ReachedIsVisited(s, focus, g, hop, st.hops[r], r);
    VisitedAgrees(s, focus, g, hop, r);
  }

  lemma ExploredIsReached(edges: seq<Edge>, focus: Ref, st: Search, depth: nat, r: Ref)
    requires Explored(Elements(edges), focus, st, depth, MAX_NODES) && r in st.hops
    ensures st.hops[r] <= depth && Reach(Elements(edges), focus, st.hops[r], r)
  {
  }

  lemma KeptEdgesReach(s: Store, focus: Ref, g: Gathered, n: nat, r: Ref)
    requires Sound(s, focus, g) && Reach(Elements(g.edges), focus, n, r)
    ensures Reach(Elements(Projected(s)), focus, n, r)
  {
    hide Projected, Reach;
    assert Elements(g.edges) <= Elements(Projected(s));
    MoreEdgesReachMore(Elements(g.edges), Elements(Projected(s)), focus, n, r);
  }

  lemma ReachedIsVisited(s: Store, focus: Ref, g: Gathered, hop: nat, n: nat, r: Ref)
    requires Sound(s, focus, g) && Exact(s, focus, g, hop) && (n < hop || g.frontier == [])
    requires Reach(Elements(Projected(s)), focus, n, r)
    ensures r in g.visited
  {
    hide Projected;
    if n >= hop {
      ClosedUnderReach(s, focus, g, hop, n, r);
    }
  }

  lemma VisitedAgrees(s: Store, focus: Ref, g: Gathered, hop: nat, r: Ref)
    requires Sound(s, focus, g) && Exact(s, focus, g, hop) && r in g.visited
    ensures AgreeAt(g.edges, Projected(s), r)
  {
    hide Projected, Reach;
  }

  /** With an empty frontier the visited nodes are closed. */
  lemma {:induction false} ClosedUnderReach(s: Store, focus: Ref, g: Gathered, hop: nat, n: nat, v: Ref)
    requires Sound(s, focus, g) && Exact(s, focus, g, hop) && g.frontier == [] && n >= hop
    requires Reach(Elements(Projected(s)), focus, n, v)
    ensures v in g.visited
    decreases n
  {
    if n > hop {
      var u, e :| e in Elements(Projected(s)) && Connects(e, u, v) && Reach(Elements(Projected(s)), focus, n - 1, u);
      ClosedUnderReach(s, focus, g, hop, n - 1, u);
      assert e in g.edges && Touches(e, v);
      assert IsEnd(g.edges, v);
    }
  }

  /** If too many nodes are reachable, the builder reports a node or depth cap. */
  lemma OverflowIsReported(edges: seq<Edge>, items: set<Ref>, focus: Ref, depth: nat, maxEdges: nat)
    requires Distinct(edges) && Overflow(focus, edges)
    ensures !Neighborhood(edges, items, focus, depth, MAX_NODES, maxEdges).Complete()
  {
    var x: set<Ref> :| |x| > MAX_NODES && AllReachable(focus, edges, x);
    var st := SearchUnder(edges, focus, depth, MAX_NODES);
    HopsAreDistances(Sort(edges, EdgeKey), focus, depth, MAX_NODES);
    assert |st.hops.Keys| == |st.hops|;
    var v := SomeOutside(x, st.hops.Keys);
    assert Elements(Sort(edges, EdgeKey)) == Elements(edges);
    assert Reachable(Elements(edges), focus, v);
  }

  lemma SomeOutside(a: set<Ref>, b: set<Ref>) returns (v: Ref)
    requires |a| > |b|
    ensures v in a && v !in b
  {
    if a <= b {
      Sets.SubsetSize(a, b);
    }
    v :| v in a && v !in b;
  }

  /** Once the reader has seen everything within reach, its response is the builder's on the whole store. */
  lemma ExactIsEqual(s: Store, focus: Ref, g: Gathered, hop: nat, depth: nat)
    requires Sound(s, focus, g) && ValidStore(s)
    requires Exact(s, focus, g, hop) && (hop > depth || g.frontier == [])
    ensures Neighborhood(g.edges, g.items, focus, depth, MAX_NODES, MAX_EDGES) ==
            Neighborhood(Projected(s), KnownItems(s), focus, depth, MAX_NODES, MAX_EDGES)
  {
    ProjectedIs(s);
    var st := SearchUnder(g.edges, focus, depth, MAX_NODES);
    forall r | r in st.hops
      ensures AgreeAt(g.edges, Projected(s), r) && (r in g.items <==> r in KnownItems(s))
    {
      KeptIsEnough(s, focus, g, hop, depth, r, st);
      FoundIsAllowed(s, focus, g, st.hops[r], r);
    }
    SameNeighborhood(g.edges, Projected(s), g.items, KnownItems(s), focus, depth, MAX_NODES, MAX_EDGES);
  }

  /** If no read was cut, the response is complete exactly when the builder's on the whole store is. */
  lemma UncutIsExact(s: Store, focus: Ref, g: Gathered, hop: nat, depth: nat)
    requires Sound(s, focus, g) && ValidStore(s)
    requires Overflow(focus, g.edges) || (Exact(s, focus, g, hop) && (hop > depth || g.frontier == []))
    ensures Neighborhood(g.edges, g.items, focus, depth, MAX_NODES, MAX_EDGES).Complete() <==>
            Neighborhood(Projected(s), KnownItems(s), focus, depth, MAX_NODES, MAX_EDGES).Complete()
  {
    ProjectedIs(s);
    if Overflow(focus, g.edges) {
      OverflowIsReported(g.edges, g.items, focus, depth, MAX_EDGES);
      OverflowMonotone(g.edges, Projected(s), focus);
      OverflowIsReported(Projected(s), KnownItems(s), focus, depth, MAX_EDGES);
    } else {
      ExactIsEqual(s, focus, g, hop, depth);
    }
  }

  /** Complete answers are the builder's on the whole store. */
  lemma CompleteIsExact(s: Store, focus: Ref, g: Gathered, hop: nat, depth: nat)
    requires Sound(s, focus, g) && ValidStore(s)
    requires Overflow(focus, g.edges) || (Exact(s, focus, g, hop) && (hop > depth || g.frontier == []))
    requires Neighborhood(g.edges, g.items, focus, depth, MAX_NODES, MAX_EDGES).Complete()
    ensures Neighborhood(g.edges, g.items, focus, depth, MAX_NODES, MAX_EDGES) ==
            Neighborhood(Projected(s), KnownItems(s), focus, depth, MAX_NODES, MAX_EDGES)
  {
    hide Exact, Neighborhood, Overflow, Projected, KnownItems;
    if Overflow(focus, g.edges) {
      OverflowIsReported(g.edges, g.items, focus, depth, MAX_EDGES);
    } else {
      ExactIsEqual(s, focus, g, hop, depth);
    }
  }

  lemma FoundIsAllowed(s: Store, focus: Ref, g: Gathered, n: nat, r: Ref)
    requires Sound(s, focus, g) && Reach(Elements(g.edges), focus, n, r)
    ensures r in g.allowed && InConfig(s, r)
  {
    if n > 0 {
      var u, e :| e in Elements(g.edges) && Connects(e, u, r) && Reach(Elements(g.edges), focus, n - 1, u);
    }
  }

  lemma StartsExact(s: Store, focus: Ref, g: Gathered)
    requires ValidStore(s) && focus in s.items && s.items[focus]
    requires g == Gathered({}, {focus}, {focus}, [], [focus])
    ensures Sound(s, focus, g) && Exact(s, focus, g, 0)
  {
    assert Reach(Elements(g.edges), focus, 0, focus);
  }

  lemma Advances(s: Store, focus: Ref, g: Gathered, frontierEdges: seq<Edge>, t: Gathered, hop: nat)
    requires Sound(s, focus, g) && Round(s, g, frontierEdges, t)
    requires forall e :: e in s.edges && AtFrontier(e, g.frontier) ==> e in frontierEdges
    requires Overflow(focus, g.edges) || Exact(s, focus, g, hop)
    ensures Overflow(focus, t.edges) || Exact(s, focus, t, hop + 1)
  {
    if Overflow(focus, g.edges) {
      OverflowMonotone(g.edges, t.edges, focus);
    } else if |Waiting(frontierEdges, t)| > MAX_NODES + 1 {
      CutFrontierOverflows(s, focus, g, frontierEdges, t);
    } else {
      RoundStaysExact(s, focus, g, frontierEdges, t, hop);
    }
  }

  lemma ManyKeptEdges(s: Store, focus: Ref, g: Gathered)
    requires Sound(s, focus, g) && ValidStore(s)
    ensures |g.edges| <= |s.edges|
  {
    Filters(s.edges, (e: Edge) => InConfig(s, e.from) && InConfig(s, e.to));
    FewerElements(g.edges, s.edges);
  }

  /** One round: the frontier's edges are read and absorbed. It is cut when a read was, or when too many
      edges are kept. */
  method ReadRound(s: Store, focus: Ref, g: Gathered, ghost hop: nat) returns (next: Gathered, cut: bool)
    requires ValidStore(s) && focus in s.items && s.items[focus] && Sound(s, focus, g)
    requires Overflow(focus, g.edges) || Exact(s, focus, g, hop)
    ensures Sound(s, focus, next)
    ensures cut ==> 2 * |s.edges| > MAX_EDGES
    ensures !cut ==> Overflow(focus, next.edges) || Exact(s, focus, next, hop + 1)
  {
    hide Sound, Exact, Overflow, ValidStore, AtFrontier, IsEnd;
    StoreIsDistinct(s);
    var frontierEdges, cutRead := ReadFrontier(s, g.frontier);
    AllowedAreConfigured(s, focus, g);
    next := Absorb(s, g, frontierEdges);
    RoundStaysSound(s, focus, g, frontierEdges, next);
    cut := cutRead || |next.edges| > MAX_EDGES;
    if cut {
      ManyKeptEdges(s, focus, next);
    } else {
      Advances(s, focus, g, frontierEdges, next, hop);
    }
  }

  /** The reader's loop. It ends with a cut read, or with everything within reach (or too much of it). */
  method Gather(s: Store, focus: Ref, depth: nat) returns (g: Gathered, cut: bool, ghost hop: nat)
    requires ValidStore(s) && focus in s.items && s.items[focus]
    ensures Sound(s, focus, g) && focus in g.items
    ensures cut ==> 2 * |s.edges| > MAX_EDGES
    ensures !cut ==> Overflow(focus, g.edges) || (Exact(s, focus, g, hop) && (hop > depth || g.frontier == []))
  {
    hide Sound, Exact, Overflow, ValidStore, AtFrontier, IsEnd;
    g := Gathered({}, {focus}, {focus}, [], [focus]);
    cut := false;
    var round := 0;
    hop := 0;
    StartsExact(s, focus, g);
    while !cut && round <= depth && g.frontier != []
      invariant Sound(s, focus, g)
      invariant cut ==> 2 * |s.edges| > MAX_EDGES
      invariant !cut ==> round == hop && (Overflow(focus, g.edges) || Exact(s, focus, g, hop))
      decreases depth + 1 - round
    {
      g, cut := ReadRound(s, focus, g, hop);
      round, hop := round + 1, hop + 1;
    }
    FocusIsHeld(s, focus, g);
  }

  lemma StoreIsDistinct(s: Store)
    requires ValidStore(s)
    ensures Distinct(s.edges)
  {
  }

  lemma AllowedAreConfigured(s: Store, focus: Ref, g: Gathered)
    requires Sound(s, focus, g)
    ensures forall r :: r in g.allowed ==> InConfig(s, r)
    ensures g.items == set r | r in g.allowed && r in s.items
  {
  }

  lemma FocusIsHeld(s: Store, focus: Ref, g: Gathered)
    requires Sound(s, focus, g) && focus in s.items
    ensures focus in g.items
  {
  }

  /** Read the neighbourhood frontier by frontier, then build the response from what was read. The
      focus must be a live item of a configured repository. A response reported complete is the
      builder's response on every live item and edge of the store; and unless an edge read was cut,
      which takes more than half of `MAX_EDGES` edges in the store, it is reported complete exactly when
      the builder's is. */
  method ReadNeighborhood(s: Store, focus: Ref, depth: nat) returns (response: Option<Response>, ghost cut: bool)
    requires ValidStore(s)
    ensures response.None? <==> !(focus in s.items && s.items[focus])
    ensures response.Some? && !response.value.cutDepth && !response.value.cutNodes && !response.value.cutEdges ==>
              response.value == Neighborhood(Projected(s), KnownItems(s), focus, depth, MAX_NODES, MAX_EDGES)
    ensures cut ==> 2 * |s.edges| > MAX_EDGES
    ensures response.Some? && !cut ==>
              var whole := Neighborhood(Projected(s), KnownItems(s), focus, depth, MAX_NODES, MAX_EDGES);
              (!response.value.cutDepth && !response.value.cutNodes && !response.value.cutEdges <==>
               !whole.cutDepth && !whole.cutNodes && !whole.cutEdges)
  {
    hide Sound, Exact, Overflow, ValidStore, Neighborhood, Projected, KnownItems;
    cut := false;
    if focus !in s.items || !s.items[focus] {
      return None, false;
    }
    var g, cutRead, hop := Gather(s, focus, depth);
    var built := BuildNeighborhood(g.edges, g.items, focus, depth, MAX_NODES, MAX_EDGES);
    cut := cutRead;
    if cutRead {
      response := Some(built.value.(cutEdges := true));
    } else {
      UncutIsExact(s, focus, g, hop, depth);
      if built.value.Complete() {
        CompleteIsExact(s, focus, g, hop, depth);
      }
      response := built;
    }
  }
}
