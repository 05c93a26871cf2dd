/** The focused graph neighbourhood: a breadth-first search capped in depth and nodes. Mentions mode "all". */
module GraphNeighborhood {
  import opened Sorting

  /** A reference, numbered by its rank in the order the program compares references in. */
  type Ref = nat

  datatype Edge = Edge(kind: nat, from: Ref, to: Ref)

  const MAX_NODES: nat := 200
  const MAX_EDGES: nat := 500

  predicate Touches(e: Edge, ref: Ref) { e.from == ref || e.to == ref }

  predicate Connects(e: Edge, u: Ref, v: Ref) {
    (e.from == u && e.to == v) || (e.from == v && e.to == u)
  }

  function Other(e: Edge, ref: Ref): Ref { if e.from == ref then e.to else e.from }

  function EdgeKey(e: Edge): Key { Key(0, e.from, e.to, e.kind) }

  function NeighbourKey(ref: Ref): Edge -> Key { e => Key(Other(e, ref), e.from, e.to, e.kind) }

  function Incident(edges: seq<Edge>, ref: Ref): seq<Edge> {
    if edges == [] then []
    else if Touches(edges[0], ref) then [edges[0]] + Incident(edges[1..], ref)
    else Incident(edges[1..], ref)
  }

  /** The edges at `ref` in the order its neighbours are visited. */
  function Entries(edges: seq<Edge>, ref: Ref): seq<Edge> {
    Sort(Incident(edges, ref), NeighbourKey(ref))
  }

  /** Search state: hops found so far, discovery order, the spanning-tree edge each node was found by,
      and which cap cut the search. */
  datatype Search = Search(hops: map<Ref, nat>, queue: seq<Ref>, tree: map<Ref, Edge>, cutDepth: bool, cutNodes: bool)

  function Start(focus: Ref): Search {
    Search(map[focus := 0], [focus], map[], false, false)
  }

  /** What keeps the search running within the node cap. */
  ghost predicate Sized(hops: map<Ref, nat>, queue: seq<Ref>, maxNodes: nat) {
    && |queue| == |hops| && |queue| <= maxNodes
    && forall i :: 0 <= i < |queue| ==> queue[i] in hops
  }

  function VisitEdge(st: Search, ref: Ref, e: Edge, depth: nat, maxNodes: nat): Search
    requires ref in st.hops
  {
    var other := Other(e, ref);
    if other in st.hops then st
    else if st.hops[ref] + 1 > depth then st.(cutDepth := true)
    else if |st.hops| >= maxNodes then st.(cutNodes := true)
    else Discover(st, ref, e)
  }

  function Discover(st: Search, ref: Ref, e: Edge): Search
    requires ref in st.hops
  {
    var other := Other(e, ref);
    st.(hops := st.hops[other := st.hops[ref] + 1], queue := st.queue + [other], tree := st.tree[other := e])
  }

  function VisitAll(st: Search, ref: Ref, entries: seq<Edge>, depth: nat, maxNodes: nat): (after: Search)
    requires ref in st.hops && Sized(st.hops, st.queue, maxNodes)
    ensures Sized(after.hops, after.queue, maxNodes) && st.queue <= after.queue
    ensures forall r :: r in st.hops ==> r in after.hops && after.hops[r] == st.hops[r]
  {
    if entries == [] then st
    else
      var before := VisitAll(st, ref, entries[..|entries| - 1], depth, maxNodes);
      VisitEdge(before, ref, entries[|entries| - 1], depth, maxNodes)
  }

  function Explore(edges: seq<Edge>, st: Search, cursor: nat, depth: nat, maxNodes: nat): (after: Search)
    requires Sized(st.hops, st.queue, maxNodes) && cursor <= |st.queue|
    ensures Sized(after.hops, after.queue, maxNodes) && st.queue <= after.queue
    decreases maxNodes - cursor
  {
    if cursor == |st.queue| then st
    else
      var ref := st.queue[cursor];
      Explore(edges, VisitAll(st, ref, Entries(edges, ref), depth, maxNodes), cursor + 1, depth, maxNodes)
  }

  function Bfs(edges: seq<Edge>, focus: Ref, depth: nat, maxNodes: nat): Search
    requires maxNodes >= 1
  {
    Explore(edges, Start(focus), 0, depth, maxNodes)
  }

  // ----- distances

  /** `v` is reachable from `focus` in exactly `n` undirected steps. */
  ghost predicate Reach(edges: set<Edge>, focus: Ref, n: nat, v: Ref) {
    if n == 0 then v == focus
    else exists u, e :: e in edges && Connects(e, u, v) && Reach(edges, focus, n - 1, u)
  }

  ghost predicate Reachable(edges: set<Edge>, focus: Ref, v: Ref) {
    exists n: nat :: Reach(edges, focus, n, v)
  }

  ghost function Elements(edges: seq<Edge>): set<Edge> { set e | e in edges }

  /** Neighbour `v` of an explored node `u` was found, or a cap accounts for its absence. */
  ghost predicate Handled(st: Search, u: Ref, v: Ref, depth: nat, maxNodes: nat)
    requires u in st.hops
  {
    || (v in st.hops && st.hops[v] <= st.hops[u] + 1)
    || (st.cutDepth && st.hops[u] + 1 > depth)
    || (st.cutNodes && |st.hops| >= maxNodes && forall w :: w in st.hops ==> st.hops[w] <= st.hops[u] + 1)
  }

  /** Hops never decrease along the queue, and span at most one level beyond the node at `cursor`. */
  ghost predicate Levels(hops: map<Ref, nat>, queue: seq<Ref>, cursor: nat, depth: nat, maxNodes: nat) {
    && Sized(hops, queue, maxNodes)
    && (forall r :: r in hops ==> r in queue)
    && (forall i, j :: 0 <= i <= j < |queue| ==> hops[queue[i]] <= hops[queue[j]])
    && (forall r :: r in hops ==> hops[r] <= depth)
    && (cursor < |queue| ==> forall r :: r in hops ==> hops[r] <= hops[queue[cursor]] + 1)
  }

  ghost predicate Found(edges: set<Edge>, focus: Ref, hops: map<Ref, nat>) {
    && focus in hops && hops[focus] == 0
    && forall r {:trigger Reach(edges, focus, hops[r], r)} :: r in hops ==> Reach(edges, focus, hops[r], r)
  }

  ghost predicate ExploredOk(edges: set<Edge>, st: Search, cursor: nat, depth: nat, maxNodes: nat)
    requires Sized(st.hops, st.queue, maxNodes)
  {
    forall i, e {:trigger Handled(st, st.queue[i], Other(e, st.queue[i]), depth, maxNodes)} ::
      0 <= i < cursor <= |st.queue| && e in edges && Touches(e, st.queue[i]) ==>
      Handled(st, st.queue[i], Other(e, st.queue[i]), depth, maxNodes)
  }

  /** A raised cap flag is final, and some reachable node is missing. */
  ghost predicate CutsOk(edges: set<Edge>, focus: Ref, st: Search, cursor: nat, depth: nat, maxNodes: nat)
    requires Sized(st.hops, st.queue, maxNodes)
  {
    && (st.cutDepth && cursor < |st.queue| ==> st.hops[st.queue[cursor]] >= depth)
    && (st.cutNodes ==> |st.hops| >= maxNodes)
    && (st.cutDepth || st.cutNodes ==> exists v :: v !in st.hops && Reachable(edges, focus, v))
  }

  /** Each found node but the focus has a tree edge to a node one hop nearer. */
  ghost predicate TreeOk(edges: set<Edge>, focus: Ref, hops: map<Ref, nat>, tree: map<Ref, Edge>) {
    && tree.Keys == hops.Keys - {focus}
    && forall v {:trigger tree[v]} :: v in tree ==>
         && tree[v] in edges && Touches(tree[v], v)
         && Other(tree[v], v) in hops && hops[Other(tree[v], v)] + 1 == hops[v]
  }

  ghost predicate BfsInv(edges: set<Edge>, focus: Ref, st: Search, cursor: nat, depth: nat, maxNodes: nat) {
    && Levels(st.hops, st.queue, cursor, depth, maxNodes)
    && cursor <= |st.queue|
    && Found(edges, focus, st.hops)
    && ExploredOk(edges, st, cursor, depth, maxNodes)
    && CutsOk(edges, focus, st, cursor, depth, maxNodes)
    && TreeOk(edges, focus, st.hops, st.tree)
  }

  /** Every queued node was explored. */
  ghost predicate Explored(edges: set<Edge>, focus: Ref, st: Search, depth: nat, maxNodes: nat) {
    BfsInv(edges, focus, st, |st.queue|, depth, maxNodes)
  }

  /** Part-way through the entries of the node at `cursor`. */
  ghost predicate VisitInv(edges: set<Edge>, focus: Ref, st: Search, cursor: nat, done: set<Edge>, depth: nat, maxNodes: nat) {
    && cursor < |st.queue|
    && BfsInv(edges, focus, st, cursor, depth, maxNodes)
    && Progress(st, cursor, done, depth, maxNodes)
  }

  ghost predicate Progress(st: Search, cursor: nat, done: set<Edge>, depth: nat, maxNodes: nat)
    requires Sized(st.hops, st.queue, maxNodes) && cursor < |st.queue|
  {
    forall e :: e in done ==> Handled(st, st.queue[cursor], Other(e, st.queue[cursor]), depth, maxNodes)
  }

  lemma StepReaches(edges: set<Edge>, focus: Ref, n: nat, u: Ref, e: Edge, v: Ref)
    requires Reach(edges, focus, n, u) && e in edges && Connects(e, u, v)
    ensures Reach(edges, focus, n + 1, v) && Reachable(edges, focus, v)
  {
    var m: nat := n + 1;
    assert Reach(edges, focus, m, v);
  }

  lemma DiscoverKeepsLevels(hops: map<Ref, nat>, queue: seq<Ref>, cursor: nat, other: Ref, depth: nat, maxNodes: nat)
    requires Levels(hops, queue, cursor, depth, maxNodes) && cursor < |queue|
    requires other !in hops && hops[queue[cursor]] + 1 <= depth && |hops| < maxNodes
    ensures Levels(hops[other := hops[queue[cursor]] + 1], queue + [other], cursor, depth, maxNodes)
  {
    var newHops, newQueue := hops[other := hops[queue[cursor]] + 1], queue + [other];
    forall i, j | 0 <= i <= j < |newQueue|
      ensures newQueue[i] in newHops && newQueue[j] in newHops && newHops[newQueue[i]] <= newHops[newQueue[j]]
    {
      assert i < |queue| ==> newQueue[i] == queue[i] && newHops[newQueue[i]] == hops[queue[i]];
      assert j < |queue| ==> newQueue[j] == queue[j] && newHops[newQueue[j]] == hops[queue[j]];
    }
    assert newQueue[cursor] == queue[cursor];
  }

  /** A handled neighbour stays handled while the search goes on. */
  lemma StaysHandled(st: Search, t: Search, u: Ref, v: Ref, depth: nat, maxNodes: nat)
    requires u in st.hops && Handled(st, u, v, depth, maxNodes)
    requires forall r :: r in st.hops ==> r in t.hops && t.hops[r] == st.hops[r]
    requires (st.cutDepth ==> t.cutDepth) && (st.cutNodes ==> t.cutNodes)
    requires st.cutNodes ==> t.hops == st.hops
    ensures Handled(t, u, v, depth, maxNodes)
  {
  }

  lemma ExploredStays(edges: set<Edge>, st: Search, t: Search, cursor: nat, done: set<Edge>,
                      depth: nat, maxNodes: nat)
    requires Sized(st.hops, st.queue, maxNodes) && Sized(t.hops, t.queue, maxNodes) && cursor < |st.queue| && st.queue <= t.queue
    requires ExploredOk(edges, st, cursor, depth, maxNodes) && Progress(st, cursor, done, depth, maxNodes)
    requires forall r :: r in st.hops ==> r in t.hops && t.hops[r] == st.hops[r]
    requires (st.cutDepth ==> t.cutDepth) && (st.cutNodes ==> t.cutNodes)
    requires st.cutNodes ==> t.hops == st.hops
    ensures ExploredOk(edges, t, cursor, depth, maxNodes) && Progress(t, cursor, done, depth, maxNodes)
  {
    forall i, f | 0 <= i < cursor && f in edges && Touches(f, t.queue[i])
      ensures Handled(t, t.queue[i], Other(f, t.queue[i]), depth, maxNodes)
    {
      assert st.queue[i] == t.queue[i];
      StaysHandled(st, t, st.queue[i], Other(f, st.queue[i]), depth, maxNodes);
    }
    assert st.queue[cursor] == t.queue[cursor];
    forall f | f in done
      ensures Handled(t, t.queue[cursor], Other(f, t.queue[cursor]), depth, maxNodes)
    {
      StaysHandled(st, t, st.queue[cursor], Other(f, st.queue[cursor]), depth, maxNodes);
    }
  }

  lemma DiscoverKeepsFound(edges: set<Edge>, focus: Ref, st: Search, ref: Ref, e: Edge)
    requires Found(edges, focus, st.hops) && ref in st.hops && e in edges && Touches(e, ref) && Other(e, ref) !in st.hops
    ensures Found(edges, focus, Discover(st, ref, e).hops)
  {
    var t := Discover(st, ref, e);
    forall r | r in t.hops
      ensures Reach(edges, focus, t.hops[r], r)
    {
      if r == Other(e, ref) {
        StepReaches(edges, focus, st.hops[ref], ref, e, r);
      }
    }
  }

  lemma DiscoverKeepsTree(edges: set<Edge>, focus: Ref, st: Search, ref: Ref, e: Edge)
    requires TreeOk(edges, focus, st.hops, st.tree) && focus in st.hops && ref in st.hops && Other(e, ref) !in st.hops
    requires e in edges && Touches(e, ref)
    ensures TreeOk(edges, focus, Discover(st, ref, e).hops, Discover(st, ref, e).tree)
  {
    var t := Discover(st, ref, e);
    forall v | v in t.tree
      ensures t.tree[v] in edges && Touches(t.tree[v], v)
      ensures Other(t.tree[v], v) in t.hops && t.hops[Other(t.tree[v], v)] + 1 == t.hops[v]
    {
      if v != Other(e, ref) {
        assert v in st.tree;
      }
    }
  }

  lemma CutKeeps(edges: set<Edge>, focus: Ref, st: Search, cursor: nat, done: set<Edge>, e: Edge,
                 depth: nat, maxNodes: nat)
    requires VisitInv(edges, focus, st, cursor, done, depth, maxNodes)
    requires e in edges && Touches(e, st.queue[cursor]) && Other(e, st.queue[cursor]) !in st.hops
    requires st.hops[st.queue[cursor]] + 1 > depth || |st.hops| >= maxNodes
    ensures VisitInv(edges, focus, VisitEdge(st, st.queue[cursor], e, depth, maxNodes), cursor, done + {e}, depth, maxNodes)
  {
    var u := st.queue[cursor];
    var t := VisitEdge(st, u, e, depth, maxNodes);
    StepReaches(edges, focus, st.hops[u], u, e, Other(e, u));
    ExploredStays(edges, st, t, cursor, done, depth, maxNodes);
    ProgressGrows(t, cursor, done, e, depth, maxNodes);
  }

  lemma DiscoverKeeps(edges: set<Edge>, focus: Ref, st: Search, cursor: nat, done: set<Edge>, e: Edge,
                      depth: nat, maxNodes: nat)
    requires VisitInv(edges, focus, st, cursor, done, depth, maxNodes)
    requires e in edges && Touches(e, st.queue[cursor]) && Other(e, st.queue[cursor]) !in st.hops
    requires st.hops[st.queue[cursor]] + 1 <= depth && |st.hops| < maxNodes
    ensures VisitInv(edges, focus, Discover(st, st.queue[cursor], e), cursor, done + {e}, depth, maxNodes)
  {
    var u := st.queue[cursor];
    var t := Discover(st, u, e);
    NoCutsYet(edges, focus, st, cursor, depth, maxNodes);
    DiscoverKeepsFound(edges, focus, st, u, e);
    DiscoverKeepsLevels(st.hops, st.queue, cursor, Other(e, u), depth, maxNodes);
    DiscoverKeepsTree(edges, focus, st, u, e);
    DiscoverKeepsExplored(edges, st, cursor, done, e, depth, maxNodes);
  }

  lemma DiscoverKeepsExplored(edges: set<Edge>, st: Search, cursor: nat, done: set<Edge>, e: Edge,
                              depth: nat, maxNodes: nat)
    requires Sized(st.hops, st.queue, maxNodes) && cursor < |st.queue| && !st.cutNodes
    requires Other(e, st.queue[cursor]) !in st.hops
    requires Sized(Discover(st, st.queue[cursor], e).hops, Discover(st, st.queue[cursor], e).queue, maxNodes)
    requires ExploredOk(edges, st, cursor, depth, maxNodes) && Progress(st, cursor, done, depth, maxNodes)
    ensures ExploredOk(edges, Discover(st, st.queue[cursor], e), cursor, depth, maxNodes)
    ensures Progress(Discover(st, st.queue[cursor], e), cursor, done + {e}, depth, maxNodes)
  {
    var t := Discover(st, st.queue[cursor], e);
    ExploredStays(edges, st, t, cursor, done, depth, maxNodes);
    ProgressGrows(t, cursor, done, e, depth, maxNodes);
  }

  lemma NoCutsYet(edges: set<Edge>, focus: Ref, st: Search, cursor: nat, depth: nat, maxNodes: nat)
    requires Sized(st.hops, st.queue, maxNodes) && cursor < |st.queue|
    requires CutsOk(edges, focus, st, cursor, depth, maxNodes)
    requires st.hops[st.queue[cursor]] + 1 <= depth && |st.hops| < maxNodes
    ensures !st.cutDepth && !st.cutNodes
  {
  }

  lemma ProgressGrows(st: Search, cursor: nat, done: set<Edge>, e: Edge, depth: nat, maxNodes: nat)
    requires Sized(st.hops, st.queue, maxNodes) && cursor < |st.queue|
    requires Progress(st, cursor, done, depth, maxNodes)
    requires Handled(st, st.queue[cursor], Other(e, st.queue[cursor]), depth, maxNodes)
    ensures Progress(st, cursor, done + {e}, depth, maxNodes)
  {
  }

  lemma VisitEdgeKeeps(edges: set<Edge>, focus: Ref, st: Search, cursor: nat, done: set<Edge>, e: Edge,
                       depth: nat, maxNodes: nat)
    requires VisitInv(edges, focus, st, cursor, done, depth, maxNodes)
    requires e in edges && Touches(e, st.queue[cursor])
    ensures VisitInv(edges, focus, VisitEdge(st, st.queue[cursor], e, depth, maxNodes), cursor, done + {e}, depth, maxNodes)
  {
    var u := st.queue[cursor];
    if Other(e, u) in st.hops {
      assert Handled(st, u, Other(e, u), depth, maxNodes);
    } else if st.hops[u] + 1 > depth || |st.hops| >= maxNodes {
      CutKeeps(edges, focus, st, cursor, done, e, depth, maxNodes);
    } else {
      DiscoverKeeps(edges, focus, st, cursor, done, e, depth, maxNodes);
    }
  }

  lemma ElementsOf(s: seq<Edge>)
    ensures s != [] ==> Elements(s) == Elements(s[..|s| - 1]) + {s[|s| - 1]}
  {
    if s != [] {
      assert s == s[..|s| - 1] + [s[|s| - 1]];
    }
  }

  lemma {:induction false} VisitAllKeeps(edges: set<Edge>, focus: Ref, st: Search, cursor: nat, entries: seq<Edge>,
                                         depth: nat, maxNodes: nat)
    requires BfsInv(edges, focus, st, cursor, depth, maxNodes) && cursor < |st.queue|
    requires forall i :: 0 <= i < |entries| ==> entries[i] in edges && Touches(entries[i], st.queue[cursor])
    ensures VisitInv(edges, focus, VisitAll(st, st.queue[cursor], entries, depth, maxNodes), cursor, Elements(entries), depth, maxNodes)
  {
    if entries != [] {
      var ref := st.queue[cursor];
      var front, last := entries[..|entries| - 1], entries[|entries| - 1];
      VisitAllKeeps(edges, focus, st, cursor, front, depth, maxNodes);
      var before := VisitAll(st, ref, front, depth, maxNodes);
      assert before.queue[cursor] == ref;
      VisitEdgeKeeps(edges, focus, before, cursor, Elements(front), last, depth, maxNodes);
      ElementsOf(entries);
    }
  }

  lemma {:induction false} IncidentIs(edges: seq<Edge>, ref: Ref)
    ensures forall e :: e in Incident(edges, ref) <==> e in edges && Touches(e, ref)
    ensures Distinct(edges) ==> Distinct(Incident(edges, ref))
  {
    if edges != [] {
      IncidentIs(edges[1..], ref);
      assert edges == [edges[0]] + edges[1..];
    }
  }

  lemma EntriesAre(edges: seq<Edge>, ref: Ref)
    ensures forall e :: e in Entries(edges, ref) <==> e in edges && Touches(e, ref)
  {
    IncidentIs(edges, ref);
    NeighbourKeyInjective(ref);
    SortSorts(Incident(edges, ref), NeighbourKey(ref));
  }

  lemma NeighbourKeyInjective(ref: Ref)
    ensures Injective(NeighbourKey(ref))
  {
  }

  lemma {:induction false} ExploreKeeps(edges: seq<Edge>, focus: Ref, st: Search, cursor: nat, depth: nat, maxNodes: nat)
    requires BfsInv(Elements(edges), focus, st, cursor, depth, maxNodes)
    ensures Explored(Elements(edges), focus, Explore(edges, st, cursor, depth, maxNodes), depth, maxNodes)
    decreases maxNodes - cursor
  {
    if cursor < |st.queue| {
      ExploreStep(edges, focus, st, cursor, depth, maxNodes);
      var next := VisitAll(st, st.queue[cursor], Entries(edges, st.queue[cursor]), depth, maxNodes);
      ExploreKeeps(edges, focus, next, cursor + 1, depth, maxNodes);
      assert Explore(edges, st, cursor, depth, maxNodes) == Explore(edges, next, cursor + 1, depth, maxNodes);
    }
  }

  lemma ExploreStep(edges: seq<Edge>, focus: Ref, st: Search, cursor: nat, depth: nat, maxNodes: nat)
    requires BfsInv(Elements(edges), focus, st, cursor, depth, maxNodes) && cursor < |st.queue|
    ensures BfsInv(Elements(edges), focus, VisitAll(st, st.queue[cursor], Entries(edges, st.queue[cursor]), depth, maxNodes),
                   cursor + 1, depth, maxNodes)
  {
    var ref := st.queue[cursor];
    var entries := Entries(edges, ref);
    EntriesAre(edges, ref);
    forall i | 0 <= i < |entries|
      ensures entries[i] in Elements(edges) && Touches(entries[i], ref)
    {
      assert entries[i] in entries;
    }
    VisitAllKeeps(Elements(edges), focus, st, cursor, entries, depth, maxNodes);
    NextNode(Elements(edges), focus, VisitAll(st, ref, entries, depth, maxNodes), cursor, Elements(entries), depth, maxNodes);
  }

  lemma NextNode(edges: set<Edge>, focus: Ref, st: Search, cursor: nat, done: set<Edge>, depth: nat, maxNodes: nat)
    requires VisitInv(edges, focus, st, cursor, done, depth, maxNodes)
    requires forall e :: e in done <==> e in edges && Touches(e, st.queue[cursor])
    ensures BfsInv(edges, focus, st, cursor + 1, depth, maxNodes)
  {
    NextLevel(st, cursor, depth, maxNodes);
    NextExplored(edges, st, cursor, done, depth, maxNodes);
    assert CutsOk(edges, focus, st, cursor + 1, depth, maxNodes);
  }

  lemma NextLevel(st: Search, cursor: nat, depth: nat, maxNodes: nat)
    requires Levels(st.hops, st.queue, cursor, depth, maxNodes) && cursor < |st.queue|
    ensures Levels(st.hops, st.queue, cursor + 1, depth, maxNodes)
    ensures cursor + 1 < |st.queue| ==> st.hops[st.queue[cursor]] <= st.hops[st.queue[cursor + 1]]
  {
  }

  lemma NextExplored(edges: set<Edge>, st: Search, cursor: nat, done: set<Edge>, depth: nat, maxNodes: nat)
    requires Sized(st.hops, st.queue, maxNodes) && cursor < |st.queue|
    requires ExploredOk(edges, st, cursor, depth, maxNodes) && Progress(st, cursor, done, depth, maxNodes)
    requires forall e :: e in done <==> e in edges && Touches(e, st.queue[cursor])
    ensures ExploredOk(edges, st, cursor + 1, depth, maxNodes)
  {
    forall i, e | 0 <= i < cursor + 1 && e in edges && Touches(e, st.queue[i])
      ensures Handled(st, st.queue[i], Other(e, st.queue[i]), depth, maxNodes)
    {
    }
  }

  lemma BfsOk(edges: seq<Edge>, focus: Ref, depth: nat, maxNodes: nat)
    requires maxNodes >= 1
    ensures Explored(Elements(edges), focus, Bfs(edges, focus, depth, maxNodes), depth, maxNodes)
  {
    ExploreKeeps(edges, focus, Start(focus), 0, depth, maxNodes);
  }

  // ----- what the search found

  /** A node reachable in `n` steps was found within `n` hops, or a cap stopped the search at `n`. */
  lemma {:induction false} FoundOrCut(edges: set<Edge>, focus: Ref, st: Search, depth: nat, maxNodes: nat, n: nat, v: Ref)
    requires Explored(edges, focus, st, depth, maxNodes) && Reach(edges, focus, n, v)
    ensures
      || (v in st.hops && st.hops[v] <= n)
      || ((st.cutDepth || st.cutNodes) && forall r :: r in st.hops ==> st.hops[r] <= n)
  {
    if n > 0 {
      var u, e :| e in edges && Connects(e, u, v) && Reach(edges, focus, n - 1, u);
      FoundOrCut(edges, focus, st, depth, maxNodes, n - 1, u);
      if u in st.hops && st.hops[u] <= n - 1 {
        var i :| 0 <= i < |st.queue| && st.queue[i] == u;
        assert Handled(st, st.queue[i], Other(e, st.queue[i]), depth, maxNodes);
        assert Other(e, u) == v || Other(e, u) == u;
      }
    }
  }

  /** Every returned hop is the true shortest undirected distance from the focus, no omitted node is
      nearer than a returned one, and no cap is reported exactly when the returned nodes are the whole
      connected component of the focus; for every depth and node cap. */
  lemma HopsAreDistances(edges: seq<Edge>, focus: Ref, depth: nat, maxNodes: nat)
    requires maxNodes >= 1
    ensures
      var st := Bfs(edges, focus, depth, maxNodes);
      && (forall v :: v in st.hops ==> Reach(Elements(edges), focus, st.hops[v], v))
      && (forall n: nat, v :: Reach(Elements(edges), focus, n, v) && v in st.hops ==> st.hops[v] <= n)
      && (forall n: nat, v, r :: Reach(Elements(edges), focus, n, v) && v !in st.hops && r in st.hops ==> st.hops[r] <= n)
      && (!st.cutDepth && !st.cutNodes <==> forall v :: Reachable(Elements(edges), focus, v) ==> v in st.hops)
  {
    var st := Bfs(edges, focus, depth, maxNodes);
    BfsOk(edges, focus, depth, maxNodes);
    forall n: nat, v | Reach(Elements(edges), focus, n, v)
      ensures v in st.hops ==> st.hops[v] <= n
      ensures v !in st.hops ==> (st.cutDepth || st.cutNodes) && forall r :: r in st.hops ==> st.hops[r] <= n
    {
      FoundOrCut(Elements(edges), focus, st, depth, maxNodes, n, v);
    }
  }
}
