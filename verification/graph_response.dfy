/** The neighbourhood response: nodes in hop order and the induced edges, spanning-tree edges first, capped. */
module GraphResponse {
  // The imperative builder is proved against the functional search.
  import Sets
  import opened Options
  import opened Sorting
  import opened GraphNeighborhood

  datatype Node = Node(ref: Ref, hop: nat, hasItem: bool)

  datatype Response = Response(
    nodes: seq<Node>, edges: seq<Edge>, reachedDepth: nat,
    cutDepth: bool, cutNodes: bool, cutEdges: bool)
  {
    predicate Complete() { !cutDepth && !cutNodes && !cutEdges }
  }

  function Hop(hops: map<Ref, nat>, ref: Ref): nat { if ref in hops then hops[ref] else 0 }

  function Larger(a: nat, b: nat): nat { if a < b then b else a }

  function DistanceKey(hops: map<Ref, nat>): Edge -> Key {
    (e: Edge) => Key(Larger(Hop(hops, e.from), Hop(hops, e.to)), e.from, e.to, e.kind)
  }

  function NodeKey(hops: map<Ref, nat>): Ref -> Key { (r: Ref) => Key(Hop(hops, r), r, 0, 0) }

  /** The edges with both ends found, that are (or are not) tree edges. */
  function Pick(edges: seq<Edge>, hops: map<Ref, nat>, tree: set<Edge>, inTree: bool): seq<Edge> {
    if edges == [] then []
    else
      var e := edges[0];
      if e.from in hops && e.to in hops && (e in tree <==> inTree)
      then [e] + Pick(edges[1..], hops, tree, inTree)
      else Pick(edges[1..], hops, tree, inTree)
  }

  /** All induced edges in the order they are kept. */
  function Ranked(edges: seq<Edge>, st: Search): seq<Edge> {
    Sort(Pick(edges, st.hops, st.tree.Values, true), DistanceKey(st.hops)) +
    Sort(Pick(edges, st.hops, st.tree.Values, false), DistanceKey(st.hops))
  }

  function Capped<T>(s: seq<T>, cap: nat): seq<T> { if |s| <= cap then s else s[..cap] }

  function MaxHop(nodes: seq<Node>): nat {
    if nodes == [] then 0 else Larger(nodes[0].hop, MaxHop(nodes[1..]))
  }

  function Nodes(st: Search, items: set<Ref>): seq<Node> {
    var refs := Sort(st.queue, NodeKey(st.hops));
    seq(|refs|, i requires 0 <= i < |refs| => Node(refs[i], Hop(st.hops, refs[i]), refs[i] in items))
  }

  function Respond(edges: seq<Edge>, items: set<Ref>, st: Search, maxEdges: nat): Response {
    var ranked := Ranked(edges, st);
    var nodes := Nodes(st, items);
    Response(nodes, Capped(ranked, maxEdges), MaxHop(nodes), st.cutDepth, st.cutNodes, maxEdges < |ranked|)
  }

  /** The neighbourhood of `focus` in a projection: its known items and its edges in any order. */
  function Neighborhood(edges: seq<Edge>, items: set<Ref>, focus: Ref, depth: nat, maxNodes: nat, maxEdges: nat): Response
    requires maxNodes >= 1
  {
    var sorted := Sort(edges, EdgeKey);
    Respond(sorted, items, Bfs(sorted, focus, depth, maxNodes), maxEdges)
  }

  // ----- the builder

  lemma {:induction false} IncidentAppends(edges: seq<Edge>, e: Edge, ref: Ref)
    ensures Incident(edges + [e], ref) == Incident(edges, ref) + if Touches(e, ref) then [e] else []
  {
    if edges == [] {
      assert [e][1..] == [];
      assert [] + [e] == [e];
    } else {
      assert (edges + [e])[1..] == edges[1..] + [e];
      IncidentAppends(edges[1..], e, ref);
    }
  }

  ghost predicate ListsIncident(incident: map<Ref, seq<Edge>>, edges: seq<Edge>) {
    forall ref {:trigger Incident(edges, ref)} ::
      if ref in incident then incident[ref] == Incident(edges, ref) && incident[ref] != [] else Incident(edges, ref) == []
  }

  /** The incident-edge lists, built edge by edge. */
  method IncidentLists(edges: seq<Edge>) returns (incident: map<Ref, seq<Edge>>)
    ensures ListsIncident(incident, edges)
  {
    hide ListsIncident;
    incident := map[];
    NothingIncident();
    assert edges[..0] == [];
    var i := 0;
    while i < |edges|
      invariant 0 <= i <= |edges|
      invariant ListsIncident(incident, edges[..i])
    {
      var e := edges[i];
      assert edges[..i + 1] == edges[..i] + [e];
      OneMoreIncident(incident, edges[..i], e);
      incident := incident[e.from := (if e.from in incident then incident[e.from] else []) + [e]];
      if e.from != e.to {
        incident := incident[e.to := (if e.to in incident then incident[e.to] else []) + [e]];
      }
      i := i + 1;
    }
    assert edges[..i] == edges;
  }

  lemma NothingIncident()
    ensures ListsIncident(map[], [])
  {
  }

  lemma OneMoreIncident(incident: map<Ref, seq<Edge>>, edges: seq<Edge>, e: Edge)
    requires ListsIncident(incident, edges)
    ensures var one := incident[e.from := (if e.from in incident then incident[e.from] else []) + [e]];
            ListsIncident(if e.from == e.to then one else one[e.to := (if e.to in one then one[e.to] else []) + [e]], edges + [e])
  {
    hide Incident;
    forall ref {
      IncidentAppends(edges, e, ref);
    }
    assert forall ref :: Incident(edges + [e], ref) == Incident(edges, ref) + if Touches(e, ref) then [e] else [];
  }

  /** The capped breadth-first search, then the capped edge selection. A focus that is neither an item
      nor an edge end is not found. */
  method BuildNeighborhood(edges: seq<Edge>, items: set<Ref>, focus: Ref, depth: nat, maxNodes: nat, maxEdges: nat)
    returns (response: Option<Response>)
    requires maxNodes >= 1
    ensures response.None? <==> focus !in items && Incident(Sort(edges, EdgeKey), focus) == []
    ensures response.Some? ==> response.value == Neighborhood(edges, items, focus, depth, maxNodes, maxEdges)
  {
    var sorted := Sort(edges, EdgeKey);
    var incident := IncidentLists(sorted);
    if focus !in items && focus !in incident {
      return None;
    }
    var st := SearchFrom(sorted, incident, focus, depth, maxNodes);
    response := Some(Respond(sorted, items, st, maxEdges));
  }

  method SearchFrom(ghost edges: seq<Edge>, incident: map<Ref, seq<Edge>>, focus: Ref, depth: nat, maxNodes: nat)
    returns (st: Search)
    requires maxNodes >= 1 && ListsIncident(incident, edges)
    ensures st == Bfs(edges, focus, depth, maxNodes)
  {
    st := Start(focus);
    var cursor := 0;
    while cursor < |st.queue|
      invariant cursor <= |st.queue| && Sized(st.hops, st.queue, maxNodes)
      invariant Explore(edges, st, cursor, depth, maxNodes) == Bfs(edges, focus, depth, maxNodes)
      decreases maxNodes - cursor
    {
      var ref := st.queue[cursor];
      cursor := cursor + 1;
      var neighbours := Sort(if ref in incident then incident[ref] else [], NeighbourKey(ref));
      assert neighbours == Entries(edges, ref);
      st := VisitNeighbours(st, ref, neighbours, depth, maxNodes);
    }
  }

  /** Discover the neighbours of one node, in order, noting which cap stops a discovery. */
  method VisitNeighbours(st: Search, ref: Ref, neighbours: seq<Edge>, depth: nat, maxNodes: nat) returns (after: Search)
    requires ref in st.hops && Sized(st.hops, st.queue, maxNodes)
    ensures after == VisitAll(st, ref, neighbours, depth, maxNodes)
  {
    after := st;
    var i := 0;
    while i < |neighbours|
      invariant 0 <= i <= |neighbours|
      invariant after == VisitAll(st, ref, neighbours[..i], depth, maxNodes)
    {
      assert neighbours[..i + 1][..i] == neighbours[..i];
      var other := Other(neighbours[i], ref);
      if other !in after.hops {
        var nextHop := after.hops[ref] + 1;
        if nextHop > depth {
          after := after.(cutDepth := true);
        } else if |after.hops| >= maxNodes {
          after := after.(cutNodes := true);
        } else {
          after := after.(hops := after.hops[other := nextHop], queue := after.queue + [other],
                          tree := after.tree[other := neighbours[i]]);
        }
      }
      i := i + 1;
    }
    assert neighbours[..i] == neighbours;
  }

  // ----- the edge cap never disconnects

  lemma DistanceKeyInjective(hops: map<Ref, nat>)
    ensures Injective(DistanceKey(hops))
  {
  }

  lemma EdgeKeyInjective()
    ensures Injective(EdgeKey)
  {
  }

  lemma {:induction false} Picks(edges: seq<Edge>, hops: map<Ref, nat>, tree: set<Edge>, inTree: bool)
    ensures forall e :: e in Pick(edges, hops, tree, inTree) <==>
                        e in edges && e.from in hops && e.to in hops && (e in tree <==> inTree)
    ensures Distinct(edges) ==> Distinct(Pick(edges, hops, tree, inTree))
  {
    if edges != [] {
      Picks(edges[1..], hops, tree, inTree);
      assert edges == [edges[0]] + edges[1..];
      if Distinct(edges) {
        assert edges[0] !in edges[1..];
      }
    }
  }

  ghost function TreePart(edges: seq<Edge>, st: Search): seq<Edge> {
    Sort(Pick(edges, st.hops, st.tree.Values, true), DistanceKey(st.hops))
  }

  /** The tree part of the ranking is exactly the tree, nearer edges first. */
  lemma TreePartIs(edges: seq<Edge>, focus: Ref, st: Search)
    requires Distinct(edges) && focus in st.hops && TreeOk(Elements(edges), focus, st.hops, st.tree)
    ensures forall e :: e in TreePart(edges, st) <==> e in st.tree.Values
    ensures Ascending(TreePart(edges, st), DistanceKey(st.hops))
  {
    Picks(edges, st.hops, st.tree.Values, true);
    DistanceKeyInjective(st.hops);
    SortSorts(Pick(edges, st.hops, st.tree.Values, true), DistanceKey(st.hops));
    forall e | e in st.tree.Values
      ensures e in edges && e.from in st.hops && e.to in st.hops
    {
      var v :| v in st.tree && st.tree[v] == e;
      assert e == st.tree[v];
    }
  }

  ghost predicate Kept(st: Search, kept: set<Edge>, v: Ref) {
    v in st.tree && st.tree[v] in kept
  }

  /** Keeping a node's tree edge keeps its parent's. */
  ghost predicate ParentsKept(focus: Ref, st: Search, kept: set<Edge>) {
    forall v :: Kept(st, kept, v) ==> Other(st.tree[v], v) == focus || Kept(st, kept, Other(st.tree[v], v))
  }

  lemma {:induction false} KeptConnects(edges: set<Edge>, focus: Ref, st: Search, kept: set<Edge>, v: Ref)
    requires focus in st.hops && st.hops[focus] == 0 && TreeOk(edges, focus, st.hops, st.tree)
    requires ParentsKept(focus, st, kept) && Kept(st, kept, v)
    ensures Reach(kept, focus, st.hops[v], v)
    decreases st.hops[v]
  {
    var e := st.tree[v];
    var p := Other(e, v);
    if p != focus {
      KeptConnects(edges, focus, st, kept, p);
    } else {
      assert Reach(kept, focus, 0, focus);
    }
    StepReaches(kept, focus, st.hops[p], p, e, v);
  }

  lemma PrefixKeepsParents(edges: seq<Edge>, focus: Ref, st: Search, kept: set<Edge>, cap: nat)
    requires Distinct(edges) && focus in st.hops && TreeOk(Elements(edges), focus, st.hops, st.tree)
    requires forall e :: e in st.tree.Values ==> (e in kept <==> e in Capped(TreePart(edges, st), cap))
    ensures ParentsKept(focus, st, kept)
  {
    var part := TreePart(edges, st);
    TreePartIs(edges, focus, st);
    forall v | Kept(st, kept, v) && Other(st.tree[v], v) != focus
      ensures Kept(st, kept, Other(st.tree[v], v))
    {
      var e := st.tree[v];
      var p := Other(e, v);
      assert p in st.tree;
      var f := st.tree[p];
      assert e in st.tree.Values && f in st.tree.Values;
      assert Less(DistanceKey(st.hops)(f), DistanceKey(st.hops)(e));
      PrefixHasSmaller(part, DistanceKey(st.hops), cap, e, f);
    }
  }

  lemma PrefixHasSmaller(part: seq<Edge>, key: Edge -> Key, cap: nat, e: Edge, f: Edge)
    requires Ascending(part, key) && e in Capped(part, cap) && f in part && Less(key(f), key(e))
    ensures f in Capped(part, cap)
  {
    var i :| 0 <= i < |Capped(part, cap)| && Capped(part, cap)[i] == e;
    var j :| 0 <= j < |part| && part[j] == f;
    assert part[i] == e;
    SmallerComesFirst(part, key, i, j);
    assert Capped(part, cap)[j] == f;
  }

  lemma SmallerComesFirst(part: seq<Edge>, key: Edge -> Key, i: nat, j: nat)
    requires Ascending(part, key) && i < |part| && j < |part| && Less(key(part[j]), key(part[i]))
    ensures j < i
  {
    assert i == j || (i < j <==> Less(key(part[i]), key(part[j])));
  }

  lemma KeptTreeEdges(edges: seq<Edge>, focus: Ref, st: Search, cap: nat, e: Edge)
    requires Distinct(edges) && focus in st.hops && TreeOk(Elements(edges), focus, st.hops, st.tree)
    requires e in st.tree.Values
    ensures e in Capped(Ranked(edges, st), cap) <==> e in Capped(TreePart(edges, st), cap)
  {
    var part := TreePart(edges, st);
    var extra := Sort(Pick(edges, st.hops, st.tree.Values, false), DistanceKey(st.hops));
    TreePartIs(edges, focus, st);
    Picks(edges, st.hops, st.tree.Values, false);
    DistanceKeyInjective(st.hops);
    SortSorts(Pick(edges, st.hops, st.tree.Values, false), DistanceKey(st.hops));
    CapConcat(part, extra, cap, e);
  }

  lemma CapConcat(a: seq<Edge>, b: seq<Edge>, cap: nat, e: Edge)
    requires e !in b
    ensures e in Capped(a + b, cap) <==> e in Capped(a, cap)
  {
    if |a| <= cap {
      var k := |Capped(a + b, cap)| - |a|;
      assert Capped(a + b, cap) == a + b[..k];
    } else {
      assert Capped(a + b, cap) == a[..cap];
    }
  }

  lemma {:induction false} ValuesAreFew(m: map<Ref, Edge>)
    ensures |m.Values| <= |m|
    decreases |m|
  {
    if m.Keys != {} {
      var k :| k in m.Keys;
      var rest := m - {k};
      ValuesAreFew(rest);
      assert m == rest[k := m[k]];
      assert m.Values <= rest.Values + {m[k]};
      Sets.SubsetSize(m.Values, rest.Values + {m[k]});
    } else {
      assert m == map[];
    }
  }

  lemma {:induction false} DistinctCount(s: seq<Edge>, bound: set<Edge>)
    requires Distinct(s) && forall e :: e in s ==> e in bound
    ensures |s| <= |bound|
  {
    if s != [] {
      InTail(s, s[0]);
      forall e | e in s[1..] ensures e in bound - {s[0]} { InTail(s, e); }
      DistinctCount(s[1..], bound - {s[0]});
    }
  }

  /** With distinct edge keys and any edge cap, every selected edge connects to the focus through
      selected edges; and a cap of at least nodes minus one leaves every returned node connected. */
  lemma EdgeCapNeverDisconnects(edges: seq<Edge>, items: set<Ref>, focus: Ref, depth: nat, maxNodes: nat, maxEdges: nat)
    requires maxNodes >= 1 && Distinct(edges)
    ensures
      var r := Neighborhood(edges, items, focus, depth, maxNodes, maxEdges);
      && (forall e :: e in r.edges ==> e in edges)
      && (forall e :: e in r.edges ==>
            Reachable(Elements(r.edges), focus, e.from) && Reachable(Elements(r.edges), focus, e.to))
      && (maxEdges + 1 >= |r.nodes| ==> forall n :: n in r.nodes ==> Reachable(Elements(r.edges), focus, n.ref))
  {
    EdgeKeyInjective();
    SortSorts(edges, EdgeKey);
    var sorted := Sort(edges, EdgeKey);
    AscendingIsDistinct(sorted, EdgeKey);
    BfsOk(sorted, focus, depth, maxNodes);
    RespondConnects(sorted, items, focus, Bfs(sorted, focus, depth, maxNodes), maxEdges);
  }

  lemma RespondConnects(edges: seq<Edge>, items: set<Ref>, focus: Ref, st: Search, cap: nat)
    requires Distinct(edges) && focus in st.hops && st.hops[focus] == 0 && TreeOk(Elements(edges), focus, st.hops, st.tree)
    requires |st.queue| == |st.hops| && forall r :: r in st.queue ==> r in st.hops
    ensures
      var r := Respond(edges, items, st, cap);
      && (forall e :: e in r.edges ==> e in edges)
      && (forall e :: e in r.edges ==>
            Reachable(Elements(r.edges), focus, e.from) && Reachable(Elements(r.edges), focus, e.to))
      && (cap + 1 >= |r.nodes| ==> forall n :: n in r.nodes ==> Reachable(Elements(r.edges), focus, n.ref))
  {
    SelectionConnects(edges, focus, st, cap);
    NodesAreQueue(st, items);
    assert forall e :: e in Capped(Ranked(edges, st), cap) ==> e in Ranked(edges, st);
  }

  lemma NodesAreQueue(st: Search, items: set<Ref>)
    ensures |Nodes(st, items)| == |st.queue|
    ensures forall n :: n in Nodes(st, items) ==> n.ref in st.queue
  {
    NodeKeyInjective(st.hops);
    SortSorts(st.queue, NodeKey(st.hops));
    var refs := Sort(st.queue, NodeKey(st.hops));
    forall n | n in Nodes(st, items)
      ensures n.ref in st.queue
    {
      var i :| 0 <= i < |refs| && Nodes(st, items)[i] == n;
      assert refs[i] in refs;
    }
  }

  lemma NodeKeyInjective(hops: map<Ref, nat>)
    ensures Injective(NodeKey(hops))
  {
  }

  lemma SelectionConnects(edges: seq<Edge>, focus: Ref, st: Search, cap: nat)
    requires Distinct(edges) && focus in st.hops && st.hops[focus] == 0 && TreeOk(Elements(edges), focus, st.hops, st.tree)
    ensures forall e :: e in Ranked(edges, st) ==> e in edges && e.from in st.hops && e.to in st.hops
    ensures forall e :: e in Capped(Ranked(edges, st), cap) ==>
      Reachable(Elements(Capped(Ranked(edges, st), cap)), focus, e.from) && Reachable(Elements(Capped(Ranked(edges, st), cap)), focus, e.to)
    ensures cap + 1 >= |st.hops| ==> forall v :: v in st.hops ==> Reachable(Elements(Capped(Ranked(edges, st), cap)), focus, v)
  {
    var selected := Capped(Ranked(edges, st), cap);
    var kept := Elements(selected);
    var part := TreePart(edges, st);
    TreePartIs(edges, focus, st);
    forall e | e in st.tree.Values
      ensures e in kept <==> e in Capped(part, cap)
    {
      KeptTreeEdges(edges, focus, st, cap, e);
    }
    assert |part| <= cap ==> forall e :: e in st.tree.Values ==> e in kept;
    PrefixKeepsParents(edges, focus, st, kept, cap);
    forall v | v in st.hops && (v == focus || st.tree[v] in kept)
      ensures Reachable(kept, focus, v)
    {
      if v == focus {
        assert Reach(kept, focus, 0, v);
      } else {
        KeptConnects(Elements(edges), focus, st, kept, v);
        var n: nat := st.hops[v];
        assert Reach(kept, focus, n, v);
      }
    }
    PartIsSmall(edges, focus, st);
    if |part| <= cap {
      forall v | v in st.hops
        ensures Reachable(kept, focus, v)
      {
        assert v != focus ==> st.tree[v] in st.tree.Values;
      }
    }
    RankedAre(edges, st);
    forall e | e in selected
      ensures Reachable(kept, focus, e.from) && Reachable(kept, focus, e.to)
    {
      assert e in Ranked(edges, st);
      if |part| > cap {
        assert selected == part[..cap] && e in part;
        TreeEdgeConnects(edges, focus, st, kept, e);
      }
    }
  }

  lemma TreeEdgeConnects(edges: seq<Edge>, focus: Ref, st: Search, kept: set<Edge>, e: Edge)
    requires TreeOk(Elements(edges), focus, st.hops, st.tree) && e in st.tree.Values && e in kept
    requires forall v :: v in st.hops && (v == focus || st.tree[v] in kept) ==> Reachable(kept, focus, v)
    requires forall v :: Kept(st, kept, v) ==> Other(st.tree[v], v) == focus || Kept(st, kept, Other(st.tree[v], v))
    ensures Reachable(kept, focus, e.from) && Reachable(kept, focus, e.to)
  {
    hide Reachable;
    var v :| v in st.tree && st.tree[v] == e;
    assert Kept(st, kept, v);
  }

  lemma PartIsSmall(edges: seq<Edge>, focus: Ref, st: Search)
    requires Distinct(edges) && focus in st.hops && TreeOk(Elements(edges), focus, st.hops, st.tree)
    ensures |TreePart(edges, st)| + 1 <= |st.hops|
  {
    TreePartIs(edges, focus, st);
    AscendingIsDistinct(TreePart(edges, st), DistanceKey(st.hops));
    DistinctCount(TreePart(edges, st), st.tree.Values);
    ValuesAreFew(st.tree);
    assert |st.tree.Keys| == |st.hops.Keys| - 1;
  }

  lemma RankedAre(edges: seq<Edge>, st: Search)
    ensures forall e :: e in Ranked(edges, st) <==> e in edges && e.from in st.hops && e.to in st.hops
  {
    Picks(edges, st.hops, st.tree.Values, true);
    Picks(edges, st.hops, st.tree.Values, false);
    DistanceKeyInjective(st.hops);
    SortSorts(Pick(edges, st.hops, st.tree.Values, true), DistanceKey(st.hops));
    SortSorts(Pick(edges, st.hops, st.tree.Values, false), DistanceKey(st.hops));
  }

  // ----- the response, declaratively

  lemma NodesAre(st: Search, items: set<Ref>, maxNodes: nat)
    requires Sized(st.hops, st.queue, maxNodes) && forall r :: r in st.hops ==> r in st.queue
    ensures forall n :: n in Nodes(st, items) <==> n.ref in st.hops && n == Node(n.ref, st.hops[n.ref], n.ref in items)
    ensures |Nodes(st, items)| == |st.hops|
  {
    NodeKeyInjective(st.hops);
    SortSorts(st.queue, NodeKey(st.hops));
    var refs := Sort(st.queue, NodeKey(st.hops));
    var nodes := Nodes(st, items);
    forall n: Node | n.ref in st.hops && n == Node(n.ref, st.hops[n.ref], n.ref in items)
      ensures n in nodes
    {
      var i :| 0 <= i < |refs| && refs[i] == n.ref;
      assert nodes[i] == n;
    }
    forall n | n in nodes
      ensures n.ref in st.hops && n == Node(n.ref, st.hops[n.ref], n.ref in items)
    {
      var i :| 0 <= i < |refs| && nodes[i] == n;
      assert refs[i] in refs;
    }
  }

  /** What the search under a response did, in terms of the unsorted edges. */
  lemma SearchUnder(edges: seq<Edge>, focus: Ref, depth: nat, maxNodes: nat) returns (st: Search)
    requires maxNodes >= 1 && Distinct(edges)
    ensures st == Bfs(Sort(edges, EdgeKey), focus, depth, maxNodes)
    ensures Distinct(Sort(edges, EdgeKey)) && Elements(Sort(edges, EdgeKey)) == Elements(edges)
    ensures Explored(Elements(edges), focus, st, depth, maxNodes)
  {
    EdgeKeyInjective();
    SortSorts(edges, EdgeKey);
    AscendingIsDistinct(Sort(edges, EdgeKey), EdgeKey);
    assert Elements(Sort(edges, EdgeKey)) == Elements(edges);
    BfsOk(Sort(edges, EdgeKey), focus, depth, maxNodes);
    st := Bfs(Sort(edges, EdgeKey), focus, depth, maxNodes);
  }

  lemma ReturnedIs(st: Search, items: set<Ref>, maxNodes: nat, r: Response)
    requires Sized(st.hops, st.queue, maxNodes) && forall v :: v in st.hops ==> v in st.queue
    requires r.nodes == Nodes(st, items)
    ensures forall v :: Returned(r, v) <==> v in st.hops
    ensures forall n :: n in r.nodes ==> n.ref in st.hops && n.hop == st.hops[n.ref] && (n.hasItem <==> n.ref in items)
  {
    NodesAre(st, items, maxNodes);
    forall v
      ensures Returned(r, v) <==> v in st.hops
    {
      if v in st.hops {
        assert Node(v, st.hops[v], v in items) in r.nodes;
      }
    }
  }

  /** Every returned hop is the true shortest undirected distance from the focus, and no omitted node
      is nearer than a returned one. */
  lemma HopsAreExact(edges: seq<Edge>, items: set<Ref>, focus: Ref, depth: nat, maxNodes: nat, maxEdges: nat)
    requires maxNodes >= 1 && Distinct(edges)
    ensures
      var r := Neighborhood(edges, items, focus, depth, maxNodes, maxEdges);
      && (forall n :: n in r.nodes ==> Reach(Elements(edges), focus, n.hop, n.ref) && (n.hasItem <==> n.ref in items))
      && forall n, k: nat, v :: n in r.nodes && Reach(Elements(edges), focus, k, v) && (v == n.ref || !Returned(r, v)) ==> n.hop <= k
  {
    var st := SearchUnder(edges, focus, depth, maxNodes);
    var r := Neighborhood(edges, items, focus, depth, maxNodes, maxEdges);
    ReturnedIs(st, items, maxNodes, r);
    forall n | n in r.nodes
      ensures Reach(Elements(edges), focus, n.hop, n.ref)
    {
      assert Reach(Elements(edges), focus, st.hops[n.ref], n.ref);
    }
    forall n, k: nat, v | n in r.nodes && Reach(Elements(edges), focus, k, v) && (v == n.ref || !Returned(r, v))
      ensures n.hop <= k
    {
      FoundOrCut(Elements(edges), focus, st, depth, maxNodes, k, v);
    }
  }

  /** The reached depth is the greatest hop returned, and the nodes come by hop, then by reference, each
      once. */
  lemma NodesAreOrdered(edges: seq<Edge>, items: set<Ref>, focus: Ref, depth: nat, maxNodes: nat, maxEdges: nat)
    requires maxNodes >= 1 && Distinct(edges)
    ensures
      var r := Neighborhood(edges, items, focus, depth, maxNodes, maxEdges);
      && (forall n :: n in r.nodes ==> n.hop <= r.reachedDepth)
      && (exists n :: n in r.nodes && n.hop == r.reachedDepth)
      && (forall i, j :: 0 <= i < j < |r.nodes| ==>
            r.nodes[i].hop < r.nodes[j].hop || (r.nodes[i].hop == r.nodes[j].hop && r.nodes[i].ref < r.nodes[j].ref))
      && |r.nodes| <= maxNodes && r.nodes != [] && r.nodes[0].ref == focus
  {
    hide Bfs, Ranked;
    var st := SearchUnder(edges, focus, depth, maxNodes);
    var r := Neighborhood(edges, items, focus, depth, maxNodes, maxEdges);
    OnlyFocusIsZero(Elements(edges), focus, st, depth, maxNodes);
    QueueIsDistinct(st.queue, st.hops.Keys);
    NodesAscend(st, items, focus, maxNodes);
    MaxHopIs(r.nodes);
  }

  lemma OnlyFocusIsZero(edges: set<Edge>, focus: Ref, st: Search, depth: nat, maxNodes: nat)
    requires Explored(edges, focus, st, depth, maxNodes)
    ensures focus in st.hops && st.hops[focus] == 0 && forall r :: r in st.hops && st.hops[r] == 0 ==> r == focus
  {
    forall r | r in st.hops && st.hops[r] == 0
      ensures r == focus
    {
      assert Reach(edges, focus, st.hops[r], r);
    }
  }

  /** A queue as long as the number of its elements repeats none. */
  lemma {:induction false} QueueIsDistinct(queue: seq<Ref>, refs: set<Ref>)
    requires |queue| <= |refs| && forall r :: r in refs ==> r in queue
    ensures Distinct(queue)
  {
    if queue != [] {
      var front, last := queue[..|queue| - 1], queue[|queue| - 1];
      assert queue == front + [last];
      if last !in refs || last in front {
        TooFew(front, refs);
      }
      assert refs == (refs - {last}) + {last};
      QueueIsDistinct(front, refs - {last});
      forall i | 0 <= i < |front|
        ensures front[i] != last
      {
        assert front[i] in front;
      }
    }
  }

  lemma {:induction false} TooFew(queue: seq<Ref>, refs: set<Ref>)
    requires forall r :: r in refs ==> r in queue
    ensures |refs| <= |queue|
  {
    if queue == [] {
      assert refs == {};
    } else {
      var front, last := queue[..|queue| - 1], queue[|queue| - 1];
      assert queue == front + [last];
      TooFew(front, refs - {last});
      assert refs - {last} == refs || refs == (refs - {last}) + {last};
    }
  }

  lemma NodesAscend(st: Search, items: set<Ref>, focus: Ref, maxNodes: nat)
    requires Sized(st.hops, st.queue, maxNodes) && Distinct(st.queue) && focus in st.hops && st.hops[focus] == 0
    requires (forall r :: r in st.hops ==> r in st.queue) && forall r :: r in st.hops && st.hops[r] == 0 ==> r == focus
    ensures var nodes := Nodes(st, items);
            && (forall i, j :: 0 <= i < j < |nodes| ==>
                  nodes[i].hop < nodes[j].hop || (nodes[i].hop == nodes[j].hop && nodes[i].ref < nodes[j].ref))
            && 0 < |nodes| <= maxNodes && nodes[0].ref == focus
  {
    NodeKeyInjective(st.hops);
    SortSorts(st.queue, NodeKey(st.hops));
    var refs, nodes := Sort(st.queue, NodeKey(st.hops)), Nodes(st, items);
    assert refs[0] in refs;
    FocusComesFirst(st.hops, refs, focus);
  }

  lemma FocusComesFirst(hops: map<Ref, nat>, refs: seq<Ref>, focus: Ref)
    requires Ascending(refs, NodeKey(hops)) && focus in refs && refs[0] in hops
    requires focus in hops && hops[focus] == 0 && forall r :: r in hops && hops[r] == 0 ==> r == focus
    ensures refs[0] == focus
  {
    var i :| 0 <= i < |refs| && refs[i] == focus;
    assert i > 0 ==> Less(NodeKey(hops)(refs[0]), NodeKey(hops)(refs[i]));
  }

  lemma {:induction false} MaxHopIs(nodes: seq<Node>)
    ensures forall n :: n in nodes ==> n.hop <= MaxHop(nodes)
    ensures nodes != [] ==> exists n :: n in nodes && n.hop == MaxHop(nodes)
  {
    if nodes != [] {
      MaxHopIs(nodes[1..]);
      assert nodes[0] in nodes;
      assert forall n :: n in nodes[1..] ==> n in nodes;
    }
  }

  /** Neither node cap is reported exactly when the returned nodes are the focus's whole component,
      and the edge cap is not reported exactly when every edge among returned nodes is returned. */
  lemma LimitsAreExact(edges: seq<Edge>, items: set<Ref>, focus: Ref, depth: nat, maxNodes: nat, maxEdges: nat)
    requires maxNodes >= 1 && Distinct(edges)
    ensures
      var r := Neighborhood(edges, items, focus, depth, maxNodes, maxEdges);
      && (!r.cutDepth && !r.cutNodes <==> forall v :: Reachable(Elements(edges), focus, v) ==> Returned(r, v))
      && (!r.cutEdges <==> forall e :: e in edges && Returned(r, e.from) && Returned(r, e.to) ==> e in r.edges)
  {
    hide Neighborhood, Returned;
    NodeLimitsAreExact(edges, items, focus, depth, maxNodes, maxEdges);
    EdgeLimitIsExact(edges, items, focus, depth, maxNodes, maxEdges);
  }

  lemma NodeLimitsAreExact(edges: seq<Edge>, items: set<Ref>, focus: Ref, depth: nat, maxNodes: nat, maxEdges: nat)
    requires maxNodes >= 1 && Distinct(edges)
    ensures
      var r := Neighborhood(edges, items, focus, depth, maxNodes, maxEdges);
      !r.cutDepth && !r.cutNodes <==> forall v :: Reachable(Elements(edges), focus, v) ==> Returned(r, v)
  {
    hide Returned, Bfs, Ranked, Nodes, Elements;
    var st := SearchUnder(edges, focus, depth, maxNodes);
    ReturnedUnder(edges, items, focus, depth, maxNodes, maxEdges, st);
    HopsAreDistances(Sort(edges, EdgeKey), focus, depth, maxNodes);
  }

  lemma EdgeLimitIsExact(edges: seq<Edge>, items: set<Ref>, focus: Ref, depth: nat, maxNodes: nat, maxEdges: nat)
    requires maxNodes >= 1 && Distinct(edges)
    ensures
      var r := Neighborhood(edges, items, focus, depth, maxNodes, maxEdges);
      !r.cutEdges <==> forall e :: e in edges && Returned(r, e.from) && Returned(r, e.to) ==> e in r.edges
  {
    hide Returned, Bfs, Ranked, Nodes, Distinct;
    var st := SearchUnder(edges, focus, depth, maxNodes);
    var sorted := Sort(edges, EdgeKey);
    ReturnedUnder(edges, items, focus, depth, maxNodes, maxEdges, st);
    CutEdgesExact(sorted, st, maxEdges);
    assert forall e :: e in edges <==> e in Elements(edges);
    assert forall e :: e in sorted <==> e in Elements(sorted);
  }

  lemma ReturnedUnder(edges: seq<Edge>, items: set<Ref>, focus: Ref, depth: nat, maxNodes: nat, maxEdges: nat, st: Search)
    requires maxNodes >= 1 && st == Bfs(Sort(edges, EdgeKey), focus, depth, maxNodes)
    requires Explored(Elements(edges), focus, st, depth, maxNodes)
    ensures forall v :: Returned(Neighborhood(edges, items, focus, depth, maxNodes, maxEdges), v) <==> v in st.hops
  {
    ReturnedIs(st, items, maxNodes, Neighborhood(edges, items, focus, depth, maxNodes, maxEdges));
  }

  ghost predicate Returned(r: Response, v: Ref) {
    exists n :: n in r.nodes && n.ref == v
  }

  lemma CutEdgesExact(edges: seq<Edge>, st: Search, cap: nat)
    requires Distinct(edges)
    ensures |Ranked(edges, st)| <= cap <==>
            forall e :: e in edges && e.from in st.hops && e.to in st.hops ==> e in Capped(Ranked(edges, st), cap)
  {
    var ranked := Ranked(edges, st);
    RankedAre(edges, st);
    RankedDistinct(edges, st);
    if |ranked| > cap {
      assert ranked[cap] in ranked;
      assert ranked[cap] !in ranked[..cap];
    }
  }

  lemma RankedDistinct(edges: seq<Edge>, st: Search)
    requires Distinct(edges)
    ensures Distinct(Ranked(edges, st))
  {
    var key := DistanceKey(st.hops);
    var inside, outside := Pick(edges, st.hops, st.tree.Values, true), Pick(edges, st.hops, st.tree.Values, false);
    Picks(edges, st.hops, st.tree.Values, true);
    Picks(edges, st.hops, st.tree.Values, false);
    DistanceKeyInjective(st.hops);
    SortSorts(inside, key);
    SortSorts(outside, key);
    AscendingIsDistinct(Sort(inside, key), key);
    AscendingIsDistinct(Sort(outside, key), key);
    forall i, j | 0 <= i < j < |Ranked(edges, st)|
      ensures Ranked(edges, st)[i] != Ranked(edges, st)[j]
    {
      if i < |Sort(inside, key)| <= j {
        assert Sort(inside, key)[i] in Sort(inside, key);
        assert Sort(outside, key)[j - |Sort(inside, key)|] in Sort(outside, key);
      }
    }
  }
}
