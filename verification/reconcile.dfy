/** Edge reconciliation: the reports of one run become one edge per (type, from, to). */
module Reconcile {
  import opened Options

  type Ref = string

  datatype State = Open | Closed | Merged

  datatype Kind = Closes | Relates | Mentions | Blocks | BlockedBy | Parent | Child

  datatype Key = Key(kind: Kind, from: Ref, to: Ref)

  /** An edge as one item reported it, with the endpoint states the provider sent along. */
  datatype Edge = Edge(key: Key, fromState: Option<State>, toState: Option<State>)

  datatype Lifecycle = Fulfilled | Broken | Declared

  /** Which endpoints were heard from. */
  datatype Provenance = Neither | From | To | Both

  datatype Report = Report(edge: Edge, side: Provenance)

  datatype Link = Link(edge: Edge, lifecycle: Option<Lifecycle>, provenance: Provenance)

  function DeriveLifecycle(kind: Kind, from: Option<State>, to: Option<State>): Option<Lifecycle> {
    if kind != Closes then None
    else if from == Some(Merged) && to == Some(Closed) then Some(Fulfilled)
    else if from == Some(Closed) then Some(Broken)
    else Some(Declared)
  }

  /** `side` is never `Both`: one item is the edge's from end, its to end, or a third item. */
  function ReporterSide(key: Key, reporter: Ref): (side: Provenance)
    ensures side != Both
  {
    if key.from == reporter then From else if key.to == reporter then To else Neither
  }

  // ----- the specification

  ghost predicate Heard(reports: seq<Report>, key: Key, side: Provenance) {
    exists r :: r in reports && r.edge.key == key && r.side == side
  }

  ghost predicate Reported(reports: seq<Report>, key: Key) {
    exists r :: r in reports && r.edge.key == key
  }

  /** The join of the reporting sides. */
  ghost function Join(reports: seq<Report>, key: Key): Provenance {
    if Heard(reports, key, From) && Heard(reports, key, To) then Both
    else if Heard(reports, key, From) then From
    else if Heard(reports, key, To) then To
    else Neither
  }

  function StateOf(edge: Edge, from: bool): Option<State> { if from then edge.fromState else edge.toState }

  /** The first state any report of the edge carries for that endpoint. */
  function FirstState(reports: seq<Report>, key: Key, from: bool): Option<State> {
    if reports == [] then None
    else
      var earlier := FirstState(reports[..|reports| - 1], key, from);
      var last := reports[|reports| - 1].edge;
      if earlier.Some? || last.key != key then earlier else StateOf(last, from)
  }

  /** What one edge should become, read off all its reports at once. */
  ghost predicate IsMerge(reports: seq<Report>, m: Link) {
    var key := m.edge.key;
    && Reported(reports, key)
    && m.edge.fromState == FirstState(reports, key, true) && m.edge.toState == FirstState(reports, key, false)
    && m.lifecycle == DeriveLifecycle(key.kind, m.edge.fromState, m.edge.toState)
    && m.provenance == Join(reports, key)
  }

  ghost predicate OnePerKey(merged: seq<Link>) {
    forall i, j :: 0 <= i < j < |merged| ==> merged[i].edge.key != merged[j].edge.key
  }

  ghost predicate Covers(reports: seq<Report>, merged: seq<Link>) {
    forall r :: r in reports ==> exists i :: 0 <= i < |merged| && merged[i].edge.key == r.edge.key
  }

  ghost predicate AllMerges(reports: seq<Report>, merged: seq<Link>) {
    forall i :: 0 <= i < |merged| ==> IsMerge(reports, merged[i])
  }

  /** `merged` is the reconciliation of `reports`: one edge per reported key, each the merge of its reports. */
  ghost predicate Reconciled(reports: seq<Report>, merged: seq<Link>) {
    OnePerKey(merged) && Covers(reports, merged) && AllMerges(reports, merged)
  }

  ghost predicate OneSided(reports: seq<Report>) {
    forall r :: r in reports ==> r.side != Both
  }

  // ----- the loop

  /** How a further report of an edge already there changes it. */
  function Absorb(m: Link, r: Report): Link {
    var from := if m.edge.fromState.Some? then m.edge.fromState else r.edge.fromState;
    var to := if m.edge.toState.Some? then m.edge.toState else r.edge.toState;
    var provenance :=
      if m.provenance == Neither then r.side
      else if r.side != Neither && m.provenance != r.side then Both
      else m.provenance;
    Link(Edge(m.edge.key, from, to), DeriveLifecycle(m.edge.key.kind, from, to), provenance)
  }

  function Start(r: Report): Link {
    Link(r.edge, DeriveLifecycle(r.edge.key.kind, r.edge.fromState, r.edge.toState), r.side)
  }

  method IndexOf(merged: seq<Link>, key: Key) returns (at: Option<nat>)
    ensures at.Some? ==> at.value < |merged| && merged[at.value].edge.key == key
    ensures at.None? ==> forall i :: 0 <= i < |merged| ==> merged[i].edge.key != key
  {
    at := None;
    for i := 0 to |merged|
      invariant at.Some? ==> at.value < |merged| && merged[at.value].edge.key == key
      invariant at.None? ==> forall j :: 0 <= j < i ==> merged[j].edge.key != key
    {
      if merged[i].edge.key == key {
        at := Some(i);
      }
    }
  }

  /** One edge per key, each the merge of all its reports. */
  method ReconcileEdges(reports: seq<Report>) returns (merged: seq<Link>)
    requires OneSided(reports)
    ensures Reconciled(reports, merged)
  {
    hide Reconciled, DeriveLifecycle;
    merged := [];
    NothingReconciled();
    assert reports[..0] == [];
    var i := 0;
    while i < |reports|
      invariant 0 <= i <= |reports|
      invariant Reconciled(reports[..i], merged)
    {
      assert reports[..i + 1] == reports[..i] + [reports[i]];
      assert OneSided(reports[..i]);
      var at := IndexOf(merged, reports[i].edge.key);
      MergeGrows(reports[..i], reports[i], merged, at);
      if at.None? {
        merged := merged + [Start(reports[i])];
      } else {
        merged := merged[at.value := Absorb(merged[at.value], reports[i])];
      }
      i := i + 1;
    }
    assert reports[..i] == reports;
  }

  lemma NothingReconciled()
    ensures Reconciled([], [])
  {
  }

  lemma HeardGrows(reports: seq<Report>, r: Report, key: Key, side: Provenance)
    ensures Heard(reports + [r], key, side) <==> Heard(reports, key, side) || (r.edge.key == key && r.side == side)
    ensures Reported(reports + [r], key) <==> Reported(reports, key) || r.edge.key == key
  {
    assert r in reports + [r];
    assert forall x :: x in reports ==> x in reports + [r];
  }

  lemma FirstStateGrows(reports: seq<Report>, r: Report, key: Key, from: bool)
    ensures FirstState(reports + [r], key, from) ==
            if FirstState(reports, key, from).Some? || r.edge.key != key then FirstState(reports, key, from)
            else StateOf(r.edge, from)
  {
    assert (reports + [r])[..|reports|] == reports;
  }

  lemma {:induction false} UnheardHasNoState(reports: seq<Report>, key: Key, from: bool)
    requires !Reported(reports, key)
    ensures FirstState(reports, key, from) == None
  {
    if reports != [] {
      var front := reports[..|reports| - 1];
      assert reports == front + [reports[|reports| - 1]];
      assert forall x :: x in front ==> x in reports;
      UnheardHasNoState(front, key, from);
    }
  }

  lemma StartIsMerge(reports: seq<Report>, r: Report)
    requires !Reported(reports, r.edge.key) && OneSided(reports) && r.side != Both
    ensures IsMerge(reports + [r], Start(r))
  {
    var key := r.edge.key;
    UnheardHasNoState(reports, key, true);
    UnheardHasNoState(reports, key, false);
    FirstStateGrows(reports, r, key, true);
    FirstStateGrows(reports, r, key, false);
    HeardGrows(reports, r, key, From);
    HeardGrows(reports, r, key, To);
  }

  lemma AbsorbIsMerge(reports: seq<Report>, r: Report, m: Link)
    requires IsMerge(reports, m) && r.side != Both
    ensures IsMerge(reports + [r], if m.edge.key == r.edge.key then Absorb(m, r) else m)
  {
    hide Heard, Reported, FirstState;
    var key := m.edge.key;
    FirstStateGrows(reports, r, key, true);
    FirstStateGrows(reports, r, key, false);
    HeardGrows(reports, r, key, From);
    HeardGrows(reports, r, key, To);
  }

  lemma UnreportedKey(reports: seq<Report>, merged: seq<Link>, key: Key)
    requires Covers(reports, merged) && forall i :: 0 <= i < |merged| ==> merged[i].edge.key != key
    ensures !Reported(reports, key)
  {
  }

  lemma MergeGrows(reports: seq<Report>, r: Report, merged: seq<Link>, at: Option<nat>)
    requires OneSided(reports) && r.side != Both
    requires Reconciled(reports, merged)
    requires at.Some? ==> at.value < |merged| && merged[at.value].edge.key == r.edge.key
    requires at.None? ==> forall i :: 0 <= i < |merged| ==> merged[i].edge.key != r.edge.key
    ensures var next := if at.None? then merged + [Start(r)] else merged[at.value := Absorb(merged[at.value], r)];
            Reconciled(reports + [r], next)
  {
    hide IsMerge, DeriveLifecycle, FirstState;
    var next := if at.None? then merged + [Start(r)] else merged[at.value := Absorb(merged[at.value], r)];
    if at.None? {
      UnreportedKey(reports, merged, r.edge.key);
      StartIsMerge(reports, r);
      assert next[|merged|].edge.key == r.edge.key;
    }
    forall i | 0 <= i < |merged|
      ensures IsMerge(reports + [r], next[i])
    {
      AbsorbIsMerge(reports, r, merged[i]);
    }
    forall x | x in reports + [r]
      ensures exists i :: 0 <= i < |next| && next[i].edge.key == x.edge.key
    {
      if x in reports {
        var i :| 0 <= i < |merged| && merged[i].edge.key == x.edge.key;
        assert next[i].edge.key == x.edge.key;
      } else if at.Some? {
        assert next[at.value].edge.key == x.edge.key;
      }
    }
  }

  // ----- one run: bundles to edges

  datatype Item = Item(ref: Ref, state: State)

  /** One normalized record: an item with the edges it reports, or an activity-only bundle. */
  datatype Bundle = Bundle(item: Option<Item>, edges: seq<Edge>)

  function SideReports(item: Ref, edges: seq<Edge>): seq<Report> {
    if edges == [] then [] else [Report(edges[0], ReporterSide(edges[0].key, item))] + SideReports(item, edges[1..])
  }

  function BundleReports(b: Bundle): seq<Report> {
    if b.item.None? then [] else SideReports(b.item.value.ref, b.edges)
  }

  function Discovered(bundles: seq<Bundle>): seq<Report> {
    if bundles == [] then [] else BundleReports(bundles[0]) + Discovered(bundles[1..])
  }

  function StateByRef(bundles: seq<Bundle>): map<Ref, State> {
    if bundles == [] then map[]
    else
      var before := StateByRef(bundles[..|bundles| - 1]);
      var item := bundles[|bundles| - 1].item;
      if item.None? then before else before[item.value.ref := item.value.state]
  }

  /** The final pass: states of items seen this run replace reported ones, lifecycles are re-derived. */
  function Refine(m: Link, states: map<Ref, State>): Link {
    var key := m.edge.key;
    var from := if key.from in states then Some(states[key.from]) else m.edge.fromState;
    var to := if key.to in states then Some(states[key.to]) else m.edge.toState;
    m.(edge := Edge(key, from, to), lifecycle := DeriveLifecycle(key.kind, from, to))
  }

  /** An edge the run writes, read off the bundles. */
  ghost predicate RunEdge(bundles: seq<Bundle>, out: Link) {
    exists m :: IsMerge(Discovered(bundles), m) && out == Refine(m, StateByRef(bundles))
  }

  method ReportsOf(item: Ref, edges: seq<Edge>) returns (reports: seq<Report>)
    ensures reports == SideReports(item, edges)
  {
    reports := [];
    for i := 0 to |edges|
      invariant reports + SideReports(item, edges[i..]) == SideReports(item, edges)
    {
      assert edges[i..][1..] == edges[i + 1..];
      reports := reports + [Report(edges[i], ReporterSide(edges[i].key, item))];
    }
  }

  /** The loops over the bundles: the states seen this run, and every report with its side. */
  method Collect(bundles: seq<Bundle>) returns (states: map<Ref, State>, reports: seq<Report>)
    ensures states == StateByRef(bundles) && reports == Discovered(bundles)
  {
    hide SideReports, Discovered, StateByRef;
    states, reports := map[], [];
    NothingCollected(bundles);
    for i := 0 to |bundles|
      invariant states == StateByRef(bundles[..i])
      invariant reports + Discovered(bundles[i..]) == Discovered(bundles)
    {
      var b := bundles[i];
      CollectedNext(bundles, i);
      if b.item.Some? {
        states := states[b.item.value.ref := b.item.value.state];
        var more := ReportsOf(b.item.value.ref, b.edges);
        assert reports + (more + Discovered(bundles[i + 1..])) == (reports + more) + Discovered(bundles[i + 1..]);
        reports := reports + more;
      }
    }
    NothingLeft(bundles);
  }

  lemma NothingCollected(bundles: seq<Bundle>)
    ensures StateByRef(bundles[..0]) == map[] && [] + Discovered(bundles[0..]) == Discovered(bundles)
  {
    assert bundles[0..] == bundles;
  }

  lemma NothingLeft(bundles: seq<Bundle>)
    ensures bundles[..|bundles|] == bundles && Discovered(bundles[|bundles|..]) == []
  {
  }

  /** What one more bundle adds to the states and takes from the reports still to come. */
  lemma CollectedNext(bundles: seq<Bundle>, i: nat)
    requires i < |bundles|
    ensures StateByRef(bundles[..i + 1]) ==
            if bundles[i].item.None? then StateByRef(bundles[..i])
            else StateByRef(bundles[..i])[bundles[i].item.value.ref := bundles[i].item.value.state]
    ensures Discovered(bundles[i..]) == BundleReports(bundles[i]) + Discovered(bundles[i + 1..])
  {
    assert bundles[..i + 1][..i] == bundles[..i] && bundles[i..][1..] == bundles[i + 1..];
  }

  method RunEdges(bundles: seq<Bundle>) returns (edges: seq<Link>)
    ensures OnePerKey(edges) && Covers(Discovered(bundles), edges)
    ensures forall i :: 0 <= i < |edges| ==> RunEdge(bundles, edges[i]) && EdgeSays(bundles, edges[i])
    ensures forall key, item :: ToldBy(bundles, key, item) ==> exists i :: 0 <= i < |edges| && edges[i].edge.key == key
  {
    hide Reconciled, DeriveLifecycle, Discovered, Refine, EdgeSays, RunEdge, ToldBy;
    var states, reports := Collect(bundles);
    DiscoveredIsOneSided(bundles);
    var merged := ReconcileEdges(reports);
    edges := [];
    for i := 0 to |merged|
      invariant |edges| == i
      invariant forall j :: 0 <= j < i ==> edges[j] == Refine(merged[j], states)
    {
      edges := edges + [Refine(merged[i], states)];
    }
    RefinedRun(bundles, merged, edges);
    RunSays(bundles, edges);
  }

  lemma RunSays(bundles: seq<Bundle>, edges: seq<Link>)
    requires Covers(Discovered(bundles), edges) && forall i :: 0 <= i < |edges| ==> RunEdge(bundles, edges[i])
    ensures forall i :: 0 <= i < |edges| ==> EdgeSays(bundles, edges[i])
    ensures forall key, item :: ToldBy(bundles, key, item) ==> exists i :: 0 <= i < |edges| && edges[i].edge.key == key
  {
    hide EdgeSays, RunEdge, Discovered;
    forall i | 0 <= i < |edges|
      ensures EdgeSays(bundles, edges[i])
    {
      RunEdgeSays(bundles, edges[i]);
    }
    forall key, item | ToldBy(bundles, key, item)
      ensures exists i :: 0 <= i < |edges| && edges[i].edge.key == key
    {
      var e: Edge :| e.key == key && Tells(bundles, item, e);
      DiscoveredAre(bundles, Report(e, ReporterSide(key, item)));
      assert Report(e, ReporterSide(key, item)) in Discovered(bundles);
    }
  }

  lemma RefinedRun(bundles: seq<Bundle>, merged: seq<Link>, edges: seq<Link>)
    requires Reconciled(Discovered(bundles), merged) && |edges| == |merged|
    requires forall i :: 0 <= i < |edges| ==> edges[i] == Refine(merged[i], StateByRef(bundles))
    ensures OnePerKey(edges) && Covers(Discovered(bundles), edges)
    ensures forall i :: 0 <= i < |edges| ==> RunEdge(bundles, edges[i])
  {
    hide IsMerge, DeriveLifecycle, Discovered, StateByRef;
    assert forall i :: 0 <= i < |edges| ==> edges[i].edge.key == merged[i].edge.key;
    forall i | 0 <= i < |edges|
      ensures RunEdge(bundles, edges[i])
    {
      assert IsMerge(Discovered(bundles), merged[i]);
    }
  }

  lemma {:induction false} SideReportsAreOneSided(item: Ref, edges: seq<Edge>)
    ensures OneSided(SideReports(item, edges))
  {
    if edges != [] {
      SideReportsAreOneSided(item, edges[1..]);
    }
  }

  lemma {:induction false} DiscoveredIsOneSided(bundles: seq<Bundle>)
    ensures OneSided(Discovered(bundles))
  {
    if bundles != [] {
      DiscoveredIsOneSided(bundles[1..]);
      if bundles[0].item.Some? {
        SideReportsAreOneSided(bundles[0].item.value.ref, bundles[0].edges);
      }
    }
  }

  // ----- what an edge of a run says

  /** The bundle of this item reports the edge. */
  ghost predicate Tells(bundles: seq<Bundle>, item: Ref, e: Edge) {
    exists b :: b in bundles && TellsIn(b, item, e)
  }

  ghost predicate TellsIn(b: Bundle, item: Ref, e: Edge) { b.item.Some? && b.item.value.ref == item && e in b.edges }

  ghost predicate ToldBy(bundles: seq<Bundle>, key: Key, item: Ref) { exists e: Edge :: e.key == key && Tells(bundles, item, e) }

  /** The run's last word on an item it saw, else the state some report of the edge carried, if any did. */
  ghost predicate EndState(bundles: seq<Bundle>, key: Key, from: bool, state: Option<State>) {
    var ref := if from then key.from else key.to;
    if Seen(bundles, ref) then LastWord(bundles, ref, state) else CarriedState(bundles, key, from, state)
  }

  ghost predicate Seen(bundles: seq<Bundle>, ref: Ref) { exists i: nat :: SeenAt(bundles, i, ref) }

  ghost predicate LastWord(bundles: seq<Bundle>, ref: Ref, state: Option<State>) {
    exists i: nat :: LastSeenAt(bundles, i, ref) && state == Some(bundles[i].item.value.state)
  }

  ghost predicate CarriedState(bundles: seq<Bundle>, key: Key, from: bool, state: Option<State>) {
    if state.Some? then exists item, e: Edge :: e.key == key && Tells(bundles, item, e) && StateOf(e, from) == state
    else forall item, e: Edge :: e.key == key && Tells(bundles, item, e) ==> StateOf(e, from).None?
  }

  ghost predicate SeenAt(bundles: seq<Bundle>, i: nat, ref: Ref) {
    i < |bundles| && bundles[i].item.Some? && bundles[i].item.value.ref == ref
  }

  ghost predicate LastSeenAt(bundles: seq<Bundle>, i: nat, ref: Ref) {
    SeenAt(bundles, i, ref) && forall j: nat :: i < j ==> !SeenAt(bundles, j, ref)
  }

  /** A closing link is fulfilled when its change request is merged and its issue closed, broken when the
      change request was closed unmerged, else declared; no other link has a lifecycle. */
  ghost predicate LifecycleSays(m: Link) {
    && (m.lifecycle == Some(Fulfilled) <==> m.edge.key.kind == Closes && m.edge.fromState == Some(Merged) && m.edge.toState == Some(Closed))
    && (m.lifecycle == Some(Broken) <==> m.edge.key.kind == Closes && m.edge.fromState == Some(Closed))
    && (m.lifecycle == None <==> m.edge.key.kind != Closes)
  }

  /** Provenance names the ends whose own items reported the edge; an edge to itself counts as its start. */
  ghost predicate ProvenanceSays(bundles: seq<Bundle>, m: Link) {
    var key := m.edge.key;
    && (ToldBy(bundles, key, key.from) <==> m.provenance in {From, Both})
    && (key.from != key.to ==> (ToldBy(bundles, key, key.to) <==> m.provenance in {To, Both}))
    && (key.from == key.to ==> m.provenance in {From, Neither})
  }

  ghost predicate EdgeSays(bundles: seq<Bundle>, m: Link) {
    && (exists item :: ToldBy(bundles, m.edge.key, item))
    && EndState(bundles, m.edge.key, true, m.edge.fromState) && EndState(bundles, m.edge.key, false, m.edge.toState)
    && LifecycleSays(m) && ProvenanceSays(bundles, m)
  }

  lemma {:induction false} SideReportsAre(item: Ref, edges: seq<Edge>, r: Report)
    ensures r in SideReports(item, edges) <==> r.edge in edges && r.side == ReporterSide(r.edge.key, item)
  {
    if edges != [] {
      SideReportsAre(item, edges[1..], r);
    }
  }

  /** The reports of a run are what its bundles tell, with the side the teller is on. */
  lemma DiscoveredAre(bundles: seq<Bundle>, r: Report)
    ensures r in Discovered(bundles) <==> exists item :: Tells(bundles, item, r.edge) && r.side == ReporterSide(r.edge.key, item)
  {
    DiscoveredMembers(bundles, r);
    forall b | b in bundles && b.item.Some?
      ensures r in BundleReports(b) <==> TellsIn(b, b.item.value.ref, r.edge) && r.side == ReporterSide(r.edge.key, b.item.value.ref)
    {
      SideReportsAre(b.item.value.ref, b.edges, r);
    }
    if r in Discovered(bundles) {
      var b :| b in bundles && r in BundleReports(b);
      assert TellsIn(b, b.item.value.ref, r.edge);
      assert Tells(bundles, b.item.value.ref, r.edge);
    }
  }

  lemma HeardMeansTold(bundles: seq<Bundle>, key: Key, side: Provenance)
    requires side == From || side == To
    ensures Heard(Discovered(bundles), key, side) <==>
            if side == From then ToldBy(bundles, key, key.from) else key.from != key.to && ToldBy(bundles, key, key.to)
  {
    var reports := Discovered(bundles);
    if r :| r in reports && r.edge.key == key && r.side == side {
      DiscoveredAre(bundles, r);
      var item :| Tells(bundles, item, r.edge) && side == ReporterSide(key, item);
      assert ToldBy(bundles, key, item);
    }
    if e: Edge :| e.key == key && Tells(bundles, key.from, e) && side == From {
      DiscoveredAre(bundles, Report(e, From));
      assert Report(e, From) in reports;
    }
    if e: Edge :| e.key == key && Tells(bundles, key.to, e) && side == To && key.from != key.to {
      DiscoveredAre(bundles, Report(e, To));
      assert Report(e, To) in reports;
    }
  }

  lemma {:induction false} StateIsLastSeen(bundles: seq<Bundle>, ref: Ref)
    ensures ref in StateByRef(bundles) <==> Seen(bundles, ref)
    ensures ref in StateByRef(bundles) ==> LastWord(bundles, ref, Some(StateByRef(bundles)[ref]))
  {
    if bundles != [] {
      var front, last := bundles[..|bundles| - 1], bundles[|bundles| - 1];
      StateIsLastSeen(front, ref);
      if SeenAt(bundles, |front|, ref) {
        assert LastSeenAt(bundles, |front|, ref);
      } else {
        assert forall i: nat :: SeenAt(bundles, i, ref) <==> SeenAt(front, i, ref);
        assert forall i: nat :: LastSeenAt(front, i, ref) ==> LastSeenAt(bundles, i, ref);
      }
    }
  }

  lemma ToldReports(bundles: seq<Bundle>, key: Key, from: bool)
    ensures forall r :: Carries(Discovered(bundles), key, from, r) ==> exists item :: Tells(bundles, item, r.edge)
    ensures forall item, e: Edge :: e.key == key && Tells(bundles, item, e) && StateOf(e, from).Some? ==>
              exists r :: Carries(Discovered(bundles), key, from, r)
  {
    forall r | Carries(Discovered(bundles), key, from, r)
      ensures exists item :: Tells(bundles, item, r.edge)
    {
      DiscoveredAre(bundles, r);
    }
    forall item, e: Edge | e.key == key && Tells(bundles, item, e) && StateOf(e, from).Some?
      ensures exists r :: Carries(Discovered(bundles), key, from, r)
    {
      DiscoveredAre(bundles, Report(e, ReporterSide(key, item)));
      assert Carries(Discovered(bundles), key, from, Report(e, ReporterSide(key, item)));
    }
  }

  lemma FirstIsCarried(bundles: seq<Bundle>, key: Key, from: bool)
    ensures CarriedState(bundles, key, from, FirstState(Discovered(bundles), key, from))
  {
    hide Discovered, FirstState, Tells;
    FirstStateIsSome(Discovered(bundles), key, from);
    ToldReports(bundles, key, from);
    if FirstState(Discovered(bundles), key, from).Some? {
      var r :| Carries(Discovered(bundles), key, from, r) && StateOf(r.edge, from) == FirstState(Discovered(bundles), key, from);
      var item :| Tells(bundles, item, r.edge);
      assert r.edge.key == key;
    }
  }

  lemma EndStateIs(bundles: seq<Bundle>, key: Key, from: bool, state: Option<State>)
    requires var ref, states := if from then key.from else key.to, StateByRef(bundles);
             state == if ref in states then Some(states[ref]) else FirstState(Discovered(bundles), key, from)
    ensures EndState(bundles, key, from, state)
  {
    hide StateByRef, Discovered, FirstState, Seen, LastWord, CarriedState;
    StateIsLastSeen(bundles, if from then key.from else key.to);
    FirstIsCarried(bundles, key, from);
  }

  lemma RunEdgeSays(bundles: seq<Bundle>, out: Link)
    requires RunEdge(bundles, out)
    ensures EdgeSays(bundles, out)
  {
    hide StateByRef, Discovered, FirstState, Tells, EndState, Heard;
    var m :| IsMerge(Discovered(bundles), m) && out == Refine(m, StateByRef(bundles));
    var key := m.edge.key;
    EndStateIs(bundles, key, true, out.edge.fromState);
    EndStateIs(bundles, key, false, out.edge.toState);
    HeardMeansTold(bundles, key, From);
    HeardMeansTold(bundles, key, To);
    var r :| r in Discovered(bundles) && r.edge.key == key;
    DiscoveredAre(bundles, r);
    var item :| Tells(bundles, item, r.edge);
    assert ToldBy(bundles, key, item);
  }

  // ----- order independence

  /** Two bundles of one item carry one state, as they do when each item is normalized once. */
  ghost predicate Consistent(bundles: seq<Bundle>) {
    forall b, c :: b in bundles && c in bundles && b.item.Some? && c.item.Some? && b.item.value.ref == c.item.value.ref ==>
      b.item.value.state == c.item.value.state
  }

  ghost predicate SameMembers<T(!new)>(s: seq<T>, t: seq<T>) { forall x :: x in s <==> x in t }

  lemma {:induction false} StateByRefIsSeen(bundles: seq<Bundle>, ref: Ref)
    requires Consistent(bundles)
    ensures forall b :: b in bundles && b.item.Some? && b.item.value.ref == ref ==>
              ref in StateByRef(bundles) && StateByRef(bundles)[ref] == b.item.value.state
    ensures ref in StateByRef(bundles) ==> exists b :: b in bundles && b.item.Some? && b.item.value.ref == ref
  {
    if bundles != [] {
      var front, last := bundles[..|bundles| - 1], bundles[|bundles| - 1];
      assert bundles == front + [last];
      assert forall b :: b in front ==> b in bundles;
      assert last in bundles;
      StateByRefIsSeen(front, ref);
    }
  }

  lemma SameStates(one: seq<Bundle>, two: seq<Bundle>)
    requires Consistent(one) && SameMembers(one, two)
    ensures StateByRef(one) == StateByRef(two)
  {
    forall ref
      ensures ref in StateByRef(one) <==> ref in StateByRef(two)
      ensures ref in StateByRef(one) ==> StateByRef(one)[ref] == StateByRef(two)[ref]
    {
      StateByRefIsSeen(one, ref);
      StateByRefIsSeen(two, ref);
    }
  }

  lemma {:induction false} DiscoveredMembers(bundles: seq<Bundle>, r: Report)
    ensures r in Discovered(bundles) <==> exists b :: b in bundles && r in BundleReports(b)
  {
    if bundles != [] {
      DiscoveredMembers(bundles[1..], r);
      assert bundles == [bundles[0]] + bundles[1..];
    }
  }

  lemma SameDiscovered(one: seq<Bundle>, two: seq<Bundle>)
    requires SameMembers(one, two)
    ensures SameMembers(Discovered(one), Discovered(two))
  {
    forall r
      ensures r in Discovered(one) <==> r in Discovered(two)
    {
      DiscoveredMembers(one, r);
      DiscoveredMembers(two, r);
    }
  }

  lemma SameJoin(one: seq<Report>, two: seq<Report>, key: Key)
    requires SameMembers(one, two)
    ensures Reported(one, key) <==> Reported(two, key)
    ensures Join(one, key) == Join(two, key)
  {
    assert forall side :: Heard(one, key, side) ==> Heard(two, key, side);
    assert forall side :: Heard(two, key, side) ==> Heard(one, key, side);
  }

  /** Reordering (or repeating) a run's bundles keeps the reported keys, every provenance, and each
      endpoint state of an item the run itself saw; lifecycles follow from the states. */
  lemma OrderIsIrrelevant(one: seq<Bundle>, two: seq<Bundle>, x: Link, y: Link)
    requires Consistent(one) && SameMembers(one, two)
    requires RunEdge(one, x) && RunEdge(two, y) && x.edge.key == y.edge.key
    ensures x.provenance == y.provenance
    ensures x.edge.key.from in StateByRef(one) ==> x.edge.fromState == y.edge.fromState
    ensures x.edge.key.to in StateByRef(one) ==> x.edge.toState == y.edge.toState
    ensures x.lifecycle == DeriveLifecycle(x.edge.key.kind, x.edge.fromState, x.edge.toState)
    ensures x.edge.key.from in StateByRef(one) && x.edge.key.to in StateByRef(one) ==> x == y
  {
    SameStates(one, two);
    SameDiscovered(one, two);
    SameJoin(Discovered(one), Discovered(two), x.edge.key);
  }

  lemma SameKeys(one: seq<Bundle>, two: seq<Bundle>, key: Key)
    requires SameMembers(one, two)
    ensures Reported(Discovered(one), key) <==> Reported(Discovered(two), key)
  {
    SameDiscovered(one, two);
    SameJoin(Discovered(one), Discovered(two), key);
  }

  // ----- the endpoint the run did not see

  ghost predicate Carries(reports: seq<Report>, key: Key, from: bool, r: Report) {
    r in reports && r.edge.key == key && StateOf(r.edge, from).Some?
  }

  /** No two reports of the edge carry different states for the endpoint. */
  ghost predicate Agreed(reports: seq<Report>, key: Key, from: bool) {
    forall r, s :: Carries(reports, key, from, r) && Carries(reports, key, from, s) ==>
      StateOf(r.edge, from) == StateOf(s.edge, from)
  }

  lemma {:induction false} FirstStateIsSome(reports: seq<Report>, key: Key, from: bool)
    ensures FirstState(reports, key, from).Some? ==>
              exists r :: Carries(reports, key, from, r) && StateOf(r.edge, from) == FirstState(reports, key, from)
    ensures forall r :: Carries(reports, key, from, r) ==> FirstState(reports, key, from).Some?
  {
    if reports != [] {
      var front, last := reports[..|reports| - 1], reports[|reports| - 1];
      assert reports == front + [last];
      FirstStateIsSome(front, key, from);
      assert last in reports;
      assert forall r :: Carries(front, key, from, r) ==> Carries(reports, key, from, r);
      assert Carries(reports, key, from, last) <==> last.edge.key == key && StateOf(last.edge, from).Some?;
      assert forall r :: Carries(reports, key, from, r) ==> r == last || Carries(front, key, from, r);
    }
  }

  lemma {:induction false} HeadGivesState(reports: seq<Report>, key: Key, from: bool)
    requires reports != [] && reports[0].edge.key == key && StateOf(reports[0].edge, from).Some?
    ensures FirstState(reports, key, from) == StateOf(reports[0].edge, from)
  {
    if |reports| > 1 {
      HeadGivesState(reports[..|reports| - 1], key, from);
    } else {
      assert FirstState(reports[..0], key, from) == None;
    }
  }

  function MovedToFront(reports: seq<Report>, i: nat): (moved: seq<Report>)
    requires i < |reports|
    ensures multiset(moved) == multiset(reports)
  {
    assert reports == reports[..i] + [reports[i]] + reports[i + 1..];
    [reports[i]] + reports[..i] + reports[i + 1..]
  }

  ghost predicate StateIsOrderFree(reports: seq<Report>, key: Key, from: bool) {
    forall others: seq<Report> :: multiset(others) == multiset(reports) ==>
      FirstState(others, key, from) == FirstState(reports, key, from)
  }

  /** For an endpoint the run did not see, the state kept is the same in every order exactly when the
      reports that carry one agree. */
  lemma UnseenStateIsOrderFreeExactlyWhen(reports: seq<Report>, key: Key, from: bool)
    ensures StateIsOrderFree(reports, key, from) <==> Agreed(reports, key, from)
  {
    if Agreed(reports, key, from) {
      forall others: seq<Report> | multiset(others) == multiset(reports)
        ensures FirstState(others, key, from) == FirstState(reports, key, from)
      {
        assert forall r :: r in others <==> r in multiset(others);
        assert forall r :: r in reports <==> r in multiset(reports);
        assert forall r :: Carries(others, key, from, r) <==> Carries(reports, key, from, r);
        FirstStateIsSome(others, key, from);
        FirstStateIsSome(reports, key, from);
      }
    } else {
      var r, s :| Carries(reports, key, from, r) && Carries(reports, key, from, s) && StateOf(r.edge, from) != StateOf(s.edge, from);
      var i :| 0 <= i < |reports| && reports[i] == r;
      var j :| 0 <= j < |reports| && reports[j] == s;
      HeadGivesState(MovedToFront(reports, i), key, from);
      HeadGivesState(MovedToFront(reports, j), key, from);
      assert FirstState(MovedToFront(reports, i), key, from) != FirstState(MovedToFront(reports, j), key, from);
    }
  }

  /** Two reporters of an edge whose pull request the run did not fetch, one with a stale state. */
  lemma UnseenStateDependsOnOrder()
    ensures var key := Key(Closes, "s|pr", "s|issue");
            var stale := Report(Edge(key, Some(Open), None), To);
            var news := Report(Edge(key, Some(Merged), None), To);
            FirstState([stale, news], key, true) == Some(Open) && FirstState([news, stale], key, true) == Some(Merged)
  {
    var key := Key(Closes, "s|pr", "s|issue");
    var stale := Report(Edge(key, Some(Open), None), To);
    var news := Report(Edge(key, Some(Merged), None), To);
    HeadGivesState([stale, news], key, true);
    HeadGivesState([news, stale], key, true);
  }
}
