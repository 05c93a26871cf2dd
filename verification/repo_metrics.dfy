/** Per-repository counters over a window and over each of its series buckets: what the buckets add up
    to, counter by counter and for the score. */
module RepoMetrics {
  import opened Options
  import opened Buckets

  /** Timestamps are parsed; an absent or unparseable one is none. */
  datatype Item = Item(changeRequest: bool, kind: string, state: string, review: Option<string>, ci: Option<string>, merge: Option<string>,
                       openThreads: Option<nat>, labelScopes: seq<Option<string>>,
                       created: Option<int>, updated: Option<int>, closed: Option<int>, merged: Option<int>)

  datatype Activity = Activity(kind: string, action: string, occurred: Option<int>)

  datatype Edge = Edge(kind: string, lifecycle: Option<string>, from: string, to: string)

  /** Everything a stats record counts. The keyed ones stand for the `by_…` maps. */
  datatype Counter =
    | ItemsActive | ItemState(key: string) | ItemKind(key: string) | ReviewState(key: string) | CiState(key: string)
    | MergeState(key: string) | UnresolvedThreads | LabelScope(key: string)
    | ItemsOpened | ChangeRequestsOpened | ItemsClosed | ChangeRequestsClosed | ChangeRequestsMerged
    | Activities | ActivityKind(key: string) | ActivityAction(key: string)
    | Commits | Pushes | Comments | Reviews | Approvals
    | EdgeType(key: string) | EdgeLifecycle(key: string) | EdgeDeclared | EdgeFulfilled | EdgeBroken

  type Stats = multiset<Counter>

  predicate IsEdgeCounter(c: Counter) {
    c.EdgeType? || c.EdgeLifecycle? || c.EdgeDeclared? || c.EdgeFulfilled? || c.EdgeBroken?
  }

  predicate Includes(s: string, part: string) {
    exists i :: 0 <= i <= |s| && StartsWith(s[i..], part)
  }

  predicate StartsWith(s: string, part: string) { |part| <= |s| && s[..|part|] == part }

  predicate IsCommit(a: Activity) { a.kind == "commit" || a.action == "committed" }

  predicate IsPush(a: Activity) { a.kind == "push" || a.action == "pushed" || a.action == "force_pushed" }

  predicate IsComment(a: Activity) { a.kind == "comment" || Includes(a.action, "comment") }

  predicate IsReview(a: Activity) { a.kind == "review" || Includes(a.action, "review") }

  predicate IsApproval(a: Activity) { a.action == "approved" || Includes(a.action, "approval") }

  // ----- what each counter means

  /** One fact with a date: it adds its weight to a counter of every range its date is in. */
  datatype Fact = Fact(date: Option<int>, weight: nat)

  function One(b: bool): nat { if b then 1 else 0 }

  function ScopeCount(scopes: seq<Option<string>>, key: string): nat {
    if scopes == [] then 0
    else
      var last := scopes[|scopes| - 1];
      ScopeCount(scopes[..|scopes| - 1], key) + One(Scope(last) == key)
  }

  /** What an item contributes: which of its dates decides, and how much. */
  function ItemFact(item: Item, c: Counter): Fact {
    match c
    case ItemsActive => Fact(item.updated, 1)
    case ItemState(key) => Fact(item.updated, One(item.state == key))
    case ItemKind(key) => Fact(item.updated, One(item.kind == key))
    case ReviewState(key) => Fact(item.updated, One(item.review == Some(key)))
    case CiState(key) => Fact(item.updated, One(item.ci == Some(key)))
    case MergeState(key) => Fact(item.updated, One(item.merge == Some(key)))
    case UnresolvedThreads => Fact(item.updated, if item.openThreads.Some? then item.openThreads.value else 0)
    case LabelScope(key) => Fact(item.updated, ScopeCount(item.labelScopes, key))
    case ItemsOpened => Fact(item.created, 1)
    case ChangeRequestsOpened => Fact(item.created, One(item.changeRequest))
    case ItemsClosed => Fact(item.closed, 1)
    case ChangeRequestsClosed => Fact(item.closed, One(item.changeRequest && item.state == "closed"))
    case ChangeRequestsMerged => Fact(item.merged, One(item.changeRequest))
    case _ => Fact(None, 0)
  }

  function ActivityFact(a: Activity, c: Counter): Fact {
    match c
    case Activities => Fact(a.occurred, 1)
    case ActivityKind(key) => Fact(a.occurred, One(a.kind == key))
    case ActivityAction(key) => Fact(a.occurred, One(a.action == key))
    case Commits => Fact(a.occurred, One(IsCommit(a)))
    case Pushes => Fact(a.occurred, One(IsPush(a)))
    case Comments => Fact(a.occurred, One(IsComment(a)))
    case Reviews => Fact(a.occurred, One(IsReview(a)))
    case Approvals => Fact(a.occurred, One(IsApproval(a)))
    case _ => Fact(None, 0)
  }

  function Share(f: Fact, range: Range): nat { if In(f.date, range) then f.weight else 0 }

  function ItemTotal(items: seq<Item>, range: Range, c: Counter): nat {
    if items == [] then 0 else ItemTotal(items[..|items| - 1], range, c) + Share(ItemFact(items[|items| - 1], c), range)
  }

  function ActivityTotal(activities: seq<Activity>, range: Range, c: Counter): nat {
    if activities == [] then 0
    else ActivityTotal(activities[..|activities| - 1], range, c) + Share(ActivityFact(activities[|activities| - 1], c), range)
  }

  /** The items an edge ends at, without repeating one. */
  function EndpointItems(e: Edge, byId: map<string, Item>): seq<Item> {
    (if e.from in byId then [byId[e.from]] else []) +
    (if e.to in byId && !(e.from in byId && e.from == e.to) then [byId[e.to]] else [])
  }

  predicate Touches(e: Edge, byId: map<string, Item>, range: Range) {
    var ends := EndpointItems(e, byId);
    ends == [] || exists i :: 0 <= i < |ends| && In(ends[i].updated, range)
  }

  function EdgeWeight(e: Edge, c: Counter): nat {
    match c
    case EdgeType(key) => One(e.kind == key)
    case EdgeLifecycle(key) => One((if e.lifecycle.Some? then e.lifecycle.value else "other") == key)
    case EdgeDeclared => One(e.lifecycle == Some("declared"))
    case EdgeFulfilled => One(e.lifecycle == Some("fulfilled"))
    case EdgeBroken => One(e.lifecycle == Some("broken"))
    case _ => 0
  }

  function EdgeShare(e: Edge, byId: map<string, Item>, range: Range, c: Counter): nat {
    if Touches(e, byId, range) then EdgeWeight(e, c) else 0
  }

  function EdgeTotal(edges: seq<Edge>, byId: map<string, Item>, range: Range, c: Counter): nat {
    if edges == [] then 0 else EdgeTotal(edges[..|edges| - 1], byId, range, c) + EdgeShare(edges[|edges| - 1], byId, range, c)
  }

  /** A repository's inputs. */
  datatype Repo = Repo(items: seq<Item>, edges: seq<Edge>, activities: seq<Activity>, byId: map<string, Item>)

  function Total(repo: Repo, range: Range, c: Counter): nat {
    ItemTotal(repo.items, range, c) + ActivityTotal(repo.activities, range, c) + EdgeTotal(repo.edges, repo.byId, range, c)
  }

  /** The record a range should have. */
  ghost predicate StatsOf(repo: Repo, range: Range, stats: Stats) {
    forall c :: stats[c] == Total(repo, range, c)
  }

  // ----- the counting loops

  /** Adds to one counter, if the condition holds. */
  function Inc(stats: Stats, condition: bool, c: Counter, amount: nat): Stats {
    if condition then stats[c := stats[c] + amount] else stats
  }

  lemma IncAt(stats: Stats, condition: bool, c: Counter, amount: nat, d: Counter)
    ensures Inc(stats, condition, c, amount)[d] == stats[d] + if condition && c == d then amount else 0
  {
  }

  function OrEmpty(key: Option<string>): string { if key.Some? then key.value else "" }

  ghost predicate Adds(before: Stats, after: Stats, item: Item, range: Range) {
    forall c :: after[c] == before[c] + Share(ItemFact(item, c), range)
  }

  predicate IsActiveCounter(c: Counter) {
    || c.ItemsActive? || c.ItemState? || c.ItemKind? || c.ReviewState? || c.CiState? || c.MergeState?
    || c.UnresolvedThreads? || c.LabelScope?
  }

  function Scope(name: Option<string>): string { if name.Some? then name.value else "unscoped" }

  method CountLabels(before: Stats, scopes: seq<Option<string>>) returns (stats: Stats)
    ensures forall c :: stats[c] == before[c] + LabelWeight(scopes, c)
  {
    hide Inc, Scope;
    stats := before;
    for i := 0 to |scopes|
      invariant forall c :: stats[c] == before[c] + LabelWeight(scopes[..i], c)
    {
      assert scopes[..i + 1][..i] == scopes[..i];
      forall c
        ensures Inc(stats, true, LabelScope(Scope(scopes[i])), 1)[c] == before[c] + LabelWeight(scopes[..i + 1], c)
      {
        IncAt(stats, true, LabelScope(Scope(scopes[i])), 1, c);
      }
      stats := Inc(stats, true, LabelScope(Scope(scopes[i])), 1);
    }
    assert scopes[..|scopes|] == scopes;
  }

  function LabelWeight(scopes: seq<Option<string>>, c: Counter): nat {
    if c.LabelScope? then ScopeCount(scopes, c.key) else 0
  }

  method CountActive(before: Stats, item: Item) returns (stats: Stats)
    ensures forall c :: stats[c] == before[c] + ActiveWeight(item, c)
  {
    hide Inc, LabelWeight, ActiveWeight;
    var s1 := Inc(before, true, ItemsActive, 1);
    var s2 := Inc(s1, true, ItemState(item.state), 1);
    var s3 := Inc(s2, true, ItemKind(item.kind), 1);
    var s4 := Inc(s3, item.review.Some?, ReviewState(OrEmpty(item.review)), 1);
    var s5 := Inc(s4, item.ci.Some?, CiState(OrEmpty(item.ci)), 1);
    var s6 := Inc(s5, item.merge.Some?, MergeState(OrEmpty(item.merge)), 1);
    var open := if item.openThreads.Some? then item.openThreads.value else 0;
    var s7 := Inc(s6, item.openThreads.Some?, UnresolvedThreads, open);
    stats := CountLabels(s7, item.labelScopes);
    forall c
      ensures stats[c] == before[c] + ActiveWeight(item, c)
    {
      IncAt(before, true, ItemsActive, 1, c);
      IncAt(s1, true, ItemState(item.state), 1, c);
      IncAt(s2, true, ItemKind(item.kind), 1, c);
      IncAt(s3, item.review.Some?, ReviewState(OrEmpty(item.review)), 1, c);
      IncAt(s4, item.ci.Some?, CiState(OrEmpty(item.ci)), 1, c);
      IncAt(s5, item.merge.Some?, MergeState(OrEmpty(item.merge)), 1, c);
      IncAt(s6, item.openThreads.Some?, UnresolvedThreads, open, c);
      ActiveParts(item, c);
    }
  }

  function ActiveWeight(item: Item, c: Counter): nat { if IsActiveCounter(c) then ItemFact(item, c).weight else 0 }

  lemma ActiveParts(item: Item, c: Counter)
    ensures ActiveWeight(item, c) ==
            One(c == ItemsActive) + One(c == ItemState(item.state)) + One(c == ItemKind(item.kind))
            + One(item.review.Some? && c == ReviewState(OrEmpty(item.review)))
            + One(item.ci.Some? && c == CiState(OrEmpty(item.ci)))
            + One(item.merge.Some? && c == MergeState(OrEmpty(item.merge)))
            + (if item.openThreads.Some? && c == UnresolvedThreads then item.openThreads.value else 0)
            + LabelWeight(item.labelScopes, c)
  {
    hide ScopeCount;
    match c {
      case ItemsActive =>
      case ItemState(_) =>
      case ItemKind(_) =>
      case ReviewState(_) =>
      case CiState(_) =>
      case MergeState(_) =>
      case UnresolvedThreads =>
      case LabelScope(_) =>
      case _ =>
    }
  }

  method CountItem(before: Stats, item: Item, range: Range) returns (stats: Stats)
    ensures Adds(before, stats, item, range)
  {
    hide Inc, ActiveWeight, In;
    var s1 := before;
    if In(item.updated, range) {
      s1 := CountActive(before, item);
    }
    assert forall c :: s1[c] == before[c] + if In(item.updated, range) then ActiveWeight(item, c) else 0;
    var isOpened, isClosed := In(item.created, range), In(item.closed, range);
    var s2 := Inc(s1, isOpened, ItemsOpened, 1);
    var s3 := Inc(s2, isOpened && item.changeRequest, ChangeRequestsOpened, 1);
    var s4 := Inc(s3, isClosed, ItemsClosed, 1);
    var s5 := Inc(s4, isClosed && item.changeRequest && item.state == "closed", ChangeRequestsClosed, 1);
    stats := Inc(s5, item.changeRequest && In(item.merged, range), ChangeRequestsMerged, 1);
    forall c
      ensures stats[c] == before[c] + Share(ItemFact(item, c), range)
    {
      IncAt(s1, isOpened, ItemsOpened, 1, c);
      IncAt(s2, isOpened && item.changeRequest, ChangeRequestsOpened, 1, c);
      IncAt(s3, isClosed, ItemsClosed, 1, c);
      IncAt(s4, isClosed && item.changeRequest && item.state == "closed", ChangeRequestsClosed, 1, c);
      IncAt(s5, item.changeRequest && In(item.merged, range), ChangeRequestsMerged, 1, c);
      ItemParts(item, range, c);
    }
  }

  lemma ItemParts(item: Item, range: Range, c: Counter)
    ensures Share(ItemFact(item, c), range) ==
            (if In(item.updated, range) then ActiveWeight(item, c) else 0)
            + One(In(item.created, range) && c == ItemsOpened)
            + One(In(item.created, range) && item.changeRequest && c == ChangeRequestsOpened)
            + One(In(item.closed, range) && c == ItemsClosed)
            + One(In(item.closed, range) && item.changeRequest && item.state == "closed" && c == ChangeRequestsClosed)
            + One(item.changeRequest && In(item.merged, range) && c == ChangeRequestsMerged)
  {
    hide ScopeCount;
    match c {
      case ItemsOpened =>
      case ChangeRequestsOpened =>
      case ItemsClosed =>
      case ChangeRequestsClosed =>
      case ChangeRequestsMerged =>
      case _ =>
    }
  }

  method CountActivity(before: Stats, a: Activity, range: Range) returns (stats: Stats)
    ensures forall c :: stats[c] == before[c] + Share(ActivityFact(a, c), range)
  {
    hide Inc, IsCommit, IsPush, IsComment, IsReview, IsApproval, ActivityFact;
    if !In(a.occurred, range) {
      stats := before;
      forall c
        ensures Share(ActivityFact(a, c), range) == 0
      {
        ActivityParts(a, range, c);
      }
      return;
    }
    var s1 := Inc(before, true, Activities, 1);
    var s2 := Inc(s1, true, ActivityKind(a.kind), 1);
    var s3 := Inc(s2, true, ActivityAction(a.action), 1);
    var s4 := Inc(s3, IsCommit(a), Commits, 1);
    var s5 := Inc(s4, IsPush(a), Pushes, 1);
    var s6 := Inc(s5, IsComment(a), Comments, 1);
    var s7 := Inc(s6, IsReview(a), Reviews, 1);
    stats := Inc(s7, IsApproval(a), Approvals, 1);
    forall c
      ensures stats[c] == before[c] + Share(ActivityFact(a, c), range)
    {
      IncAt(before, true, Activities, 1, c);
      IncAt(s1, true, ActivityKind(a.kind), 1, c);
      IncAt(s2, true, ActivityAction(a.action), 1, c);
      IncAt(s3, IsCommit(a), Commits, 1, c);
      IncAt(s4, IsPush(a), Pushes, 1, c);
      IncAt(s5, IsComment(a), Comments, 1, c);
      IncAt(s6, IsReview(a), Reviews, 1, c);
      IncAt(s7, IsApproval(a), Approvals, 1, c);
      ActivityParts(a, range, c);
    }
  }

  lemma ActivityParts(a: Activity, range: Range, c: Counter)
    ensures Share(ActivityFact(a, c), range) ==
            if !In(a.occurred, range) then 0
            else One(c == Activities) + One(c == ActivityKind(a.kind)) + One(c == ActivityAction(a.action))
                 + One(IsCommit(a) && c == Commits) + One(IsPush(a) && c == Pushes) + One(IsComment(a) && c == Comments)
                 + One(IsReview(a) && c == Reviews) + One(IsApproval(a) && c == Approvals)
  {
    hide IsCommit, IsPush, IsComment, IsReview, IsApproval;
    match c {
      case Activities =>
      case ActivityKind(_) =>
      case ActivityAction(_) =>
      case Commits =>
      case Pushes =>
      case Comments =>
      case Reviews =>
      case Approvals =>
      case _ =>
    }
  }

  method CountEdge(before: Stats, e: Edge, byId: map<string, Item>, range: Range) returns (stats: Stats)
    ensures forall c :: stats[c] == before[c] + EdgeShare(e, byId, range, c)
  {
    hide Inc, Touches, EdgeWeight;
    if !Touches(e, byId, range) {
      stats := before;
      return;
    }
    var other := if e.lifecycle.Some? then e.lifecycle.value else "other";
    var s1 := Inc(before, true, EdgeType(e.kind), 1);
    var s2 := Inc(s1, true, EdgeLifecycle(other), 1);
    var s3 := Inc(s2, e.lifecycle == Some("declared"), EdgeDeclared, 1);
    var s4 := Inc(s3, e.lifecycle == Some("fulfilled"), EdgeFulfilled, 1);
    stats := Inc(s4, e.lifecycle == Some("broken"), EdgeBroken, 1);
    forall c
      ensures stats[c] == before[c] + EdgeShare(e, byId, range, c)
    {
      IncAt(before, true, EdgeType(e.kind), 1, c);
      IncAt(s1, true, EdgeLifecycle(other), 1, c);
      IncAt(s2, e.lifecycle == Some("declared"), EdgeDeclared, 1, c);
      IncAt(s3, e.lifecycle == Some("fulfilled"), EdgeFulfilled, 1, c);
      IncAt(s4, e.lifecycle == Some("broken"), EdgeBroken, 1, c);
      EdgeParts(e, c);
    }
  }

  lemma EdgeParts(e: Edge, c: Counter)
    ensures EdgeWeight(e, c) ==
            One(c == EdgeType(e.kind)) + One(c == EdgeLifecycle(if e.lifecycle.Some? then e.lifecycle.value else "other"))
            + One(e.lifecycle == Some("declared") && c == EdgeDeclared)
            + One(e.lifecycle == Some("fulfilled") && c == EdgeFulfilled)
            + One(e.lifecycle == Some("broken") && c == EdgeBroken)
  {
    match c {
      case EdgeType(_) =>
      case EdgeLifecycle(_) =>
      case EdgeDeclared =>
      case EdgeFulfilled =>
      case EdgeBroken =>
      case _ =>
    }
  }

  method ComputeRepoMetricStats(repo: Repo, range: Range) returns (stats: Stats)
    ensures StatsOf(repo, range, stats) && CountersSay(repo, range, stats)
  {
    hide ItemFact, ActivityFact, EdgeShare, Share, CountersSay;
    stats := multiset{};
    for i := 0 to |repo.items|
      invariant forall c :: stats[c] == ItemTotal(repo.items[..i], range, c)
    {
      assert repo.items[..i + 1][..i] == repo.items[..i];
      stats := CountItem(stats, repo.items[i], range);
    }
    assert repo.items[..|repo.items|] == repo.items;
    for i := 0 to |repo.activities|
      invariant forall c :: stats[c] == ItemTotal(repo.items, range, c) + ActivityTotal(repo.activities[..i], range, c)
    {
      assert repo.activities[..i + 1][..i] == repo.activities[..i];
      stats := CountActivity(stats, repo.activities[i], range);
    }
    assert repo.activities[..|repo.activities|] == repo.activities;
    for i := 0 to |repo.edges|
      invariant forall c :: stats[c] == ItemTotal(repo.items, range, c) + ActivityTotal(repo.activities, range, c)
                                        + EdgeTotal(repo.edges[..i], repo.byId, range, c)
    {
      assert repo.edges[..i + 1][..i] == repo.edges[..i];
      stats := CountEdge(stats, repo.edges[i], repo.byId, range);
    }
    assert repo.edges[..|repo.edges|] == repo.edges;
    StatsCount(repo, range, stats);
  }

  // ----- what the counters count

  predicate During(date: Option<int>, range: Range) { date.Some? && range.from <= date.value <= range.to }

  predicate Contains(s: string, part: string) { exists i {:trigger Piece(s, i, |part|)} :: 0 <= i <= |s| - |part| && Piece(s, i, |part|) == part }

  function Piece(s: string, i: nat, length: nat): string { if i + length <= |s| then s[i..i + length] else "" }

  /** Whether an item is one of those a counter counts in a range. */
  predicate CountsItem(x: Item, c: Counter, range: Range) {
    match c
    case ItemsActive => During(x.updated, range)
    case ItemState(key) => During(x.updated, range) && x.state == key
    case ItemKind(key) => During(x.updated, range) && x.kind == key
    case ReviewState(key) => During(x.updated, range) && x.review == Some(key)
    case CiState(key) => During(x.updated, range) && x.ci == Some(key)
    case MergeState(key) => During(x.updated, range) && x.merge == Some(key)
    case ItemsOpened => During(x.created, range)
    case ChangeRequestsOpened => During(x.created, range) && x.changeRequest
    case ItemsClosed => During(x.closed, range)
    case ChangeRequestsClosed => During(x.closed, range) && x.changeRequest && x.state == "closed"
    case ChangeRequestsMerged => During(x.merged, range) && x.changeRequest
    case _ => false
  }

  predicate CountsActivity(a: Activity, c: Counter, range: Range) {
    During(a.occurred, range) &&
    match c
    case Activities => true
    case ActivityKind(key) => a.kind == key
    case ActivityAction(key) => a.action == key
    case Commits => a.kind == "commit" || a.action == "committed"
    case Pushes => a.kind == "push" || a.action == "pushed" || a.action == "force_pushed"
    case Comments => a.kind == "comment" || Contains(a.action, "comment")
    case Reviews => a.kind == "review" || Contains(a.action, "review")
    case Approvals => a.action == "approved" || Contains(a.action, "approval")
    case _ => false
  }

  /** An edge counts in a range when a known end of it was updated then, or no end is known. */
  predicate CountsEdge(e: Edge, byId: map<string, Item>, c: Counter, range: Range) {
    && ((e.from !in byId && e.to !in byId)
        || (e.from in byId && During(byId[e.from].updated, range)) || (e.to in byId && During(byId[e.to].updated, range)))
    && match c
       case EdgeType(key) => e.kind == key
       case EdgeLifecycle(key) => e.lifecycle == Some(key) || (e.lifecycle.None? && key == "other")
       case EdgeDeclared => e.lifecycle == Some("declared")
       case EdgeFulfilled => e.lifecycle == Some("fulfilled")
       case EdgeBroken => e.lifecycle == Some("broken")
       case _ => false
  }

  ghost function ItemHits(items: seq<Item>, c: Counter, range: Range): set<nat> {
    set i: nat | i < |items| && CountsItem(items[i], c, range)
  }

  ghost function ActivityHits(activities: seq<Activity>, c: Counter, range: Range): set<nat> {
    set i: nat | i < |activities| && CountsActivity(activities[i], c, range)
  }

  ghost function EdgeHits(edges: seq<Edge>, byId: map<string, Item>, c: Counter, range: Range): set<nat> {
    set i: nat | i < |edges| && CountsEdge(edges[i], byId, c, range)
  }

  /** The counters that add more than one per item: open review threads, and one per label of a scope. */
  predicate IsWeighted(c: Counter) { c.UnresolvedThreads? || c.LabelScope? }

  lemma ItemUnit(x: Item, c: Counter, range: Range)
    requires !IsWeighted(c)
    ensures Share(ItemFact(x, c), range) == if CountsItem(x, c, range) then 1 else 0
  {
  }

  lemma ActivityUnit(a: Activity, c: Counter, range: Range)
    ensures Share(ActivityFact(a, c), range) == if CountsActivity(a, c, range) then 1 else 0
  {
    hide Includes, Contains;
    IncludesContains(a.action, "comment");
    IncludesContains(a.action, "review");
    IncludesContains(a.action, "approval");
  }

  lemma IncludesContains(s: string, part: string)
    requires part != ""
    ensures Includes(s, part) <==> Contains(s, part)
  {
    if i :| 0 <= i <= |s| && StartsWith(s[i..], part) {
      assert Piece(s, i, |part|) == s[i..][..|part|];
    }
    if i: nat :| i <= |s| - |part| && Piece(s, i, |part|) == part {
      assert s[i..][..|part|] == part;
      assert StartsWith(s[i..], part);
    }
  }

  lemma EdgeUnit(e: Edge, byId: map<string, Item>, c: Counter, range: Range)
    ensures EdgeShare(e, byId, range, c) == if CountsEdge(e, byId, c, range) then 1 else 0
  {
    TouchesMeans(e, byId, range);
  }

  lemma TouchesMeans(e: Edge, byId: map<string, Item>, range: Range)
    ensures Touches(e, byId, range) <==>
            || (e.from !in byId && e.to !in byId)
            || (e.from in byId && During(byId[e.from].updated, range)) || (e.to in byId && During(byId[e.to].updated, range))
  {
    var ends := EndpointItems(e, byId);
    if e.from in byId {
      assert ends[0] == byId[e.from];
      if e.to in byId && e.from != e.to {
        assert ends == [byId[e.from], byId[e.to]];
        assert ends[1] == byId[e.to];
      } else {
        assert ends == [byId[e.from]];
      }
    } else if e.to in byId {
      assert ends == [byId[e.to]];
      assert ends[0] == byId[e.to];
    }
  }

  lemma GrowsByOne(before: set<nat>, after: set<nat>, i: nat, more: bool)
    requires i !in before && forall j :: j in after <==> j in before || (j == i && more)
    ensures |after| == |before| + if more then 1 else 0
  {
    assert after == before + if more then {i} else {};
  }

  lemma ItemsLast(items: seq<Item>, c: Counter, range: Range)
    requires items != []
    ensures var last := |items| - 1;
            |ItemHits(items, c, range)| == |ItemHits(items[..last], c, range)| + if CountsItem(items[last], c, range) then 1 else 0
  {
    hide CountsItem;
    var last: nat := |items| - 1;
    var before := ItemHits(items[..last], c, range);
    forall i: nat
      ensures i in ItemHits(items, c, range) <==> i in before || (i == last && CountsItem(items[last], c, range))
    {
      if i < last {
        assert items[..last][i] == items[i];
      }
    }
    GrowsByOne(before, ItemHits(items, c, range), last, CountsItem(items[last], c, range));
  }

  lemma {:induction false} ItemsCounted(items: seq<Item>, c: Counter, range: Range)
    requires !IsWeighted(c)
    ensures ItemTotal(items, range, c) == |ItemHits(items, c, range)|
  {
    hide ItemFact, Share, CountsItem, ItemHits;
    if items == [] {
      NoItems(c, range);
    } else {
      ItemsCounted(items[..|items| - 1], c, range);
      ItemUnit(items[|items| - 1], c, range);
      ItemsLast(items, c, range);
    }
  }

  lemma NoItems(c: Counter, range: Range)
    ensures |ItemHits([], c, range)| == 0
  {
    assert ItemHits([], c, range) == {};
  }

  lemma ActivitiesLast(activities: seq<Activity>, c: Counter, range: Range)
    requires activities != []
    ensures var last := |activities| - 1;
            |ActivityHits(activities, c, range)| == |ActivityHits(activities[..last], c, range)| + if CountsActivity(activities[last], c, range) then 1 else 0
  {
    hide CountsActivity;
    var last: nat := |activities| - 1;
    var before := ActivityHits(activities[..last], c, range);
    forall i: nat
      ensures i in ActivityHits(activities, c, range) <==> i in before || (i == last && CountsActivity(activities[last], c, range))
    {
      if i < last {
        assert activities[..last][i] == activities[i];
      }
    }
    GrowsByOne(before, ActivityHits(activities, c, range), last, CountsActivity(activities[last], c, range));
  }

  lemma {:induction false} ActivitiesCounted(activities: seq<Activity>, c: Counter, range: Range)
    ensures ActivityTotal(activities, range, c) == |ActivityHits(activities, c, range)|
  {
    hide ActivityFact, Share, CountsActivity, ActivityHits;
    if activities == [] {
      NoActivities(c, range);
    } else {
      ActivitiesCounted(activities[..|activities| - 1], c, range);
      ActivityUnit(activities[|activities| - 1], c, range);
      ActivitiesLast(activities, c, range);
    }
  }

  lemma NoActivities(c: Counter, range: Range)
    ensures |ActivityHits([], c, range)| == 0
  {
    assert ActivityHits([], c, range) == {};
  }

  lemma EdgesLast(edges: seq<Edge>, byId: map<string, Item>, c: Counter, range: Range)
    requires edges != []
    ensures var last := |edges| - 1;
            |EdgeHits(edges, byId, c, range)| == |EdgeHits(edges[..last], byId, c, range)| + if CountsEdge(edges[last], byId, c, range) then 1 else 0
  {
    hide CountsEdge;
    var last: nat := |edges| - 1;
    var before := EdgeHits(edges[..last], byId, c, range);
    forall i: nat
      ensures i in EdgeHits(edges, byId, c, range) <==> i in before || (i == last && CountsEdge(edges[last], byId, c, range))
    {
      if i < last {
        assert edges[..last][i] == edges[i];
      }
    }
    GrowsByOne(before, EdgeHits(edges, byId, c, range), last, CountsEdge(edges[last], byId, c, range));
  }

  lemma {:induction false} EdgesCounted(edges: seq<Edge>, byId: map<string, Item>, c: Counter, range: Range)
    ensures EdgeTotal(edges, byId, range, c) == |EdgeHits(edges, byId, c, range)|
  {
    hide EdgeShare, CountsEdge, EdgeHits;
    if edges == [] {
      NoEdges(byId, c, range);
    } else {
      EdgesCounted(edges[..|edges| - 1], byId, c, range);
      EdgeUnit(edges[|edges| - 1], byId, c, range);
      EdgesLast(edges, byId, c, range);
    }
  }

  lemma NoEdges(byId: map<string, Item>, c: Counter, range: Range)
    ensures |EdgeHits([], byId, c, range)| == 0
  {
    assert EdgeHits([], byId, c, range) == {};
  }

  /** The weighted ones, for one item; totals add up item by item. */
  lemma WeightedItem(x: Item, range: Range, key: string)
    ensures ItemTotal([x], range, UnresolvedThreads) == if During(x.updated, range) && x.openThreads.Some? then x.openThreads.value else 0
    ensures ItemTotal([x], range, LabelScope(key)) ==
            if During(x.updated, range) then |ScopeHits(x.labelScopes, key)| else 0
  {
    assert [x][..0] == [];
    ScopesCounted(x.labelScopes, key);
  }

  ghost function ScopeHits(scopes: seq<Option<string>>, key: string): set<nat> {
    set i: nat | i < |scopes| && (scopes[i] == Some(key) || (scopes[i].None? && key == "unscoped"))
  }

  lemma {:induction false} ScopesCounted(scopes: seq<Option<string>>, key: string)
    ensures ScopeCount(scopes, key) == |ScopeHits(scopes, key)|
  {
    hide ScopeHits, Scope;
    if scopes == [] {
      NoScopeHits(key);
    } else {
      var last: nat := |scopes| - 1;
      ScopesCounted(scopes[..last], key);
      ScopeHitsGrow(scopes, last, key);
    }
  }

  lemma NoScopeHits(key: string)
    ensures ScopeHits([], key) == {}
  {
  }

  lemma ScopeHitsGrow(scopes: seq<Option<string>>, last: nat, key: string)
    requires last + 1 == |scopes|
    ensures |ScopeHits(scopes, key)| == |ScopeHits(scopes[..last], key)| + if Scope(scopes[last]) == key then 1 else 0
  {
    var before := ScopeHits(scopes[..last], key);
    assert last !in before;
    assert ScopeHits(scopes, key) == before + if Scope(scopes[last]) == key then {last} else {};
  }

  lemma {:induction false} ItemTotalsAdd(left: seq<Item>, right: seq<Item>, range: Range, c: Counter)
    ensures ItemTotal(left + right, range, c) == ItemTotal(left, range, c) + ItemTotal(right, range, c)
  {
    hide ItemFact, Share;
    if right == [] {
      assert left + right == left;
    } else {
      var front := right[..|right| - 1];
      assert (left + right)[..|left + right| - 1] == left + front;
      ItemTotalsAdd(left, front, range, c);
    }
  }

  /** What a record of a range counts: for each counter, the items, activities or edges of its kind. */
  ghost predicate CountersSay(repo: Repo, range: Range, stats: Stats) {
    forall c :: !IsWeighted(c) ==>
      stats[c] == |ItemHits(repo.items, c, range)| + |ActivityHits(repo.activities, c, range)| + |EdgeHits(repo.edges, repo.byId, c, range)|
  }

  lemma StatsCount(repo: Repo, range: Range, stats: Stats)
    requires StatsOf(repo, range, stats)
    ensures CountersSay(repo, range, stats)
  {
    hide ItemTotal, ActivityTotal, EdgeTotal;
    forall c | !IsWeighted(c)
      ensures stats[c] == |ItemHits(repo.items, c, range)| + |ActivityHits(repo.activities, c, range)| + |EdgeHits(repo.edges, repo.byId, c, range)|
    {
      ItemsCounted(repo.items, c, range);
      ActivitiesCounted(repo.activities, c, range);
      EdgesCounted(repo.edges, repo.byId, c, range);
    }
  }

  /** Change requests are not counted as issues too. */
  function RepoActivityScore(stats: Stats): nat {
    var issuesOpened := if stats[ItemsOpened] >= stats[ChangeRequestsOpened] then stats[ItemsOpened] - stats[ChangeRequestsOpened] else 0;
    stats[Commits] + issuesOpened + stats[ChangeRequestsOpened] + stats[ChangeRequestsMerged] + stats[Comments] + stats[Reviews] + stats[Approvals]
  }

  // ----- conservation

  function SeriesTotal(repo: Repo, ranges: seq<Range>, c: Counter): nat {
    if ranges == [] then 0 else SeriesTotal(repo, ranges[..|ranges| - 1], c) + Total(repo, ranges[|ranges| - 1], c)
  }

  function SharesOver(f: Fact, ranges: seq<Range>): nat {
    if ranges == [] then 0 else SharesOver(f, ranges[..|ranges| - 1]) + Share(f, ranges[|ranges| - 1])
  }

  lemma {:induction false} SharesAreHits(f: Fact, ranges: seq<Range>)
    ensures SharesOver(f, ranges) == f.weight * Hits(f.date, ranges)
  {
    if ranges != [] {
      SharesAreHits(f, ranges[..|ranges| - 1]);
      var before := Hits(f.date, ranges[..|ranges| - 1]);
      assert f.weight * (before + 1) == f.weight * before + f.weight;
    }
  }

  lemma FactIsConserved(f: Fact, ranges: seq<Range>, from: int, to: int)
    requires Tiles(ranges, from, to)
    ensures SharesOver(f, ranges) == Share(f, Range(from, to))
  {
    SharesAreHits(f, ranges);
    EachInstantOnce(ranges, from, to, f.date);
    assert f.weight * 1 == f.weight;
  }

  function ItemSeries(items: seq<Item>, ranges: seq<Range>, c: Counter): nat {
    if ranges == [] then 0 else ItemSeries(items, ranges[..|ranges| - 1], c) + ItemTotal(items, ranges[|ranges| - 1], c)
  }

  function ActivitySeries(activities: seq<Activity>, ranges: seq<Range>, c: Counter): nat {
    if ranges == [] then 0 else ActivitySeries(activities, ranges[..|ranges| - 1], c) + ActivityTotal(activities, ranges[|ranges| - 1], c)
  }

  function EdgeSeries(edges: seq<Edge>, byId: map<string, Item>, ranges: seq<Range>, c: Counter): nat {
    if ranges == [] then 0 else EdgeSeries(edges, byId, ranges[..|ranges| - 1], c) + EdgeTotal(edges, byId, ranges[|ranges| - 1], c)
  }

  lemma {:induction false} SeriesSplits(repo: Repo, ranges: seq<Range>, c: Counter)
    ensures SeriesTotal(repo, ranges, c) ==
            ItemSeries(repo.items, ranges, c) + ActivitySeries(repo.activities, ranges, c) + EdgeSeries(repo.edges, repo.byId, ranges, c)
  {
    if ranges != [] {
      SeriesSplits(repo, ranges[..|ranges| - 1], c);
    }
  }

  lemma {:induction false} ItemSeriesByItem(items: seq<Item>, ranges: seq<Range>, c: Counter)
    ensures items == [] ==> ItemSeries(items, ranges, c) == 0
    ensures items != [] ==> ItemSeries(items, ranges, c) ==
                            ItemSeries(items[..|items| - 1], ranges, c) + SharesOver(ItemFact(items[|items| - 1], c), ranges)
  {
    hide ItemFact, Share, ItemTotal;
    if ranges != [] {
      ItemSeriesByItem(items, ranges[..|ranges| - 1], c);
      ItemTotalByItem(items, ranges[|ranges| - 1], c);
    }
  }

  lemma ItemTotalByItem(items: seq<Item>, range: Range, c: Counter)
    ensures items == [] ==> ItemTotal(items, range, c) == 0
    ensures items != [] ==> ItemTotal(items, range, c) == ItemTotal(items[..|items| - 1], range, c) + Share(ItemFact(items[|items| - 1], c), range)
  {
    hide ItemFact, Share;
  }

  lemma {:induction false} ActivitySeriesByActivity(activities: seq<Activity>, ranges: seq<Range>, c: Counter)
    ensures activities == [] ==> ActivitySeries(activities, ranges, c) == 0
    ensures activities != [] ==> ActivitySeries(activities, ranges, c) ==
                                 ActivitySeries(activities[..|activities| - 1], ranges, c) + SharesOver(ActivityFact(activities[|activities| - 1], c), ranges)
  {
    hide ActivityFact, Share, ActivityTotal;
    if ranges != [] {
      ActivitySeriesByActivity(activities, ranges[..|ranges| - 1], c);
      ActivityTotalByActivity(activities, ranges[|ranges| - 1], c);
    }
  }

  lemma ActivityTotalByActivity(activities: seq<Activity>, range: Range, c: Counter)
    ensures activities == [] ==> ActivityTotal(activities, range, c) == 0
    ensures activities != [] ==> ActivityTotal(activities, range, c) ==
                                 ActivityTotal(activities[..|activities| - 1], range, c) + Share(ActivityFact(activities[|activities| - 1], c), range)
  {
    hide ActivityFact, Share;
  }

  lemma {:induction false} ItemsAreConserved(items: seq<Item>, ranges: seq<Range>, from: int, to: int, c: Counter)
    requires Tiles(ranges, from, to)
    ensures ItemSeries(items, ranges, c) == ItemTotal(items, Range(from, to), c)
  {
    hide Tiles, ItemFact, Share;
    ItemSeriesByItem(items, ranges, c);
    if items != [] {
      ItemsAreConserved(items[..|items| - 1], ranges, from, to, c);
      FactIsConserved(ItemFact(items[|items| - 1], c), ranges, from, to);
    }
  }

  lemma {:induction false} ActivitiesAreConserved(activities: seq<Activity>, ranges: seq<Range>, from: int, to: int, c: Counter)
    requires Tiles(ranges, from, to)
    ensures ActivitySeries(activities, ranges, c) == ActivityTotal(activities, Range(from, to), c)
  {
    hide Tiles, ActivityFact, Share;
    ActivitySeriesByActivity(activities, ranges, c);
    if activities != [] {
      ActivitiesAreConserved(activities[..|activities| - 1], ranges, from, to, c);
      FactIsConserved(ActivityFact(activities[|activities| - 1], c), ranges, from, to);
    }
  }

  lemma {:induction false} EdgesDoNotCount(edges: seq<Edge>, byId: map<string, Item>, range: Range, c: Counter)
    requires !IsEdgeCounter(c)
    ensures EdgeTotal(edges, byId, range, c) == 0
  {
    if edges != [] {
      EdgesDoNotCount(edges[..|edges| - 1], byId, range, c);
    }
  }

  lemma {:induction false} EdgeSeriesDoNotCount(edges: seq<Edge>, byId: map<string, Item>, ranges: seq<Range>, c: Counter)
    requires !IsEdgeCounter(c)
    ensures EdgeSeries(edges, byId, ranges, c) == 0
  {
    if ranges != [] {
      EdgeSeriesDoNotCount(edges, byId, ranges[..|ranges| - 1], c);
      EdgesDoNotCount(edges, byId, ranges[|ranges| - 1], c);
    }
  }

  /** Every item and activity counter sums over the buckets to the window's total. */
  lemma CountersAreConserved(repo: Repo, ranges: seq<Range>, from: int, to: int, c: Counter)
    requires Tiles(ranges, from, to) && !IsEdgeCounter(c)
    ensures SeriesTotal(repo, ranges, c) == Total(repo, Range(from, to), c)
  {
    hide Tiles;
    SeriesSplits(repo, ranges, c);
    ItemsAreConserved(repo.items, ranges, from, to, c);
    ActivitiesAreConserved(repo.activities, ranges, from, to, c);
    EdgesDoNotCount(repo.edges, repo.byId, Range(from, to), c);
    EdgeSeriesDoNotCount(repo.edges, repo.byId, ranges, c);
  }

  lemma {:induction false} OpenedCoversChangeRequests(items: seq<Item>, range: Range)
    ensures ItemTotal(items, range, ChangeRequestsOpened) <= ItemTotal(items, range, ItemsOpened)
  {
    if items != [] {
      OpenedCoversChangeRequests(items[..|items| - 1], range);
    }
  }

  lemma {:induction false} NoActivityOpens(activities: seq<Activity>, range: Range, c: Counter)
    requires c.ItemsOpened? || c.ChangeRequestsOpened?
    ensures ActivityTotal(activities, range, c) == 0
  {
    if activities != [] {
      NoActivityOpens(activities[..|activities| - 1], range, c);
    }
  }

  ghost function Linear(repo: Repo, range: Range): nat {
    Total(repo, range, Commits) + Total(repo, range, ItemsOpened) + Total(repo, range, ChangeRequestsMerged)
    + Total(repo, range, Comments) + Total(repo, range, Reviews) + Total(repo, range, Approvals)
  }

  /** The score's clamp never acts: every opened change request is an opened item. */
  lemma ScoreIsLinear(repo: Repo, range: Range, stats: Stats)
    requires StatsOf(repo, range, stats)
    ensures RepoActivityScore(stats) == Linear(repo, range)
  {
    OpenedCoversChangeRequests(repo.items, range);
    NoActivityOpens(repo.activities, range, ItemsOpened);
    NoActivityOpens(repo.activities, range, ChangeRequestsOpened);
    EdgesDoNotCount(repo.edges, repo.byId, range, ItemsOpened);
    EdgesDoNotCount(repo.edges, repo.byId, range, ChangeRequestsOpened);
    assert stats[ItemsOpened] == Total(repo, range, ItemsOpened);
    assert stats[ChangeRequestsOpened] == Total(repo, range, ChangeRequestsOpened);
  }

  function ScoreSum(series: seq<Stats>): nat {
    if series == [] then 0 else ScoreSum(series[..|series| - 1]) + RepoActivityScore(series[|series| - 1])
  }

  ghost predicate SeriesOf(repo: Repo, ranges: seq<Range>, series: seq<Stats>) {
    |series| == |ranges| && forall i :: 0 <= i < |ranges| ==> StatsOf(repo, ranges[i], series[i])
  }

  lemma {:induction false} ScoreSumIsLinear(repo: Repo, ranges: seq<Range>, series: seq<Stats>)
    requires SeriesOf(repo, ranges, series)
    ensures ScoreSum(series) ==
            SeriesTotal(repo, ranges, Commits) + SeriesTotal(repo, ranges, ItemsOpened) + SeriesTotal(repo, ranges, ChangeRequestsMerged)
            + SeriesTotal(repo, ranges, Comments) + SeriesTotal(repo, ranges, Reviews) + SeriesTotal(repo, ranges, Approvals)
  {
    hide StatsOf, Total, RepoActivityScore;
    if ranges != [] {
      ScoreSumIsLinear(repo, ranges[..|ranges| - 1], series[..|series| - 1]);
      ScoreIsLinear(repo, ranges[|ranges| - 1], series[|series| - 1]);
    }
  }

  /** So the activity score is conserved as well. */
  lemma ScoreIsConserved(repo: Repo, ranges: seq<Range>, series: seq<Stats>, from: int, to: int, totals: Stats)
    requires Tiles(ranges, from, to) && SeriesOf(repo, ranges, series) && StatsOf(repo, Range(from, to), totals)
    ensures ScoreSum(series) == RepoActivityScore(totals)
  {
    hide Tiles, StatsOf, Total, RepoActivityScore, SeriesOf;
    ScoreSumIsLinear(repo, ranges, series);
    ScoreIsLinear(repo, Range(from, to), totals);
    CountersAreConserved(repo, ranges, from, to, Commits);
    CountersAreConserved(repo, ranges, from, to, ItemsOpened);
    CountersAreConserved(repo, ranges, from, to, ChangeRequestsMerged);
    CountersAreConserved(repo, ranges, from, to, Comments);
    CountersAreConserved(repo, ranges, from, to, Reviews);
    CountersAreConserved(repo, ranges, from, to, Approvals);
  }

  function CounterSum(series: seq<Stats>, c: Counter): nat {
    if series == [] then 0 else CounterSum(series[..|series| - 1], c) + series[|series| - 1][c]
  }

  lemma {:induction false} CounterSumIsSeries(repo: Repo, ranges: seq<Range>, series: seq<Stats>, c: Counter)
    requires SeriesOf(repo, ranges, series)
    ensures CounterSum(series, c) == SeriesTotal(repo, ranges, c)
  {
    hide Total;
    if ranges != [] {
      CounterSumIsSeries(repo, ranges[..|ranges| - 1], series[..|series| - 1], c);
    }
  }

  /** One repository's totals and series, for any window, bucket width and regular zone: counters and
      score of the series add up to the totals. */
  method RepoSeries(repo: Repo, range: Range, b: Bucket, z: Zone) returns (totals: Stats, series: seq<Stats>)
    requires Regular(z) && ValidBucket(b)
    ensures StatsOf(repo, range, totals) && CountersSay(repo, range, totals)
    ensures range.from <= range.to ==> forall c :: !IsEdgeCounter(c) ==> CounterSum(series, c) == totals[c]
    ensures range.from <= range.to ==> ScoreSum(series) == RepoActivityScore(totals)
    ensures range.to < range.from ==> series == []
  {
    hide StatsOf, Tiles, Regular, OnDates, OnGrid, RepoActivityScore, CountersSay;
    totals := ComputeRepoMetricStats(repo, range);
    var ranges := BucketRanges(range, b, z);
    series := [];
    for i := 0 to |ranges|
      invariant SeriesOf(repo, ranges[..i], series)
    {
      var stats := ComputeRepoMetricStats(repo, ranges[i]);
      series := series + [stats];
    }
    assert ranges[..|ranges|] == ranges;
    if range.from <= range.to {
      ScoreIsConserved(repo, ranges, series, range.from, range.to, totals);
      forall c | !IsEdgeCounter(c)
        ensures CounterSum(series, c) == totals[c]
      {
        CounterSumIsSeries(repo, ranges, series, c);
        CountersAreConserved(repo, ranges, range.from, range.to, c);
        StatsGive(repo, range, totals, c);
      }
    }
  }

  lemma StatsGive(repo: Repo, range: Range, stats: Stats, c: Counter)
    requires StatsOf(repo, range, stats)
    ensures stats[c] == Total(repo, range, c)
  {
  }

  // ----- edges

  /** How many buckets count the edge. */
  function Spread(e: Edge, byId: map<string, Item>, ranges: seq<Range>): nat {
    if ranges == [] then 0 else Spread(e, byId, ranges[..|ranges| - 1]) + One(Touches(e, byId, ranges[|ranges| - 1]))
  }

  lemma {:induction false} TouchedSomewhere(e: Edge, byId: map<string, Item>, ranges: seq<Range>, from: int, to: int)
    requires Tiles(ranges, from, to)
    ensures Touches(e, byId, Range(from, to)) <==> Spread(e, byId, ranges) > 0
  {
    var front, last := ranges[..|ranges| - 1], ranges[|ranges| - 1];
    if |ranges| == 1 {
      assert Spread(e, byId, front) == 0;
      assert last == Range(from, to);
    } else {
      TilesWithoutLast(ranges, from, to);
      TilesAreForward(front, from, last.from - 1);
      TouchedSomewhere(e, byId, front, from, last.from - 1);
      TouchSplits(e, byId, from, last.from, to);
    }
  }

  lemma TouchSplits(e: Edge, byId: map<string, Item>, from: int, cut: int, to: int)
    requires from <= cut <= to + 1
    ensures Touches(e, byId, Range(from, to)) <==> Touches(e, byId, Range(from, cut - 1)) || Touches(e, byId, Range(cut, to))
  {
    var ends := EndpointItems(e, byId);
    assert forall i :: 0 <= i < |ends| ==>
      (In(ends[i].updated, Range(from, to)) <==> In(ends[i].updated, Range(from, cut - 1)) || In(ends[i].updated, Range(cut, to)));
  }

  lemma {:induction false} EdgeSeriesByEdge(edges: seq<Edge>, byId: map<string, Item>, ranges: seq<Range>, c: Counter)
    ensures edges == [] ==> EdgeSeries(edges, byId, ranges, c) == 0
    ensures edges != [] ==> EdgeSeries(edges, byId, ranges, c) ==
                            EdgeSeries(edges[..|edges| - 1], byId, ranges, c)
                            + Times(EdgeWeight(edges[|edges| - 1], c), Spread(edges[|edges| - 1], byId, ranges))
  {
    hide Touches, EdgeWeight, Times;
    if ranges == [] {
      if edges != [] {
        TimesGrows(EdgeWeight(edges[|edges| - 1], c), 0);
      }
    } else {
      EdgeSeriesByEdge(edges, byId, ranges[..|ranges| - 1], c);
      if edges != [] {
        TimesGrows(EdgeWeight(edges[|edges| - 1], c), Spread(edges[|edges| - 1], byId, ranges[..|ranges| - 1]));
      }
    }
  }

  function Times(weight: nat, spread: nat): nat { weight * spread }

  lemma TimesGrows(weight: nat, spread: nat)
    ensures Times(weight, 0) == 0 && Times(weight, spread + 1) == Times(weight, spread) + weight
  {
  }

  ghost predicate AtMostOneBucket(e: Edge, byId: map<string, Item>, ranges: seq<Range>, c: Counter) {
    EdgeWeight(e, c) > 0 ==> Spread(e, byId, ranges) <= 1
  }

  ghost predicate CountedOnce(edges: seq<Edge>, byId: map<string, Item>, ranges: seq<Range>, c: Counter) {
    forall e :: e in edges ==> AtMostOneBucket(e, byId, ranges, c)
  }

  /** Edge counters are not conserved in general: over the buckets they sum to at least the total, and to
      exactly the total if and only if no counted edge touches two buckets. */
  lemma {:induction false} EdgesAreConservedExactlyWhen(edges: seq<Edge>, byId: map<string, Item>, ranges: seq<Range>, from: int, to: int, c: Counter)
    requires Tiles(ranges, from, to)
    ensures EdgeSeries(edges, byId, ranges, c) >= EdgeTotal(edges, byId, Range(from, to), c)
    ensures EdgeSeries(edges, byId, ranges, c) == EdgeTotal(edges, byId, Range(from, to), c) <==> CountedOnce(edges, byId, ranges, c)
  {
    hide Tiles, Touches, EdgeWeight, Times, Spread, CountedOnce;
    EdgeSeriesByEdge(edges, byId, ranges, c);
    if edges != [] {
      var front, last := edges[..|edges| - 1], edges[|edges| - 1];
      EdgesAreConservedExactlyWhen(front, byId, ranges, from, to, c);
      TouchedSomewhere(last, byId, ranges, from, to);
      WeightTimesSpread(EdgeWeight(last, c), Spread(last, byId, ranges));
      assert edges == front + [last];
      CountedOnceSplits(front, last, byId, ranges, c);
    } else {
      NoneCounted(byId, ranges, c);
    }
  }

  lemma NoneCounted(byId: map<string, Item>, ranges: seq<Range>, c: Counter)
    ensures CountedOnce([], byId, ranges, c)
  {
  }

  lemma CountedOnceSplits(front: seq<Edge>, last: Edge, byId: map<string, Item>, ranges: seq<Range>, c: Counter)
    ensures CountedOnce(front + [last], byId, ranges, c) <==>
            CountedOnce(front, byId, ranges, c) && AtMostOneBucket(last, byId, ranges, c)
  {
    hide AtMostOneBucket;
    assert forall e :: e in front + [last] <==> e in front || e == last;
  }

  lemma WeightTimesSpread(weight: nat, spread: nat)
    ensures spread == 0 ==> Times(weight, spread) == 0
    ensures spread > 0 ==> Times(weight, spread) >= weight
    ensures spread > 0 ==> (Times(weight, spread) == weight <==> weight == 0 || spread == 1)
  {
    if spread > 1 {
      assert weight * spread == weight + weight * (spread - 1);
      if weight > 0 {
        assert weight * (spread - 1) >= weight;
      }
    }
  }

  /** An edge between two items updated in different buckets is counted in both. */
  lemma EdgeCountedTwice(e: Edge, byId: map<string, Item>)
    requires e.lifecycle == Some("declared") && e.from in byId && e.to in byId && e.from != e.to
    requires byId[e.from].updated == Some(0) && byId[e.to].updated == Some(5)
    ensures Tiles([Range(0, 4), Range(5, 9)], 0, 9)
    ensures EdgeTotal([e], byId, Range(0, 9), EdgeDeclared) == 1
    ensures EdgeSeries([e], byId, [Range(0, 4), Range(5, 9)], EdgeDeclared) == 2
  {
    var ends := EndpointItems(e, byId);
    assert ends[0].updated == Some(0) && ends[1].updated == Some(5);
    forall range: Range | range.from <= 0 <= range.to || range.from <= 5 <= range.to
      ensures EdgeTotal([e], byId, range, EdgeDeclared) == 1
    {
      assert In(ends[0].updated, range) || In(ends[1].updated, range);
      assert EdgeTotal([e][..0], byId, range, EdgeDeclared) == 0;
    }
    var ranges := [Range(0, 4), Range(5, 9)];
    assert ranges[..1] == [Range(0, 4)] && ranges[..1][..0] == [];
    assert EdgeSeries([e], byId, ranges[..1], EdgeDeclared) == EdgeTotal([e], byId, Range(0, 4), EdgeDeclared);
  }
}
