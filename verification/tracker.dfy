/** Program trackers: phase-table rows become `parent` and `blocks` edges, with gate rows contracted. */
module Tracker {
  import Sets
  import opened Options

  type RowId = string
  type Ext = string
  type ItemState = nat

  /** One phase-table row; a row without a ref is a gate. */
  datatype Row = Row(id: RowId, ref: Option<nat>, after: seq<RowId>)

  datatype Target = Target(ext: Ext, state: Option<ItemState>)

  datatype Kind = Parent | Blocks

  datatype Edge = Edge(kind: Kind, from: Ext, to: Ext, fromState: Option<ItemState>, toState: Option<ItemState>)

  /** An id used twice means its first row. */
  function First(rows: seq<Row>, id: RowId): (first: Option<nat>)
    ensures first.Some? ==> first.value < |rows| && rows[first.value].id == id
  {
    if rows == [] then None
    else if rows[0].id == id then Some(0)
    else
      var rest := First(rows[1..], id);
      if rest.None? then None else Some(rest.value + 1)
  }

  /** It is the least such row, and there is one unless no row has the id. */
  lemma {:induction false} FirstIsLeast(rows: seq<Row>, id: RowId, i: nat)
    requires i < |rows| && rows[i].id == id
    ensures First(rows, id).Some? && First(rows, id).value <= i
  {
    if i > 0 {
      FirstIsLeast(rows[1..], id, i - 1);
    }
  }

  // ----- expansion through gates

  /** Gates already expanded for this dependent, and the issue rows reached, in first-reached order. */
  datatype Reached = Reached(gates: set<nat>, out: seq<nat>)

  ghost predicate GatesInRange(rows: seq<Row>, gates: set<nat>) {
    forall g :: g in gates ==> g < |rows|
  }

  lemma {:induction false} GateCount(rows: seq<Row>, gates: set<nat>)
    requires GatesInRange(rows, gates)
    ensures |gates| <= |rows|
    decreases |rows|
  {
    if rows == [] {
      assert gates == {};
    } else {
      var last: nat := |rows| - 1;
      GateCount(rows[..last], gates - {last});
      if last in gates {
        assert gates == (gates - {last}) + {last};
      }
    }
  }

  function Expand(rows: seq<Row>, after: seq<RowId>, start: Reached): (end: Reached)
    requires GatesInRange(rows, start.gates)
    ensures GatesInRange(rows, end.gates) && start.gates <= end.gates
    decreases |rows| - |start.gates|, |after|
  {
    if after == [] then start
    else match First(rows, after[0])
      case None => Expand(rows, after[1..], start)
      case Some(dep) =>
        if rows[dep].ref.Some? then
          Expand(rows, after[1..], start.(out := if dep in start.out then start.out else start.out + [dep]))
        else if dep in start.gates then Expand(rows, after[1..], start)
        else
          GateCount(rows, start.gates + {dep});
          var inner := Expand(rows, rows[dep].after, start.(gates := start.gates + {dep}));
          GateCount(rows, inner.gates);
          Sets.SubsetSize(start.gates + {dep}, inner.gates);
          Expand(rows, after[1..], inner)
  }

  /** The issue rows a row waits on, looking through gates. */
  function Prerequisites(rows: seq<Row>, row: nat): seq<nat>
    requires row < |rows|
  {
    Expand(rows, rows[row].after, Reached({}, [])).out
  }

  // ----- the specification: reachability through gates only

  ghost predicate Link(rows: seq<Row>, after: seq<RowId>, dep: nat) {
    exists i :: 0 <= i < |after| && First(rows, after[i]) == Some(dep)
  }

  /** `dep` is an issue row reached from a list of ids along `after` links through `n` gates. */
  ghost predicate Through(rows: seq<Row>, after: seq<RowId>, n: nat, dep: nat)
    decreases n
  {
    if n == 0 then dep < |rows| && rows[dep].ref.Some? && Link(rows, after, dep)
    else exists gate: nat :: gate < |rows| && rows[gate].ref.None? && Link(rows, after, gate) && Through(rows, rows[gate].after, n - 1, dep)
  }

  ghost predicate DependsOn(rows: seq<Row>, after: seq<RowId>, dep: nat) {
    exists n: nat :: Through(rows, after, n, dep)
  }

  lemma LinkSplits(rows: seq<Row>, after: seq<RowId>, dep: nat)
    requires after != []
    ensures Link(rows, after, dep) <==> First(rows, after[0]) == Some(dep) || Link(rows, after[1..], dep)
  {
    if Link(rows, after[1..], dep) {
      var i :| 0 <= i < |after[1..]| && First(rows, after[1..][i]) == Some(dep);
      assert after[i + 1] == after[1..][i];
    }
    if Link(rows, after, dep) {
      var i :| 0 <= i < |after| && First(rows, after[i]) == Some(dep);
      if i > 0 {
        assert after[1..][i - 1] == after[i];
      }
    }
  }

  lemma DependsMore(rows: seq<Row>, after: seq<RowId>, dep: nat)
    requires after != [] && DependsOn(rows, after[1..], dep)
    ensures DependsOn(rows, after, dep)
  {
    var n: nat :| Through(rows, after[1..], n, dep);
    if n == 0 {
      LinkSplits(rows, after, dep);
      assert Through(rows, after, 0, dep);
    } else {
      var gate: nat :| gate < |rows| && rows[gate].ref.None? && Link(rows, after[1..], gate) && Through(rows, rows[gate].after, n - 1, dep);
      LinkSplits(rows, after, gate);
      assert Through(rows, after, n, dep);
    }
  }

  lemma DependsThroughGate(rows: seq<Row>, after: seq<RowId>, gate: nat, dep: nat)
    requires gate < |rows| && rows[gate].ref.None? && Link(rows, after, gate)
    requires DependsOn(rows, rows[gate].after, dep)
    ensures DependsOn(rows, after, dep)
  {
    var n: nat :| Through(rows, rows[gate].after, n, dep);
    var m: nat := n + 1;
    assert Through(rows, after, m, dep);
  }

  ghost predicate NoRepeats(out: seq<nat>) {
    forall i, j :: 0 <= i < j < |out| ==> out[i] != out[j]
  }

  /** Expansion adds only rows the list depends on, never twice, after what was there. */
  lemma {:induction false} ExpandIsSound(rows: seq<Row>, after: seq<RowId>, start: Reached)
    requires GatesInRange(rows, start.gates)
    ensures start.out <= Expand(rows, after, start).out
    ensures NoRepeats(start.out) ==> NoRepeats(Expand(rows, after, start).out)
    ensures forall d :: d in Expand(rows, after, start).out ==> d in start.out || DependsOn(rows, after, d)
    decreases |rows| - |start.gates|, |after|
  {
    if after != [] {
      match First(rows, after[0])
      case None =>
        ExpandIsSound(rows, after[1..], start);
        forall d | DependsOn(rows, after[1..], d) ensures DependsOn(rows, after, d) { DependsMore(rows, after, d); }
      case Some(dep) =>
        LinkSplits(rows, after, dep);
        forall d | DependsOn(rows, after[1..], d) ensures DependsOn(rows, after, d) { DependsMore(rows, after, d); }
        if rows[dep].ref.Some? {
          var next := start.(out := if dep in start.out then start.out else start.out + [dep]);
          ExpandIsSound(rows, after[1..], next);
          assert Through(rows, after, 0, dep);
        } else if dep in start.gates {
          ExpandIsSound(rows, after[1..], start);
        } else {
          GateCount(rows, start.gates + {dep});
          ExpandIsSound(rows, rows[dep].after, start.(gates := start.gates + {dep}));
          var inner := Expand(rows, rows[dep].after, start.(gates := start.gates + {dep}));
          GateCount(rows, inner.gates);
          Sets.SubsetSize(start.gates + {dep}, inner.gates);
          ExpandIsSound(rows, after[1..], inner);
          forall d | DependsOn(rows, rows[dep].after, d) ensures DependsOn(rows, after, d) { DependsThroughGate(rows, after, dep, d); }
        }
    }
  }

  /** Every link of a list was followed: issue rows are in `out`, gate rows were expanded. */
  ghost predicate Followed(rows: seq<Row>, after: seq<RowId>, r: Reached) {
    forall d: nat :: d < |rows| && Link(rows, after, d) ==> if rows[d].ref.Some? then d in r.out else d in r.gates
  }

  ghost predicate Grown(r: Reached, t: Reached) {
    r.gates <= t.gates && forall d :: d in r.out ==> d in t.out
  }

  lemma FollowedStays(rows: seq<Row>, after: seq<RowId>, r: Reached, t: Reached)
    requires Followed(rows, after, r) && Grown(r, t)
    ensures Followed(rows, after, t)
  {
  }

  lemma FollowedSplits(rows: seq<Row>, after: seq<RowId>, r: Reached)
    requires after != [] && Followed(rows, after[1..], r)
    requires match First(rows, after[0])
             case None => true
             case Some(d) => if rows[d].ref.Some? then d in r.out else d in r.gates
    ensures Followed(rows, after, r)
  {
    forall d: nat | d < |rows| && Link(rows, after, d)
      ensures if rows[d].ref.Some? then d in r.out else d in r.gates
    {
      LinkSplits(rows, after, d);
    }
  }

  /** Expansion follows every link of its list and of every gate it expands, whatever cycles there are. */
  lemma {:induction false} ExpandIsComplete(rows: seq<Row>, after: seq<RowId>, start: Reached)
    requires GatesInRange(rows, start.gates)
    ensures Grown(start, Expand(rows, after, start))
    ensures Followed(rows, after, Expand(rows, after, start))
    ensures forall g :: g in Expand(rows, after, start).gates && g !in start.gates ==>
              rows[g].ref.None? && Followed(rows, rows[g].after, Expand(rows, after, start))
    decreases |rows| - |start.gates|, |after|
  {
    if after != [] {
      var end := Expand(rows, after, start);
      match First(rows, after[0])
      case None =>
        ExpandIsComplete(rows, after[1..], start);
        FollowedSplits(rows, after, end);
      case Some(dep) =>
        if rows[dep].ref.Some? {
          ExpandIsComplete(rows, after[1..], start.(out := if dep in start.out then start.out else start.out + [dep]));
          FollowedSplits(rows, after, end);
        } else if dep in start.gates {
          ExpandIsComplete(rows, after[1..], start);
          FollowedSplits(rows, after, end);
        } else {
          GateCount(rows, start.gates + {dep});
          ExpandIsComplete(rows, rows[dep].after, start.(gates := start.gates + {dep}));
          var inner := Expand(rows, rows[dep].after, start.(gates := start.gates + {dep}));
          GateCount(rows, inner.gates);
          Sets.SubsetSize(start.gates + {dep}, inner.gates);
          ExpandIsComplete(rows, after[1..], inner);
          FollowedSplits(rows, after, end);
          forall g | g in inner.gates && g !in start.gates
            ensures rows[g].ref.None? && Followed(rows, rows[g].after, end)
          {
            FollowedStays(rows, rows[g].after, inner, end);
          }
        }
    }
  }

  ghost predicate AllFollowed(rows: seq<Row>, r: Reached)
    requires GatesInRange(rows, r.gates)
  {
    forall g {:trigger Followed(rows, rows[g].after, r)} :: g in r.gates ==> Followed(rows, rows[g].after, r)
  }

  lemma {:induction false} FollowedReaches(rows: seq<Row>, after: seq<RowId>, n: nat, dep: nat, r: Reached)
    requires Followed(rows, after, r) && Through(rows, after, n, dep)
    requires GatesInRange(rows, r.gates) && AllFollowed(rows, r)
    ensures dep in r.out
    decreases n
  {
    if n > 0 {
      var gate: nat :| gate < |rows| && rows[gate].ref.None? && Link(rows, after, gate) && Through(rows, rows[gate].after, n - 1, dep);
      assert gate in r.gates;
      assert Followed(rows, rows[gate].after, r);
      FollowedReaches(rows, rows[gate].after, n - 1, dep, r);
    }
  }

  lemma ReachedIsExact(rows: seq<Row>, after: seq<RowId>)
    ensures forall d :: d in Expand(rows, after, Reached({}, [])).out <==> DependsOn(rows, after, d)
    ensures NoRepeats(Expand(rows, after, Reached({}, [])).out)
  {
    var start := Reached({}, []);
    var end := Expand(rows, after, start);
    ExpandIsSound(rows, after, start);
    ExpandIsComplete(rows, after, start);
    forall d | DependsOn(rows, after, d)
      ensures d in end.out
    {
      var n: nat :| Through(rows, after, n, d);
      FollowedReaches(rows, after, n, d, end);
    }
  }

  /** Gate contraction is exact: the prerequisites of a row are the issue rows reachable from it
      through gate rows only, each once. Expansion terminates on gate cycles. */
  lemma PrerequisitesAreExact(rows: seq<Row>, row: nat)
    requires row < |rows|
    ensures forall d :: d in Prerequisites(rows, row) <==> DependsOn(rows, rows[row].after, d)
    ensures NoRepeats(Prerequisites(rows, row))
  {
    ReachedIsExact(rows, rows[row].after);
  }

  lemma {:induction false} ExpandAppends(rows: seq<Row>, left: seq<RowId>, right: seq<RowId>, start: Reached)
    requires GatesInRange(rows, start.gates)
    ensures Expand(rows, left + right, start) == Expand(rows, right, Expand(rows, left, start))
    decreases |rows| - |start.gates|, |left|
  {
    if left == [] {
      assert left + right == right;
    } else {
      assert (left + right)[0] == left[0] && (left + right)[1..] == left[1..] + right;
      match First(rows, left[0])
      case None => ExpandAppends(rows, left[1..], right, start);
      case Some(dep) =>
        if rows[dep].ref.Some? {
          ExpandAppends(rows, left[1..], right, start.(out := if dep in start.out then start.out else start.out + [dep]));
        } else if dep in start.gates {
          ExpandAppends(rows, left[1..], right, start);
        } else {
          GateCount(rows, start.gates + {dep});
          var inner := Expand(rows, rows[dep].after, start.(gates := start.gates + {dep}));
          GateCount(rows, inner.gates);
          Sets.SubsetSize(start.gates + {dep}, inner.gates);
          ExpandAppends(rows, left[1..], right, inner);
        }
    }
  }

  /** They come in the order they are first reached: what the first `k` ids lead to comes before the rest. */
  lemma PrerequisitesAreOrdered(rows: seq<Row>, row: nat, k: nat) returns (n: nat)
    requires row < |rows| && k <= |rows[row].after|
    ensures n <= |Prerequisites(rows, row)|
    ensures forall i :: 0 <= i < |Prerequisites(rows, row)| ==>
              (i < n <==> DependsOn(rows, rows[row].after[..k], Prerequisites(rows, row)[i]))
  {
    var after := rows[row].after;
    var early, all := Expand(rows, after[..k], Reached({}, [])), Prerequisites(rows, row);
    assert after == after[..k] + after[k..];
    ExpandAppends(rows, after[..k], after[k..], Reached({}, []));
    ExpandIsSound(rows, after[k..], early);
    ReachedIsExact(rows, after[..k]);
    ReachedIsExact(rows, after);
    n := |early.out|;
    assert forall j :: 0 <= j < n ==> early.out[j] == all[j];
  }

  // ----- edges

  /** `blocks` edges one tracker emits. */
  const MAX_BLOCKS_EDGES: nat := 1000

  predicate HasKey(edges: seq<Edge>, kind: Kind, from: Ext, to: Ext) {
    exists i :: 0 <= i < |edges| && edges[i].kind == kind && edges[i].from == from && edges[i].to == to
  }

  /** Self-edges and repeats are dropped. */
  function Push(edges: seq<Edge>, e: Edge): seq<Edge> {
    if e.from == e.to || HasKey(edges, e.kind, e.from, e.to) then edges else edges + [e]
  }

  function Only(edges: seq<Edge>, kind: Kind): seq<Edge> {
    if edges == [] then []
    else
      var last := edges[|edges| - 1];
      Only(edges[..|edges| - 1], kind) + if last.kind == kind then [last] else []
  }

  /** A tracker's own endpoint and state, and what its source resolved each ref to. */
  datatype Context = Context(tracker: Ext, state: Option<ItemState>, resolve: nat -> Option<Target>)

  function TargetOf(c: Context, row: Row): Option<Target> {
    if row.ref.Some? then c.resolve(row.ref.value) else None
  }

  predicate Below(cap: Option<nat>, count: nat) { cap.None? || count < cap.value }

  function PushDeps(rows: seq<Row>, c: Context, edges: seq<Edge>, deps: seq<nat>, target: Target, cap: Option<nat>): seq<Edge>
    requires forall i :: 0 <= i < |deps| ==> deps[i] < |rows|
  {
    if deps == [] then edges
    else
      var before := PushDeps(rows, c, edges, deps[..|deps| - 1], target, cap);
      var blocker := TargetOf(c, rows[deps[|deps| - 1]]);
      if blocker.None? || !Below(cap, |Only(before, Blocks)|) then before
      else Push(before, Edge(Blocks, blocker.value.ext, target.ext, blocker.value.state, target.state))
  }

  lemma PrerequisitesInRange(rows: seq<Row>, row: nat)
    requires row < |rows|
    ensures forall i :: 0 <= i < |Prerequisites(rows, row)| ==> Prerequisites(rows, row)[i] < |rows|
  {
    PrerequisitesAreExact(rows, row);
    var deps := Prerequisites(rows, row);
    forall i | 0 <= i < |deps|
      ensures deps[i] < |rows|
    {
      assert deps[i] in deps;
      DependsInRange(rows, rows[row].after, deps[i]);
    }
  }

  lemma DependsInRange(rows: seq<Row>, after: seq<RowId>, dep: nat)
    requires DependsOn(rows, after, dep)
    ensures dep < |rows| && rows[dep].ref.Some?
  {
    var n: nat :| Through(rows, after, n, dep);
    ThroughInRange(rows, after, n, dep);
  }

  lemma {:induction false} ThroughInRange(rows: seq<Row>, after: seq<RowId>, n: nat, dep: nat)
    requires Through(rows, after, n, dep)
    ensures dep < |rows| && rows[dep].ref.Some?
    decreases n
  {
    if n > 0 {
      var gate: nat :| gate < |rows| && rows[gate].ref.None? && Link(rows, after, gate) && Through(rows, rows[gate].after, n - 1, dep);
      ThroughInRange(rows, rows[gate].after, n - 1, dep);
    }
  }

  /** The edges of the first `count` rows: a parent edge per resolved row, then what blocks it. */
  function Emit(rows: seq<Row>, c: Context, count: nat, cap: Option<nat>): seq<Edge>
    requires count <= |rows|
  {
    if count == 0 then [] else EmitRow(rows, c, Emit(rows, c, count - 1, cap), count - 1, cap)
  }

  function EmitRow(rows: seq<Row>, c: Context, before: seq<Edge>, row: nat, cap: Option<nat>): seq<Edge>
    requires row < |rows|
  {
    var target := TargetOf(c, rows[row]);
    if target.None? then before
    else
      var parented := Push(before, Edge(Parent, c.tracker, target.value.ext, c.state, target.value.state));
      PrerequisitesInRange(rows, row);
      PushDeps(rows, c, parented, Prerequisites(rows, row), target.value, cap)
  }

  // ----- the implementation

  /** The recursive expansion over the shared gate and result sets. */
  method CollectPrerequisites(rows: seq<Row>, after: seq<RowId>, start: Reached) returns (end: Reached)
    requires GatesInRange(rows, start.gates)
    ensures end == Expand(rows, after, start)
    decreases |rows| - |start.gates|, 0
  {
    end := start;
    var i := 0;
    while i < |after|
      invariant 0 <= i <= |after|
      invariant GatesInRange(rows, end.gates) && start.gates <= end.gates
      invariant Expand(rows, after[i..], end) == Expand(rows, after, start)
    {
      assert after[i..][0] == after[i] && after[i..][1..] == after[i + 1..];
      var dep := First(rows, after[i]);
      if dep.Some? {
        if rows[dep.value].ref.Some? {
          if dep.value !in end.out {
            end := end.(out := end.out + [dep.value]);
          }
        } else if dep.value !in end.gates {
          GateCount(rows, end.gates + {dep.value});
          Sets.SubsetSize(start.gates, end.gates);
          end := CollectPrerequisites(rows, rows[dep.value].after, end.(gates := end.gates + {dep.value}));
        }
      }
      i := i + 1;
    }
  }

  /** The edges a tracker reports, in table order, with its `blocks` edges cut at the cap. */
  method TrackerEdges(rows: seq<Row>, c: Context) returns (edges: seq<Edge>)
    ensures edges == Emit(rows, c, |rows|, Some(MAX_BLOCKS_EDGES))
    ensures IsTable(rows, c, edges)
  {
    hide IsTable;
    edges := [];
    var blocks := 0;
    var i := 0;
    while i < |rows|
      invariant 0 <= i <= |rows|
      invariant edges == Emit(rows, c, i, Some(MAX_BLOCKS_EDGES))
      invariant blocks == |Only(edges, Blocks)|
    {
      edges, blocks := TrackerRowEdges(rows, c, edges, blocks, i);
      i := i + 1;
    }
    EmittedEdges(rows, c);
  }

  /** What a table asks for, in its own terms: no self-edge and no edge twice, each edge with the states its
      ends resolved in, exactly the resolved parents, and at most a thousand blockers, which are exactly
      those required when they are fewer. */
  ghost predicate IsTable(rows: seq<Row>, c: Context, edges: seq<Edge>) {
    && Clean(edges) && AllSay(rows, c, |rows|, edges) && |Only(edges, Blocks)| <= 1000
    && (forall from, to :: HasKey(edges, Parent, from, to) <==>
          from == c.tracker && from != to && exists r :: 0 <= r < |rows| && From(rows, c, r, to))
    && (|Only(edges, Blocks)| < 1000 ==>
          forall from, to :: HasKey(edges, Blocks, from, to) <==> ShouldBlock(rows, c, |rows|, from, to))
  }

  lemma EmittedEdges(rows: seq<Row>, c: Context)
    ensures IsTable(rows, c, Emit(rows, c, |rows|, Some(MAX_BLOCKS_EDGES)))
  {
    hide Clean, AllSay, HasKey, From, ShouldBlock;
    var cap := MAX_BLOCKS_EDGES;
    EmitIsClean(rows, c, |rows|, Some(cap));
    EdgesCarryStates(rows, c, |rows|, Some(cap));
    CapKeepsPrefix(rows, c, |rows|, cap);
    var capped, full := Emit(rows, c, |rows|, Some(cap)), Emit(rows, c, |rows|, None);
    forall from, to
      ensures HasKey(capped, Parent, from, to) <==> HasKey(full, Parent, from, to)
    {
      KeyOnly(capped, Parent, from, to);
      KeyOnly(full, Parent, from, to);
    }
    forall from, to
      ensures HasKey(capped, Parent, from, to) <==>
              from == c.tracker && from != to && exists r :: 0 <= r < |rows| && From(rows, c, r, to)
    {
      ParentsAreExact(rows, c, |rows|, from, to);
    }
    if |Only(capped, Blocks)| < cap {
      forall from, to
        ensures HasKey(capped, Blocks, from, to) <==> ShouldBlock(rows, c, |rows|, from, to)
      {
        BelowCapIsExact(rows, c, from, to);
      }
    }
  }

  /** One iteration of the loop over the rows. */
  method TrackerRowEdges(rows: seq<Row>, c: Context, start: seq<Edge>, count: nat, row: nat)
    returns (edges: seq<Edge>, blocks: nat)
    requires row < |rows| && count == |Only(start, Blocks)|
    ensures edges == EmitRow(rows, c, start, row, Some(MAX_BLOCKS_EDGES))
    ensures blocks == |Only(edges, Blocks)|
  {
    edges, blocks := start, count;
    var target := TargetOf(c, rows[row]);
    if target.Some? {
      var parent := Edge(Parent, c.tracker, target.value.ext, c.state, target.value.state);
      OnlyPush(edges, parent, Blocks);
      edges := Push(edges, parent);
      PrerequisitesInRange(rows, row);
      if blocks < MAX_BLOCKS_EDGES {
        edges, blocks := EmitBlocks(rows, c, edges, blocks, row, target.value);
      } else {
        FullStops(rows, c, edges, Prerequisites(rows, row), target.value, MAX_BLOCKS_EDGES);
      }
    }
  }

  method EmitBlocks(rows: seq<Row>, c: Context, start: seq<Edge>, count: nat, row: nat, target: Target)
    returns (edges: seq<Edge>, blocks: nat)
    requires row < |rows| && count == |Only(start, Blocks)| < MAX_BLOCKS_EDGES
    requires forall i :: 0 <= i < |Prerequisites(rows, row)| ==> Prerequisites(rows, row)[i] < |rows|
    ensures edges == PushDeps(rows, c, start, Prerequisites(rows, row), target, Some(MAX_BLOCKS_EDGES))
    ensures blocks == |Only(edges, Blocks)|
  {
    var reached := CollectPrerequisites(rows, rows[row].after, Reached({}, []));
    var deps := reached.out;
    assert deps == Prerequisites(rows, row);
    edges, blocks := EmitBlocksFor(rows, c, start, count, deps, target);
  }

  method EmitBlocksFor(rows: seq<Row>, c: Context, start: seq<Edge>, count: nat, deps: seq<nat>, target: Target)
    returns (edges: seq<Edge>, blocks: nat)
    requires count == |Only(start, Blocks)| < MAX_BLOCKS_EDGES
    requires forall i :: 0 <= i < |deps| ==> deps[i] < |rows|
    ensures edges == PushDeps(rows, c, start, deps, target, Some(MAX_BLOCKS_EDGES))
    ensures blocks == |Only(edges, Blocks)|
  {
    edges, blocks := start, count;
    hide Only, Push;
    var i := 0;
    while i < |deps|
      invariant 0 <= i <= |deps|
      invariant edges == PushDeps(rows, c, start, deps[..i], target, Some(MAX_BLOCKS_EDGES))
      invariant blocks == |Only(edges, Blocks)| < MAX_BLOCKS_EDGES
    {
      assert deps[..i + 1][..i] == deps[..i];
      var blocker := TargetOf(c, rows[deps[i]]);
      if blocker.Some? {
        var e := Edge(Blocks, blocker.value.ext, target.ext, blocker.value.state, target.state);
        edges, blocks := PushCounted(edges, e, blocks);
        if blocks >= MAX_BLOCKS_EDGES {
          FullStaysFull(rows, c, start, deps, i + 1, target, MAX_BLOCKS_EDGES);
          return;
        }
      }
      i := i + 1;
    }
    assert deps[..i] == deps;
  }

  method PushCounted(edges: seq<Edge>, e: Edge, blocks: nat) returns (pushed: seq<Edge>, count: nat)
    requires e.kind == Blocks && blocks == |Only(edges, Blocks)|
    ensures pushed == Push(edges, e) && count == |Only(pushed, Blocks)|
  {
    OnlyPush(edges, e, Blocks);
    pushed, count := edges, blocks;
    if e.from != e.to && !HasKey(edges, e.kind, e.from, e.to) {
      pushed, count := edges + [e], blocks + 1;
    }
  }

  lemma OnlyPush(edges: seq<Edge>, e: Edge, kind: Kind)
    ensures Only(Push(edges, e), kind) ==
            if e.kind == kind && Push(edges, e) != edges then Only(edges, kind) + [e] else Only(edges, kind)
    ensures Push(edges, e) == edges || Push(edges, e) == edges + [e]
  {
    assert (edges + [e])[..|edges|] == edges;
    assert |edges + [e]| == |edges| + 1;
    assert (edges + [e])[|edges|] == e;
  }

  lemma {:induction false} FullStops(rows: seq<Row>, c: Context, edges: seq<Edge>, deps: seq<nat>, target: Target, cap: nat)
    requires forall i :: 0 <= i < |deps| ==> deps[i] < |rows|
    requires |Only(edges, Blocks)| >= cap
    ensures PushDeps(rows, c, edges, deps, target, Some(cap)) == edges
  {
    if deps != [] {
      FullStops(rows, c, edges, deps[..|deps| - 1], target, cap);
    }
  }

  lemma {:induction false} FullStaysFull(rows: seq<Row>, c: Context, edges: seq<Edge>, deps: seq<nat>, k: nat, target: Target, cap: nat)
    requires forall i :: 0 <= i < |deps| ==> deps[i] < |rows|
    requires k <= |deps| && |Only(PushDeps(rows, c, edges, deps[..k], target, Some(cap)), Blocks)| >= cap
    ensures PushDeps(rows, c, edges, deps, target, Some(cap)) == PushDeps(rows, c, edges, deps[..k], target, Some(cap))
    decreases |deps|
  {
    if k == |deps| {
      assert deps[..k] == deps;
    } else {
      assert deps[..|deps| - 1][..k] == deps[..k];
      FullStaysFull(rows, c, edges, deps[..|deps| - 1], k, target, cap);
    }
  }

  // ----- what the edges are

  /** Row `d`'s issue blocks row `r`'s issue: both resolved, different, and `r` depends on `d` through
      gates only. */
  ghost predicate ShouldBlock(rows: seq<Row>, c: Context, count: nat, from: Ext, to: Ext) {
    exists r, d :: 0 <= r < count <= |rows| && 0 <= d < |rows| && Blocking(rows, c, r, d, from, to)
  }

  ghost predicate Blocking(rows: seq<Row>, c: Context, r: nat, d: nat, from: Ext, to: Ext)
    requires r < |rows| && d < |rows|
  {
    && from != to && DependsOn(rows, rows[r].after, d)
    && From(rows, c, r, to) && From(rows, c, d, from)
  }

  lemma PushKeys(edges: seq<Edge>, e: Edge, kind: Kind, from: Ext, to: Ext)
    ensures HasKey(Push(edges, e), kind, from, to) <==>
            HasKey(edges, kind, from, to) || (kind == e.kind && from == e.from && to == e.to && from != to)
  {
    var after := Push(edges, e);
    if after != edges {
      assert after[|edges|] == e;
      if HasKey(edges, kind, from, to) {
        var i :| 0 <= i < |edges| && edges[i].kind == kind && edges[i].from == from && edges[i].to == to;
        assert after[i] == edges[i];
      }
    }
  }

  lemma {:induction false} PushDepsKeys(rows: seq<Row>, c: Context, edges: seq<Edge>, deps: seq<nat>, target: Target, kind: Kind, from: Ext, to: Ext)
    requires forall i :: 0 <= i < |deps| ==> deps[i] < |rows|
    ensures HasKey(PushDeps(rows, c, edges, deps, target, None), kind, from, to) <==>
            || HasKey(edges, kind, from, to)
            || (kind == Blocks && from != to && to == target.ext && exists d :: d in deps && From(rows, c, d, from))
  {
    if deps != [] {
      var front, last := deps[..|deps| - 1], deps[|deps| - 1];
      assert deps == front + [last];
      PushDepsKeys(rows, c, edges, front, target, kind, from, to);
      var blocker := TargetOf(c, rows[last]);
      if blocker.Some? {
        PushKeys(PushDeps(rows, c, edges, front, target, None),
                 Edge(Blocks, blocker.value.ext, target.ext, blocker.value.state, target.state), kind, from, to);
      }
      assert last in deps;
    }
  }

  /** Row `d` has a ref, and its source resolved it to this issue. */
  ghost predicate From(rows: seq<Row>, c: Context, d: nat, from: Ext) {
    d < |rows| && rows[d].ref.Some? && c.resolve(rows[d].ref.value).Some? && c.resolve(rows[d].ref.value).value.ext == from
  }

  lemma EmitRowKeys(rows: seq<Row>, c: Context, before: seq<Edge>, row: nat, kind: Kind, from: Ext, to: Ext)
    requires row < |rows|
    ensures HasKey(EmitRow(rows, c, before, row, None), kind, from, to) <==>
            || HasKey(before, kind, from, to)
            || (kind == Parent && from == c.tracker && from != to && From(rows, c, row, to))
            || (kind == Blocks && from != to && From(rows, c, row, to)
                && exists d :: d in Prerequisites(rows, row) && From(rows, c, d, from))
  {
    if TargetOf(c, rows[row]).None? {
      return;
    }
    PrerequisitesInRange(rows, row);
    var target := TargetOf(c, rows[row]).value;
    var parent := Edge(Parent, c.tracker, target.ext, c.state, target.state);
    PushKeys(before, parent, kind, from, to);
    PushDepsKeys(rows, c, Push(before, parent), Prerequisites(rows, row), target, kind, from, to);
  }

  /** Without the cap, the `blocks` edges are exactly the pairs that should block. */
  lemma {:induction false} BlocksAreExact(rows: seq<Row>, c: Context, count: nat, from: Ext, to: Ext)
    requires count <= |rows|
    ensures HasKey(Emit(rows, c, count, None), Blocks, from, to) <==> ShouldBlock(rows, c, count, from, to)
  {
    if count == 0 {
      return;
    }
    hide EmitRow, HasKey, Prerequisites;
    var r := count - 1;
    BlocksAreExact(rows, c, r, from, to);
    EmitRowKeys(rows, c, Emit(rows, c, r, None), r, Blocks, from, to);
    BlockedByLast(rows, c, count, from, to);
  }

  /** The `parent` edges lead from the tracker to every resolved row's issue but its own. */
  lemma {:induction false} ParentsAreExact(rows: seq<Row>, c: Context, count: nat, from: Ext, to: Ext)
    requires count <= |rows|
    ensures HasKey(Emit(rows, c, count, None), Parent, from, to) <==>
            from == c.tracker && from != to && exists r :: 0 <= r < count && From(rows, c, r, to)
  {
    if count == 0 {
      return;
    }
    hide EmitRow, HasKey, Prerequisites, TargetOf, From;
    ParentsAreExact(rows, c, count - 1, from, to);
    EmitRowKeys(rows, c, Emit(rows, c, count - 1, None), count - 1, Parent, from, to);
    assert (exists r :: 0 <= r < count && From(rows, c, r, to)) <==>
           (exists r :: 0 <= r < count - 1 && From(rows, c, r, to)) || From(rows, c, count - 1, to);
  }

  lemma BlockedByLast(rows: seq<Row>, c: Context, count: nat, from: Ext, to: Ext)
    requires 0 < count <= |rows|
    ensures ShouldBlock(rows, c, count, from, to) <==>
            || ShouldBlock(rows, c, count - 1, from, to)
            || (from != to && From(rows, c, count - 1, to)
                && exists d :: d in Prerequisites(rows, count - 1) && From(rows, c, d, from))
  {
    PrerequisitesAreExact(rows, count - 1);
    var deps := Prerequisites(rows, count - 1);
    if d :| d in deps && From(rows, c, d, from) && from != to && From(rows, c, count - 1, to) {
      assert Blocking(rows, c, count - 1, d, from, to);
    }
    if r, d :| 0 <= r < count && 0 <= d < |rows| && Blocking(rows, c, r, d, from, to) {
      if r == count - 1 {
        assert d in deps && From(rows, c, d, from);
      }
    }
  }

  // ----- what the edges say of their ends

  /** Row `r` was resolved to this issue in this state. */
  ghost predicate ResolvedTo(rows: seq<Row>, c: Context, r: nat, ext: Ext, state: Option<ItemState>) {
    r < |rows| && rows[r].ref.Some? && c.resolve(rows[r].ref.value) == Some(Target(ext, state))
  }

  /** A `parent` edge leads from the tracker in its state to a row's issue in its; a `blocks` edge from an
      issue a row depends on to the row's own, each in the state it was resolved in. */
  ghost predicate Says(rows: seq<Row>, c: Context, count: nat, e: Edge) {
    match e.kind
    case Parent =>
      e.from == c.tracker && e.fromState == c.state
      && exists r :: 0 <= r < count && ResolvedTo(rows, c, r, e.to, e.toState)
    case Blocks => exists r, d :: 0 <= r < count && SaysBlocks(rows, c, r, d, e)
  }

  ghost predicate SaysBlocks(rows: seq<Row>, c: Context, r: nat, d: nat, e: Edge) {
    && r < |rows| && DependsOn(rows, rows[r].after, d)
    && ResolvedTo(rows, c, d, e.from, e.fromState) && ResolvedTo(rows, c, r, e.to, e.toState)
  }

  ghost predicate AllSay(rows: seq<Row>, c: Context, count: nat, edges: seq<Edge>) {
    forall e :: e in edges ==> Says(rows, c, count, e)
  }

  lemma {:induction false} PushDepsSay(rows: seq<Row>, c: Context, edges: seq<Edge>, deps: seq<nat>, row: nat, target: Target, cap: Option<nat>)
    requires row < |rows| && forall i :: 0 <= i < |deps| ==> deps[i] < |rows| && DependsOn(rows, rows[row].after, deps[i])
    requires ResolvedTo(rows, c, row, target.ext, target.state) && AllSay(rows, c, row + 1, edges)
    ensures AllSay(rows, c, row + 1, PushDeps(rows, c, edges, deps, target, cap))
  {
    hide DependsOn, Says, Below, Only, HasKey;
    if deps != [] {
      var last := deps[|deps| - 1];
      PushDepsSay(rows, c, edges, deps[..|deps| - 1], row, target, cap);
      var blocker := TargetOf(c, rows[last]);
      if blocker.Some? {
        var e := Edge(Blocks, blocker.value.ext, target.ext, blocker.value.state, target.state);
        BlockSays(rows, c, row, last, e);
      }
    }
  }

  lemma BlockSays(rows: seq<Row>, c: Context, r: nat, d: nat, e: Edge)
    requires e.kind == Blocks && SaysBlocks(rows, c, r, d, e)
    ensures Says(rows, c, r + 1, e)
  {
  }

  lemma SaysMore(rows: seq<Row>, c: Context, count: nat, edges: seq<Edge>)
    requires AllSay(rows, c, count, edges)
    ensures AllSay(rows, c, count + 1, edges)
  {
    forall e | e in edges
      ensures Says(rows, c, count + 1, e)
    {
      assert Says(rows, c, count, e);
    }
  }

  /** Every edge, under any cap, carries the states its ends were resolved in. */
  lemma {:induction false} EdgesCarryStates(rows: seq<Row>, c: Context, count: nat, cap: Option<nat>)
    requires count <= |rows|
    ensures AllSay(rows, c, count, Emit(rows, c, count, cap))
  {
    if count > 0 {
      hide AllSay, PushDeps;
      var row := count - 1;
      var before := Emit(rows, c, row, cap);
      EdgesCarryStates(rows, c, row, cap);
      SaysMore(rows, c, row, before);
      var target := TargetOf(c, rows[row]);
      if target.Some? {
        ParentSays(rows, c, row, target.value, before);
        PrerequisitesInRange(rows, row);
        PrerequisitesAreExact(rows, row);
        var deps := Prerequisites(rows, row);
        assert forall i :: 0 <= i < |deps| ==> deps[i] in deps;
        PushDepsSay(rows, c, Push(before, Edge(Parent, c.tracker, target.value.ext, c.state, target.value.state)), deps, row, target.value, cap);
      }
    } else {
      assert Emit(rows, c, count, cap) == [];
    }
  }

  lemma ParentSays(rows: seq<Row>, c: Context, row: nat, target: Target, before: seq<Edge>)
    requires AllSay(rows, c, row + 1, before) && ResolvedTo(rows, c, row, target.ext, target.state)
    ensures AllSay(rows, c, row + 1, Push(before, Edge(Parent, c.tracker, target.ext, c.state, target.state)))
  {
  }

  /** Edges come row by row: the rows after only add edges at the end. */
  lemma {:induction false} EmitGrows(rows: seq<Row>, c: Context, some: nat, more: nat, cap: Option<nat>)
    requires some <= more <= |rows|
    ensures Emit(rows, c, some, cap) <= Emit(rows, c, more, cap)
  {
    if some < more {
      EmitGrows(rows, c, some, more - 1, cap);
      EmitRowGrows(rows, c, Emit(rows, c, more - 1, cap), more - 1, cap);
    }
  }

  lemma EmitRowGrows(rows: seq<Row>, c: Context, before: seq<Edge>, row: nat, cap: Option<nat>)
    requires row < |rows|
    ensures before <= EmitRow(rows, c, before, row, cap)
  {
    var target := TargetOf(c, rows[row]);
    if target.Some? {
      PrerequisitesInRange(rows, row);
      var parented := Push(before, Edge(Parent, c.tracker, target.value.ext, c.state, target.value.state));
      PushDepsGrows(rows, c, parented, Prerequisites(rows, row), target.value, cap);
    }
  }

  lemma {:induction false} PushDepsGrows(rows: seq<Row>, c: Context, edges: seq<Edge>, deps: seq<nat>, target: Target, cap: Option<nat>)
    requires forall i :: 0 <= i < |deps| ==> deps[i] < |rows|
    ensures edges <= PushDeps(rows, c, edges, deps, target, cap)
  {
    if deps != [] {
      PushDepsGrows(rows, c, edges, deps[..|deps| - 1], target, cap);
    }
  }

  // ----- no self-edges, no repeats, and the cap

  ghost predicate Clean(edges: seq<Edge>) {
    && (forall i :: 0 <= i < |edges| ==> edges[i].from != edges[i].to)
    && forall i, j :: 0 <= i < j < |edges| ==>
         edges[i].kind != edges[j].kind || edges[i].from != edges[j].from || edges[i].to != edges[j].to
  }

  lemma {:induction false} PushDepsClean(rows: seq<Row>, c: Context, edges: seq<Edge>, deps: seq<nat>, target: Target, cap: Option<nat>)
    requires (forall i :: 0 <= i < |deps| ==> deps[i] < |rows|) && Clean(edges)
    ensures Clean(PushDeps(rows, c, edges, deps, target, cap))
  {
    if deps != [] {
      PushDepsClean(rows, c, edges, deps[..|deps| - 1], target, cap);
    }
  }

  /** Whatever the cap, no self-edge and no repeated edge is emitted. */
  lemma {:induction false} EmitIsClean(rows: seq<Row>, c: Context, count: nat, cap: Option<nat>)
    requires count <= |rows|
    ensures Clean(Emit(rows, c, count, cap))
  {
    if count == 0 {
      return;
    }
    hide EmitRow, Clean;
    EmitIsClean(rows, c, count - 1, cap);
    EmitRowClean(rows, c, Emit(rows, c, count - 1, cap), count - 1, cap);
  }

  lemma EmitRowClean(rows: seq<Row>, c: Context, before: seq<Edge>, row: nat, cap: Option<nat>)
    requires row < |rows| && Clean(before)
    ensures Clean(EmitRow(rows, c, before, row, cap))
  {
    var target := TargetOf(c, rows[row]);
    if target.Some? {
      PrerequisitesInRange(rows, row);
      var parented := Push(before, Edge(Parent, c.tracker, target.value.ext, c.state, target.value.state));
      PushDepsClean(rows, c, parented, Prerequisites(rows, row), target.value, cap);
    }
  }

  function Take(edges: seq<Edge>, cap: nat): seq<Edge> {
    if |edges| <= cap then edges else edges[..cap]
  }

  /** The capped list has the same parents, and a prefix of the blocks. */
  ghost predicate CapsTo(capped: seq<Edge>, full: seq<Edge>, cap: nat) {
    Only(capped, Parent) == Only(full, Parent) && Only(capped, Blocks) == Take(Only(full, Blocks), cap)
  }

  lemma {:induction false} KeyOnly(edges: seq<Edge>, kind: Kind, from: Ext, to: Ext)
    ensures HasKey(edges, kind, from, to) <==> HasKey(Only(edges, kind), kind, from, to)
  {
    if edges != [] {
      var front, last := edges[..|edges| - 1], edges[|edges| - 1];
      KeyOnly(front, kind, from, to);
      KeyOfAppend(front, last, kind, from, to);
      assert edges == front + [last];
      if last.kind == kind {
        KeyOfAppend(Only(front, kind), last, kind, from, to);
      } else {
        assert Only(edges, kind) == Only(front, kind);
      }
    }
  }

  lemma KeyOfAppend(edges: seq<Edge>, e: Edge, kind: Kind, from: Ext, to: Ext)
    ensures HasKey(edges + [e], kind, from, to) <==> HasKey(edges, kind, from, to) || (e.kind == kind && e.from == from && e.to == to)
  {
    var after := edges + [e];
    assert after[|edges|] == e;
    if HasKey(edges, kind, from, to) {
      var i :| 0 <= i < |edges| && edges[i].kind == kind && edges[i].from == from && edges[i].to == to;
      assert after[i] == edges[i];
    }
  }

  lemma PushCaps(capped: seq<Edge>, full: seq<Edge>, e: Edge, cap: nat)
    requires CapsTo(capped, full, cap)
    ensures e.kind == Parent || |Only(capped, Blocks)| < cap ==> CapsTo(Push(capped, e), Push(full, e), cap)
    ensures e.kind == Blocks && |Only(capped, Blocks)| >= cap ==> CapsTo(capped, Push(full, e), cap)
  {
    hide Only, HasKey;
    KeyOnly(capped, e.kind, e.from, e.to);
    KeyOnly(full, e.kind, e.from, e.to);
    OnlyPush(capped, e, Parent);
    OnlyPush(capped, e, Blocks);
    OnlyPush(full, e, Parent);
    OnlyPush(full, e, Blocks);
    assert |Push(capped, e)| == |capped| <==> Push(capped, e) == capped;
    assert |Push(full, e)| == |full| <==> Push(full, e) == full;
  }

  lemma {:induction false} PushDepsCaps(rows: seq<Row>, c: Context, capped: seq<Edge>, full: seq<Edge>, deps: seq<nat>, target: Target, cap: nat)
    requires (forall i :: 0 <= i < |deps| ==> deps[i] < |rows|) && CapsTo(capped, full, cap)
    ensures CapsTo(PushDeps(rows, c, capped, deps, target, Some(cap)), PushDeps(rows, c, full, deps, target, None), cap)
  {
    if deps != [] {
      var front := deps[..|deps| - 1];
      PushDepsCaps(rows, c, capped, full, front, target, cap);
      var blocker := TargetOf(c, rows[deps[|deps| - 1]]);
      if blocker.Some? {
        PushCaps(PushDeps(rows, c, capped, front, target, Some(cap)), PushDeps(rows, c, full, front, target, None),
                 Edge(Blocks, blocker.value.ext, target.ext, blocker.value.state, target.state), cap);
      }
    }
  }

  /** Under any cap the parents are unchanged and the `blocks` edges are a prefix of the uncapped
      order: all of them while fewer than the cap, else exactly `cap` of them. */
  lemma {:induction false} CapKeepsPrefix(rows: seq<Row>, c: Context, count: nat, cap: nat)
    requires count <= |rows|
    ensures CapsTo(Emit(rows, c, count, Some(cap)), Emit(rows, c, count, None), cap)
  {
    hide CapsTo, EmitRow;
    if count == 0 {
      NothingCaps(cap);
    } else {
      CapKeepsPrefix(rows, c, count - 1, cap);
      EmitRowCaps(rows, c, Emit(rows, c, count - 1, Some(cap)), Emit(rows, c, count - 1, None), count - 1, cap);
    }
  }

  lemma NothingCaps(cap: nat)
    ensures CapsTo([], [], cap)
  {
  }

  lemma EmitRowCaps(rows: seq<Row>, c: Context, capped: seq<Edge>, full: seq<Edge>, row: nat, cap: nat)
    requires row < |rows| && CapsTo(capped, full, cap)
    ensures CapsTo(EmitRow(rows, c, capped, row, Some(cap)), EmitRow(rows, c, full, row, None), cap)
  {
    var target := TargetOf(c, rows[row]);
    if target.Some? {
      var parent := Edge(Parent, c.tracker, target.value.ext, c.state, target.value.state);
      PushCaps(capped, full, parent, cap);
      PrerequisitesInRange(rows, row);
      PushDepsCaps(rows, c, Push(capped, parent), Push(full, parent), Prerequisites(rows, row), target.value, cap);
    }
  }

  /** The whole statement about the shipped routine: below the cap its `blocks` edges are exactly the
      pairs that should block. */
  lemma BelowCapIsExact(rows: seq<Row>, c: Context, from: Ext, to: Ext)
    requires |Only(Emit(rows, c, |rows|, Some(MAX_BLOCKS_EDGES)), Blocks)| < MAX_BLOCKS_EDGES
    ensures HasKey(Emit(rows, c, |rows|, Some(MAX_BLOCKS_EDGES)), Blocks, from, to) <==> ShouldBlock(rows, c, |rows|, from, to)
  {
    var capped, full := Emit(rows, c, |rows|, Some(MAX_BLOCKS_EDGES)), Emit(rows, c, |rows|, None);
    CapKeepsPrefix(rows, c, |rows|, MAX_BLOCKS_EDGES);
    BlocksAreExact(rows, c, |rows|, from, to);
    KeyOnly(capped, Blocks, from, to);
    KeyOnly(full, Blocks, from, to);
  }
}
