# symphony-board: a verified model of its delivery, graph, sync and projection logic

symphony-board mirrors issues, pull requests, edges and activity from code hosts into one store, serves
contract projections and a focused graph from it, and streams live webhook events to subscribers, one
of which is a bridge that posts them to Telegram. This project models the parts whose correctness spans
whole runs or unbounded inputs, and proves what each promises.

- **Live delivery** (`live_log`, `live_receiver`, `live_delivery`, `live_bridge`, `cursor_file`,
  `sse_stream`). The
  append-only log with retention and byte-bounded pages, the replay-then-live handoff with one
  high-water mark per subscriber, reset frames, and a bridge that persists its cursor and may crash
  anywhere. The whole protocol is a state machine over fifteen actions; the imperative classes are
  proved against the functions that machine is made of, and one pass of the bridge's stream loop is
  proved to be an execution of it. A separate module covers the wire text, however it is chunked.
- **Graph neighbourhood** (`sorting`, `sets`, `graph_build`, `graph_response`, `graph_discovery`,
  `graph_reader`, `graph_refinement`). The capped breadth-first builder against true distances, which nodes
  and edges survive the caps, the edge cap against connectivity, and the frontier-by-frontier reader as a refinement of the builder on the whole store.
- **Tracker tables** (`tracker`). Gate rows contracted to reachability through gates, under a hard cap.
- **Sync engine and store** (`reconcile`, `disappearance`, `activity_bounds`, `watermark`,
  `commit_pass`, `commit_queue`, `text_band`, `calendar`). Edge reconciliation, tombstones over whole
  histories, the write-maintained bounds cache, watermarks while the provider changes underneath, the
  commit-file pass under every interleaving of its workers, and the two-layer range read.
- **Contract projections** (`buckets`, `repo_metrics`, `actor_groups`, `actor_directory`). Calendar
  buckets, conservation of counters between series and totals, and at-most-one attribution of actors.
- **Small transformations** (`lines`, `texts`, `telegram`, `env_file`). Escape and clamp, message length, and
  the env-file edit law.

Instants are integers in milliseconds, ids are numbers or strings, tables are maps or sequences, and a
transaction commits or restores. Whatever the environment decides (which write fails, when a process
crashes, what a provider answers, which worker runs next) is a parameter, an action or a
nondeterministic choice, so the theorems hold for all of it.

## What turned out not to hold as stated

Each of these is kept as the code has it, with a counterexample and the exact condition proved.

- An event is passed over silently in exactly three situations of the modelled protocol: the bridge starts
  while its existing cursor file cannot be read, connects at cursor 0 to a log that retention emptied, or is
  connected while a push is stored whose handler throws before it broadcasts
  (`LiveDelivery.SkipsExactlyWhen`, `LiveDelivery.BlindExactlyWhen`, and three concrete runs).
- An event can be sent twice although every cursor write succeeded and nothing crashed: the stream throws
  while the cursor file cannot be read (`LiveDelivery.UnreadableCursorRepeatsAnEvent`). Exactly which steps
  leave the cursor behind a handled event the log still holds is `LiveDelivery.DesyncsExactlyWhen`, and
  exactly when a connection from such a cursor carries a handled event is `LiveDelivery.ReplaysExactlyWhen`.
- The truncated flag of the bounded edge read is wrong at limit 0 (`GraphReader.FlagExactness`).
- The text band loses every row once the upper bound plus its margin reaches the year 10000, because a
  signed year sorts before digits (`TextBand.TwoLayersAreExactWhen`, `TextBand.EndOf9999LosesRows`).
- A run whose page request failed still advances the watermark past issues it never read
  (`Watermark.CommitIsSafeExactlyWhen` says for every commit which issues those are,
  `Watermark.ExecutionIsSafeExactlyWhen` for whole executions, `Watermark.FailedPageLosesAnIssue` is one).
- Two runs started in the same millisecond: the second sweep misses what only the first reported
  (`Disappearance.SweepIsExactWhen`, `Disappearance.SameStartMissesTombstone`).
- The state kept for an edge endpoint the run did not see depends on report order
  (`Reconcile.UnseenStateIsOrderFreeExactlyWhen`).
- Edge counters are not conserved between buckets and window (`RepoMetrics.EdgesAreConservedExactlyWhen`).
- The bounds cache's dirty key is one bucket's only if no configured source id continues another with a NUL
  and `path:` (`ActivityBounds.BucketIdsMeetExactlyWhen`, `ActivityBounds.SourcesMeetExactlyWhen`,
  `ActivityBounds.BucketIdCollides`). Besides such ids it takes a NUL inside a project path.
- The two drivers fill the bounds cache alike only if their databases order the timestamps alike
  (`ActivityBounds.DriversAgreeExactlyWhen`, proved from two rows whose ids go against the first order).

## Model

| member | source | states |
|---|---|---|
| `LiveDelivery.NoSilentLoss` | src/cli/live-telegram-bridge.ts:431-521 | in every state of every run of appends, pushes that fail before their broadcast, prunes, connects, drops, evictions, failed sends and writes, and crashes, each event from the seed up to the persisted cursor was acknowledged, dropped as poison, given up by a reset that was read, or passed over; and nothing is passed over unless some step starts over an unreadable cursor, connects at cursor 0 to an emptied log, or stores rows it does not broadcast while the bridge is registered |
| `LiveDelivery.StepKeepsInv` | src/live/receiver.ts:207-329 | the protocol invariant behind it: the unread wire carries increasing numbers after the last one read, and the ledger accounts for every event up to what has been dealt with |
| `LiveDelivery.SkipsExactlyWhen` | src/cli/live-telegram-bridge.ts:523-623 | a step passes an event over if and only if it acknowledges an event beyond the next one to be dealt with, or persists a new seed over a forgotten cursor with events in between |
| `LiveDelivery.BlindExactlyWhen` | src/live/receiver.ts:207-329 | a connection comes to leave events behind if and only if cursor 0 is accepted on an emptied log with an event still to be dealt with, or rows are stored without being broadcast to it |
| `LiveDelivery.DesyncsExactlyWhen` | src/cli/live-telegram-bridge.ts:431-474 | a step leaves the bridge with a cursor behind a handled event the log still holds if and only if it is a failed cursor write, a crash between send and write, or an unreadable cursor after a throw, and that event is still retained |
| `LiveDelivery.ReplaysExactlyWhen` | src/live/receiver.ts:282-328 | a new connection carries an event handled before if and only if the cursor is behind such an event, the receiver does not answer with a reset, and a frame gets through |
| `LiveDelivery.GivenUpOnlyOutOfReach` | src/live/receiver.ts:284-306 | in every run an event given up comes from an earlier connection whose cursor the receiver could not serve: ahead of the log, before its oldest row with events in between, or further behind than the replay limit; and it lies beyond that cursor, up to the head of that moment |
| `LiveDelivery.GivesUpExactlyWhen` | src/cli/live-telegram-bridge.ts:443-459 | a step gives up exactly the events between what has been dealt with and the number carried by the reset it reads |
| `LiveDelivery.DeliveredAtMostOnce` | src/cli/live-telegram-bridge.ts:496-521 | in a run without such a step the channel receives strictly increasing events and every event is dealt with in exactly one of the four ways |
| `LiveDelivery.EmptiedLogLosesAnEvent` | src/live/store.ts:498-524 | a concrete run: one event is appended and pruned before the bridge connects at cursor 0, and is lost without a reset |
| `LiveDelivery.UnreadableCursorLosesAnEvent` | src/cli/live-telegram-bridge.ts:209-219 | a concrete run: a restart over an unreadable cursor file seeds past a stored event |
| `LiveDelivery.UnsentRowLosesAnEvent` | src/live/receiver.ts:207-239 | a concrete run: a push is stored while the bridge is connected, its handler throws before the broadcast, and the next event passes the row over |
| `LiveDelivery.UnreadableCursorRepeatsAnEvent` | src/cli/live-telegram-bridge.ts:523-623 | a concrete run: the same event sent twice with every write durable and no crash |
| `TelegramBridge.Bridge.StreamOnce` | src/cli/live-telegram-bridge.ts:400-474 | one connection's worth of the stream loop is an execution of the protocol that ends with exactly this cursor and this cursor file, or with the file's cursor when a send threw; and the cursor, the events sent and dropped and whether it threw are those of the frame-by-frame outcome |
| `TelegramBridge.OutcomeIsFair` | src/cli/live-telegram-bridge.ts:461-521 | of that outcome: an event is sent only if Telegram accepted it, dropped only as poison, and the stream throws only at a send that did |
| `TelegramBridge.OutcomeIsComplete` | src/cli/live-telegram-bridge.ts:461-521 | on a connection of ascending events, with every write durable and no send throwing, every event beyond the start is sent or dropped as the answer says and the cursor ends at the last of them |
| `TelegramBridge.Bridge.WriteCursor` | src/cli/live-telegram-bridge.ts:224-235 | the cursor a restart would read changes only when the write is durable, and the two files are in a state a crash during it could leave |
| `CursorFile.WriteCursor` | src/cli/live-telegram-bridge.ts:224-235 | the temporary is written and renamed: a thrown write, torn or not, leaves the cursor file reading as before |
| `CursorFile.CrashNeverTears` | src/cli/live-telegram-bridge.ts:219-235 | a crash anywhere in the write leaves the old cursor or the new one |
| `CursorFile.TornNumberReads` | src/cli/live-telegram-bridge.ts:209-217 | why the rename is needed: a number cut short by a digit still reads as a cursor, a tenth of it |
| `CursorFile.RoundTrip` | src/cli/live-telegram-bridge.ts:209-235 | every cursor written reads back |
| `CursorFile.ReadableExactlyWhen` | src/cli/live-telegram-bridge.ts:209-217 | a cursor file is readable if and only if it holds digits with nothing but white space around them |
| `CursorFile.PaddedCursorReads` | src/cli/live-telegram-bridge.ts:209-217 | and then reads as that number |
| `LiveReceiver.Receiver.HandleSse` | src/live/receiver.ts:267-329 | a new connection carries exactly the frames the decision calls for, up to the write that failed, and starts with a reset if and only if the cursor is out of reach; no other connection is touched; refused only at capacity |
| `LiveReceiver.ReseedsExactlyWhen` | src/live/receiver.ts:284-306 | on a contiguous log a reset is answered if and only if the cursor is ahead of the newest row, rows after it are gone, or more rows than the replay limit follow it; as stale exactly when it is ahead |
| `LiveReceiver.ReplayIsLongestFit` | src/live/receiver.ts:292-328 | any other cursor is answered with the longest prefix of the rows after it that fits the row limit and the byte budget, or one row, and the connection stays open if and only if that is all of them |
| `LiveReceiver.Receiver.HandleWebhook` | src/live/receiver.ts:207-239 | a delivery stores each event whose key is new, once, numbered consecutively, and every subscriber whose socket stays healthy receives exactly those in order, any other a prefix of them before it is evicted; a handler that throws while appending or looking up profiles keeps what it stored and broadcasts none of it |
| `LiveReceiver.IngestsEachKeyOnce` | src/live/receiver.ts:207-239 | every row added is for the first occurrence in the delivery of a key not stored before, with consecutive numbers and no key twice, and every key of the delivery is stored in the end |
| `LiveReceiver.DecisionShape` | src/live/receiver.ts:267-329 | on a contiguous log a replay starts right after the cursor and reaches the head, a prefix stops short of it, and a reset carries the newest number |
| `LiveReceiver.Broadcaster.Broadcast` | src/live/broadcaster.ts:119-121 | one event is written to every registered subscriber below it whose socket is healthy and moves its mark, closes one whose socket fails, and leaves all others as they were, whatever order they are visited in |
| `LiveReceiver.SentAtKeepsCover` | src/live/broadcaster.ts:104-115 | no response ever carries an event twice or out of order, and the high-water mark covers all that was sent |
| `LiveReceiver.FanoutOrderIsIrrelevant` | src/live/broadcaster.ts:119-121 | visiting subscribers one by one in any order, with repeats, gives what sending to all at once gives |
| `LiveReceiver.FanoutToOne` | src/live/broadcaster.ts:104-156 | a subscriber below the new numbers receives a gap-free prefix of them, up to the first event its socket fails at, and is evicted exactly when the prefix is not everything |
| `LiveLog.LiveStore.Append` | src/live/store.ts:344-382 | insert-or-ignore on the delivery key: a known key changes nothing; a new one takes the next number, and a contiguous log stays contiguous |
| `LiveLog.LiveStore.Page` | src/live/store.ts:429-475 | the page is the longest prefix of the matches inside the row limit and the byte budget, or a single row, and the match count is exact up to one past the limit |
| `LiveLog.FitIsLongest` | src/live/store.ts:429-475 | the row-at-a-time count is the declarative longest fit and nothing else is |
| `LiveLog.WeightIs` | src/live/store.ts:457-462 | a row counts for its payload and 2048 bytes more |
| `LiveLog.RangeReadsPrefix` | src/live/store.ts:429-475 | loading back the number range spanned by a prefix of the matches yields exactly that prefix, in both orders |
| `LiveLog.LiveStore.Prune` | src/live/store.ts:498-524 | pruning leaves the rows inside the time limit and then the newest of them up to the cap, and counts what it removed |
| `LiveLog.RetentionDropsOldestPrefix` | src/live/store.ts:498-524 | with a clock that never goes back retention keeps exactly the rows inside the time limit that are among the newest up to the cap, which are the end of the log |
| `LiveLog.WalkIsLossless` | src/live/receiver.ts:331-380 | following the cursor of each snapshot page until not truncated terminates and returns each row below the start exactly once, newest first, for every limit of at least one and every byte budget |
| `LiveLog.WholeLogWalk` | src/live/receiver.ts:331-380 | from the top that walk returns the whole retained log reversed |
| `LiveLog.WalkOverIsLossless` | src/live/receiver.ts:331-380 | the same while rows are appended and pruned between pages: the walk returns a newest-first prefix of what the first log matched, and that prefix holds every row still retained at the end |
| `LiveLog.WalkCompletes` | src/live/receiver.ts:331-380 | such a walk ends within one page more than the first log has matches |
| `SseStream.ChunksDoNotMatter` | src/cli/live-telegram-bridge.ts:429-441 | however the transport cuts the stream, the frames the bridge reads are the frames the receiver wrote, with nothing left over |
| `SseStream.CutStreamReadsPrefix` | src/cli/live-telegram-bridge.ts:429-441 | a connection cut anywhere yields a prefix of the frames, none torn |
| `SseStream.BlockRoundTrip` | src/live/broadcaster.ts:42-51 | parsing the text of a live, update, reset, retry or heartbeat frame gives back what was sent |
| `SseStream.ReadStream` | src/cli/live-telegram-bridge.ts:431-474 | the chunk and block loops read all frames of the concatenated stream, unless the buffer limit is passed, and then exactly those before the chunk that passes it |
| `SseStream.ParseSseFrame` | src/cli/live-telegram-bridge.ts:115-131 | the line loop computes the frame of the folded fields, which the round trip is about |
| `SseStream.FieldLineIsRead` | src/cli/live-telegram-bridge.ts:118-128 | a line sets its field with or without the space after the colon and the carriage return at its end, a missing colon meaning an empty value; any other field is ignored |
| `SseStream.DataLinesJoin` | src/cli/live-telegram-bridge.ts:118-130 | data on several lines is joined again with line feeds |
| `SseStream.ReturnsHideBlankLines` | src/cli/live-telegram-bridge.ts:438-440 | of every text whose line feeds all follow a carriage return, which section 9.2.6 of the HTML standard allows, the bridge reads nothing and keeps all of it in the buffer |
| `SseStream.NoBlockExactlyWhen` | src/cli/live-telegram-bridge.ts:438-440 | it reads nothing of a text if and only if no two line feeds meet in it |
| `GraphResponse.HopsAreExact` | src/server/graph-neighborhood.ts:173-200 | for every node cap each returned hop is the shortest undirected distance from the focus, and no omitted node is nearer than a returned one |
| `GraphResponse.NodesAreOrdered` | src/server/graph-neighborhood.ts:237-247 | the reached depth is the greatest hop of a returned node; nodes come by hop and then by reference, each once, the focus first and no more than the cap |
| `GraphDiscovery.SurvivorsAreFirst` | src/server/graph-neighborhood.ts:173-200 | which nodes survive the node cap: they are found in order, each by the earliest node adjacent to it, the nearer reference first; a neighbour is left out only at the requested depth or because the cap was full of nodes that all come before it |
| `GraphDiscovery.EdgesAreRanked` | src/server/graph-neighborhood.ts:221-235 | which edges survive the edge cap: the first of the induced edges when those of the search tree come first, then the nearer ones, then by start, end and type |
| `GraphResponse.LimitsAreExact` | src/server/graph-neighborhood.ts:236-246 | no node or depth reason is given if and only if the returned nodes are the focus's whole component, and no edge reason if and only if every edge among them is returned |
| `GraphResponse.EdgeCapNeverDisconnects` | src/server/graph-neighborhood.ts:201-234 | for distinct edges and any edge cap every selected edge connects to the focus through selected edges; with a cap of at least nodes minus one so does every node |
| `GraphResponse.BuildNeighborhood` | src/server/graph-neighborhood.ts:142-258 | the queue loop with its hop map, tree edges and caps computes the neighbourhood function those theorems are about; none exactly for an unknown focus |
| `GraphResponse.IncidentLists` | src/server/graph-neighborhood.ts:161-171 | the incrementally built lists hold exactly the edges at each node, in edge order |
| `GraphNeighborhood.HopsAreDistances` | src/server/graph-neighborhood.ts:173-200 | the search's hops are distances, found nodes come before missing ones, and its cut flags are raised exactly when something reachable is missing |
| `GraphReader.PageIsExact` | src/db/sqlite.ts:575-604 | for a positive limit the truncated flag is true exactly when more edges touch the references than the limit, and an untruncated page is exactly those edges |
| `GraphReader.FlagExactness` | src/db/sqlite.ts:575-604 | for any limit the flag is exact if and only if the limit is positive or there is nothing to read |
| `GraphReader.ReadFrontier` | src/server/graph-neighborhood.ts:500-525 | an uncut frontier read holds every edge at the frontier; a read is cut only if the store holds more than half the edge limit |
| `GraphReader.Absorb` | src/server/graph-neighborhood.ts:526-577 | the allowed references, rows and edges after a round are exactly those inside the configuration, and the next frontier the unvisited ends |
| `GraphRefinement.ProjectedIs` | src/contract/build.ts:1604-1628 | the projection keeps an edge if and only if both its ends belong to configured sources and neither has a row in a repository that is not configured |
| `GraphRefinement.ReadNeighborhood` | src/server/graph-neighborhood.ts:470-597 | a response the bounded reader reports complete equals the builder's on every live item and edge of the store; and unless a read was cut it is complete exactly when the builder's is |
| `GraphRefinement.CompleteIsExact` | src/contract/build.ts:1604-1628 | the same for what the reader gathered, given its loop invariant, with the configuration gates of the projection |
| `GraphRefinement.UncutIsExact` | src/server/graph-neighborhood.ts:470-597 | when no read was cut, the gathered part is reported complete if and only if the whole store's projection is |
| `GraphRefinement.SameNeighborhood` | src/server/graph-neighborhood.ts:142-264 | the response depends only on the edges at the nodes it finds, not on their order or on the rest of the store |
| `Tracker.PrerequisitesAreExact` | src/model/tracker.ts:208-216 | the expansion of a row reaches exactly the issue rows reachable along `after` links through gate rows only, each once, on any gate cycle |
| `Tracker.PrerequisitesAreOrdered` | src/model/tracker.ts:208-216 | they come in the order they are first reached: what the first ids of `after` lead to comes before the rest |
| `Tracker.CollectPrerequisites` | src/model/tracker.ts:208-216 | the recursion over the shared gate and result sets terminates and computes that expansion |
| `Tracker.TrackerEdges` | src/model/tracker.ts:190-247 | the row loop with its counter and early stops emits the capped edge list of the specification: no self-edge, none twice, at most 1000 `blocks`, exactly the resolved parents, and below the cap exactly the pairs that should block, each with the states its ends resolved in |
| `Tracker.EdgesCarryStates` | src/model/tracker.ts:218-246 | under any cap every `blocks` edge comes from a row and an issue row it depends on, carries the state the latter's reference resolved in at its start and the former's at its end; every `parent` edge carries the tracker's state and the row's |
| `Tracker.EmitGrows` | src/model/tracker.ts:218-246 | edges come in table order: later rows only add at the end |
| `Tracker.BlocksAreExact` | src/model/tracker.ts:184-247 | without the cap the `blocks` edges are exactly the resolved, distinct pairs of a row and an issue row it depends on through gates |
| `Tracker.ParentsAreExact` | src/model/tracker.ts:234-246 | the `parent` edges lead from the tracker to every resolved row's issue but its own, and are never cut |
| `Tracker.EmitIsClean` | src/model/tracker.ts:220-232 | whatever the cap no self-edge and no repeated edge is emitted |
| `Tracker.CapKeepsPrefix` | src/model/tracker.ts:234-246 | under any cap the parents are unchanged and the `blocks` edges are a prefix of the uncapped order, all of them while fewer than the cap |
| `Tracker.BelowCapIsExact` | src/model/tracker.ts:184-247 | the shipped routine, whenever it ends below its cap, emits exactly the pairs that should block |
| `Tracker.FirstIsLeast` | src/model/tracker.ts:190-191 | an id used twice means its first row, and an id is found if any row has it |
| `Reconcile.ReconcileEdges` | src/model/edges.ts:69-95 | the map loop yields one edge per reported key, with the first known state of each endpoint, a derived lifecycle and the join of the reporting sides |
| `Reconcile.RunEdges` | src/sync-engine.ts:265-291 | a run writes one edge per reported key, refined with the states of the items it saw, and each says what `RunEdgeSays` states |
| `Reconcile.RunEdgeSays` | src/model/edges.ts:34-95 | of each edge written: each end carries the state the run last saw it in, or if it saw none a state some report gave; a closing edge is fulfilled from merged to closed, broken from closed, declared otherwise, and other kinds have no lifecycle; the provenance is the ends whose items reported it |
| `Reconcile.OrderIsIrrelevant` | src/model/edges.ts:69-95 | any reordering or repetition of the bundles gives the same provenance, the same state for every endpoint seen this run, and the same edge when both were seen; the lifecycle is always derived from the final states |
| `Reconcile.SameKeys` | src/model/edges.ts:57-61 | and the same set of edges |
| `Reconcile.UnseenStateIsOrderFreeExactlyWhen` | src/model/edges.ts:80-88 | the state kept for an endpoint is the same in every order if and only if the reports that carry one agree |
| `Reconcile.UnseenStateDependsOnOrder` | src/model/edges.ts:80-88 | two reports with different states give two results in two orders |
| `Disappearance.LiveIsStillReported` | src/sync-engine.ts:345-355 | over every history with increasing start times a row is live if and only if some committed run reported it and no later committed full and complete run of its own source left it out |
| `Disappearance.OnlySweepsTombstone` | src/sync-engine.ts:345-355 | a row is tombstoned only by a committed full and complete run of its own source that did not report it; partial, incremental, dry, failed and rolled-back runs tombstone nothing |
| `Disappearance.SweepIsExact` | src/db/sqlite.ts:494-516 | after such a run of a chronological history the rows that an owner function gives to its source are live exactly as reported; the two rows below say it of the tables |
| `Disappearance.SweptItems` | src/db/sqlite.ts:494-516 | after such a run an item or review thread of its source is live if and only if it reported it, and one of another source that it did not report is unchanged |
| `Disappearance.SweptEdges` | src/db/sqlite.ts:501-509 | an edge with both ends in the source is live if and only if it reported it, and any other edge that it did not report is unchanged |
| `Disappearance.ItemLiveExactlyWhen` | src/sync-engine.ts:345-355 | over every chronological history an item is live if and only if some committed run reported it and no later committed full and complete run of its source left it out |
| `Disappearance.SweepIsExactWhen` | src/db/sqlite.ts:494-516 | for one run on any table that holds if and only if no other live row of the source was last seen at or after the run's start |
| `Disappearance.SameStartMissesTombstone` | src/db/sqlite.ts:494-516 | two sweeps started in the same millisecond leave a row live that the second did not report |
| `Disappearance.CrossSourceEdgesStay` | src/db/sqlite.ts:501-509 | a cross-source edge is live exactly when some committed run reported it, for ever |
| `Disappearance.Store.SyncSource` | src/sync-engine.ts:242-375 | what one run makes of each item, thread and edge: reported ones become live as of its start, a full and complete run tombstones what it left out of its own source, nothing else changes, nor does anything in a dry, failed or rolled-back run; tombstones are counted |
| `ActivityBounds.Store.Transaction` | src/db/sqlite.ts:909-928 | for every set of sources none of which extends another, after every commit the cache equals the recomputed extent of every bucket, however often activities moved in between; after every failure both tables are as before |
| `ActivityBounds.LastWriteWins` | src/db/sqlite.ts:295-342 | after any writes an activity has the project and time of the last write to it, under the id it had before or a new one; the transaction promises it of the table |
| `ActivityBounds.Store.UpsertActivity` | src/db/sqlite.ts:295-342 | an upsert keeps every clean bucket exact, and outside a transaction leaves all of them exact |
| `ActivityBounds.Store.Flush` | src/db/sqlite.ts:398-402 | recomputing the dirty buckets in any order makes every bucket exact |
| `ActivityBounds.PutTouchesTwo` | src/db/sqlite.ts:295-342 | an upsert changes no bucket but the one it enters and the one it leaves |
| `ActivityBounds.BoundsFromRows` | src/db/postgres.ts:99-117 | the running minimum and maximum end at the first and the last of the dated rows, ties going to the smaller and the larger id |
| `ActivityBounds.DriversAgree` | src/db/sqlite.ts:404-444 | the two ordered window reads give the same row as the loop, for every list of rows whose timestamps the two databases order alike |
| `ActivityBounds.DriversAgreeExactlyWhen` | src/db/postgres.ts:99-117 | over a set of timestamps the drivers agree on every bucket if and only if the two readings of a timestamp order the set alike |
| `ActivityBounds.BucketIdsMeetExactlyWhen` | src/db/repo-activity-bounds.ts:8-19 | two different buckets share a dirty key if and only if one source is the other followed by NUL and `path:` and more, and the shorter one's path holds that more, a NUL and the other project's key |
| `ActivityBounds.SourcesMeetExactlyWhen` | src/db/repo-activity-bounds.ts:17-19 | two sources have buckets with a common key if and only if one is the other followed by NUL and `path:` |
| `ActivityBounds.BucketIdCollides` | src/db/repo-activity-bounds.ts:17-19 | two such buckets |
| `Watermark.ExecutionIsSafeExactlyWhen` | src/sources/github.ts:353-408 | with either driver, and with updates landing while a run pages, every issue last updated strictly before the stored watermark is stored at that version throughout an execution if and only if no run ends by stranding an issue |
| `Watermark.ExecutionIsSafe` | src/sources/github.ts:448-449 | in particular in every execution in which no failed paging moves the watermark |
| `Watermark.CommitIsSafeExactlyWhen` | src/sources/github.ts:405-449 | a commit is safe if and only if no issue is stranded: not current, not among the run's records, after its last page, not older than its cutoff, yet older than the new watermark |
| `Watermark.CurrentUnlessStranded` | src/sources/github.ts:405-449 | the same issue by issue |
| `Watermark.FailedPageLosesAnIssue` | src/sources/github.ts:405-416 | a concrete execution in which a failed paging strands the older issue, which is missed until a run asks for it again, as a full one does |
| `Watermark.FullRunRecovers` | src/sources/github.ts:353-408 | whatever earlier runs stranded, the commit of a full run whose paging ended makes the store safe |
| `Watermark.NewMarkIsBounded` | src/sync-engine.ts:94-100 | after the cap and either driver's merge the stored watermark is not past the run's start, and a withheld one leaves it alone |
| `Watermark.CommitMovesMark` | src/sync-engine.ts:94-100 | and exactly where it is: the reported mark is the earlier of the newest record's second and the run's start; the SQLite driver stores it as it is, the Postgres driver only if its text is the later, where in one second a mark without milliseconds is |
| `Watermark.OnlyCutPagingStrands` | src/db/sqlite.ts:486-489 | a commit strands nothing if its paging ended or the watermark stays where it was |
| `CommitPass.UnstoppedAnswersAll` | src/sources/commit-files.ts:286-335 | under every interleaving of the workers a pass that ends without stopping has a record for every candidate |
| `CommitPass.AnswersAllExactlyWhen` | src/sources/commit-files.ts:318-335 | a finished pass answers every candidate if and only if each empty slot belongs to a commit set aside and, if there are such, some other commit was answered |
| `CommitPass.Collect` | src/sources/commit-files.ts:322-335 | the records are exactly the recorded candidates, each once; set-aside commits count as unavailable only if another was answered |
| `CommitPass.SlotsHoldAnswers` | src/sources/commit-files.ts:300-321 | in every run each slot holds what became of its candidate: its own answer's state, unavailable if it was not asked for, and nothing for a failed request or one not made because the pass had stopped |
| `CommitPass.AnsweredExactlyWhen` | src/sources/commit-files.ts:300-321 | the answer count is positive if and only if some request was answered with files or as gone |
| `CommitPass.InFlightIsBounded` | src/lib/concurrency.ts:1-41 | in no state of any run are more requests in flight than asked for, one at a time if that was less than one or not a number |
| `CommitPass.WorkersAreAsked` | src/lib/concurrency.ts:19-31 | and there are as many workers as asked for, or as there are candidates |
| `CommitPass.StopsOnlyWhen` | src/sources/commit-files.ts:306-320 | a pass stops only at a failure about the whole source, or at the eighth failure with nothing answered |
| `CommitPass.StopsWhen` | src/sources/commit-files.ts:306-320 | and does stop there |
| `CommitPass.StoppedStaysQuiet` | src/sources/commit-files.ts:300-301 | a stopped pass makes no further request and keeps its message |
| `CommitPass.SlotsAreWrittenOnce` | src/lib/concurrency.ts:24-41 | each candidate is claimed once: a filled slot never changes |
| `CommitPass.ExecutionKeepsInv` | src/lib/concurrency.ts:24-41 | in every reachable state a slot is filled exactly when claimed and no longer being read, and no two workers read one candidate |
| `CommitPass.ExecutionsAreBounded` | src/lib/concurrency.ts:24-41 | every execution takes a bounded number of steps |
| `CommitPass.NobodyIsStuck` | src/lib/concurrency.ts:24-41 | and can go on until every worker is done |
| `CommitQueue.SweepsDrain` | src/sync-engine.ts:187-230 | repeated unstopped sweeps of at least one commit empty any queue, the limit's worth at a time |
| `CommitQueue.SweepShortens` | src/db/sqlite.ts:681-702 | one such sweep removes exactly the batch from the queue and keeps the order of the rest |
| `CommitQueue.Store.EnrichCommitFiles` | src/sync-engine.ts:187-230 | a committed sweep leaves rows for exactly its own answers and the records: a merge commit's is a merge, one without a sha is unavailable, any other of the batch has a row only with the state of a record for it; a failed sweep, or limit 0, leaves none |
| `CommitQueue.AskedIsOrdinary` | src/sync-engine.ts:195-213 | a commit is asked for if and only if it is no merge and has a sha |
| `CommitQueue.AskedAppends` | src/sync-engine.ts:195-213 | and a batch commit by commit, in order |
| `CommitQueue.UnstoppedLeavesBatch` | src/sync-engine.ts:195-224 | after an unstopped pass exactly the batch's commits have rows |
| `CommitQueue.QueueNeverGrows` | src/db/sqlite.ts:681-702 | over any history of sweeps, however each ends, the queue only loses commits and no stored row disappears |
| `TextBand.TwoLayersAreExactWhen` | src/db/sqlite.ts:650-667 | the two-layer read selects exactly what the instant filter selects, in order, if and only if the upper bound keeps a four-digit year or nothing is in range; otherwise it selects nothing |
| `TextBand.BandKeepsRowExactlyWhen` | src/db/activity-range.ts:34-47 | a row with a four-digit year and an offset of at most fourteen hours whose instant is in range passes the band if and only if the upper bound has a four-digit year |
| `TextBand.Year10000` | src/db/activity-range.ts:34-47 | that is, if and only if the range ends more than the margin before the year 10000 |
| `TextBand.EndOf9999LosesRows` | src/db/activity-range.ts:34-47 | a row of 30 December 9999 is lost by a range ending the next day |
| `TextBand.DateTextsAreOrdered` | src/db/activity-range.ts:12-21 | date texts compare as bytes the way their dates compare, whatever follows them |
| `TextBand.SameInstantExactlyWhen` | src/db/sqlite.ts:650-667 | two rows are at one instant if and only if their clocks differ by the difference of their offsets |
| `TextBand.DateTextReads` | src/db/activity-range.ts:34-47 | the date text is ten characters that read back as year, month and day |
| `TextBand.TimeTextIs` | src/db/activity-range.ts:34-47 | and the text after it is the hours, minutes, seconds and milliseconds |
| `TextBand.BandExistsExactlyWhen` | src/db/activity-range.ts:34-47 | there is a band if and only if both ends parse and, widened by two days, stay within the range of times |
| `Calendar.CivilIsInverse` | shared/time.ts:137-143 | dates and day numbers are in bijection |
| `Calendar.DayOrderIsDateOrder` | shared/time.ts:137-143 | the calendar order is the day order |
| `Calendar.NextMonthAdvances` | src/contract/build.ts:443-448 | one month on with roll-over is as many days on as the old month has, so the cursor always advances |
| `Calendar.NextDay` | shared/time.ts:137-143 | the day after a date is the next of its month, whose length is 28 or 29, 30 or 31 days, or the first of the next month or year |
| `Calendar.DayZero` | shared/time.ts:137-143 | days are counted from the first of January 1970 |
| `Buckets.BucketRanges` | src/contract/build.ts:477-495 | for every regular zone day, week and month buckets are contiguous, disjoint, cover exactly the range and start at the local midnights of dates a day, seven days or the month's own length apart; the loop terminates; an inverted range has none |
| `Buckets.SubDayBucketRanges` | src/contract/build.ts:459-475 | the same for sub-day buckets, none of them empty, each a cell of the local clock's grid |
| `Buckets.EachInstantOnce` | src/contract/build.ts:497-501 | an instant of the window is in exactly one bucket, any other in none |
| `Buckets.UtcIsRegular` | shared/time.ts:95-122 | UTC meets the zone condition |
| `RepoMetrics.RepoSeries` | src/contract/build.ts:983-995 | for every window, width and regular zone the series' counters and scores add up to the totals |
| `RepoMetrics.ComputeRepoMetricStats` | src/contract/build.ts:831-914 | the counting loops give each counter the sum of what items, activities and edges contribute to it, and that is how many of them the counter is for |
| `RepoMetrics.StatsCount` | src/contract/build.ts:500-521 | each counter that is not a weight is the number of the range's items, activities and edges of its kind, the kinds spelled out |
| `RepoMetrics.WeightedItem` | src/contract/build.ts:831-870 | and what an item adds to the two weights: its open threads, and its labels of the scope |
| `RepoMetrics.CountersAreConserved` | src/contract/build.ts:831-914 | every item and activity counter, keyed ones included, sums over a partition to its total |
| `RepoMetrics.ScoreIsConserved` | src/contract/build.ts:523-538 | so does the activity score |
| `RepoMetrics.ScoreIsLinear` | src/contract/build.ts:523-538 | because its clamp never acts: every opened change request is an opened item |
| `RepoMetrics.EdgesAreConservedExactlyWhen` | src/contract/build.ts:789-801 | edge counters sum to at least their total, and to exactly it if and only if no counted edge touches two buckets |
| `RepoMetrics.EdgeCountedTwice` | src/contract/build.ts:798-801 | an edge between items updated in different buckets is counted twice |
| `ActorDirectory.AttributedAtMostOnce` | src/contract/build.ts:1506-1535 | published identities have pairwise disjoint string sets and different names, each in its own set |
| `ActorDirectory.PublishedExactlyWhen` | src/contract/build.ts:1506-1535 | the published identities are exactly one for each folded group that some string is attributed to, as its only holder or as the only declared group of that name, with those strings, its bot mark, and its own name or else its first string in display order |
| `ActorDirectory.SoleHolderIsPublished` | src/contract/build.ts:1506-1535 | every string held by exactly one group after folding is published under it |
| `ActorDirectory.BuildIdentities` | src/contract/build.ts:1482-1535 | the fold, sweep and publish loops compute that directory |
| `ActorDirectory.Sweep` | src/contract/build.ts:1510-1523 | deleting contested strings one by one, in any order, leaves each group exactly what it keeps |
| `ActorDirectory.AbsorbedActors` | src/contract/build.ts:1482-1504 | after the fold a group holds its own strings and those of the groups folded into it |
| `ActorDirectory.SurvivorsSay` | src/contract/build.ts:1463-1504 | a group is removed if and only if it is keyless and shares a string with exactly one stored group; every other stays, with the strings and bot marks of the groups whose only such group it is |
| `ActorDirectory.FoldKeepsStrings` | src/contract/build.ts:1482-1504 | the fold neither loses nor invents a string |
| `ActorGroups.BuildActorDirectory` | src/contract/build.ts:1370-1536 | from activity rows and configured identities to the directory: what was seen, the groups and the entries are what the rows, the claims and the groups say, and the identities those published from the entries; no string belongs to two of them |
| `ActorGroups.Accumulate` | src/contract/build.ts:1378-1400 | one record for each key a row belongs to, its stored key first and the key of its name only without one, in the order met, with how many rows each actor has under it and its sources; keys are told apart by whether a stored key or only a name produced them |
| `ActorGroups.MergeClaims` | src/contract/build.ts:1403-1427 | every record lands in the group of its first claiming source, or of its own key; a group takes its first record's claim and is a bot only when all its records are; no name is lost or counted twice |
| `ActorGroups.RowsAreAddressable` | src/contract/build.ts:1365-1369 | every row that belongs to a key belongs to an entry by its string, and every entry has its name among its strings |
| `ActorGroups.EntryIsSaid` | src/contract/build.ts:1429-1463 | an entry is named by the configured name or its most frequent string, ties in display order; holds its group's strings and its name; and is keyless if and only if unclaimed with rows that all lack a stored key |
| `Telegram.ClampCommutesWithEscape` | src/live/telegram.ts:24-41 | clamping an escaped text is escaping the longest prefix whose escape fits: no partial entity is left and no whole one lost |
| `Telegram.EscapeIsPerUnit` | src/live/telegram.ts:24-30 | the four passes escape each code unit exactly once |
| `Telegram.UnescapeIsInverse` | src/live/telegram.ts:24-30 | reading the four entities back gives the text that was escaped |
| `Telegram.EscapedIsInert` | src/live/telegram.ts:24-30 | an escaped text has no angle bracket or quote |
| `Telegram.FitIsLongest` | src/live/telegram.ts:38-41 | that prefix is the longest |
| `Telegram.MessageFitsExactlyWhen` | src/live/telegram.ts:165-185 | a message is within 4096 units if and only if its head is |
| `Telegram.MessageShowsPrefix` | src/live/telegram.ts:165-185 | the message is the head, a blank line and the escape of the longest prefix of the body within the line limit, ten when none is asked for, and the room left, with an ellipsis if and only if that is not all of it |
| `EnvFile.UpsertSetsOneKey` | src/config.ts:663-683 | for every text, valid name and valid value, parsing the edited text gives the old map with that one key set, or without it |
| `EnvFile.UpsertKeepsOtherLines` | src/config.ts:663-683 | every other line, comments and unparseable ones included, is kept as it is and in order |
| `EnvFile.UpsertWorksInPlace` | src/config.ts:663-683 | the first line of the key is replaced where it stands and its others go; a new key comes last; removing a key drops its lines |
| `EnvFile.SameKeys` | src/config.ts:669-672 | the editor takes a line for a key's exactly when the parser does |
| `EnvFile.UpsertEnvText` | src/config.ts:663-683 | the line loop with its `replaced` flag computes the edit those laws are about |
| `EnvFile.ParseEnvFile` | src/config.ts:621-633 | the line loop computes the map they are about, the last binding of a key winning |
| `EnvFile.ParsesExactlyWhen` | src/config.ts:621-633 | a line binds a name to a value if and only if it is the two around an equals sign, with white space around either; comments and lines without a name bind nothing |
| `EnvFile.TextOfRoundTrip` | src/config.ts:663-683 | lines written and read back are the same lines |
| `Lines.FirstLinesArePrefix` | src/live/telegram.ts:178-180 | the first lines of a text, joined, are a prefix of it, and all of it exactly when no line is left out |

## Left out

- Live protocol: one store lifetime and one bridge; `received_at` never goes back; sends count when Telegram acknowledged them (a crash before the acknowledgement is a send that did not happen). Update frames and heartbeats carry no cursor and appear only on the wire.
- `LiveLog.LiveStore.Prune`: the count leaves out expired profile rows, which the source adds; profiles are not modelled.
- `LiveLog.LiveStore`: bodies of rows, profile hydration and the periodic timer around pruning are not modelled.
- `SseStream`: byte decoding, and the standard's rules for carriage returns and for ids holding a NUL, which the receiver never writes.
- Graph: mentions mode "direct" and the program scope (`buildGraphProgram`). References are ranks in the one order the code compares them by; the frontier's own sort uses the same ranks.
- `GraphRefinement.ReadNeighborhood`: a cut read is always reported as incomplete, even where the builder on the whole store would not be; how far above half the limit that starts is not pinned down.
- `CursorFile.RoundTrip`: numbers are exact, while a script's lose digits beyond 2^53.
- Tracker: the row grammar and table regular expressions; a row is its id, its ref and its `after` ids.
- `Reconcile`: the order in which edges are written.
- Sync engine: raw payloads, labels, commit-file lookback and CI refresh records; a database failure other than rollback.
- `ActivityBounds`: a write inside a read snapshot, which marks a bucket without flushing it; SQL text is the function it computes.
- `Watermark`: one project's issue list stands for all, the rest of a run contributes its newest timestamp; store and provider share a clock; deleted issues; the pull-request probe.
- `CommitPass`: provider clients; an answer is one of five outcomes. A failure without a message is not modelled.
- `CommitQueue`: candidates older than the lookback leave the list by themselves.
- `TextBand`: rows are given by date, time of day and offset; the text after the date is arbitrary, so its grammar is not needed. Text compares as bytes, as in SQLite; Postgres uses the collation of its database, which is taken to order these digits and signs alike.
- Buckets: which width a window gets (`repoMetricBucket`), an easy member; years outside 100 to 9998, where the date text is not four digits or is read as two; `Intl` zone lookup, replaced by the stated zone condition.
- Repo metrics: per-actor counters, ranking, data quality notes and DTO shapes.
- Actor directory: display order is any total order on strings, while a locale can put two spellings of one string at one place; the final sort by name, identity matching and bot patterns, which are functions of what was seen.
- Telegram: sanitizing the body and composing the head; both are inputs here.
- HTTP servers, provider clients, token handling, signatures, migrations, user interface and scripts: input and output, or easy members.
- `parseTrackerRows`, `normalizeCommitFiles`, `countDiffLines` and the parsers' other field mappings: easy members next to the above.
