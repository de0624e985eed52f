# kshows: a verified model

kshows shows, for each node of a Kubernetes cluster, how its capacity is taken up by pods. A
collector polls two optional signals, live usage and node disk, joins them with the listed nodes
and pods into a snapshot, and hands the snapshot to its subscribers; a server encodes it and
streams it to browsers; the page draws each node as a squarified treemap. This project models the
parts where that is hard to get right and proves what they promise, over every input, every run
and every interleaving.

| module | follows | form |
|---|---|---|
| `Squarified` | the definition of a squarified layout | functions and lemmas |
| `Squarify` | `squarify` in `web/static/treemap.js` | methods with loops, proved against `Squarified.Layout` |
| `TreemapView` | sizing and element map of `renderTreemapSVG` in `web/static/app.js` | functions, methods, a class for the element |
| `PodResources` | `internal/collector/resources.go` | a method with its two loops, against one formula per resource |
| `SnapshotAssembly` | the assembly half of `pollOnce` in `internal/collector/collector.go` | methods with loops, against functions of the lists |
| `SignalHistory` | what both capabilities should report after any list of fetches | functions and lemmas |
| `FanOut` | `fanOut` in `internal/collector/disk.go` | a state machine over the steps of all goroutines, and a method that runs it under any scheduler |
| `Collector` | `Collector` in `internal/collector/collector.go`, `fetchDisk` | a class; its fields are tied to its whole past |
| `PubSub` | `publish`, `Subscribe`, `Latest` and the loop of `handleStream` | a state machine over interleaved events |
| `MarshalCache` | `marshalCache` in `internal/server/server.go` | a class |

`RealSeq`, `Permutations`, `Sorting`, `FilterMap` and `Model` hold what these share.

## Main results

**Treemap.** `Squarified.Layout` chooses every row by comparing all prefixes of what is left. The
program tests only one more item at a time; that it lays out exactly this layout
(`Squarify.Squarify`) rests on the areas descending, for then a rejected item is never worth
taking together with later ones (`Squarified.RejectionIsFinal`). The layout tiles its rectangle
point by point, and the quality predicted from a row's areas is the worst aspect ratio of the
rectangles really drawn. With folding and the packed/free split around it, the picture is to scale
(`TreemapView.ToScale`): exact shares between 0.5 % and 99.5 % free, at most 1/0.995 too large
below, no tile above.

**Signals.** The class keeps, as ghost state, the list of all fetches and of what each disk fetch
met. After every call its fields equal functions of those lists: a signal is up unless its last
definitive answer says otherwise or three failures have followed it, and a disk route is settled
exactly if some fetch settled on it and it was not denied since. The pacing of the fetches is
proved with it, and from that the denial budget of any stretch of time.

**Publishing.** Every interleaving of one publisher and any number of clients keeps an account of
each channel: what it took and what it turned away are exactly the snapshots published since it
was subscribed. The class of the collector keeps its channels those of such a run, so what is
proved of all runs holds of it (`Collector.Collector.Delivered`), and a client receives only
published, honest snapshots (`Collector.Collector.Receive`).

**Fan-out.** Each of ten phases of each goroutine is a step. Every interleaving keeps an invariant,
no reachable state is stuck before the return, every run is bounded, and where it ends the result
is the one of a sequential loop, up to which error of a kind is reported.

**End to end.** `Collector.Collector.PollOnce` publishes only snapshots that are honest: what is
said to be down shows no figures. The disk half of this goes through all three layers: an error
of the fan-out means an empty map, so does one of `fetchDisk`, and a denial installs that map.

## Where the code and its words part

- `internal/collector/resources.go:9-13` says the resources are computed the way the scheduler
  does. For a sidecar listed after a plain init container they are not: the code adds every
  sidecar to every init container. `PodResources.AgreesWithScheduler` says exactly when the two
  agree, `PodResources.SidecarAfterInitIsOvercounted` gives a pod for which they do not, and
  `PodResources.EffectiveIsWorstOrder` says what the code computes instead.
- `internal/server/server.go:27-30` speaks of one encoding a snapshot. That holds exactly if no
  client asks for a snapshot after another one was asked for in between, and none asks twice for
  one that cannot be encoded (`MarshalCache.OneEncodingEach`,
  `MarshalCache.LaggingClientCostsAnEncoding`).
- A stream moves forward at every event exactly if nothing was published between its subscribing
  and its reading the latest snapshot, or nothing has come from its channel yet. After one
  publication in between it repeats a snapshot, after more it steps back
  (`PubSub.StreamMovesForwardExactly`), as in a run that shows number 2, then number 1
  (`PubSub.StreamMayStepBack`).
- A full channel keeps the older snapshot, so a drained client is current exactly if its channel
  was not full at the last publication (`PubSub.DrainedIsCurrentUnlessDropped`), and need not be
  (`PubSub.DrainedMayBeBehind`), though `internal/collector/collector.go:201-202` speaks of
  skipping to the next.
- A node to which no scheduled, non-terminal pod is bound gets a nil list of pods
  (`internal/collector/collector.go:277`), which is encoded as `null`; the page goes through the
  list unconditionally (`web/static/app.js:99`) and throws. `SnapshotAssembly.NoPodsExactly` says
  for which nodes.
- Over no nodes the fan-out reports no error, and auto mode settles on the kubelets
  (`Collector.NoNodesSettlesKubelet`).
- `web/static/treemap.js:6` asks for positive values, but the code also takes zeros and skips
  them. What the loop skips keeps the total exactly if no value is negative
  (`Squarify.PositivesTotal`); otherwise the areas drawn add up to more than the rectangle
  (`Squarify.DrawnAreasFill`). `Squarify.Squarify` requires that much and no more.

## Model

| member | source | states |
|---|---|---|
| Squarify.Squarify | web/static/treemap.js:9-58 | the tiles are the positive items, largest first, at the rectangles of the squarified layout; they are proper, partition the rectangle point by point, and each has its share of the area; they start at its corner and run in rows, each to the right of or below all before it; no total or no room, no tiles |
| Squarify.LayoutRow | web/static/treemap.js:21-38 | draws the row as cells along the shorter side of what is left, and leaves the rest of it |
| Squarify.Place | web/static/treemap.js:50-55 | one turn of the loop keeps the tiles drawn on the way to the one layout, and the row at least as good as every shorter one |
| Squarify.PlaceAll | web/static/treemap.js:50-57 | the greedy pass with its one-item test draws the layout defined by comparing all prefixes |
| Squarify.DrawnFits | web/static/treemap.js:10-15 | scaled, the values drawn descend and fill the rectangle exactly, so every later divisor is positive |
| Squarify.DrawnIsSorted | web/static/treemap.js:13-51 | what is drawn is a permutation of the items of positive value, in descending order |
| Squarify.PositivesTotal | web/static/treemap.js:50-51 | skipping what is not positive keeps the total if and only if no value is negative |
| Squarify.DrawnAreasFill | web/static/treemap.js:10-15 | the areas drawn fill the rectangle if and only if no value is negative, and exceed it otherwise |
| Squarified.WorstIsWorstAspect | web/static/treemap.js:21-48 | the predicted worst ratio of a row equals the largest of w/h and h/w over the rectangles then drawn, in either orientation |
| Squarified.RejectionIsFinal | web/static/treemap.js:40-56 | once one more item makes a row of descending areas worse, every longer row is worse too |
| Squarified.GreedyIsBest | web/static/treemap.js:40-56 | the row the one-item test commits has the least worst ratio of all prefixes, and is the longest such prefix |
| Squarified.BestUnique | web/static/treemap.js:40-56 | there is only one such prefix |
| Squarified.LayoutOpensWithBestRow | web/static/treemap.js:17-57 | each row of the layout beats, in real aspect ratios, every other row that could be laid in its place |
| Squarified.RestFits | web/static/treemap.js:24-36 | what is left of the rectangle has the area of the items left; a row is never thicker than the room for it |
| Squarified.LayoutAreas | web/static/treemap.js:28-34 | every item gets a proper rectangle of exactly its area |
| Squarified.LayoutPartitions | web/static/treemap.js:17-57 | each point of the rectangle lies in exactly one rectangle of the layout, no other point in any |
| Squarified.LayoutIsInRows | web/static/treemap.js:21-38 | told without the layout's own functions: row after row, each from edge to edge along the shorter side of what the ones before left, the vertical one if both are equal |
| Squarified.RowsAdvance | web/static/treemap.js:28-36 | rectangles in such rows begin at the corner, and each lies to the right of or below every one before it |
| Squarified.PartitionStaysInside | web/static/treemap.js:17-57 | such rectangles stay inside the outline and share no point |
| TreemapView.PodValue | web/static/app.js:57-62 | CPU is sized in millicores, memory and disk in bytes; by requests and limits a pod has that size, live the larger of its request and its known use |
| TreemapView.ShownFacts | web/static/app.js:349-352 | the items are exactly the node's pods of positive value, each with that value, descending |
| TreemapView.FoldKeeps | web/static/app.js:348-362 | folding keeps the total and the largest items, counts and sums all others in one tile, and stays within the limit |
| TreemapView.PickedExactly | web/static/app.js:353-362 | up to 40 items, or 120 on the large view, are drawn as they are; of more, the 39 or 119 largest and one for all others, with their sum and number |
| TreemapView.FreeFractionMeans | web/static/app.js:364-366 | what the fraction leaves of the total is the sum of the items; it passes a threshold exactly if the sum is at most 0.5 %, or at least 99.5 %, of the total |
| TreemapView.SplitIsProper | web/static/treemap.js:65-80 | a true split cuts across the longer side, with the packed part at the corner, of its share of the area, and the free one at the far end |
| TreemapView.SplitPartitions | web/static/treemap.js:65-80 | the two parts of a true split partition the rectangle |
| TreemapView.PlanIsToScale | web/static/app.js:364-372 | all outcomes of split and layout are to scale: exact shares between the thresholds, within 1/0.995 when next to nothing is free, no tile when next to nothing is used |
| TreemapView.PlanTreemap | web/static/app.js:345-372 | the picture planned for a node, of at most 40 or 120 tiles, is to scale for the larger of sum and allocatable, in millicores or bytes |
| TreemapView.TreemapSvg.Render | web/static/app.js:338-417 | whatever the element showed before, it then shows exactly the tiles of the plan and the free block; if the pods have proper UIDs, each in an element of its own |
| TreemapView.TreemapSvg.Redraw | web/static/app.js:369-416 | placing, adding and removing elements leaves those of the plan and no others |
| TreemapView.PickedUnalike | web/static/app.js:348-362 | if the pods have distinct UIDs that are no keys of the page, so have the items after filter, sort and fold |
| TreemapView.PictureIsWhole | web/static/app.js:369-416 | then every tile of the plan has an element of its own, where the plan has it, beside the free block |
| PodResources.EffectiveResources | internal/collector/resources.go:14-48 | the two loops compute one formula for each of the four resources; on a single container they give its own four fields, with 0 for one that is missing |
| PodResources.SmallPod | internal/collector/resources.go:39-46 | two containers, a plain init container and a sidecar cost the sidecar and the larger of the two others' sum and the init container, in either order |
| PodResources.EffectiveIsWorstOrder | internal/collector/resources.go:23-46 | the effective value is the maximum, over all orders of the init containers, of what KEP-753 counts |
| PodResources.EffectiveIgnoresOrder | internal/collector/resources.go:25-38 | the order of the init containers does not matter |
| PodResources.AgreesWithSidecarsFirst | internal/collector/resources.go:9-46 | with the sidecars listed first, the value is the scheduler's |
| PodResources.AgreesWithScheduler | internal/collector/resources.go:9-46 | in the listed order, it is the scheduler's if and only if the containers outweigh the largest plain init container or some largest one has no sidecar asking for anything after it |
| PodResources.SidecarAfterInitIsOvercounted | internal/collector/resources.go:9-46 | a pod for which it is not: 400 against 300 millicores |
| SnapshotAssembly.Group | internal/collector/collector.go:235-254 | each node name gets, one for one, the waiting, running and unknown pods bound to it, with their identity, resources and usage |
| SnapshotAssembly.Assemble | internal/collector/collector.go:235-292 | the loops build the sorted join of nodes, pods, usage and disk, and what it holds is as told by `Reports` |
| SnapshotAssembly.ReportsInPlainTerms | internal/collector/collector.go:236-292 | told without the functions that assemble it: which pods a node lists, every field of pod and node, the fallback disk, and ascending names and UIDs |
| SnapshotAssembly.TextLePrecedes | internal/collector/collector.go:289-292 | the order is that of texts: a prefix first, else by the first difference |
| SnapshotAssembly.NodesAreListed | internal/collector/collector.go:266-292 | the nodes are the listed ones, one for one, sorted by name, each with exactly its pods sorted by UID |
| SnapshotAssembly.NoPodsExactly | internal/collector/collector.go:236-277 | a node's list of pods is empty, nil in the program, if and only if no placed pod is bound to it |
| SnapshotAssembly.PodsConserved | internal/collector/collector.go:236-291 | over all nodes, every placed pod on a listed node appears once and nothing else does |
| SnapshotAssembly.OrderIndependent | internal/collector/collector.go:236-292 | permuting the listed nodes and pods changes nothing |
| SnapshotAssembly.EmptySignalsShowNothing | internal/collector/collector.go:249-288 | without usage and disk figures no pod or node shows usage and no disk is live |
| SnapshotAssembly.BuiltHonest | internal/collector/collector.go:256-292 | a snapshot built from nothing for each signal that is down shows no figures for it |
| Sorting.SortForgetsOrder | internal/collector/collector.go:289-292 | with distinct keys a sort has one outcome, whatever the order before |
| SignalHistory.LastDefinitiveIsLast | internal/collector/collector.go:359-403 | the fetch the closed form rests on is definitive, and none after it is |
| SignalHistory.ClosedForm | internal/collector/collector.go:359-403 | from the last fetch that settled the matter, in plain terms: up if it was a success, or there was none, and fewer than 3 failures followed; the reason; the data served |
| SignalHistory.AfterFetch | internal/collector/collector.go:359-403 | what each kind of answer does to up, reason and data, told on the closed form |
| SignalHistory.ReasonEmptyIffUp | internal/collector/collector.go:359-402 | a reason is given exactly when down, nothing is served when down, and it is forbidden exactly after a denial |
| SignalHistory.AtMost | internal/collector/collector.go:110-114 | less than n times ten minutes holds at most n denials |
| SignalHistory.DenialBudget | internal/collector/collector.go:110-114 | any window of length T holds at most T / 10 min + 1 denials |
| SignalHistory.DeniedAtMost | internal/collector/collector.go:110-114 | the same of the number of such fetches, with the ten minutes in nanoseconds |
| SignalHistory.RetryAtExactly | internal/collector/collector.go:305 | the retry time has come if and only if every denial is ten minutes old |
| SignalHistory.ParkedMeansForbidden | internal/collector/collector.go:305-307 | a retry time that still lies ahead belongs to the last fetch, a denial: parked is down, forbidden and without data |
| FanOut.StepInv | internal/collector/disk.go:117-149 | every step of every goroutine keeps the invariant, and brings the end nearer by one |
| FanOut.NotStuck | internal/collector/disk.go:125-144 | until it returns, some goroutine can move: no deadlock on semaphore, mutex or wait group |
| FanOut.SlotsAreUsed | internal/collector/disk.go:121-127 | while fewer than eight hold a slot, the next node is let in |
| FanOut.RunIsBounded | internal/collector/disk.go:121-144 | on every run at most eight calls are in flight, none is made twice, and the run is no longer than nine steps a node and the return |
| FanOut.RunEndsRight | internal/collector/disk.go:117-149 | a run that cannot go on has returned, has called each route once, and has the map and the class of error of a sequential fold |
| FanOut.SequentialIsRight | internal/collector/disk.go:113-116 | that fold holds every answer; no error if any node answered or none was asked, else denied exactly if any was |
| FanOut.Execute | internal/collector/disk.go:113-149 | under any scheduler the fan-out terminates with the right map and error |
| FanOut.ErrorMeansEmpty | internal/collector/disk.go:145-148 | with an error comes an empty map |
| Collector.SettlesMeans | internal/collector/disk.go:74-99 | a settled route is lost by its own denial only; an unsettled one is settled by the kubelets working, or by the proxy working after they failed |
| Collector.RouteHistory | internal/collector/disk.go:63-111 | over any run of auto mode a route is settled if and only if some call settled on it, the proxy only after the kubelets failed in that call, and it was not denied since |
| Collector.ToldGrows | internal/collector/disk.go:63-111 | the log of disk fetches stays what each call made of its routes and of the route settled before it |
| Collector.Collector.RouteOfRun | internal/collector/disk.go:63-111 | the collector's own route field, whatever calls were made, is settled if and only if some call in auto mode settled on it and it was not denied since |
| Collector.NoNodesSettlesKubelet | internal/collector/disk.go:89-94 | with no nodes auto mode settles on the kubelets without an error |
| Collector.NothingServedWhenDown | internal/collector/collector.go:301-470 | for both signals: a reason exactly when down, and then no figures |
| Collector.DueExactly | internal/collector/collector.go:413-419 | a disk fetch is due if and only if none was made yet, or the last one ended a minute ago, ten if it was denied |
| Collector.Collector.constructor | internal/collector/collector.go:116-145 | both signals start up, for no reason, without data and with nothing to wait for, with an empty past |
| Collector.Collector.NoteMetrics | internal/collector/collector.go:353-403 | folding an answer keeps the state equal to the closed form of the history, now one fetch longer; and field by field, what each of the four answers does |
| Collector.Collector.CurrentMetrics | internal/collector/collector.go:298-310 | asks exactly when enabled and no denial is less than ten minutes old, else changes nothing; returns what the history says |
| Collector.Collector.FetchDisk | internal/collector/disk.go:63-111 | a fixed or settled route is the only one asked; else both are, kubelets first, with an error if and only if neither works, denied if and only if either denied some node; which route is settled after; an error leaves the map empty |
| Collector.Collector.NoteDisk | internal/collector/collector.go:426-469 | the same fold for disk, where only success and denial are definitive, with fetches a minute apart; and field by field, what each result does |
| Collector.Collector.CurrentDisk | internal/collector/collector.go:405-470 | fetches at the start, a minute after the last fetch ended, ten after a denied one, and never else, when nothing changes; returns what the history says |
| Collector.Collector.Subscribe | internal/collector/collector.go:185-195 | a new channel, of a number no client has had or will have, with an empty buffer; the others untouched |
| Collector.Collector.Cancel | internal/collector/collector.go:190-194 | that channel is gone, the others untouched; a second time nothing happens |
| Collector.Collector.Latest | internal/collector/collector.go:179-183 | the last snapshot published, honest, without effect on the channels; for a stream it is the reading that starts it |
| Collector.Collector.Receive | internal/server/server.go:160 | a stream takes what its channel holds, which was published and is honest, and leaves the channel empty of it |
| Collector.Collector.Publish | internal/collector/collector.go:197-209 | the snapshot is the latest; every empty channel takes it and every full one keeps what it holds; it is one publication of the run of publisher and clients |
| Collector.Collector.Offer | internal/collector/collector.go:200-207 | the loop over the channels does so in whatever order it meets them, each once |
| Collector.Collector.RefreshDisk | internal/collector/collector.go:424-469 | one fetch and its fold: log, routes asked and route settled are those of the call |
| Collector.Collector.Build | internal/collector/collector.go:232-292 | the snapshot tells what the histories serve after this poll's fetches, and is honest |
| Collector.Collector.PollOnce | internal/collector/collector.go:220-296 | a poll fails without any effect exactly when a lister fails; else it makes exactly the fetches that are due by the logs, and publishes one snapshot of them, which shows no figures for what is down and gives a reason for nothing else |
| Collector.Collector.DenialBudgets | internal/collector/collector.go:110-114 | after any calls, the denial budget holds for both signals |
| Collector.Collector.FetchesAreApart | internal/collector/collector.go:102-114 | after any calls, fetches are ten minutes from a denial, disk fetches a minute from every other |
| Collector.Collector.Delivered | internal/collector/collector.go:185-209 | after any calls, what a channel gave and holds are in order exactly the snapshots published since it was subscribed less those it turned away; it holds at most one, published and honest |
| Collector.Collector.ParkedIsForbidden | internal/collector/collector.go:301-422 | a parked signal is down, forbidden and without data; a parked disk signal has no settled route |
| PubSub.StepInv | internal/collector/collector.go:185-209 | every event of publisher and clients keeps the account of each channel |
| PubSub.Delivery | internal/collector/collector.go:185-209 | received and buffered snapshots strictly increase and are exactly those offered since subscribing less those that found the channel full; idle, the last one published has been offered to every live client |
| PubSub.StreamMovesForward | internal/server/server.go:134-166 | a stream goes forward at every event but perhaps the first from its channel |
| PubSub.StreamMovesForwardExactly | internal/server/server.go:134-166 | it goes forward at every event if and only if nothing was published between subscribing and reading the latest, or nothing is received yet; one snapshot in between is repeated, two or more mean a step back |
| PubSub.StreamMayStepBack | internal/server/server.go:134-166 | a run that shows 2, then 1 |
| PubSub.DrainedIsCurrentUnlessDropped | internal/collector/collector.go:200-207 | a drained client has last shown the latest snapshot if and only if its channel did not turn that away, and its channel gave it something if and only if something was published since it subscribed |
| PubSub.DrainedMayBeBehind | internal/collector/collector.go:200-207 | a run after which a drained client has shown 1 while 2 is the latest |
| PubSub.PublishIsEvents | internal/collector/collector.go:197-209 | in whatever order the channels are met, one publication by the collector is the beginning, one offer to each live client and the end |
| PubSub.CallsAreEvents | internal/collector/collector.go:179-195 | subscribing, cancelling, receiving and reading the latest do to the collector's channels what their events do |
| PubSub.PublisherNeverBlocks | internal/collector/collector.go:197-209 | while publishing, every pending offer and then the end can be made at once, and no client sets it back |
| MarshalCache.MarshalCache.Bytes | internal/server/server.go:37-49 | gives what plain encoding gives; a failed encoding leaves the cache alone; the encoder runs exactly when the snapshot is not the last one encoded |
| MarshalCache.OneEncodingEach | internal/server/server.go:27-49 | over any calls, the encoder runs once for each snapshot if and only if those it can encode are called for one after another and those it cannot are called for once; never less often |
| MarshalCache.LaggingClientCostsAnEncoding | internal/server/server.go:27-49 | two snapshots asked for in turn cost three encodings |

## Left out

- Squarify.Squarify: floating-point rounding; areas and ratios are exact reals, as the slack of 1e-6 and 1e-9 in `web/static/treemap.test.mjs` intends. Negative values, which no caller passes, are outside its contract.
- Sorting.Sort: `sort.Slice` is not stable; it is modelled by a stable sort, which with distinct names and UIDs gives the same list (`Sorting.SortedUnique`).
- SnapshotAssembly.OrderIndependent: assumes distinct node names and pod UIDs, as Kubernetes guarantees them.
- SnapshotAssembly.PodsConserved: assumes distinct node names for the same reason.
- FanOut.RunEndsRight: a route answers for each node name as a given function; the timeouts and the cancellation inside a call are part of that answer.
- Collector.Collector.FetchDisk: gives the class of an error, not its text.
- Collector.Collector.PollOnce: the calls of the poll goroutine and of the streams run one after another in the class; receiving in the middle of a publication is covered by `PubSub`, which names snapshots by number.
- PodResources.EffectiveResources: 64-bit overflow; quantities are unbounded integers, and non-negative where compared with KEP-753.
- TreemapView.TreemapSvg.Render: the one-pixel padding, labels, colours, and the DOM elements behind the map of tiles.
- Time is an integer clock that does not run backwards; a zero time is an absent one.
- Nil and empty maps and lists are one value, the nil list of pods named above included; a snapshot carries no time of generation.
- `internal/kube/client.go`, the kubelet and API server clients, `fetchMetrics` and the parsing of summaries: each is an arbitrary answer.
- JSON, gzip, HTTP and the framing of events; heartbeats and write errors end or idle a stream, as cancelling does.
- `nodeReady`, `nodeRoles` and allocatable quantities are given fields of a listed node.
- `web/static/format.js`, tooltips, banners and drill-in: presentation only.
- `internal/collector/mock.go`: random demonstration data; its publishing repeats the collector's.
- `internal/metrics/metrics.go`, logging, flags, the ticker of `Run`, charts and manifests: configuration and wrappers.
