# SpeedLine Metro backend: route search and crowd levels in Dafny

This project models the computational core of the SpeedLine Metro backend, an
Express server for a metro network. It receives station-to-station route
requests and crowd reports from riders, and it serves crowd levels for a live
map. The model covers:

- **Route search**: the `getShortestRoute` controller. It looks up the two
  stations by name, ignoring case, and builds an adjacency-list graph from the
  edge list. It then runs the controller's own Dijkstra search, which
  rebuilds the path through a walk capped at 100 steps, and maps station ids
  back to names.
- **The second Dijkstra**: `findShortestPath` in the utilities picks the
  closest unvisited node through a stable sort. It stops as soon as the
  destination is the closest. Its graph is an object of objects in which the
  last edge between two stations wins.
- **The crowd calculator**:
  - `calculateCrowdLevel` weights reports, tallies and normalises the scores
    object, reduces it to a final level, and computes a confidence and a
    distribution.
  - `getHourlyTrends` buckets reports into 24 hour slots and picks each
    slot's dominant level.
- **The live map**:
  - grouping reports by station;
  - the newest-first sort;
  - the ten-minute weighted average and the three-way classification;
  - the "most recent is high" override;
  - the per-station entries of `getLiveMapData`, `getStationDetails` and
    `getNearbyStations`.
- **The report controller**: the required-field check of `submitReport`
  and the `getTimeAgo` label.

Both Dijkstra searches share one loop invariant, in module `Search`. It says:

- visited nodes carry their least path cost;
- every node's distance is the cost of a real path through visited nodes;
- the predecessor map forms chains back to the start.

Both searches are then proved to return a least-cost path and to report
unreachability exactly (for `findShortestPath`, when no station id is the
empty string).

JavaScript semantics are written out where the code depends on them:

- `Object.keys` lists keys in insertion order (module `JsObjects`).
- `Infinity` is the `Inf` distance.
- `undefined + w` is `NaN`, with `NaN` losing every `>` comparison.
- `Math.round(x)` is `floor(x + 0.5)`.
- `Math.floor` of a quotient by a positive divisor is integer division.
- Truthiness covers `undefined`, `null`, `""`, `0` and `false`.
- `Array.prototype.sort` is stable.

Database queries become filters and sorts over a sequence of stored reports.
The current time and the hour of each report become parameters.

The model follows the code where the code has a defect:

- `getShortestRoute` reads `result.path` before it tests `result` for
  `null`. An unreachable destination therefore ends in the catch block's
  500 response, not the intended 404.
  `RouteController.GetShortestRoute` returns `ServerError` in exactly
  that case.
- `calculateCrowdLevel` accepts any level string. A report whose level is
  not `low`, `moderate` or `high` adds a key whose score is `NaN`. The last
  such key then wins the reduce, and the confidence is `NaN`
  (`CrowdCalculator.StrayReading`). The live map uses `medium` for the
  middle level, not `moderate`.

## Model

| member | source | states |
|---|---|---|
| Graphs.MinWeight | src/controllers/routeController.js:111-117 | the weight a search can use between two nodes is the least weight among their list entries; it is absent exactly when no entry leads there |
| Graphs.EndpointsMembers | src/controllers/routeController.js:45-51 | an id is a graph node exactly when some edge starts or ends at it |
| Graphs.KeyOrderEndpoints | src/controllers/routeController.js:45-51 | the order in which `Object.keys` lists the graph's nodes has each endpoint exactly once and nothing else |
| Graphs.AdjacentClosed | src/controllers/routeController.js:111-117 | in a graph whose neighbours are all nodes, both ends of every edge are nodes |
| Graphs.PathCostAppend | src/controllers/routeController.js:112-115 | extending a path by one edge adds exactly that edge's weight to its cost |
| JsObjects.AddKeyDistinct | src/controllers/routeController.js:47-48 | `if (!graph[k]) graph[k] = …` never lists a key twice |
| Graphs.SubsetCard | src/utils/dijkstra.js:17-32 | a visited set is never larger than the node set, so each visit brings the loop closer to its end |
| JsObjects.DistinctCard | src/controllers/routeController.js:94 | an object's key count equals the number of distinct keys, so `visited.size < Object.keys(graph).length` compares like sets |
| Search.Relax | src/controllers/routeController.js:111-117 | relaxing the current node's list lowers a node's distance to the current distance plus its cheapest entry, and makes the current node its predecessor, exactly when that is strictly shorter; no other distance or predecessor changes |
| Search.InitialInv | src/controllers/routeController.js:90-92 | the start at 0 with every other node at `Infinity` satisfies the search invariant |
| Search.SelectedIsSettled | src/controllers/routeController.js:99-108 | the closest unvisited node's distance is already no more than the cost of any path to it |
| Search.VisitStep | src/controllers/routeController.js:108-117 | visiting the closest node and relaxing its neighbours keeps the invariant and leaves the distances of visited nodes unchanged |
| Search.VisitedOptimal | src/controllers/routeController.js:121-142 | a visited node with a finite distance is reachable, and no path to it costs less |
| Search.UnvisitedUnreachable | src/controllers/routeController.js:106 | when the search stops because every unvisited node is at `Infinity`, no unvisited node is reachable |
| RouteController.LowerIdempotent | src/controllers/routeController.js:29-34 | lower-casing a name twice is the same as once, so the case-insensitive match is stable |
| RouteController.FindByName | src/controllers/routeController.js:29-34 | a station found by name is in the list and matches the query ignoring case |
| RouteController.FindByNameNone | src/controllers/routeController.js:29-42 | no station is found exactly when none matches, which is the 404 case |
| RouteController.FindByNameFirst | src/controllers/routeController.js:29-34 | the station found is the first match in the list |
| RouteController.NameOf | src/controllers/routeController.js:59-62 | an id with no station keeps the id itself |
| RouteController.NameOfFirst | src/controllers/routeController.js:59-62 | an id with a station takes the name of the first station with that id |
| RouteController.PathNames | src/controllers/routeController.js:59-62 | the named path has one entry per id, each the name of that id |
| RouteController.BuildGraph | src/controllers/routeController.js:45-51 | the loop builds the adjacency lists of the edge list, with keys in insertion order |
| RouteController.IncidentCount | src/controllers/routeController.js:49-50 | each node's list holds the entry `(v, w)` once for every edge u–v of weight w, in either direction |
| RouteController.GraphSymmetric | src/controllers/routeController.js:49-50 | u lists `(v, w)` as often as v lists `(u, w)` |
| RouteController.IncidentClosed | src/controllers/routeController.js:45-51 | every neighbour listed is itself a node of the graph |
| RouteController.GraphOfWellFormed | src/controllers/routeController.js:45-51 | the built graph has distinct keys, exactly the edge endpoints, each with a list |
| RouteController.ScanMin | src/controllers/routeController.js:96-106 | the scan yields no node exactly when every unvisited node is at `Infinity`; otherwise it yields the first unvisited node of least finite distance |
| RouteController.InitDistances | src/controllers/routeController.js:89-92 | every node gets a distance: 0 for the start and `Infinity` for all others |
| RouteController.ReconstructCapped | src/controllers/routeController.js:131-139 | the rebuilt path ends at the destination, has 1 to 100 nodes, and is a path of the graph; it starts at the start unless the cap cut it, costs no more than the distance, and is never cut when the graph has at most 100 nodes |
| RouteController.Explore | src/controllers/routeController.js:94-118 | at exit the search invariant holds, and a node is visited exactly when its distance is finite |
| RouteController.Dijkstra | src/controllers/routeController.js:84-143 | `null` exactly when the destination is a node that cannot be reached; a destination outside the graph gives the path `[end]` with an undefined distance; otherwise the distance is the least cost of any path from the start, some path attains it, and the returned path is a graph path of at most 100 nodes ending at the destination that starts at the start and costs the distance unless the 100-step cap cut it, which cannot happen with at most 100 nodes |
| RouteController.GetShortestRoute | src/controllers/routeController.js:4-82 | 400 exactly when `from` or `to` is falsy; a truthy field that is no string gives 500 (404 when there are no stations); with two strings, 404 exactly when a name matches no station, and otherwise the `Routed` response of RouteBetween |
| RouteController.RouteBetween | src/controllers/routeController.js:44-75 | with both stations found: 500 exactly when the destination is an edge endpoint the origin cannot reach; a destination outside the graph gives its own name as the path and no distance; otherwise both names, the least cost as distance, attained by some path, and the path is the station names of the ids the search rebuilt |
| Graphs.SubsetFull | src/controllers/routeController.js:94 | a visited set as large as the node set is the whole node set, so the loop test `visited.size < Object.keys(graph).length` fails only when every node is visited |
| DijkstraUtil.NodesOf | src/utils/dijkstra.js:25 | `for … in` over a node's inner object yields its neighbour ids in order |
| DijkstraUtil.Get | src/utils/dijkstra.js:26 | reading `graph[u][v]` yields a present weight only for a listed neighbour |
| DijkstraUtil.PutGet | src/utils/dijkstra.js:7-8 | assigning `graph[u][v] = d` makes v read d and leaves other neighbours as they were |
| DijkstraUtil.GetIsMin | src/utils/dijkstra.js:25-31 | in an inner object, the only weight to a neighbour is also the least one |
| DijkstraUtil.BuildNested | src/utils/dijkstra.js:2-9 | the loop builds the object of objects of the edge list |
| DijkstraUtil.NestedWellFormed | src/utils/dijkstra.js:2-9 | the built graph has exactly the endpoints as keys, and its neighbours are nodes |
| DijkstraUtil.NestedWeight | src/utils/dijkstra.js:7-8 | two nodes are adjacent exactly when some edge joins them, and the weight is that of the last such edge |
| DijkstraUtil.LastWeightSymmetric | src/utils/dijkstra.js:7-8 | the weight from u to v equals the weight from v to u |
| DijkstraUtil.LastWeightEndpoint | src/utils/dijkstra.js:4-8 | a stored weight joins two endpoints |
| DijkstraUtil.Unvisited | src/utils/dijkstra.js:18-19 | the filter keeps exactly the keys not yet visited |
| DijkstraUtil.SortByDistPerm | src/utils/dijkstra.js:18-20 | the sort by distance is a permutation of the unvisited keys |
| DijkstraUtil.SortByDistSorted | src/utils/dijkstra.js:20 | the sorted keys are in non-decreasing distance |
| DijkstraUtil.SortHead | src/utils/dijkstra.js:20-21 | the head of the sort is the first unvisited key of least distance |
| DijkstraUtil.InitDistances | src/utils/dijkstra.js:11-15 | distances cover the graph's keys plus the start, 0 at the start and `Infinity` elsewhere, with the start appended last when new |
| DijkstraUtil.Closest | src/utils/dijkstra.js:18-22 | the loop stops exactly when the head of the sort is missing, falsy or the destination; otherwise the node taken is unvisited, of least distance, first among equals, and neither `""` nor the destination |
| DijkstraUtil.Settle | src/utils/dijkstra.js:17-32 | at exit the invariant holds, the destination is unvisited, and no unvisited node is closer than the destination |
| DijkstraUtil.Visit | src/utils/dijkstra.js:23-31 | visiting a closest node relaxes its neighbours and keeps the invariant |
| DijkstraUtil.Reconstruct | src/utils/dijkstra.js:34-39 | with a finite distance, the walk back through `previous` is a path from the start to the destination costing no more than the distance; otherwise it is `[end]`, or `[]` for the empty id |
| DijkstraUtil.EndLeast | src/utils/dijkstra.js:22 | stopping at the destination means no path to it costs less than its distance |
| DijkstraUtil.AnswerOf | src/utils/dijkstra.js:41 | a settled distance with its path is the promised answer: `Infinity` exactly when unreachable, otherwise the least cost together with a path of that cost |
| DijkstraUtil.SearchGraph | src/utils/dijkstra.js:11-41 | an unknown destination gives `[end]` (or `[]`) with an undefined distance; a known one gives a distance, and with no `""` node it is the exact least cost together with its path, or `Infinity` exactly when unreachable |
| DijkstraUtil.FindShortestPath | src/utils/dijkstra.js:1-42 | the same answer stated over the edge list: its endpoints and the start are the nodes; an unknown destination comes back alone with an undefined distance; when no node id is `""`, the distance is `Infinity` exactly when unreachable and otherwise the least cost in the built graph, with a route of that cost |
| CrowdCalculator.WeightPositive | src/utils/crowdCalculator.js:36-43 | a plausible report's weight is positive and no more than its credibility factor |
| CrowdCalculator.TotalPositive | src/utils/crowdCalculator.js:32-47 | the total weight is positive for a non-empty list of plausible reports |
| CrowdCalculator.Tally | src/utils/crowdCalculator.js:31-47 | the scores object always begins with the keys low, moderate, high |
| CrowdCalculator.BumpShaped | src/utils/crowdCalculator.js:45 | adding a weight keeps the three levels numeric and any other key `NaN`, adds the level as a key if new and keeps the old keys in front |
| CrowdCalculator.TallyShape | src/utils/crowdCalculator.js:31-47 | after the loop, the three levels are numbers and every other key is `NaN` |
| CrowdCalculator.TallyCovers | src/utils/crowdCalculator.js:34-47 | every reported level is a key of the scores |
| CrowdCalculator.TallyOrigins | src/utils/crowdCalculator.js:34-47 | every extra key is the level of some report |
| CrowdCalculator.BumpCanonical | src/utils/crowdCalculator.js:45-46 | with a standard level, exactly that level's score grows by the weight, and so does the sum of the three |
| CrowdCalculator.TallyCanonical | src/utils/crowdCalculator.js:31-47 | with standard levels, the three scores sum to the total weight and none is negative |
| CrowdCalculator.Normalise | src/utils/crowdCalculator.js:50-52 | the loop divides each score by the total weight, or sets it to 0 when that is not positive |
| CrowdCalculator.NormalisedShares | src/utils/crowdCalculator.js:49-52 | after normalising, each of the three shares lies in [0, 1] and they sum to 1 |
| CrowdCalculator.NormalisedBuckets | src/utils/crowdCalculator.js:50-52 | each share is that level's score divided by the total |
| CrowdCalculator.FinalLevelRule | src/utils/crowdCalculator.js:54-57 | the final level has the largest share; high wins ties with either other level, moderate wins a tie with low |
| CrowdCalculator.ReduceLastNaN | src/utils/crowdCalculator.js:55-57 | when the last key scores `NaN`, the reduce returns that key |
| CrowdCalculator.RoundMono | src/utils/crowdCalculator.js:61-63 | `Math.round` is monotone |
| CrowdCalculator.ConfidenceBounds | src/utils/crowdCalculator.js:59-63 | the confidence of a share lies in 0..100, at most 20 per report below five reports, and is the rounded percentage from five on |
| CrowdCalculator.CalculateCrowdLevel | src/utils/crowdCalculator.js:11-75 | the method's result is the reading the specification functions define |
| CrowdCalculator.EmptyReading | src/utils/crowdCalculator.js:21-28 | without reports the reading is moderate, confidence 0, no reports, no time and no distribution |
| CrowdCalculator.CanonicalReading | src/utils/crowdCalculator.js:30-75 | with standard levels and plausible weights, the reading's level is the one with the largest share; its confidence is that share's confidence, in 0..100; its count is the number of reports; its time is the newest report's; and its distribution holds the rounded percentages |
| CrowdCalculator.StrayReading | src/utils/crowdCalculator.js:45-63 | a report with another level makes the last extra key the reading's level and leaves the confidence undefined (`NaN`) |
| CrowdCalculator.StrayKey | src/utils/crowdCalculator.js:45-57 | such a report adds a key beyond the three, and the last key scores `NaN` |
| CrowdCalculator.GetHourlyTrends | src/utils/crowdCalculator.js:100-134 | the method's 24 trends are the ones the specification functions define from the reports |
| CrowdCalculator.DominantIsMax | src/utils/crowdCalculator.js:119-120 | high dominates only when strictly above both, moderate only when above low and not below high, otherwise low is at least both |
| CrowdCalculator.SlotCounts | src/utils/crowdCalculator.js:109-113 | a slot's total counts the reports in that hour at least; with standard levels, low, moderate and high add up to the total; the hour field stays put unless a level is literally `hour` |
| CrowdCalculator.QuietExactly | src/utils/crowdCalculator.js:117 | an hour has no trend level exactly when no report falls in it |
| CrowdCalculator.TrendsShape | src/utils/crowdCalculator.js:116-132 | there are 24 trends; trend i is empty exactly when hour i has no report, and carries hour i |
| CrowdCalculator.HoursPartition | src/utils/crowdCalculator.js:109-113 | every report falls in exactly one of the 24 hours |
| CrowdCalculator.TotalsSum | src/utils/crowdCalculator.js:109-113 | with standard levels, the 24 totals add up to the number of reports |
| CrowdCalculator.TotalsAreCounts | src/utils/crowdCalculator.js:112 | the totals of the first n hours add up to the number of reports in those hours |
| LiveMap.WindowMembers | src/controllers/liveMapController.js:55-58 | the recent window holds exactly the reports at or after the cutoff, the older window exactly those before it |
| LiveMap.InsertSorted | src/controllers/liveMapController.js:50-52 | inserting into a newest-first list keeps it newest first |
| LiveMap.NewestFirstSorts | src/controllers/liveMapController.js:50-52 | the sort orders reports newest first and is a permutation |
| LiveMap.SortedUnchanged | src/controllers/liveMapController.js:16-18 | sorting a list that is already newest first changes nothing |
| LiveMap.NewestFirstStable | src/controllers/liveMapController.js:50-52 | among reports with the same time, the sort keeps the original order |
| LiveMap.GroupByStation | src/controllers/liveMapController.js:22-32 | each station's group holds its reports in query order, and a station has a group exactly when it has a report |
| LiveMap.ReportsOfMembers | src/controllers/liveMapController.js:25-32 | a group holds exactly the reports for that station |
| LiveMap.ReportsOfSorted | src/controllers/liveMapController.js:16-32 | grouping a newest-first list gives newest-first groups |
| LiveMap.ScoreValues | src/controllers/liveMapController.js:66-68 | medium scores 2, high 3, anything else, a missing level included, 1 |
| LiveMap.SumBounds | src/controllers/liveMapController.js:66-68 | the sum of scores lies between the count and three times the count |
| LiveMap.MeanBounds | src/controllers/liveMapController.js:66-68 | the average score lies in [1, 3] |
| LiveMap.AllSince | src/controllers/liveMapController.js:70-72 | with no older report, the recent window is every report |
| LiveMap.WindowMix | src/controllers/liveMapController.js:54-89 | with both windows non-empty the average is 0.8 of the recent mean plus 0.2 of the older one; with only recent reports it is their mean; with none the fallback mean; always in [1, 3] |
| LiveMap.ClassifyMonotone | src/controllers/liveMapController.js:94-96 | a larger average never gives a lower level |
| LiveMap.ClassifyThresholds | src/controllers/liveMapController.js:94-96 | low up to 1.4, medium above 1.4 up to 2.3, high above 2.3 |
| LiveMap.OverrideRaises | src/controllers/liveMapController.js:98-102 | the override never lowers the level, changes it only from medium to high, and gives high exactly when the average classifies as high or the newest report is high with an average of at least 2 |
| LiveMap.SumOnes | src/controllers/liveMapController.js:66-68 | reports without a recognised level sum to their count |
| LiveMap.OnesMean | src/controllers/liveMapController.js:66-68 | their average is 1 |
| LiveMap.OnesAreLow | src/controllers/liveMapController.js:54-89 | a station whose reports carry no recognised level averages exactly 1 |
| LiveMap.InterchangeExactly | src/controllers/liveMapController.js:112-113 | a station is an interchange exactly when it lists more than one line; without a line list the flag is undefined, and the lines shown are empty |
| LiveMap.GetLiveMapData | src/controllers/liveMapController.js:6-118 | the method's entries are the ones the specification functions define from the two-hour window, newest first |
| LiveMap.LiveStationFacts | src/controllers/liveMapController.js:37-117 | a station without reports is low, with count 0 and no time; otherwise the count is its number of reports and the time is that of its newest report; the level is always low, medium or high |
| LiveMap.LiveSortIsIdentity | src/controllers/liveMapController.js:16-52 | the per-station sort leaves the groups of the already sorted query as they are |
| LiveMap.UnscoredLiveLow | src/controllers/liveMapController.js:37-117 | a station whose reports have no recognised level and none `high` shows as low |
| LiveMap.FindFirst | src/controllers/liveMapController.js:152-159 | the lookup finds the first station with that key, and nothing exactly when none has it |
| LiveMap.DetailsPlainPrefix | src/controllers/liveMapController.js:208-212 | without a report in the last ten minutes, the average is over the first min(5, n) reports |
| LiveMap.DetailsQueryFacts | src/controllers/liveMapController.js:168-173 | at most ten reports come back, all for that station and from the last hour, newest first |
| LiveMap.DetailsNotFound | src/controllers/liveMapController.js:152-166 | 404 exactly when no station has that `_id` (for a 24-digit hex parameter) or that slug |
| LiveMap.DetailsFound | src/controllers/liveMapController.js:168-245 | when a station matches, the details are found; they count at most ten reports and list at most five, all for that station and from the last hour; the level is low, medium or high |
| LiveMap.GetNearbyStations | src/controllers/liveMapController.js:292-335 | the method's entries are the ones the specification functions define from the two-hour window of the nearby stations |
| LiveMap.SortSum | src/controllers/liveMapController.js:316-318 | the sum of scores does not depend on the order of the reports |
| LiveMap.NearbyNoOverride | src/controllers/liveMapController.js:310-323 | a nearby station is high exactly when it has reports averaging above 2.3, and the order of its reports does not matter |
| ReportController.SubmitRule | src/controllers/reportController.js:11-22 | 400 exactly when station, level or userId is falsy; otherwise those three are kept and a falsy remark becomes "" |
| ReportController.SubmitStrings | src/controllers/reportController.js:11-22 | for string fields, accepted exactly when station, level and userId are non-empty |
| ReportController.AgoIntervals | src/controllers/reportController.js:174-181 | each interval of seconds picks its unit, and the count is the whole number of that unit: 1–59 minutes, 1–23 hours, 1–29 days, or at least one month |
| ReportController.AgoMonotone | src/controllers/reportController.js:177-181 | more elapsed seconds never move the label to a smaller unit |
| ReportController.DecimalDigits | src/controllers/reportController.js:178-181 | a count prints as digits with no leading zero |
| ReportController.DecimalRoundTrip | src/controllers/reportController.js:178-181 | the printed digits read back as the count |
| ReportController.DecimalInjective | src/controllers/reportController.js:178-181 | different counts print differently |
| ReportController.JustNowExactly | src/controllers/reportController.js:174-181 | "just now" exactly when less than a minute has passed, a future date included; otherwise the label starts with the count's digits |

## Left out

- Database access: `Station.find`, `Report.find`, `findById` and `findOne` are filters and stable sorts over a sequence of stored records. The query `.sort({ createdAt: -1 })` breaks ties by storage order.
- The geospatial query of `getNearbyStations`: the `$near` search and its limit of 10 are not modelled. The nearby stations are an input.
- `getNearbyStations` parameter parsing (`parseFloat`, `parseInt` and the two 400 responses): not modelled, because floating-point parsing is outside the model.
- Clocks: `Date.now()` and `new Date()` are a parameter `now` in milliseconds. The source reads the clock again for each station; the model uses one `now` for the whole request. `getHours()` of a report's time is an input hour in 0..23, because time zones are outside the model.
- `Math.exp` and `Math.log` in the report weight: the time and credibility factors are inputs, positive where a lemma needs them.
- Floating point: numbers are exact reals, so rounding errors in the averages and the thresholds 1.4, 2.3 and 2.0 are not modelled.
- Integer-like object keys (such as `"12"`), which JavaScript lists before other keys: the model assumes insertion order for all keys.
- Inherited property names such as `constructor` or `__proto__` used as a level or a station id: they would read a prototype member instead of `undefined`. They are not modelled.
- `toLowerCase` lowers only ASCII letters in the model; the Unicode case mapping is not modelled.
- Edge weights are natural numbers; negative or fractional distances are not modelled.
- DijkstraUtil.SearchGraph: the optimality half is stated only when no node id is the empty string, because the source's `!closest` and `while (current)` treat `""` as missing.
- DijkstraUtil.FindShortestPath: the same restriction; its optimality half holds only when neither an edge endpoint nor `start` is the empty string.
- Mongoose casting of request fields and of the `_id`: a 24-digit hex parameter finds the station whose `_id` text equals it after lower-casing.
- Response projection: the `_id`, `remarks`, `likes` and `userId` fields copied into `recentReports` and the station coordinates are carried as given, not checked.
- `getAllStationsCrowdLevels` and other callers of the calculator, `Promise.all` and socket broadcasting: concurrency and I/O.
- Reading `edges.json` and `stations.json`: the edge and station lists are parameters.
- Console logging, the `crowdStats` summary and the `timestamp` field: output only, not modelled.
- The `try`/`catch` 500 responses when the database fails, and the error branches of the calculator: not modelled. The one 500 the route code reaches from its own logic, the dereference of a `null` result, is modelled.
- The success wrappers (`success: true`, `totalStations`, `count`, `searchCenter`) and the JSON encoding: the model returns the data they wrap.
