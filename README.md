# robot-simulator in Dafny

A model of the simulator core of robot-simulator: a map of labelled
locations joined by one-way weighted paths, on which named robots follow
shortest routes and take turns occupying edges; and the command
interpreter that applies one structured command to a copy of the map.

The model has one module per source file:

- `Maps` (map.dfy) is the `SimMap` class of sim/map.ts. It is a class whose
  fields are the source's tables: `locations`, `locationsByCoord`, `paths`,
  `inUse` and `robots`. Its methods change those fields in place.
  - `Valid()` is the invariant every operation keeps. Each location is stored
    under its label, with a coordinate index entry and a successor map. Edges
    join stored locations and weigh the distance between them. No edge is
    occupied together with its reverse. Each robot is stored under its name.
  - `findShortestPath` is proved against the specification in `Routes`: the
    result is a chain of edges ending at `end`, its weight is the reported
    distance, and no other route is lighter.
- `Routes` (routes.dfy) is the specification of that search. It defines
  chains, routes and their weights, one relaxation step as a function, the
  loop invariant of the search, and the lemmas that the step keeps it.
- `Robot` (robot.dfy) is the `SimRobot` class of sim/robot.ts.
- `Interpreter` (interpreter.dfy) holds `mutationReducer` and `runCommand`
  of sim/interpreter.ts. Each arm of the reducer's switch is a method on the
  clone. `Respond` is the pure part of `runCommand`.
- `ParsedMapMutations` (parsed_map_mutations.dfy) is the older reducer of
  util/parsed-map-mutations.ts.
- `CommandParser` and `Parser` hold the two copies of `parseLocation`, in
  util/command-parser.ts and util/parser.ts. Both are proved equal.
- `Text` holds the JavaScript string built-ins the core relies on: `trim`,
  `toLowerCase`, the regular expressions of `parseLocation`, and `parseInt`.
- `Geometry`, `Types`, `Errors` and `Wrappers` hold points, the distance
  function, `SimLocation`, the thrown errors and their messages, and
  `Option`/`Result`/`Outcome`.

Every `throw` of the source, including the `TypeError`s the engine raises
on an undefined value, is a `Fail`/`Err` value. Each carries the message
the source gives it.

Three places where the code does less than its names suggest; the model
follows the code:
- util/clone.ts copies only the top-level properties of the map. So the
  robots, and the tables, are shared between the old map and the clone. The
  model's clone shares the robot objects; its tables are values.
- REMOVE_PATH in sim/interpreter.ts:83 passes the trimmed `from` text as
  both ends of `removePath`. `Interpreter.RemovePathArm` models that call as
  written: it can remove only a self-loop at `from`.
- The older reducer's REMOVE_PATH (util/parsed-map-mutations.ts:29-35) calls
  `removePathByHash`. `SimMap` has no such method, so that command always
  fails with a `TypeError`.

One place where the code is wrong is corrected, as "## Findings" records:
the seeding of `findShortestPath` makes a start with a self-loop its own
parent, and the path rebuilding then never ends. Only the parent seeding is
corrected; the distances are seeded as the source seeds them.

## Model

| member | source | states |
|---|---|---|
| Text.TrimStart | sim/interpreter.ts:78-79 | the result is a suffix of the input, the part removed is all whitespace, and it does not start with whitespace |
| Text.TrimEnd | sim/interpreter.ts:78-79 | the result is a prefix of the input, the part removed is all whitespace, and it does not end with whitespace |
| Text.TrimIsInfix | sim/interpreter.ts:78-79 | `trim` keeps one contiguous slice of the text, drops only whitespace on either side, and leaves no whitespace at either end |
| Text.TrimIdempotent | sim/interpreter.ts:87-88 | trimming twice is trimming once |
| Text.RemoveParens | util/command-parser.ts:94-95 | no parenthesis is left in the cleaned text |
| Text.RemoveParensConcat | util/command-parser.ts:94-95 | deleting parentheses distributes over concatenation |
| Text.RemoveParensNone | util/command-parser.ts:94-95 | text without parentheses is unchanged |
| Text.LeadingDigits | util/command-parser.ts:96 | the length of the longest all-digit prefix: the character after it is not a digit |
| Text.DigitRuns | util/command-parser.ts:96 | every match of `/\d+/g` is a non-empty run of digits |
| Text.DigitRunsCoverDigits | util/command-parser.ts:96 | the matches, joined, are exactly the digits of the text, in order |
| Text.OnlyDigitsOfDigits | util/command-parser.ts:96 | an all-digit text keeps all its digits |
| Text.OnlyDigitsConcat | util/command-parser.ts:96 | keeping the digits distributes over concatenation |
| Text.DigitRunsSkip | util/command-parser.ts:96 | a leading non-digit does not change the matches |
| Text.DigitRunsSplit | util/command-parser.ts:96 | a run of digits followed by a non-digit is the first match, and matching continues after it |
| Text.DigitRunsWhole | util/command-parser.ts:96 | an all-digit text is one match |
| Text.LeadingDigitsOf | util/command-parser.ts:96 | the leading run of digits ends at the first non-digit |
| Text.DigitChar | util/command-parser.ts:100 | the digit character of each value below ten is a digit with that value |
| Text.NatToString | util/command-parser.ts:100 | the decimal text of a natural is a non-empty run of digits with no leading zero |
| Text.DecimalRoundTrip | util/command-parser.ts:100 | `parseInt` of the decimal text of a natural gives it back |
| CommandParser.ParseLocationFailure | util/command-parser.ts:97-99 | the only failure is the "cannot be parsed into (x,y) pair" error |
| CommandParser.ParseLocationIgnoresParens | util/command-parser.ts:94-95 | wrapping the text in parentheses does not change the result |
| CommandParser.ParseLocationIgnoresSeparator | util/command-parser.ts:96 | a leading character that is neither a digit nor a parenthesis does not change the result |
| CommandParser.ParseLocationOfPair | util/command-parser.ts:93-101 | two digit runs joined by a comma parse to their values |
| CommandParser.ParseLocationRoundTrip | util/command-parser.ts:93-101 | "x,y" and "(x,y)", printed from two naturals, parse back to them |
| CommandParser.ParseLocationDropsSign | util/command-parser.ts:96 | a minus sign is not part of a match: "-5,3" parses to (5, 3) |
| CommandParser.ParseLocationRejectsFraction | util/command-parser.ts:96-99 | "1.5,2" has three runs of digits and is refused |
| Parser.SameAsCommandParser | util/parser.ts:74-82 | the older copy of `parseLocation` gives the same result on every input; the two source copies are identical text, so the lemma holds trivially and only records that there is no difference |
| Parser.ParseLocationIgnoresParens | util/parser.ts:75-76 | wrapping the text in parentheses does not change the result |
| Parser.ParseLocationRoundTrip | util/parser.ts:74-82 | "x,y", printed from two naturals, parses back to them |
| Robot.SimRobot.constructor | sim/robot.ts:15-20 | the robot has the given name, stands on the starting point, and its path is undefined |
| Robot.SimRobot.AddPathing | sim/robot.ts:34-41 | an empty list changes nothing; any other list becomes the path, restarting at its first segment; the robot does not move |
| Robot.SimRobot.Step | sim/robot.ts:54-77 | with no path it fails; otherwise it moves to the next segment exactly when it was at its target, keeps the path, and does not move once no segment remains |
| Robot.CurrentPathMatchesCompleted | sim/robot.ts:43-52 | `currentPath` is null exactly when `completedPathing` holds; both fail exactly while the path is undefined; otherwise it is the segment at `pathIdx` |
| Robot.CompletedIsAtDestination | sim/robot.ts:22-45 | a robot that has completed its pathing is at its destination, and `atDestination` fails exactly while the path is undefined |
| Routes.AtMostTransitive | sim/map.ts:98 | the order on distances is transitive |
| Routes.ChainWeightSnoc | sim/map.ts:97 | extending a chain by an edge at its end adds that edge's weight |
| Routes.ChainWeightCons | sim/map.ts:107-112 | extending a chain by an edge at its front adds that edge's weight |
| Routes.RelaxedUpToNone | sim/map.ts:95 | before the child loop, nothing has been relaxed |
| Routes.RelaxedUpToNext | sim/map.ts:96-101 | one more child: skipped when it is the start, updated when its distance is falsy or larger |
| Routes.RelaxedUpToAll | sim/map.ts:95-102 | after all children, the loop has computed the relaxation step |
| Routes.InitialInv | sim/map.ts:79-89 | the seeded tables (distances as in the source, the start at 0 when it has a self-loop; parents with the start's own self-loop skipped) satisfy the search invariant for any start |
| Routes.EmptyStartSelfLoopExample | sim/map.ts:79-91 | for "" with a self-loop and an edge to C, and C -> D: the seeding gives "" the distance 0 and D Infinity without a parent, and "" is the only nearest unvisited label, so `while (node)` stops before any round |
| Routes.StepInv | sim/map.ts:91-105 | relaxing the nearest unvisited node keeps the search invariant |
| Routes.StepInvAfter | sim/map.ts:91-105 | the same, for the tables the loop computed, and the visited set grows by that node |
| Routes.FewerUnvisited | sim/map.ts:103-104 | visiting a node leaves fewer unvisited, so the search ends |
| Routes.StepUntouched | sim/map.ts:95-102 | a relaxed child is neither the start, the node, nor visited, and it is relaxed along a real edge |
| Routes.StepKeys | sim/map.ts:95-103 | the step keeps which labels have distances and parents, and that finite distances are positive |
| Routes.StepParents | sim/map.ts:95-102 | the step keeps every parent link an edge whose weight accounts for the child's distance |
| Routes.StepParentLink | sim/map.ts:99-100 | the same, for one child |
| Routes.StepOrder | sim/map.ts:103-104 | nodes are visited in order of distance |
| Routes.StepRelaxed | sim/map.ts:95-102 | after a node is visited, every edge out of a visited node is relaxed |
| Routes.PrefixBound | sim/map.ts:91-105 | once every node is visited, each node on a route has a distance no larger than the route's prefix to it |
| Routes.Optimal | sim/map.ts:115-118 | once every node is visited, the distance to `end` is finite and no larger than the weight of any route to it |
| Routes.TraceExtend | sim/map.ts:107-112 | following one more parent keeps the traced path a chain ending at `end`, and the measure decreases |
| Maps.Legs | sim/map.ts:232-243 | the pathing has at most one segment per label |
| Maps.LegsOfChain | sim/map.ts:232-243 | along labels that change at every step, each label becomes one segment from the label before it, heading for its coordinates |
| Maps.LegsOfRoute | sim/map.ts:232-243 | the pathing of a route has one segment per edge, from each label to the next |
| Maps.ReleaseHeld | sim/map.ts:275-279 | exactly the entries held by the robot are deleted, and every other entry is kept |
| Maps.RelaxChildren | sim/map.ts:95-102 | the child loop computes one relaxation step |
| Maps.SeedParents | sim/map.ts:83-86 | the parents loop gives every child of the start other than the start itself the start as parent (the corrected seeding of "## Findings") |
| Maps.TraceRoundsNeverEnd | sim/map.ts:107-112 | once a truthy label is its own parent, `while (parent)` run from any label it parents has not ended after any number of rounds |
| Maps.AsWrittenTraceNeverEnds | sim/map.ts:84-86 | with a self-loop at a truthy start, the seeding as written makes the start its own parent, no relaxation round changes that, and the rebuilding from the start or from a child of the start never ends |
| Maps.AsWrittenSelfLoopExample | sim/map.ts:78-113 | for edges A -> A and A -> B, SHORTEST_PATH A to B as written: the parents are A for both, the search changes neither, and the rebuilding from B never ends |
| Maps.TracePath | sim/map.ts:107-113 | the path is a chain of edges ending at `end`, never revisits the start, and weighs the distance the search assigned |
| Maps.AddLocationKeepsTables | sim/map.ts:131-138 | storing a fresh location keeps the tables consistent |
| Maps.RemoveLocationKeepsTables | sim/map.ts:151-153 | deleting a location that no edge touches keeps the tables consistent |
| Maps.AddEdgeKeepsWeights | sim/map.ts:177-180 | an edge weighed by the distance between its ends keeps every edge weighed |
| Maps.RemoveEdgeKeepsWeights | sim/map.ts:190-191 | deleting an edge keeps every edge weighed |
| Maps.BuildPathing | sim/map.ts:232-243 | the pathing loop builds the legs of the route |
| Maps.EntriesStep | sim/map.ts:257-282 | one robot's turn carries the occupancy invariant of the tick over to the robots still to move |
| Maps.ClaimsStep | sim/map.ts:262-272 | one robot's turn keeps every edge claimed earlier in the tick, and claims the robot's own edge if it was free at the start and is still free both ways |
| Maps.SimMap.constructor | sim/map.ts:10-15 | an empty map of size `MAP_SIZE`, which is valid |
| Maps.SimMap.PositiveWeightsOfValid | sim/map.ts:177-180 | in a valid map no edge weighs less than zero, and every edge between two different locations weighs more |
| Maps.SimMap.ChainInLocations | sim/map.ts:239-240 | every label on a chain of edges is a stored location |
| Maps.SimMap.IsInAnyPath | sim/map.ts:29-34 | true exactly when an edge leaves or enters the label |
| Maps.SimMap.RobotsHere | sim/map.ts:36-48 | false exactly when no robot is within the threshold of the location or heading to it; it fails only when some robot's path is undefined |
| Maps.SimMap.ShortestDistanceNode | sim/map.ts:50-63 | none exactly when every node is visited; otherwise an unvisited node whose distance is no larger than any other unvisited node's |
| Maps.SimMap.NearestPoint | sim/map.ts:65-76 | none exactly when there are no locations; otherwise a stored label no farther than any other |
| Maps.SimMap.Search | sim/map.ts:88-105 | the search loop ends, for any start, with the invariant, and with every node visited when no label is empty |
| Maps.SimMap.FindShortestPath | sim/map.ts:78-120 | for any start, self-loop or not: the path is a chain of edges ending at `end` that never returns to the start; from a label to itself the distance is 0 with a self-loop and Infinity without; a finite distance from a truthy start to another label is the weight of the path, a route; with no empty label on the way, no route is lighter than the distance |
| Maps.SimMap.AddLocation | sim/map.ts:122-139 | fails out of bounds or on an existing label or coordinates, changing nothing; otherwise stores the location, its index entry and an empty successor map |
| Maps.SimMap.RemoveLocationByLabel | sim/map.ts:141-154 | fails on an unknown label, a label on an edge, or a robot at or heading to it; otherwise deletes exactly the location and its index entry |
| Maps.SimMap.RemoveLocationByCoords | sim/map.ts:156-163 | fails on unknown coordinates; otherwise removes the location stored there, as removal by label does |
| Maps.SimMap.AddPath | sim/map.ts:165-182 | fails on a missing endpoint or an existing edge, changing nothing; succeeds exactly when both endpoints exist and the edge does not, adding exactly that edge, weighed by the distance between its ends, and returning that distance |
| Maps.SimMap.RemovePath | sim/map.ts:184-195 | fails on an occupied or missing edge; otherwise deletes exactly that edge |
| Maps.SimMap.AddRobot | sim/map.ts:197-202 | fails on a taken name; otherwise stores the robot under its name |
| Maps.SimMap.RemoveRobot | sim/map.ts:204-208 | fails exactly on an unknown name, and deletes nothing |
| Maps.SimMap.AddRobotDestination | sim/map.ts:210-254 | fails on an unknown destination or robot, an empty nearest label, or no finite distance; when both are known and the empty label is not nearest, it passes exactly when a route from the nearest location exists or the destination is that location and has a self-loop (no label on the way empty); from another label the robot's new pathing follows a shortest such route edge by edge; the nearest location itself leaves the pathing as it was; no other robot changes |
| Maps.SimMap.TickRobot | sim/map.ts:257-281 | one robot's turn: a robot whose edge is free both ways claims it and nothing else changes; it keeps its segments; it moves to the next one exactly when it held its edge and had arrived; it stands still unless it held its edge; an entry is dropped only when it was its own and the robot moved on |
| Maps.SimMap.TakeTurn | sim/map.ts:257-282 | one robot's turn keeps the invariant of the tick, including that claimed edges stay claimed |
| Maps.SimMap.TakeTurns | sim/map.ts:257-282 | all robots take their turn; the tick fails if some robot's path is undefined |
| Maps.SimMap.SimulationStep | sim/map.ts:256-283 | the map stays valid; it fails exactly when a robot's path is undefined; every robot takes its turn; an entry is released only by a robot that advanced; a new entry is its robot's claim on the edge it follows; every edge that was free both ways and wanted by a robot is occupied one way afterwards |
| Maps.SimMap.Clone | sim/map.ts:285-287 | a fresh valid map with the same tables and the same robot objects |
| Interpreter.AddLocationArm | sim/interpreter.ts:63-68 | unparseable coordinates fail first; otherwise the location with the untrimmed label is added exactly when it is in bounds and new |
| Interpreter.RemoveByCoordsArm | sim/interpreter.ts:69-72 | unparseable coordinates fail first; unknown coordinates fail; otherwise it succeeds exactly when the location stored there is on no edge and no robot is at it or heading to it, and then removes it |
| Interpreter.RemovePathArm | sim/interpreter.ts:82-84 | only the self-loop at the trimmed `from` can be removed, and only when it exists and is not occupied |
| Interpreter.ShortestPathArm | sim/interpreter.ts:85-90 | the report is the search's: a chain ending at `to`, whose finite distance is its weight and no larger than any route's |
| Interpreter.AddRobotArm | sim/interpreter.ts:92-96 | an unknown location is a `TypeError`; a taken name fails; otherwise a new robot stands on the location, and no other robot changes |
| Interpreter.AddBotDestArm | sim/interpreter.ts:97-101 | an unknown location is a `TypeError`; an unknown robot fails; with both known and the empty label not nearest it passes exactly when a route from the nearest location exists, or the location is the nearest one and has a self-loop (no label on the way empty); from another label the robot's new pathing follows a shortest route from the nearest location, edge by edge, and ends at the location, starting at its first segment; no other robot changes, and a failure changes no robot |
| Interpreter.DeleteBotArm | sim/interpreter.ts:102-108 | an unknown robot is a `TypeError`; an undefined or unfinished pathing fails; otherwise exactly that robot is deleted |
| Interpreter.EditMap | sim/interpreter.ts:62-111 | the arms that change only the map's own tables keep the map valid |
| Interpreter.Apply | sim/interpreter.ts:62-111 | output only for SHORTEST_PATH, which always succeeds, leaves the edges unchanged and reports a shortest route to the trimmed `to`; HELP and unknown tags fail; on failure no robot changes |
| Interpreter.MutationReducer | sim/interpreter.ts:54-114 | a success returns a fresh valid clone; on failure no robot changes; output exactly for SHORTEST_PATH, and it is a shortest route over the old map's edges; unknown tags fail |
| Interpreter.ErrorText | sim/interpreter.ts:46 | the reply starts with the error prefix and has no upper-case letter after it |
| Interpreter.Respond | sim/interpreter.ts:31-49 | "i don't understand" when nothing parsed, the help text for HELP; otherwise a new map exactly when the reducer succeeded, that map, with the reducer's own report as JSON when it gave one and "done." when it did not; the lower-cased error when it failed |
| Interpreter.RunCommand | sim/interpreter.ts:27-50 | never fails; the response is `Respond` of what the reducer gave: unparsed text and HELP give their replies; a new map is fresh and valid; a SHORTEST_PATH reply reports a shortest route; a failure leaves every robot as it was |
| ParsedMapMutations.EditOld | util/parsed-map-mutations.ts:9-38 | REMOVE_PATH always fails with the `TypeError`; other tags fail; bad coordinates fail; each handled command succeeds exactly when the map's own checks pass, and then has its map effect; a failure leaves the tables unchanged |
| ParsedMapMutations.MutationReducer | util/parsed-map-mutations.ts:5-41 | a success is a fresh valid clone sharing the robots; REMOVE_PATH and unknown tags always fail; so do bad coordinates |

## Left out

- Floating point is not modelled: coordinates and weights are reals, and `dist` is any function that is non-negative, symmetric and zero only between equal points. `Infinity` is a separate `Inf` value, and `-0` does not arise.
- Robot.SimRobot.Step: the motion itself (atan2, cos, sin, sqrt) is not modelled; the new position is arbitrary while a segment remains.
- JavaScript object key order is not modelled. Loops over tables pick keys in any order, and every contract holds for every order. For the same reason, ties in `shortestDistanceNode` and `nearestPoint` are not resolved as the engine would.
- Maps.SimMap.SimulationStep: of two robots that want the same free edge, or an edge and its reverse, the one earlier in key order claims it; the contract states only that one of them does, since key order is not modelled.
- Maps.SimMap.FindShortestPath: models the corrected parent seeding of "## Findings", which gives `start` no parent; the distances are seeded as the source seeds them. Where the source's path rebuilding ends, the model runs the same search, up to the order among equally near labels (see Maps.SimMap.ShortestDistanceNode), and returns the same distance and path. Optimality is stated only when no label on the way is the empty string: the source's `while (node)` and `while (parent)` stop at an empty label, as the model's do.
- Interpreter.MutationReducer: the per-command effects are stated by the arms (`AddLocationArm` and the others), not relayed through the reducer's contract.
- Interpreter.Apply: relays only SHORTEST_PATH's report, validity and the robots on failure; the effect of every other command is stated on the arm or map method it calls unchanged.
- Interpreter.EditMap: states only that the map stays valid; its arms state the effects.
- Interpreter.ErrorText: does not state that the message after the prefix is non-empty.
- ParsedMapMutations.MutationReducer: states the failures and the shape of a success; `EditOld` states the effects.
- The source's tables are plain `{}` objects, so `in` and indexing also find keys inherited from `Object.prototype`; the model's maps hold only stored keys. A label or robot name equal to such a property (`toString`, `constructor`, `hasOwnProperty` and the rest) therefore behaves differently: the source refuses to add a location labelled `toString` as already existing (sim/map.ts:133), lets `removeRobot("constructor")` pass (sim/map.ts:205), accepts the destination `toString` (sim/map.ts:211), and lets ADD_ROBOT place a robot at undefined coordinates read from `locations["toString"]` (sim/interpreter.ts:93). The model treats every such label as absent unless it was stored.
- Path keys `${from},${to}` and coordinate keys `${x},${y}` are pairs in the model. Two different edges whose labels contain commas can share a key in the source; that collision is not modelled.
- `clone` shares the robot objects, as in the source, but the tables are values. So a success does not also change the old map's tables, as it does in the source.
- SHORTEST_PATH's reply is kept as the structured `{distance, path}` record; `JSON.stringify` and number formatting are not modelled.
- `parseInt` gives an unbounded natural; precision lost beyond 2^53 is not modelled.
- `toLowerCase` is modelled on the ASCII letters only; every message the core raises is ASCII, apart from labels and names it quotes.
- The natural-language `parse` of util/command-parser.ts and util/parser.ts, with its query table, is not part of this model. The interpreter takes its result as an input: a command, or none.
- `console.log`, `randomColor` and the robot's `color` are left out: they do not affect the map.
- util/distance.ts is represented only by the metric properties above.

## Findings

| source | as written | input that shows it | evidently intended | confidence | as-written member | corrected member |
|---|---|---|---|---|---|---|
| sim/map.ts:84-86 | the seeding gives every child of `start`, `start` included, the parent `start`; the relaxation skips `start` (line 96), so with a self-loop `start` stays its own parent and `while (parent)` at lines 109-112 never ends once it reaches `start` | locations A and B, ADD_PATH A to A, ADD_PATH A to B, then SHORTEST_PATH A to B (or a robot nearest to A sent to B) | `start` never gets a parent, as the skip at line 96 shows, so the path rebuilding stops at `start` | not executed | Maps.AsWrittenSelfLoopExample | Maps.SimMap.FindShortestPath |
