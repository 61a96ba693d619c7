/** The simulation map of sim/map.ts: five tables updated in place (locations,
    the coordinate index, the successor maps with edge weights, edge occupancy
    and robots), the queries over them, Dijkstra's search, and the tick that
    moves robots under the one-robot-per-edge protocol. */
module Maps {
  import opened Wrappers
  import opened Errors
  import opened Geometry
  import opened Types
  import opened Robot
  import opened Routes

  /** `MAP_SIZE`. */
  const MapSize: (real, real) := (100.0, 100.0)

  /** The step length a tick hands to each moving robot. */
  const TickStep: real := 0.1

  /** An `inUse` key: the edge `from -> to`. */
  type EdgeKey = (Label, Label)

  function SegmentKey(s: Segment): EdgeKey {
    (s.from, s.to)
  }

  /** An edge and its reverse are never occupied at the same time. */
  ghost predicate Exclusive(inUse: map<EdgeKey, string>) {
    forall a, b :: (a, b) in inUse && a != b ==> (b, a) !in inUse
  }

  /** `name` occupies the edge of the segment `current` reports. */
  predicate HoldsSegment(inUse: map<EdgeKey, string>, name: string, current: Result<Option<Segment>, SimError>) {
    current.Ok? && current.value.Some? && SegmentKey(current.value.value) in inUse
    && inUse[SegmentKey(current.value.value)] == name
  }

  /** `current` reports a segment along the edge `k`. */
  predicate OnSegment(k: EdgeKey, current: Result<Option<Segment>, SimError>) {
    current.Ok? && current.value.Some? && SegmentKey(current.value.value) == k
  }

  /** The pathing `addRobotDestination` builds from a label list: one segment
      for each label that differs from the one before it, heading for that
      label's coordinates. */
  function Legs(locations: map<Label, Location>, cur: Label, rest: seq<Label>): (r: seq<Segment>)
    requires forall i :: 0 <= i < |rest| ==> rest[i] in locations
    ensures |r| <= |rest|
    decreases |rest|
  {
    if rest == [] then []
    else if rest[0] == cur then Legs(locations, cur, rest[1..])
    else
      var to := locations[rest[0]];
      [Segment(cur, rest[0], to.x, to.y)] + Legs(locations, rest[0], rest[1..])
  }

  /** Along labels in which no two neighbours are equal, there is one segment
      per consecutive pair, from the first label of the pair to the second. */
  lemma {:induction false} LegsOfChain(locations: map<Label, Location>, cur: Label, rest: seq<Label>)
    requires forall i :: 0 <= i < |rest| ==> rest[i] in locations
    requires forall i :: 0 <= i < |rest| - 1 ==> rest[i] != rest[i + 1]
    requires rest != [] ==> rest[0] != cur
    decreases |rest|
    ensures var r := Legs(locations, cur, rest); var s := [cur] + rest;
      && |r| == |rest|
      && forall i :: 0 <= i < |r| ==>
           r[i] == Segment(s[i], s[i + 1], locations[s[i + 1]].x, locations[s[i + 1]].y)
  {
    if rest != [] {
      LegsOfChain(locations, rest[0], rest[1..]);
      var r := Legs(locations, cur, rest);
      var s := [cur] + rest;
      var s' := [rest[0]] + rest[1..];
      assert s' == rest && s[1..] == s';
      forall i | 0 <= i < |r|
        ensures r[i] == Segment(s[i], s[i + 1], locations[s[i + 1]].x, locations[s[i + 1]].y)
      {
        if i > 0 {
          assert r[i] == Legs(locations, rest[0], rest[1..])[i - 1];
          assert s[i] == s'[i - 1] && s[i + 1] == s'[i];
        }
      }
    }
  }

  /** The pathing of a route: the route's first label is skipped and each
      further label gives one segment. */
  lemma LegsOfRoute(locations: map<Label, Location>, route: seq<Label>)
    requires |route| >= 1
    requires forall i :: 0 <= i < |route| ==> route[i] in locations
    requires forall i :: 0 <= i < |route| - 1 ==> route[i] != route[i + 1]
    ensures FollowsRoute(locations, Legs(locations, route[0], route), route)
  {
    LegsOfChain(locations, route[0], route[1..]);
    assert [route[0]] + route[1..] == route;
  }

  /** `segs` has one segment per edge of `route`, from the edge's first
      label to its second, heading for the second label's coordinates. */
  ghost predicate FollowsRoute(locations: map<Label, Location>, segs: seq<Segment>, route: seq<Label>) {
    && (forall i :: 0 <= i < |route| ==> route[i] in locations)
    && |segs| == |route| - 1
    && forall i :: 0 <= i < |route| - 1 ==>
         segs[i] == Segment(route[i], route[i + 1], locations[route[i + 1]].x, locations[route[i + 1]].y)
  }

  /** Segments that follow a route of two or more labels end at its last. */
  lemma FollowsRouteEnds(locations: map<Label, Location>, segs: seq<Segment>, route: seq<Label>)
    requires FollowsRoute(locations, segs, route) && |route| >= 2
    ensures |segs| >= 1 && segs[|segs| - 1].to == route[|route| - 1]
  {
    assert segs[|route| - 2] == Segment(route[|route| - 2], route[|route| - 1],
                                        locations[route[|route| - 1]].x, locations[route[|route| - 1]].y);
  }

  /** Removes every occupancy entry that holds `name`, as the key loop of
      `simulationStep` does. */
  method ReleaseHeld(inUse: map<EdgeKey, string>, name: string) returns (r: map<EdgeKey, string>)
    ensures forall k :: k in r <==> k in inUse && inUse[k] != name
    ensures forall k :: k in r ==> r[k] == inUse[k]
  {
    r := inUse;
    var keys := inUse.Keys;
    while keys != {}
      invariant keys <= inUse.Keys
      invariant forall k :: k in r <==> k in inUse && (k in keys || inUse[k] != name)
      invariant forall k :: k in r ==> r[k] == inUse[k]
      decreases |keys|
    {
      var key :| key in keys;
      if r[key] == name {
        r := r - {key};
      }
      keys := keys - {key};
    }
  }

  /** The inner loop of `findShortestPath`: each child of `node` other than
      `start` takes the distance through `node` when it has no distance yet, a
      falsy one, or a larger one, and then gets `node` as its parent. */
  method RelaxChildren(start: Label, node: Label, children: map<Label, real>, distance: Dist,
                       distances: map<Label, Dist>, parents: map<Label, Label>)
    returns (distances': map<Label, Dist>, parents': map<Label, Label>)
    ensures distances' == RelaxD(children, start, distances, distance, children.Keys)
    ensures parents' == RelaxP(children, start, distances, distance, children.Keys, parents, node)
  {
    distances', parents' := distances, parents;
    var pending := children.Keys;
    ghost var done: set<Label> := {};
    RelaxedUpToNone(children, start, distances, distance, parents, node);
    while pending != {}
      invariant pending !! done && pending + done == children.Keys
      invariant RelaxedUpTo(children, start, distances, distance, parents, node, done, distances', parents')
      decreases |pending|
    {
      var child :| child in pending;
      RelaxedUpToNext(children, start, distances, distance, parents, node, done, distances', parents', child);
      if child != start {
        var newdistance := Plus(distance, children[child]);
        if Falsy(distances', child) || Below(newdistance, distances'[child]) {
          distances' := distances'[child := newdistance];
          parents' := parents'[child := node];
        }
      }
      pending := pending - {child};
      done := done + {child};
    }
    RelaxedUpToAll(children, start, distances, distance, parents, node, distances', parents');
  }

  /** The seeding loop of `findShortestPath`, corrected: every child of
      `start` other than `start` itself gets `start` as its parent. */
  method SeedParents(g: Graph, start: Label) returns (parents: map<Label, Label>)
    ensures parents == InitialParents(g, start)
  {
    parents := map[];
    var startChildren := Children(g, start);
    var pending := startChildren.Keys;
    while pending != {}
      invariant pending <= startChildren.Keys
      invariant forall c :: c in parents <==> c in startChildren && c != start && c !in pending
      invariant forall c :: c in parents ==> parents[c] == start
      decreases |pending|
    {
      var child :| child in pending;
      if child != start {
        parents := parents[child := start];
      }
      pending := pending - {child};
    }
  }

  /** The seeding loop as sim/map.ts:84-86 writes it: every child of
      `start`, `start` itself included, gets `start` as its parent. */
  function SeedParentsAsWritten(g: Graph, start: Label): (parents: map<Label, Label>)
    ensures forall c :: c in parents <==> HasEdge(g, start, c)
  {
    map c | c in Children(g, start) :: start
  }

  /** The labels the reconstruction loop `while (parent)` pushes after `x`,
      within `fuel` rounds; None when the loop is still running after them. */
  function TraceRounds(parents: map<Label, Label>, x: Label, fuel: nat): Option<seq<Label>>
    decreases fuel
  {
    if x !in parents || parents[x] == "" then Some([])
    else if fuel == 0 then None
    else match TraceRounds(parents, parents[x], fuel - 1)
      case None => None
      case Some(rest) => Some([parents[x]] + rest)
  }

  /** Once a truthy label is its own parent, the reconstruction from any label
      whose parent it is runs for ever. */
  lemma {:induction false} TraceRoundsNeverEnd(parents: map<Label, Label>, start: Label, x: Label, fuel: nat)
    requires start != "" && start in parents && parents[start] == start
    requires x in parents && parents[x] == start
    ensures TraceRounds(parents, x, fuel).None?
    decreases fuel
  {
    if fuel > 0 {
      TraceRoundsNeverEnd(parents, start, start, fuel - 1);
    }
  }

  /** The seeding as written, with a self-loop at a truthy `start`: `start`
      becomes its own parent, no relaxation round changes a parent of
      `start` (the relaxation skips it), and the reconstruction from `start`
      or from a child of `start` still hanging off it never ends. */
  lemma AsWrittenTraceNeverEnds(g: Graph, start: Label, end: Label, fuel: nat)
    requires HasEdge(g, start, start) && start != ""
    requires HasEdge(g, start, end)
    ensures SeedParentsAsWritten(g, start)[start] == start
    ensures forall ch, d, du, done, u ::
      && start in RelaxP(ch, start, d, du, done, SeedParentsAsWritten(g, start), u)
      && RelaxP(ch, start, d, du, done, SeedParentsAsWritten(g, start), u)[start] == start
    ensures TraceRounds(SeedParentsAsWritten(g, start), end, fuel).None?
  {
    var parents := SeedParentsAsWritten(g, start);
    TraceRoundsNeverEnd(parents, start, end, fuel);
  }

  /** The map with locations A and B one apart, and the edges A -> A (weight
      0) and A -> B (weight 1). SHORTEST_PATH A to B, as written: the
      seeding gives A and B the parent A, the search visits A and then B
      without changing a parent, and the reconstruction from B never ends. */
  lemma AsWrittenSelfLoopExample(fuel: nat)
    ensures var g: Graph := map["A" := map["A" := 0.0, "B" := 1.0], "B" := map[]];
      var parents := SeedParentsAsWritten(g, "A");
      var d := map["B" := Fin(1.0), "A" := Fin(0.0)];
      var ch := Children(g, "A");
      && parents == map["A" := "A", "B" := "A"]
      && RelaxP(ch, "A", d, d["A"], ch.Keys, parents, "A") == parents
      && RelaxP(Children(g, "B"), "A", d, d["B"], Children(g, "B").Keys, parents, "B") == parents
      && TraceRounds(parents, "B", fuel).None?
  {
    var g: Graph := map["A" := map["A" := 0.0, "B" := 1.0], "B" := map[]];
    var parents := SeedParentsAsWritten(g, "A");
    assert parents == map["A" := "A", "B" := "A"];
    TraceRoundsNeverEnd(parents, "A", "B", fuel);
  }

  /** The reconstruction loop of `findShortestPath`: starting from `end`,
      put the parent in front while it is truthy. The parent links lead back
      through nodes visited earlier, so the loop ends. */
  method TracePath(g: Graph, start: Label, end: Label, distances: map<Label, Dist>, parents: map<Label, Label>,
                   ghost rank: map<Label, nat>, ghost n: nat) returns (path: seq<Label>)
    requires InvKeys(g, start, end, distances, parents, rank, n) && InvParents(g, start, distances, parents, rank)
    ensures |path| >= 1 && path[|path| - 1] == end
    ensures IsChain(g, path)
    ensures forall i :: 1 <= i < |path| ==> path[i] != start
    ensures forall i :: 0 <= i < |path| - 1 ==> path[i] != path[i + 1]
    ensures TraceWeight(g, start, end, distances, path)
    ensures path[0] in parents ==> parents[path[0]] == ""
  {
    path := [end];
    var parent: Option<Label> := if end in parents then Some(parents[end]) else None;
    while parent.Some? && parent.value != ""
      invariant TraceInv(g, start, end, distances, path)
      invariant parent == if path[0] in parents then Some(parents[path[0]]) else None
      decreases match parent case None => 0 case Some(p) => TraceMeasure(start, parents, rank, p)
    {
      var p := parent.value;
      TraceExtend(g, start, end, distances, parents, rank, n, path);
      path := [p] + path;
      parent := if p in parents then Some(parents[p]) else None;
    }
  }

  predicate WithinSize(loc: Location, size: (real, real)) {
    0.0 <= loc.x <= size.0 && 0.0 <= loc.y <= size.1
  }

  /** Each location is stored under its label, inside the map, with a
      successor map and a coordinate index entry leading back to it, and each
      index entry leads to a location with those coordinates. */
  ghost predicate Indexed(locations: map<Label, Location>, byCoord: map<Point, Label>, paths: Graph, size: (real, real)) {
    && (forall l :: l in locations ==>
          && locations[l].name == l
          && l in paths
          && WithinSize(locations[l], size)
          && locations[l].Coords() in byCoord
          && byCoord[locations[l].Coords()] == l)
    && (forall p :: p in byCoord ==>
          byCoord[p] in locations && locations[byCoord[p]].Coords() == p)
  }

  /** Edges join stored locations and weigh the distance between them. */
  ghost predicate Weighed(paths: Graph, locations: map<Label, Location>, dist: Metric) {
    forall a, b :: HasEdge(paths, a, b) ==>
      && a in locations && b in locations
      && Weight(paths, a, b) == dist(locations[a].Coords(), locations[b].Coords())
  }

  /** Storing a location with a fresh label and fresh coordinates, and an
      empty successor map, keeps the tables consistent. */
  lemma AddLocationKeepsTables(locations: map<Label, Location>, byCoord: map<Point, Label>, paths: Graph,
                               size: (real, real), dist: Metric, loc: Location)
    requires Indexed(locations, byCoord, paths, size) && Weighed(paths, locations, dist)
    requires WithinSize(loc, size) && loc.name !in locations && loc.Coords() !in byCoord
    ensures Indexed(locations[loc.name := loc], byCoord[loc.Coords() := loc.name], paths[loc.name := map[]], size)
    ensures Weighed(paths[loc.name := map[]], locations[loc.name := loc], dist)
  {
    var paths' := paths[loc.name := map[]];
    var locations' := locations[loc.name := loc];
    forall a, b | HasEdge(paths', a, b)
      ensures a in locations' && b in locations'
      ensures Weight(paths', a, b) == dist(locations'[a].Coords(), locations'[b].Coords())
    {
      assert a != loc.name && HasEdge(paths, a, b);
      assert b in locations;
    }
  }

  /** Dropping a location that no edge touches, with its index entry, keeps
      the tables consistent. */
  lemma RemoveLocationKeepsTables(locations: map<Label, Location>, byCoord: map<Point, Label>, paths: Graph,
                                  size: (real, real), dist: Metric, lbl: Label)
    requires Indexed(locations, byCoord, paths, size) && Weighed(paths, locations, dist)
    requires lbl in locations
    requires forall b :: !HasEdge(paths, lbl, b)
    requires forall a :: !HasEdge(paths, a, lbl)
    ensures Indexed(locations - {lbl}, byCoord - {locations[lbl].Coords()}, paths, size)
    ensures Weighed(paths, locations - {lbl}, dist)
  {
    var locations' := locations - {lbl};
    var byCoord' := byCoord - {locations[lbl].Coords()};
    forall p | p in byCoord'
      ensures byCoord'[p] in locations' && locations'[byCoord'[p]].Coords() == p
    {
      assert byCoord[p] != lbl;
    }
    forall l | l in locations'
      ensures locations'[l].Coords() in byCoord' && byCoord'[locations'[l].Coords()] == l
    {
      assert locations[l].Coords() != locations[lbl].Coords();
    }
  }

  /** Adding an edge between stored locations with the distance between them
      as its weight keeps the weights right. */
  lemma AddEdgeKeepsWeights(paths: Graph, locations: map<Label, Location>, dist: Metric, from: Label, to: Label)
    requires Weighed(paths, locations, dist) && from in locations && to in locations && from in paths
    ensures Weighed(paths[from := paths[from][to := dist(locations[from].Coords(), locations[to].Coords())]], locations, dist)
  {
    var paths' := paths[from := paths[from][to := dist(locations[from].Coords(), locations[to].Coords())]];
    forall a, b | HasEdge(paths', a, b)
      ensures a in locations && b in locations
      ensures Weight(paths', a, b) == dist(locations[a].Coords(), locations[b].Coords())
    {
      if a != from || b != to {
        assert HasEdge(paths, a, b);
      }
    }
  }

  /** Deleting an edge keeps the weights right. */
  lemma RemoveEdgeKeepsWeights(paths: Graph, locations: map<Label, Location>, dist: Metric, from: Label, to: Label)
    requires Weighed(paths, locations, dist) && from in paths
    ensures Weighed(paths[from := paths[from] - {to}], locations, dist)
  {
    var paths' := paths[from := paths[from] - {to}];
    forall a, b | HasEdge(paths', a, b)
      ensures a in locations && b in locations
      ensures Weight(paths', a, b) == dist(locations[a].Coords(), locations[b].Coords())
    {
      assert HasEdge(paths, a, b);
    }
  }

  /** The loop of `addRobotDestination` that turns a label list into
      segments, skipping each label equal to the one before it. */
  method BuildPathing(locations: map<Label, Location>, start: Label, path: seq<Label>) returns (pathing: seq<Segment>)
    requires forall i :: 0 <= i < |path| ==> path[i] in locations
    ensures pathing == Legs(locations, start, path)
  {
    var curArea := start;
    pathing := [];
    var i := 0;
    while i < |path|
      invariant 0 <= i <= |path|
      invariant pathing + Legs(locations, curArea, path[i..]) == Legs(locations, start, path)
    {
      var dest := path[i];
      assert path[i..] == [dest] + path[i + 1..];
      if dest != curArea {
        pathing := pathing + [Segment(curArea, dest, locations[dest].x, locations[dest].y)];
        curArea := dest;
      }
      i := i + 1;
    }
  }

  /** What a tick needs to know of a robot as it stood before the tick. */
  datatype Pose = Pose(path: Option<seq<Segment>>, pathIdx: nat, x: real, y: real,
                       current: Result<Option<Segment>, SimError>, arrived: Result<bool, SimError>)

  function PoseOf(r: SimRobot, dist: Metric): (p: Pose)
    reads r
    ensures p.path == r.path && p.pathIdx == r.pathIdx && p.x == r.currentX && p.y == r.currentY
    ensures p.current == r.CurrentPath() && p.arrived == r.AtDestination(dist)
  {
    Pose(r.path, r.pathIdx, r.currentX, r.currentY, r.CurrentPath(), r.AtDestination(dist))
  }

  /** A robot's index and position after its turn in a tick, given its pose
      before and whether it occupied its current edge: only a robot on its
      own edge moves, and it moves on to the next segment exactly when it was
      at its target. */
  predicate Turned(r: SimRobot, p: Pose, held: bool)
    reads r
  {
    && r.pathIdx == (if held && p.arrived == Ok(true) then p.pathIdx + 1 else p.pathIdx)
    && (!held ==> r.currentX == p.x && r.currentY == p.y)
  }

  /** Whether a robot with pose `p` before a tick that starts with occupancy
      `inUse0` moves on to its next segment: it occupied its current edge and
      was at its target. */
  predicate Advances(inUse0: map<EdgeKey, string>, name: string, p: Pose) {
    HoldsSegment(inUse0, name, p.current) && p.arrived == Ok(true)
  }

  /** The occupancy change of the turn of robot `name` from `prev` to `next`:
      every entry that is new or replaced is its claim on the edge of its
      current segment, made only when it did not hold that edge and does not
      advance; an entry it keeps means it does not advance; and an entry is
      dropped or replaced only when it was its own and it advances. */
  ghost predicate TurnEntries(prev: map<EdgeKey, string>, next: map<EdgeKey, string>, name: string,
                              current: Result<Option<Segment>, SimError>, held: bool, advanced: bool) {
    && (forall k :: k in next ==>
          || (k in prev && next[k] == prev[k] && (next[k] == name ==> !advanced))
          || (next[k] == name && OnSegment(k, current) && !held && !advanced))
    && (forall k :: k in prev && (k !in next || next[k] != prev[k]) ==> prev[k] == name && advanced)
  }

  /** The turn of robot `name` from `prev` to `next` claims the edge of its
      current segment when neither that edge nor its reverse is occupied. */
  predicate ClaimsFree(prev: map<EdgeKey, string>, next: map<EdgeKey, string>, name: string,
                       current: Result<Option<Segment>, SimError>) {
    current.Ok? && current.value.Some? ==>
      var key := SegmentKey(current.value.value);
      key !in prev && (key.1, key.0) !in prev ==> next == prev[key := name]
  }

  /** The edge of the current segment in pose `p`, and its reverse, are both
      free in `inUse`. */
  predicate FreeBothWays(inUse: map<EdgeKey, string>, p: Pose) {
    p.current.Ok? && p.current.value.Some?
    && var key := SegmentKey(p.current.value.value);
       key !in inUse && (key.1, key.0) !in inUse
  }

  /** Partway through a tick that started with `inUse0`: every robot that has
      taken its turn and whose edge was free both ways at the start finds
      that edge, one way or the other, occupied. */
  ghost predicate ClaimsProgress(inUse: map<EdgeKey, string>, inUse0: map<EdgeKey, string>,
                                 pending: set<string>, before: map<string, Pose>) {
    forall n :: n in before && n !in pending && FreeBothWays(inUse0, before[n]) ==> !FreeBothWays(inUse, before[n])
  }

  /** The occupancy partway through a tick that started with `inUse0` and
      robot poses `before`, with the robots in `pending` still to take their
      turn: pending robots hold what they held; an entry was dropped or
      replaced only for a robot that took its turn and advanced; and every
      entry that is new or replaced is the claim of a robot that took its turn
      without holding its current edge, on that edge. */
  ghost predicate EntriesProgress(inUse: map<EdgeKey, string>, inUse0: map<EdgeKey, string>,
                                  pending: set<string>, before: map<string, Pose>) {
    && (forall n, k :: n in pending ==> ((k in inUse && inUse[k] == n) <==> (k in inUse0 && inUse0[k] == n)))
    && (forall k :: k in inUse0 && (k !in inUse || inUse[k] != inUse0[k]) ==>
          inUse0[k] in before && inUse0[k] !in pending && Advances(inUse0, inUse0[k], before[inUse0[k]]))
    && (forall k :: k in inUse && (k !in inUse0 || inUse[k] != inUse0[k]) ==>
          && inUse[k] in before && inUse[k] !in pending
          && OnSegment(k, before[inUse[k]].current)
          && !HoldsSegment(inUse0, inUse[k], before[inUse[k]].current))
  }

  /** The turn of the pending robot `n` carries `EntriesProgress` over to the
      robots still pending after it. */
  lemma EntriesStep(mid: map<EdgeKey, string>, next: map<EdgeKey, string>, inUse0: map<EdgeKey, string>,
                    pending: set<string>, before: map<string, Pose>, n: string)
    requires EntriesProgress(mid, inUse0, pending, before) && n in pending && n in before
    requires TurnEntries(mid, next, n, before[n].current, HoldsSegment(inUse0, n, before[n].current),
                         Advances(inUse0, n, before[n]))
    ensures EntriesProgress(next, inUse0, pending - {n}, before)
  {
    var held := HoldsSegment(inUse0, n, before[n].current);
    forall m, k | m in pending - {n}
      ensures (k in next && next[k] == m) <==> (k in inUse0 && inUse0[k] == m)
    {
      assert (k in next && next[k] == m) <==> (k in mid && mid[k] == m);
    }
    forall k | k in inUse0 && (k !in next || next[k] != inUse0[k])
      ensures inUse0[k] in before && inUse0[k] !in pending - {n} && Advances(inUse0, inUse0[k], before[inUse0[k]])
    {
      if k in mid && mid[k] == inUse0[k] {
        assert mid[k] == n;
      }
    }
  }

  /** The occupancy partway through a tick: `EntriesProgress` and
      `ClaimsProgress`. */
  ghost predicate Occupancy(inUse: map<EdgeKey, string>, inUse0: map<EdgeKey, string>,
                            pending: set<string>, before: map<string, Pose>) {
    EntriesProgress(inUse, inUse0, pending, before) && ClaimsProgress(inUse, inUse0, pending, before)
  }

  /** The turn of the pending robot `n` carries `Occupancy` over to the
      robots still pending after it. */
  lemma OccupancyStep(mid: map<EdgeKey, string>, next: map<EdgeKey, string>, inUse0: map<EdgeKey, string>,
                      pending: set<string>, before: map<string, Pose>, n: string)
    requires Occupancy(mid, inUse0, pending, before) && n in pending && n in before
    requires TurnEntries(mid, next, n, before[n].current, HoldsSegment(inUse0, n, before[n].current),
                         Advances(inUse0, n, before[n]))
    requires ClaimsFree(mid, next, n, before[n].current)
    ensures Occupancy(next, inUse0, pending - {n}, before)
  {
    EntriesStep(mid, next, inUse0, pending, before, n);
    ClaimsStep(mid, next, inUse0, pending, before, n);
  }

  /** The turn of the pending robot `n` carries `ClaimsProgress` over: an
      entry claimed earlier in the tick belongs to a robot that has taken
      its turn and is kept, and `n` itself, not holding an edge that was
      free, does not advance and claims its edge unless it or its reverse
      was taken earlier in the tick. */
  lemma ClaimsStep(mid: map<EdgeKey, string>, next: map<EdgeKey, string>, inUse0: map<EdgeKey, string>,
                   pending: set<string>, before: map<string, Pose>, n: string)
    requires EntriesProgress(mid, inUse0, pending, before) && ClaimsProgress(mid, inUse0, pending, before)
    requires n in pending && n in before
    requires TurnEntries(mid, next, n, before[n].current, HoldsSegment(inUse0, n, before[n].current),
                         Advances(inUse0, n, before[n]))
    requires ClaimsFree(mid, next, n, before[n].current)
    ensures ClaimsProgress(next, inUse0, pending - {n}, before)
  {
    forall m | m in before && m !in pending - {n} && FreeBothWays(inUse0, before[m])
      ensures !FreeBothWays(next, before[m])
    {
      var key := SegmentKey(before[m].current.value.value);
      var rev := (key.1, key.0);
      if m == n {
        if key in mid || rev in mid {
          var e := if key in mid then key else rev;
          assert !Advances(inUse0, n, before[n]);
          assert e in next;
        }
      } else {
        var e := if key in mid then key else rev;
        assert e in mid && e !in inUse0;
        assert mid[e] != n;
        assert e in next;
      }
    }
  }

  class SimMap {
    const size: (real, real) := MapSize
    /** The distance between two points (util/distance.ts). */
    const dist: Metric
    var locations: map<Label, Location>
    var locationsByCoord: map<Point, Label>
    var paths: Graph
    var inUse: map<EdgeKey, string>
    var robots: map<string, SimRobot>

    predicate InBounds(loc: Location) {
      WithinSize(loc, size)
    }

    /** What every operation keeps: each location is stored under its label,
        inside the map, with a successor map and a coordinate index entry that
        leads back to it; edges join stored locations and weigh the distance
        between them; no edge is occupied together with its reverse; each
        robot is stored under its name. */
    ghost predicate Valid()
      reads this
    {
      && IsMetric(dist)
      && Indexed(locations, locationsByCoord, paths, size)
      && Weighed(paths, locations, dist)
      && Exclusive(inUse)
      && (forall n :: n in robots ==> robots[n].name == n)
    }

    /** An empty map of size `MAP_SIZE`. */
    constructor (dist: Metric)
      requires IsMetric(dist)
      ensures Valid()
      ensures this.dist == dist && size == MapSize
      ensures locations == map[] && locationsByCoord == map[] && paths == map[]
      ensures inUse == map[] && robots == map[]
    {
      this.dist := dist;
      locations := map[];
      locationsByCoord := map[];
      paths := map[];
      inUse := map[];
      robots := map[];
    }

    /** Distinct stored locations have distinct coordinates, so edges between
        distinct labels weigh more than zero. */
    lemma PositiveWeightsOfValid()
      requires Valid()
      ensures PositiveWeights(paths)
    {
      forall a, b | HasEdge(paths, a, b)
        ensures if a == b then Weight(paths, a, b) == 0.0 else Weight(paths, a, b) > 0.0
      {
        var pa, pb := locations[a].Coords(), locations[b].Coords();
        if a != b {
          assert locationsByCoord[pa] == a && locationsByCoord[pb] == b;
          assert pa != pb;
        }
      }
    }

    /** Every label on a chain of two or more labels is a stored location. */
    lemma ChainInLocations(p: seq<Label>)
      requires Valid() && |p| >= 2 && IsChain(paths, p)
      ensures forall i :: 0 <= i < |p| ==> p[i] in locations
    {
      forall i | 0 <= i < |p|
        ensures p[i] in locations
      {
        if i < |p| - 1 {
          assert HasEdge(paths, p[i], p[i + 1]);
        } else {
          assert HasEdge(paths, p[i - 1], p[i]);
        }
      }
    }

    /** The label has an edge leaving it or an edge leading to it. */
    ghost predicate OnSomePath(lbl: Label)
      reads this
    {
      (exists b :: HasEdge(paths, lbl, b)) || (exists a :: HasEdge(paths, a, lbl))
    }

    predicate Near(robot: SimRobot, loc: Location)
      reads robot
    {
      dist(loc.Coords(), robot.Position()) <= DistThreshold
    }

    /** The robot's current segment heads for exactly the location's
        coordinates. */
    predicate Heading(robot: SimRobot, loc: Location)
      reads robot
    {
      robot.CurrentPath().Ok? && robot.CurrentPath().value.Some? && robot.CurrentPath().value.value.Target() == loc.Coords()
    }

    /** No robot is at the location or heading for it, and every robot has a
        defined path (otherwise the check raises a TypeError). */
    ghost predicate NoRobotsAt(loc: Location)
      reads this, robots.Values
    {
      forall n :: n in robots ==>
        !Near(robots[n], loc) && robots[n].path.Some? && !Heading(robots[n], loc)
    }

    /** `isInAnyPath`: whether the lbl has outgoing edges or is the target of
        one. */
    method IsInAnyPath(lbl: Label) returns (r: bool)
      ensures r <==> OnSomePath(lbl)
    {
      var pending := paths.Keys;
      while pending != {}
        invariant pending <= paths.Keys
        invariant forall f :: f in paths && f !in pending ==> !(f == lbl && |paths[f]| > 0) && lbl !in paths[f]
        decreases |pending|
      {
        var fromLbl :| fromLbl in pending;
        var toMap := paths[fromLbl];
        if fromLbl == lbl && |toMap| > 0 {
          var b :| b in toMap;
          assert HasEdge(paths, lbl, b);
          return true;
        }
        if lbl in toMap {
          assert HasEdge(paths, fromLbl, lbl);
          return true;
        }
        pending := pending - {fromLbl};
      }
      return false;
    }

    /** `robotsHere`: whether some robot is within `DIST_THRESHOLD` of the
        location or its current segment heads for the location's coordinates.
        A robot whose path was never set raises a TypeError unless an earlier
        robot already answered. */
    method RobotsHere(loc: Location) returns (r: Result<bool, SimError>)
      ensures r == Ok(false) <==> NoRobotsAt(loc)
      ensures r == Ok(true) ==> exists n :: n in robots && (Near(robots[n], loc) || Heading(robots[n], loc))
      ensures r.Err? ==> r.error == NoPathing && exists n :: n in robots && robots[n].path.None?
    {
      var pending := robots.Keys;
      while pending != {}
        invariant pending <= robots.Keys
        invariant forall n :: n in robots && n !in pending ==>
          !Near(robots[n], loc) && robots[n].path.Some? && !Heading(robots[n], loc)
        decreases |pending|
      {
        var n :| n in pending;
        var robot := robots[n];
        if dist(loc.Coords(), robot.Position()) <= DistThreshold {
          return Ok(true);
        }
        var path := robot.CurrentPath();
        if path.Err? {
          return Err(path.error);
        }
        if path.value.Some? && loc.x == path.value.value.x && loc.y == path.value.value.y {
          return Ok(true);
        }
        pending := pending - {n};
      }
      return Ok(false);
    }

    /** `shortestDistanceNode`: an unvisited lbl with the least distance,
        None when every lbl with a distance is visited. */
    method ShortestDistanceNode(distances: map<Label, Dist>, visited: seq<Label>) returns (shortest: Option<Label>)
      ensures shortest.None? <==> forall k :: k in distances ==> k in visited
      ensures shortest.Some? ==>
        && shortest.value in distances && shortest.value !in visited
        && forall k :: k in distances && k !in visited ==> AtMost(distances[shortest.value], distances[k])
    {
      shortest := None;
      var pending := distances.Keys;
      while pending != {}
        invariant pending <= distances.Keys
        invariant shortest.None? <==> forall k :: k in distances && k !in pending ==> k in visited
        invariant shortest.Some? ==>
          && shortest.value in distances && shortest.value !in visited
          && forall k :: k in distances && k !in pending && k !in visited ==> AtMost(distances[shortest.value], distances[k])
        decreases |pending|
      {
        var node :| node in pending;
        var currentIsShortest := shortest.None? || Below(distances[node], distances[shortest.value]);
        if currentIsShortest && node !in visited {
          shortest := Some(node);
        }
        pending := pending - {node};
      }
    }

    /** `nearestPoint`: a stored location closest to (x, y); None exactly when
        there are no locations. */
    method NearestPoint(x: real, y: real) returns (closestLabel: Option<Label>)
      ensures closestLabel.None? <==> locations == map[]
      ensures closestLabel.Some? ==>
        && closestLabel.value in locations
        && forall l :: l in locations ==>
             dist(Point(x, y), locations[closestLabel.value].Coords()) <= dist(Point(x, y), locations[l].Coords())
    {
      var closestDist := Inf;
      closestLabel := None;
      var pending := locations.Keys;
      while pending != {}
        invariant pending <= locations.Keys
        invariant closestLabel.None? <==> pending == locations.Keys
        invariant closestLabel.None? ==> closestDist == Inf
        invariant closestLabel.Some? ==>
          && closestLabel.value in locations
          && closestDist == Fin(dist(Point(x, y), locations[closestLabel.value].Coords()))
          && forall l :: l in locations && l !in pending ==> closestDist.value <= dist(Point(x, y), locations[l].Coords())
        decreases |pending|
      {
        var lbl :| lbl in pending;
        var d := dist(Point(x, y), locations[lbl].Coords());
        if Below(Fin(d), closestDist) {
          closestDist := Fin(d);
          closestLabel := Some(lbl);
        }
        pending := pending - {lbl};
      }
    }

    /** The main loop of `findShortestPath`: while the closest unvisited
        label is truthy, relax its children and mark it visited. */
    method Search(g: Graph, start: Label, end: Label, distances: map<Label, Dist>, parents: map<Label, Label>)
      returns (distances': map<Label, Dist>, parents': map<Label, Label>, ghost rank: map<Label, nat>, ghost n: nat)
      requires PositiveWeights(g)
      requires Inv(g, start, end, distances, parents, map[], 0)
      ensures Inv(g, start, end, distances', parents', rank, n)
      ensures NoEmptyLabels(g, end) ==> forall c :: c in distances' ==> c in rank
    {
      distances', parents' := distances, parents;
      ghost var universe := {end} + Targets(g);
      var visited: seq<Label> := [];
      rank := map[];
      var node := ShortestDistanceNode(distances', visited);
      while node.Some? && node.value != ""
        invariant Inv(g, start, end, distances', parents', rank, |visited|)
        invariant forall c :: c in visited <==> c in rank
        invariant node.Some? ==> MinUnvisited(distances', rank, node.value)
        invariant node.None? ==> forall c :: c in distances' ==> c in rank
        decreases |universe - rank.Keys|
      {
        var u := node.value;
        var distance := distances'[u];
        var children := Children(g, u);
        FewerUnvisited(universe, rank.Keys, u);
        ghost var before, parentsBefore := distances', parents';
        distances', parents' := RelaxChildren(start, u, children, distance, distances', parents');
        StepInvAfter(g, start, end, before, parentsBefore, rank, |visited|, u, distances', parents');
        rank := rank[u := |visited|];
        visited := visited + [u];
        node := ShortestDistanceNode(distances', visited);
      }
      n := |visited|;
    }

    /** `findShortestPath`: Dijkstra's search from `start`, seeded with the end
        at Infinity and the start's children at their edge weights; no edge
        into `start` is relaxed. The path is rebuilt from `end` along parent
        links (prepending here, pushing then reversing in the source).
        The distances are seeded as the source seeds them, a self-loop at
        `start` giving `start` the distance 0; the parent seeding skips that
        self-loop, as the relaxation does (`InitialParents`). The parent
        seeding as written is `SeedParentsAsWritten`. */
    method FindShortestPath(start: Label, end: Label) returns (distance: Dist, path: seq<Label>)
      requires Valid()
      ensures |path| >= 1 && path[|path| - 1] == end
      ensures IsChain(paths, path)
      ensures forall i :: 1 <= i < |path| ==> path[i] != start
      ensures forall i :: 0 <= i < |path| - 1 ==> path[i] != path[i + 1]
      ensures start == end ==> distance == if HasEdge(paths, start, start) then Fin(0.0) else Inf
      ensures distance.Fin? && start != "" && start != end ==>
        IsRoute(paths, start, end, path) && distance.value == ChainWeight(paths, path)
      ensures NoEmptyLabels(paths, end) ==>
        forall r :: IsRoute(paths, start, end, r) ==> distance.Fin? && distance.value <= ChainWeight(paths, r)
    {
      PositiveWeightsOfValid();
      var g := paths;
      var distances := InitialDistances(g, start, end);
      var parents := SeedParents(g, start);
      InitialInv(g, start, end);
      ghost var rank, n;
      distances, parents, rank, n := Search(g, start, end, distances, parents);
      if NoEmptyLabels(g, end) {
        Optimal(g, start, end, distances, parents, rank, n);
      }
      path := TracePath(g, start, end, distances, parents, rank, n);
      distance := distances[end];
    }

    // -------------------------------------------------------------------
    // Mutators: each checks every failure condition before writing
    // -------------------------------------------------------------------

    /** `addLocation`: fails outside the map or on a taken label or taken
        coordinates; otherwise stores the location, indexes its coordinates
        and gives it an empty successor map. */
    method AddLocation(newLocation: Location) returns (r: Outcome<SimError>)
      requires Valid()
      modifies this
      ensures Valid()
      ensures r == if !InBounds(newLocation) then Fail(OutOfBounds)
                   else if newLocation.Coords() in old(locationsByCoord) || newLocation.name in old(locations) then Fail(LocationExists)
                   else Pass
      ensures r.Fail? ==> locations == old(locations) && locationsByCoord == old(locationsByCoord) && paths == old(paths)
      ensures r.Pass? ==>
        && locations == old(locations)[newLocation.name := newLocation]
        && locationsByCoord == old(locationsByCoord)[newLocation.Coords() := newLocation.name]
        && paths == old(paths)[newLocation.name := map[]]
      ensures inUse == old(inUse) && robots == old(robots)
    {
      if newLocation.x < 0.0 || newLocation.x > size.0 || newLocation.y < 0.0 || newLocation.y > size.1 {
        return Fail(OutOfBounds);
      }
      var hash := newLocation.Coords();
      var lbl := newLocation.name;
      if hash in locationsByCoord || lbl in locations {
        return Fail(LocationExists);
      }
      AddLocationKeepsTables(locations, locationsByCoord, paths, size, dist, newLocation);
      locationsByCoord := locationsByCoord[hash := lbl];
      locations := locations[lbl := newLocation];
      paths := paths[lbl := map[]];
      return Pass;
    }

    /** `removeLocationByLabel`: fails on an unknown label, on a label with an
        edge into or out of it, and when a robot is at the location or heading
        for it; otherwise drops the location and its coordinate index entry,
        leaving its (empty) successor map behind. */
    method RemoveLocationByLabel(lbl: Label) returns (r: Outcome<SimError>)
      requires Valid()
      modifies this
      ensures Valid()
      ensures paths == old(paths) && inUse == old(inUse) && robots == old(robots)
      ensures lbl !in old(locations) ==> r == Fail(LocationNotFound)
      ensures lbl in old(locations) && OnSomePath(lbl) ==> r == Fail(LocationOnPath)
      ensures r == Pass <==> lbl in old(locations) && !OnSomePath(lbl) && NoRobotsAt(old(locations)[lbl])
      ensures r == Fail(LocationBusy) ==>
        lbl in old(locations) && exists n :: n in robots && (Near(robots[n], old(locations)[lbl]) || Heading(robots[n], old(locations)[lbl]))
      ensures r.Fail? ==> r.error in {LocationNotFound, LocationOnPath, LocationBusy, NoPathing}
      ensures r.Fail? ==> locations == old(locations) && locationsByCoord == old(locationsByCoord)
      ensures r.Pass? ==>
        && locations == old(locations) - {lbl}
        && locationsByCoord == old(locationsByCoord) - {old(locations)[lbl].Coords()}
    {
      if lbl !in locations {
        return Fail(LocationNotFound);
      }
      var onPath := IsInAnyPath(lbl);
      if onPath {
        return Fail(LocationOnPath);
      }
      var loc := locations[lbl];
      var here := RobotsHere(loc);
      if here.Err? {
        return Fail(here.error);
      }
      if here.value {
        return Fail(LocationBusy);
      }
      var locationHash := loc.Coords();
      RemoveLocationKeepsTables(locations, locationsByCoord, paths, size, dist, lbl);
      locations := locations - {lbl};
      locationsByCoord := locationsByCoord - {locationHash};
      return Pass;
    }

    /** `removeLocationByCoords`: fails when no location has exactly these
        coordinates, and otherwise removes the indexed label as
        `removeLocationByLabel` does. */
    method RemoveLocationByCoords(x: real, y: real) returns (r: Outcome<SimError>)
      requires Valid()
      modifies this
      ensures Valid()
      ensures paths == old(paths) && inUse == old(inUse) && robots == old(robots)
      ensures Point(x, y) !in old(locationsByCoord) ==> r == Fail(CoordsNotFound)
      ensures r.Fail? ==> locations == old(locations) && locationsByCoord == old(locationsByCoord)
      ensures Point(x, y) in old(locationsByCoord) ==>
        var lbl := old(locationsByCoord)[Point(x, y)];
        && lbl in old(locations)
        && (r == Pass <==> !OnSomePath(lbl) && NoRobotsAt(old(locations)[lbl]))
        && (OnSomePath(lbl) ==> r == Fail(LocationOnPath))
        && (r.Pass? ==> locations == old(locations) - {lbl} && locationsByCoord == old(locationsByCoord) - {Point(x, y)})
    {
      var locationHash := Point(x, y);
      if locationHash !in locationsByCoord {
        return Fail(CoordsNotFound);
      }
      var lbl := locationsByCoord[locationHash];
      r := RemoveLocationByLabel(lbl);
    }

    /** `addPath`: fails when an endpoint is missing or the directed edge
        exists; otherwise adds exactly the edge `from -> to`, weighing the
        distance between the endpoints, and returns that weight. The reverse
        edge is not added. */
    method AddPath(from: Label, to: Label) returns (r: Result<real, SimError>)
      requires Valid()
      modifies this
      ensures Valid()
      ensures locations == old(locations) && locationsByCoord == old(locationsByCoord)
      ensures inUse == old(inUse) && robots == old(robots)
      ensures from !in old(locations) || to !in old(locations) ==> r == Err(EndpointMissing)
      ensures from in old(locations) && to in old(locations) && HasEdge(old(paths), from, to) ==> r == Err(PathExists(from, to))
      ensures r.Ok? <==> from in old(locations) && to in old(locations) && !HasEdge(old(paths), from, to)
      ensures r.Err? ==> paths == old(paths)
      ensures r.Ok? ==>
        && from in locations && to in locations && !HasEdge(old(paths), from, to)
        && r.value == dist(locations[from].Coords(), locations[to].Coords())
        && paths == old(paths)[from := old(paths)[from][to := r.value]]
        && forall a, b :: HasEdge(paths, a, b) <==> HasEdge(old(paths), a, b) || (a == from && b == to)
    {
      if from !in locations || to !in locations {
        return Err(EndpointMissing);
      }
      if from in paths && to in paths[from] {
        return Err(PathExists(from, to));
      }
      var fromCoords := locations[from];
      var toCoords := locations[to];
      var distance := dist(fromCoords.Coords(), toCoords.Coords());
      AddEdgeKeepsWeights(paths, locations, dist, from, to);
      paths := paths[from := paths[from][to := distance]];
      return Ok(distance);
    }

    /** `removePath`: fails when the edge `from -> to` is occupied (checked
        first) or does not exist; otherwise deletes exactly that edge. */
    method RemovePath(from: Label, to: Label) returns (r: Outcome<SimError>)
      requires Valid()
      modifies this
      ensures Valid()
      ensures locations == old(locations) && locationsByCoord == old(locationsByCoord)
      ensures inUse == old(inUse) && robots == old(robots)
      ensures (from, to) in old(inUse) ==> r == Fail(PathInUse(from, to))
      ensures r == Pass <==> (from, to) !in old(inUse) && HasEdge(old(paths), from, to)
      ensures r.Fail? && (from, to) !in old(inUse) ==> r == Fail(PathNotFound)
      ensures r.Fail? ==> paths == old(paths)
      ensures r.Pass? ==>
        && paths == old(paths)[from := old(paths)[from] - {to}]
        && forall a, b :: HasEdge(paths, a, b) <==> HasEdge(old(paths), a, b) && (a != from || b != to)
    {
      var hash := (from, to);
      if hash in inUse {
        return Fail(PathInUse(from, to));
      }
      if from in paths && to in paths[from] {
        RemoveEdgeKeepsWeights(paths, locations, dist, from, to);
        paths := paths[from := paths[from] - {to}];
        return Pass;
      }
      return Fail(PathNotFound);
    }

    /** `addRobot`: fails on a taken name, and otherwise stores the robot under
        its name. */
    method AddRobot(robot: SimRobot) returns (r: Outcome<SimError>)
      requires Valid()
      modifies this
      ensures Valid()
      ensures locations == old(locations) && locationsByCoord == old(locationsByCoord)
      ensures paths == old(paths) && inUse == old(inUse)
      ensures r == if robot.name in old(robots) then Fail(RobotNameTaken) else Pass
      ensures robots == if r.Pass? then old(robots)[robot.name := robot] else old(robots)
    {
      if robot.name in robots {
        return Fail(RobotNameTaken);
      }
      robots := robots[robot.name := robot];
      return Pass;
    }

    /** `removeRobot`: fails on an unknown name, and otherwise changes
        nothing; it does not delete the robot. */
    method RemoveRobot(name: string) returns (r: Outcome<SimError>)
      ensures r.Pass? <==> name in robots
      ensures r.Fail? ==> r.error == RobotNotFound
    {
      if name !in robots {
        return Fail(RobotNotFound);
      }
      return Pass;
    }

    /** `l` is a stored location no farther from `p` than any other. */
    ghost predicate IsNearest(l: Label, p: Point)
      reads this
    {
      l in locations
      && forall m :: m in locations ==> dist(p, locations[l].Coords()) <= dist(p, locations[m].Coords())
    }

    /** `addRobotDestination`: fails on an unknown destination, then on an
        unknown robot, then when no location (or only the label "") is nearest
        to the robot, then when the search from the nearest location finds no
        finite distance, which includes a destination that is itself the
        nearest location without a self-loop. Otherwise gives the robot one
        segment per edge of the route found, starting over at the first; when
        the destination is the nearest location, the route is that label
        alone, there are no segments and the robot keeps its pathing
        (`addPathing` returns early). Occupancy is untouched.
        The nearest label and the route are returned as ghost results. */
    method AddRobotDestination(name: string, destination: Label)
      returns (r: Outcome<SimError>, ghost start: Label, ghost route: seq<Label>)
      requires Valid()
      modifies robots.Values
      ensures destination !in locations ==> r == Fail(DestinationNotFound)
      ensures destination in locations && name !in robots ==> r == Fail(RobotNotRegistered)
      ensures r.Fail? ==> r.error in {DestinationNotFound, RobotNotRegistered, NoNearestPoint, Unreachable}
      ensures r == Fail(NoNearestPoint) ==> "" in locations
      ensures forall n :: n in robots ==> robots[n].Position() == old(robots[n].Position())
      ensures forall n :: n in robots && (r.Fail? || n != name || start == destination) ==>
        robots[n].path == old(robots[n].path) && robots[n].pathIdx == old(robots[n].pathIdx)
      ensures r == Fail(Unreachable) || r == Pass ==>
        name in robots && start != "" && IsNearest(start, robots[name].Position())
      ensures r == Fail(Unreachable) && NoEmptyLabels(paths, destination) ==>
        forall rt :: !IsRoute(paths, start, destination, rt)
      ensures destination in locations && name in robots && !IsNearest("", robots[name].Position()) ==>
        r == Pass || r == Fail(Unreachable)
      ensures destination in locations && name in robots && !IsNearest("", robots[name].Position())
              && NoEmptyLabels(paths, destination) ==>
        (r == Pass <==> (start == destination && HasEdge(paths, start, start))
                        || exists rt :: IsRoute(paths, start, destination, rt))
      ensures r == Pass && start == destination ==> HasEdge(paths, start, start) && route == [start]
      ensures r == Pass && start != destination ==>
        && IsRoute(paths, start, destination, route)
        && (NoEmptyLabels(paths, destination) ==>
              forall rt :: IsRoute(paths, start, destination, rt) ==> ChainWeight(paths, route) <= ChainWeight(paths, rt))
        && robots[name].path.Some? && robots[name].pathIdx == 0
        && FollowsRoute(locations, robots[name].path.value, route)
    {
      start, route := "", [];
      if destination !in locations {
        return Fail(DestinationNotFound), start, route;
      }
      if name !in robots {
        return Fail(RobotNotRegistered), start, route;
      }
      var robot := robots[name];
      var lbl := NearestPoint(robot.currentX, robot.currentY);
      if lbl.None? || lbl.value == "" {
        return Fail(NoNearestPoint), start, route;
      }
      var origin := lbl.value;
      start := origin;
      var distance, path := FindShortestPath(origin, destination);
      if distance.Inf? {
        return Fail(Unreachable), start, route;
      }
      route := path;
      if |path| >= 2 {
        ChainInLocations(path);
      }

      var pathing := BuildPathing(locations, origin, path);
      LegsOfRoute(locations, path);
      assert origin == destination ==> pathing == [];
      robot.AddPathing(pathing);
      r := Pass;
    }

    /** One robot's turn, relating the state before it (`old`) to the state
        after it: only this robot's index and position and the occupancy table
        may differ. The robot occupied its current edge (`held`) and was at its
        target (`arrived`) before the turn. It keeps its segments; it moves
        on to the next segment exactly when it held its edge and had arrived;
        it stands still unless it held its edge. Every occupancy entry that is
        new or replaced is this robot's claim on its current edge while it
        stands still, and every entry that was dropped or replaced was its own
        and released because its index moved. */
    twostate predicate TurnTaken(robot: SimRobot, current: Result<Option<Segment>, SimError>,
                                 arrived: Result<bool, SimError>, held: bool)
      reads this, robot
    {
      && robot.path == old(robot.path)
      && robot.pathIdx == (if held && arrived == Ok(true) then old(robot.pathIdx) + 1 else old(robot.pathIdx))
      && (!held ==> robot.currentX == old(robot.currentX) && robot.currentY == old(robot.currentY))
      && TurnEntries(old(inUse), inUse, robot.name, current, held, held && arrived == Ok(true))
    }

    /** One robot's turn in `simulationStep`, for a robot whose path is
        defined: when neither its current edge nor the reverse is occupied it
        claims the edge and waits; when it already occupies the edge it steps;
        otherwise it waits. A robot whose index moved releases every edge it
        occupies. The ghost parameters name what the turn depends on. */
    method TickRobot(robot: SimRobot, ghost current: Result<Option<Segment>, SimError>,
                     ghost arrived: Result<bool, SimError>, ghost held: bool)
      requires Exclusive(inUse) && robot.path.Some?
      requires current == robot.CurrentPath() && arrived == robot.AtDestination(dist)
      requires held == HoldsSegment(inUse, robot.name, current)
      modifies this`inUse, robot
      ensures Exclusive(inUse)
      ensures TurnTaken(robot, current, arrived, held)
      ensures ClaimsFree(old(inUse), inUse, robot.name, current)
    {
      var segment := robot.CurrentPath();
      var prevPathIdx := robot.pathIdx;
      if segment.value.None? {
        return;
      }
      var seg := segment.value.value;
      var pathHash := (seg.from, seg.to);
      var reversePathHash := (seg.to, seg.from);
      var hashInUse := pathHash in inUse || reversePathHash in inUse;
      var robotMatchesUser := pathHash in inUse && inUse[pathHash] == robot.name;
      if !hashInUse {
        inUse := inUse[pathHash := robot.name];
      } else if robotMatchesUser {
        var stepped := robot.Step(TickStep, dist);
      }
      if robot.pathIdx != prevPathIdx {
        inUse := ReleaseHeld(inUse, robot.name);
      }
    }

    /** Partway through a tick that started with occupancy `inUse0` and robot
        poses `before`, with the robots in `pending` still to take their
        turn: every robot keeps its segments, the pending robots are as they
        were, every robot that took its turn had a defined path and moved as
        `Turned` says, and the occupancy is as `EntriesProgress` says. */
    ghost predicate TickProgress(rs: map<string, SimRobot>, pending: set<string>,
                                 inUse0: map<EdgeKey, string>, before: map<string, Pose>)
      reads this, rs.Values
    {
      && Exclusive(inUse)
      && pending <= rs.Keys && rs.Keys == before.Keys
      && (forall n :: n in rs ==> rs[n].path == before[n].path)
      && (forall n :: n in pending ==> PoseOf(rs[n], dist) == before[n])
      && (forall n :: n in rs && n !in pending ==>
            before[n].path.Some? && Turned(rs[n], before[n], HoldsSegment(inUse0, n, before[n].current)))
      && Occupancy(inUse, inUse0, pending, before)
    }

    /** The turn of the pending robot `n`, carrying the tick's progress over
        to the robots still pending after it. */
    method TakeTurn(rs: map<string, SimRobot>, pending: set<string>, ghost inUse0: map<EdgeKey, string>,
                    ghost before: map<string, Pose>, n: string)
      requires forall m :: m in rs ==> rs[m].name == m
      requires TickProgress(rs, pending, inUse0, before) && n in pending && before[n].path.Some?
      modifies this`inUse, rs[n]
      ensures TickProgress(rs, pending - {n}, inUse0, before)
    {
      var robot := rs[n];
      ghost var mid := inUse;
      TickRobot(robot, before[n].current, before[n].arrived, HoldsSegment(inUse0, n, before[n].current));
      OccupancyStep(mid, inUse, inUse0, pending, before, n);
    }

    /** The robots in `rs` take their turns one by one (`TakeTurn`), in an
        order the model leaves open, until one is found whose path is
        undefined. */
    method TakeTurns(rs: map<string, SimRobot>, ghost inUse0: map<EdgeKey, string>, ghost before: map<string, Pose>)
      returns (r: Outcome<SimError>)
      requires forall n :: n in rs ==> rs[n].name == n
      requires TickProgress(rs, rs.Keys, inUse0, before)
      modifies this`inUse, rs.Values
      ensures Exclusive(inUse)
      ensures forall n :: n in rs ==> rs[n].path == before[n].path
      ensures r.Pass? ==> TickProgress(rs, {}, inUse0, before)
      ensures r.Fail? ==> r.error == NoPathing && exists n :: n in rs && before[n].path.None?
    {
      var pending := rs.Keys;
      while pending != {}
        invariant TickProgress(rs, pending, inUse0, before)
        decreases |pending|
      {
        var n :| n in pending;
        if rs[n].path.None? {
          // `currentPath` throws on a robot that was never given a path
          return Fail(NoPathing);
        }
        TakeTurn(rs, pending, inUse0, before, n);
        pending := pending - {n};
      }
      return Pass;
    }

    /** `simulationStep`: every robot takes its turn (`TakeTurns`). The first
        robot whose path is undefined aborts the tick with a TypeError,
        leaving earlier turns in place. When the tick completes, each robot
        that occupied its current edge has stepped, moving to its next segment
        exactly when it was at its target, and every other robot stands still
        at the same index; an occupancy entry that was dropped or replaced
        belonged to a robot whose index moved, and every entry that is new or
        replaced is the claim of a robot that stands still, on the edge of its
        current segment. */
    method SimulationStep() returns (r: Outcome<SimError>, ghost before: map<string, Pose>)
      requires Valid()
      modifies this`inUse, robots.Values
      ensures Valid()
      ensures before.Keys == robots.Keys && forall n :: n in robots ==> before[n] == old(PoseOf(robots[n], dist))
      ensures forall n :: n in robots ==> robots[n].path == before[n].path
      ensures r.Pass? <==> forall n :: n in robots ==> before[n].path.Some?
      ensures r.Fail? ==> r.error == NoPathing
      ensures r.Pass? ==> forall n :: n in robots ==>
        Turned(robots[n], before[n], HoldsSegment(old(inUse), n, before[n].current))
      ensures r.Pass? ==> forall k :: k in old(inUse) && (k !in inUse || inUse[k] != old(inUse)[k]) ==>
        old(inUse)[k] in robots && Advances(old(inUse), old(inUse)[k], before[old(inUse)[k]])
      ensures r.Pass? ==> forall k :: k in inUse && (k !in old(inUse) || inUse[k] != old(inUse)[k]) ==>
        && inUse[k] in robots
        && OnSegment(k, before[inUse[k]].current)
        && !HoldsSegment(old(inUse), inUse[k], before[inUse[k]].current)
      ensures r.Pass? ==> forall n :: n in robots && FreeBothWays(old(inUse), before[n]) ==>
        !FreeBothWays(inUse, before[n])
    {
      var rs := robots;
      before := map n | n in rs :: PoseOf(rs[n], dist);
      r := TakeTurns(rs, inUse, before);
    }

    /** `clone`: a new map with the same tables and the same robot objects. */
    method Clone() returns (c: SimMap)
      requires Valid()
      ensures fresh(c) && c.Valid()
      ensures c.dist == dist && c.locations == locations && c.locationsByCoord == locationsByCoord
      ensures c.paths == paths && c.inUse == inUse && c.robots == robots
    {
      c := new SimMap(dist);
      c.locations := locations;
      c.locationsByCoord := locationsByCoord;
      c.paths := paths;
      c.inUse := inUse;
      c.robots := robots;
    }
  }
}
