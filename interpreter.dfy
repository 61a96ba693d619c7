/** The command interpreter of sim/interpreter.ts: `mutationReducer`, which
    applies one structured command to a copy of the map, and `runCommand`,
    which turns every outcome into the console's reply. */
module Interpreter {
  import opened Wrappers
  import opened Errors
  import opened Text
  import opened Geometry
  import opened Types
  import opened Robot
  import opened Routes
  import opened Maps
  import opened CommandParser

  /** `HELP_STR`, the usage notes printed for a HELP command. */
  const HelpStr: string :=
    "Usage notes:\n\n"
    + "Adding locations\n    add (location|point|waypoint) <label> <coords>\n"
    + "Removing locations\n    remove (location|point|waypoint) <label>\n"
    + "Adding paths\n    add (path|edge) from? <waypointA> (to|>) <waypointB>\n"
    + "Removing paths\n    remove (path|edge) from? <waypointA> (to|>) <waypointB>\n"
    + "Shortest path printer\n    sp from? <waypointA> (to|>) <waypointB>\n"
    + "Add robot\n    add (robot|bot) <name> at <waypoint>\n"
    + "Add robot destination\n    move (robot|bot)? <name> to <waypoint>\n"
    + "Remove robot\n    remove (robot|bot) <name>\n"

  const NotUnderstood: string := "i don't understand that :("
  const Done: string := "done."
  const ErrorPrefix: string := "i got an error :((\n"

  /** The `{distance, path}` record SHORTEST_PATH reports, before it is
      written out as JSON. */
  datatype PathReport = PathReport(distance: Dist, path: seq<Label>)

  /** What `findShortestPath` promises of the report for `from` and `to` over
      the edges `g`: the path is a chain ending at `to`; the distance from a
      label to itself is 0 when it has a self-loop and Infinity otherwise; a
      finite distance from a truthy label to another is the weight of the
      path, a route; and, when no label on the way is
      empty, no route is lighter than the distance. */
  ghost predicate Reports(g: Graph, from: Label, to: Label, rep: PathReport) {
    && |rep.path| >= 1 && rep.path[|rep.path| - 1] == to
    && IsChain(g, rep.path)
    && (from == to ==> rep.distance == if HasEdge(g, from, from) then Fin(0.0) else Inf)
    && (rep.distance.Fin? && from != "" && from != to ==>
          IsRoute(g, from, to, rep.path) && rep.distance.value == ChainWeight(g, rep.path))
    && (NoEmptyLabels(g, to) ==>
          forall r :: IsRoute(g, from, to, r) ==> rep.distance.Fin? && rep.distance.value <= ChainWeight(g, r))
  }

  /** `Reports` for the trimmed ends of a SHORTEST_PATH command. */
  ghost predicate ReportsFor(g: Graph, cmd: Command, rep: PathReport)
    requires cmd.ShortestPath?
  {
    Reports(g, Trim(cmd.from), Trim(cmd.to), rep)
  }

  /** The console's text: a plain message, or the JSON of a path report. */
  datatype Reply = Says(text: string) | PathJson(report: PathReport)

  /** What `runCommand` returns: the map to show next (`null` when there is
      none) and the reply. */
  datatype Response = Response(newMap: Option<SimMap>, output: Reply)

  /** The labels REMOVE_PATH hands to `removePath`: the `from` text, trimmed,
      twice. The `to` text is not used. */
  function RemovePathEnds(from: string, to: string): (ends: (Label, Label))
    ensures ends.0 == ends.1 == Trim(from)
  {
    (Trim(from), Trim(from))
  }

  // ---------------------------------------------------------------------
  // The arms of the switch, each applied to the clone `m`
  // ---------------------------------------------------------------------

  /** ADD_LOCATION: the untrimmed label, at the parsed coordinates; a text
      that is not a coordinate pair fails before the map is asked. */
  method AddLocationArm(m: SimMap, lbl: string, loc: string) returns (r: Outcome<SimError>)
    requires m.Valid()
    modifies m
    ensures m.Valid() && m.paths.Keys >= old(m.paths.Keys)
    ensures m.inUse == old(m.inUse) && m.robots == old(m.robots)
    ensures ParseLocation(loc).Err? ==> r == Fail(BadLocationText)
    ensures r.Fail? ==> m.locations == old(m.locations) && m.locationsByCoord == old(m.locationsByCoord) && m.paths == old(m.paths)
    ensures ParseLocation(loc).Ok? ==>
      var l := Location(lbl, ParseLocation(loc).value.0 as real, ParseLocation(loc).value.1 as real);
      && (!WithinSize(l, MapSize) ==> r == Fail(OutOfBounds))
      && (WithinSize(l, MapSize) && (l.Coords() in old(m.locationsByCoord) || lbl in old(m.locations)) ==> r == Fail(LocationExists))
      && (r.Pass? <==> WithinSize(l, MapSize) && l.Coords() !in old(m.locationsByCoord) && lbl !in old(m.locations))
      && (r.Pass? ==> m.locations == old(m.locations)[lbl := l])
  {
    var parsed := ParseLocation(loc);
    if parsed.Err? {
      return Fail(parsed.error);
    }
    r := m.AddLocation(Location(lbl, parsed.value.0 as real, parsed.value.1 as real));
  }

  /** REMOVE_LOCATION_BY_COORDS: parse, then remove by the coordinates. */
  method RemoveByCoordsArm(m: SimMap, loc: string) returns (r: Outcome<SimError>)
    requires m.Valid()
    modifies m
    ensures m.Valid()
    ensures m.paths == old(m.paths) && m.inUse == old(m.inUse) && m.robots == old(m.robots)
    ensures ParseLocation(loc).Err? ==> r == Fail(BadLocationText)
    ensures r.Fail? ==> m.locations == old(m.locations) && m.locationsByCoord == old(m.locationsByCoord)
    ensures ParseLocation(loc).Ok? ==>
      var p := Point(ParseLocation(loc).value.0 as real, ParseLocation(loc).value.1 as real);
      && (p !in old(m.locationsByCoord) ==> r == Fail(CoordsNotFound))
      && (p in old(m.locationsByCoord) ==>
            var lbl := old(m.locationsByCoord)[p];
            r == Pass <==> !m.OnSomePath(lbl) && m.NoRobotsAt(old(m.locations)[lbl]))
      && (r.Pass? ==> p in old(m.locationsByCoord) && m.locations == old(m.locations) - {old(m.locationsByCoord)[p]})
  {
    var parsed := ParseLocation(loc);
    if parsed.Err? {
      return Fail(parsed.error);
    }
    r := m.RemoveLocationByCoords(parsed.value.0 as real, parsed.value.1 as real);
  }

  /** REMOVE_PATH as written: `removePath` is given the trimmed `from` text
      as both ends, so only a self-loop can be removed. */
  method RemovePathArm(m: SimMap, from: string, to: string) returns (r: Outcome<SimError>)
    requires m.Valid()
    modifies m
    ensures m.Valid()
    ensures m.locations == old(m.locations) && m.locationsByCoord == old(m.locationsByCoord)
    ensures m.inUse == old(m.inUse) && m.robots == old(m.robots)
    ensures var a := Trim(from);
      && ((a, a) in old(m.inUse) ==> r == Fail(PathInUse(a, a)))
      && (r.Pass? <==> (a, a) !in old(m.inUse) && HasEdge(old(m.paths), a, a))
      && (r.Fail? ==> m.paths == old(m.paths))
      && (r.Pass? ==> forall x, y :: HasEdge(m.paths, x, y) <==> HasEdge(old(m.paths), x, y) && (x != a || y != a))
  {
    var (a, b) := RemovePathEnds(from, to);
    r := m.RemovePath(a, b);
  }

  /** ADD_ROBOT, given the trimmed name `n` and label `at`: the location
      under `at` is read first; a new robot named `n` stands on it, and is
      then added. */
  method AddRobotArm(m: SimMap, n: string, at: Label) returns (r: Outcome<SimError>)
    requires m.Valid()
    modifies m
    ensures m.Valid()
    ensures m.locations == old(m.locations) && m.locationsByCoord == old(m.locationsByCoord)
    ensures m.paths == old(m.paths) && m.inUse == old(m.inUse)
    ensures
      && (at !in m.locations ==> r == Fail(UndefinedProperty("x")))
      && (at in m.locations && n in old(m.robots) ==> r == Fail(RobotNameTaken))
      && (r.Pass? <==> at in m.locations && n !in old(m.robots))
      && (r.Fail? ==> m.robots == old(m.robots))
      && (r.Pass? ==>
            && m.robots.Keys == old(m.robots).Keys + {n}
            && (forall k :: k in old(m.robots) ==> m.robots[k] == old(m.robots)[k])
            && fresh(m.robots[n]) && m.robots[n].path.None?
            && m.robots[n].Position() == m.locations[at].Coords())
  {
    if at !in m.locations {
      // the constructor reads `.x` of the missing location
      return Fail(UndefinedProperty("x"));
    }
    var robot := new SimRobot(n, m.locations[at]);
    r := m.AddRobot(robot);
    if r.Pass? {
      assert m.robots == old(m.robots)[robot.name := robot];
      assert m.robots[n] == robot;
    }
  }

  /** A pathing of at least one segment whose last segment ends at `to`. */
  predicate EndsAt(path: Option<seq<Segment>>, to: Label) {
    path.Some? && |path.value| >= 1 && path.value[|path.value| - 1].to == to
  }

  /** ADD_BOT_DEST, given the trimmed name `n` and label `to`: the location
      under `to` is read first, and its label becomes the destination of the
      robot named `n`, routed from the nearest location `start` along
      `route` (ghost results). It succeeds exactly when a route from `start`
      exists, or `start` is `to` itself and has a self-loop, provided no
      label on the way is empty. On success from another label, the robot's
      new segments follow a shortest route, one per edge, ending at the
      destination. No other robot changes, and a failure changes no robot. */
  method AddBotDestArm(m: SimMap, n: string, to: Label) returns (r: Outcome<SimError>, ghost start: Label, ghost route: seq<Label>)
    requires m.Valid()
    modifies m.robots.Values
    ensures
      && (to !in m.locations ==> r == Fail(UndefinedProperty("label")))
      && (to in m.locations && n !in m.robots ==> r == Fail(RobotNotRegistered))
      && (to in m.locations && n in m.robots && !m.IsNearest("", m.robots[n].Position()) ==>
            && (r == Pass || r == Fail(Unreachable))
            && (NoEmptyLabels(m.paths, to) ==>
                  (r == Pass <==> (start == to && HasEdge(m.paths, start, start))
                                  || exists rt :: IsRoute(m.paths, start, to, rt))))
      && (forall k :: k in m.robots ==> m.robots[k].Position() == old(m.robots[k].Position()))
      && (forall k :: k in m.robots && (r.Fail? || k != n || start == to) ==>
            m.robots[k].path == old(m.robots[k].path) && m.robots[k].pathIdx == old(m.robots[k].pathIdx))
      && (r.Pass? ==> n in m.robots && start != "" && m.IsNearest(start, m.robots[n].Position()))
      && (r.Pass? && start != to ==>
            && IsRoute(m.paths, start, to, route)
            && (NoEmptyLabels(m.paths, to) ==>
                  forall rt :: IsRoute(m.paths, start, to, rt) ==> ChainWeight(m.paths, route) <= ChainWeight(m.paths, rt))
            && m.robots[n].pathIdx == 0
            && m.robots[n].path.Some? && FollowsRoute(m.locations, m.robots[n].path.value, route)
            && EndsAt(m.robots[n].path, to))
  {
    start, route := "", [];
    if to !in m.locations {
      // `location.label` of the missing location
      return Fail(UndefinedProperty("label")), start, route;
    }
    var lbl := m.locations[to].name;
    assert lbl == to;
    r, start, route := m.AddRobotDestination(n, lbl);
    if r.Pass? && start != to {
      FollowsRouteEnds(m.locations, m.robots[n].path.value, route);
    }
  }

  /** DELETE_BOT, given the trimmed name `n`: the robot named `n` must exist
      and have completed its pathing; then exactly its entry is deleted. */
  method DeleteBotArm(m: SimMap, n: string) returns (r: Outcome<SimError>)
    requires m.Valid()
    modifies m`robots
    ensures m.Valid()
    ensures
      && (n !in old(m.robots) ==> r == Fail(UndefinedProperty("completedPathing")))
      && (n in old(m.robots) && old(m.robots)[n].path.None? ==> r == Fail(NoPathing))
      && (n in old(m.robots) && old(m.robots)[n].CompletedPathing() == Ok(false) ==> r == Fail(PathingIncomplete))
      && (r.Pass? <==> n in old(m.robots) && old(m.robots)[n].CompletedPathing() == Ok(true))
      && m.robots == (if r.Pass? then old(m.robots) - {n} else old(m.robots))
  {
    if n !in m.robots {
      // `robot.completedPathing` of the missing robot
      return Fail(UndefinedProperty("completedPathing"));
    }
    var complete := m.robots[n].CompletedPathing();
    if complete.Err? {
      return Fail(complete.error);
    }
    if !complete.value {
      return Fail(PathingIncomplete);
    }
    m.robots := m.robots - {n};
    return Pass;
  }

  /** SHORTEST_PATH, given the trimmed labels `a` and `b`: the search's
      distance and path, unchanged. */
  method ShortestPathArm(m: SimMap, a: Label, b: Label) returns (report: PathReport)
    requires m.Valid()
    ensures Reports(m.paths, a, b, report)
  {
    var distance, path := m.FindShortestPath(a, b);
    report := PathReport(distance, path);
  }

  /** The arms of the switch that change only the map's own tables. */
  predicate EditsMap(cmd: Command) {
    cmd.AddLocation? || cmd.RemoveLocationByCoords? || cmd.RemoveLocationByName? || cmd.AddPath?
    || cmd.RemovePath? || cmd.AddRobot? || cmd.DeleteBot?
  }

  /** Those arms, applied to the clone `m`; no robot object is touched. */
  method EditMap(m: SimMap, cmd: Command) returns (done: Outcome<SimError>)
    requires m.Valid() && EditsMap(cmd)
    modifies m
    ensures m.Valid()
  {
    match cmd {
      case AddLocation(lbl, loc) =>
        done := AddLocationArm(m, lbl, loc);
      case RemoveLocationByCoords(loc) =>
        done := RemoveByCoordsArm(m, loc);
      case RemoveLocationByName(lbl) =>
        done := m.RemoveLocationByLabel(lbl);
      case AddPath(from, to) =>
        var added := m.AddPath(Trim(from), Trim(to));
        done := if added.Ok? then Pass else Fail(added.error);
      case RemovePath(from, to) =>
        done := RemovePathArm(m, from, to);
      case AddRobot(name, location) =>
        done := AddRobotArm(m, Trim(name), Trim(location));
      case DeleteBot(name) =>
        done := DeleteBotArm(m, Trim(name));
    }
  }

  /** The switch of `mutationReducer`, applied to the clone `m`. The
      reducer's `output` is a path report for SHORTEST_PATH and none
      otherwise; HELP and unknown tags fail. On failure no robot's pathing
      has changed. */
  method Apply(m: SimMap, cmd: Command) returns (done: Outcome<SimError>, output: Option<PathReport>)
    requires m.Valid()
    modifies m, m.robots.Values
    ensures m.Valid()
    ensures done.Fail? ==> forall n :: n in old(m.robots) ==>
      && old(m.robots)[n].path == old(m.robots[n].path)
      && old(m.robots)[n].pathIdx == old(m.robots[n].pathIdx)
    ensures output.Some? <==> cmd.ShortestPath?
    ensures cmd.ShortestPath? ==>
      done.Pass? && m.paths == old(m.paths) && ReportsFor(m.paths, cmd, output.value)
    ensures cmd.Help? || cmd.Other? ==> done == Fail(UnknownMutation)
  {
    output := None;
    if EditsMap(cmd) {
      done := EditMap(m, cmd);
      return;
    }
    match cmd {
      case ShortestPath(from, to) =>
        var report := ShortestPathArm(m, Trim(from), Trim(to));
        output := Some(report);
        done := Pass;
      case AddBotDest(name, destination) =>
        ghost var start, route;
        done, start, route := AddBotDestArm(m, Trim(name), Trim(destination));
      case Help =>
        done := Fail(UnknownMutation);
      case Other(_) =>
        done := Fail(UnknownMutation);
    }
  }

  /** `mutationReducer`: clone the map, apply the command to the clone, and
      return the clone. Robots are shared with the old map, so a new
      destination is seen through both; on failure no robot has changed. */
  method MutationReducer(oldMap: SimMap, cmd: Command) returns (r: Result<SimMap, SimError>, output: Option<PathReport>)
    requires oldMap.Valid()
    modifies oldMap.robots.Values
    ensures r.Ok? ==> fresh(r.value) && r.value.Valid() && r.value.dist == oldMap.dist
    ensures r.Err? ==> forall n :: n in oldMap.robots ==>
      && oldMap.robots[n].path == old(oldMap.robots[n].path)
      && oldMap.robots[n].pathIdx == old(oldMap.robots[n].pathIdx)
    ensures output.Some? <==> cmd.ShortestPath?
    ensures cmd.ShortestPath? ==>
      r.Ok? && r.value.paths == oldMap.paths && ReportsFor(oldMap.paths, cmd, output.value)
    ensures cmd.Help? || cmd.Other? ==> r == Err(UnknownMutation)
  {
    var m := oldMap.Clone();
    var done;
    done, output := Apply(m, cmd);
    r := if done.Pass? then Ok(m) else Err(done.error);
  }

  /** The reply to an error: the prefix, then the message in lower case. */
  function ErrorText(e: SimError): (s: string)
    ensures |s| >= |ErrorPrefix| && s[..|ErrorPrefix|] == ErrorPrefix
    ensures forall i :: |ErrorPrefix| <= i < |s| ==> !('A' <= s[i] <= 'Z')
  {
    ErrorPrefix + Lower(Message(e))
  }

  /** `runCommand` after the reducer has run: `reduced` is what
      `mutationReducer` gave for the command, and is not looked at when the
      text was not understood or asked for help. A failure is caught and
      reported; a success reports "done." unless the reducer gave an output. */
  function Respond(parsed: Option<Command>, reduced: Result<(SimMap, Option<PathReport>), SimError>): (resp: Response)
    ensures parsed.None? ==> resp == Response(None, Says(NotUnderstood))
    ensures parsed == Some(Help) ==> resp == Response(None, Says(HelpStr))
    ensures resp.newMap.Some? <==> parsed.Some? && !parsed.value.Help? && reduced.Ok?
    ensures resp.newMap.Some? ==> resp.newMap.value == reduced.value.0
    ensures resp.output.PathJson? <==> resp.newMap.Some? && reduced.value.1.Some?
    ensures resp.output.PathJson? ==> resp.output == PathJson(reduced.value.1.value)
    ensures parsed.Some? && !parsed.value.Help? && reduced.Ok? && reduced.value.1.None? ==> resp.output == Says(Done)
    ensures parsed.Some? && !parsed.value.Help? && reduced.Err? ==> resp.output == Says(ErrorText(reduced.error))
  {
    match parsed
    case None => Response(None, Says(NotUnderstood))
    case Some(Help) => Response(None, Says(HelpStr))
    case Some(_) =>
      match reduced
      case Err(e) => Response(None, Says(ErrorText(e)))
      case Ok((m, out)) =>
        Response(Some(m), match out case None => Says(Done) case Some(rep) => PathJson(rep))
  }

  /** `runCommand`: the text parser's result is given as `parsed` (None when
      nothing matched). It never fails: every outcome becomes a response.
      The ghost result `reduced` is what `mutationReducer` gave, and the
      response is `Respond` of it. */
  method RunCommand(parsed: Option<Command>, current: SimMap)
    returns (resp: Response, ghost reduced: Result<(SimMap, Option<PathReport>), SimError>)
    requires current.Valid()
    modifies current.robots.Values
    ensures resp == Respond(parsed, reduced)
    ensures parsed.None? ==> resp == Response(None, Says(NotUnderstood))
    ensures parsed == Some(Help) ==> resp == Response(None, Says(HelpStr))
    ensures reduced.Ok? ==> fresh(reduced.value.0) && reduced.value.0.Valid()
    ensures resp.newMap.Some? ==> fresh(resp.newMap.value) && resp.newMap.value.Valid()
    ensures parsed.Some? && !parsed.value.Help? ==>
      var cmd := parsed.value;
      && (reduced.Err? ==> forall n :: n in current.robots ==>
            current.robots[n].path == old(current.robots[n].path)
            && current.robots[n].pathIdx == old(current.robots[n].pathIdx))
      && (reduced.Ok? ==> (reduced.value.1.Some? <==> cmd.ShortestPath?))
      && (cmd.ShortestPath? ==>
            reduced.Ok? && ReportsFor(current.paths, cmd, reduced.value.1.value))
      && (cmd.Other? ==> reduced == Err(UnknownMutation))
  {
    if parsed.None? || parsed.value.Help? {
      reduced := Err(UnknownMutation);
      return Respond(parsed, Err(UnknownMutation)), reduced;
    }
    var r, output := MutationReducer(current, parsed.value);
    var result := if r.Ok? then Ok((r.value, output)) else Err(r.error);
    reduced := result;
    resp := Respond(parsed, result);
  }
}
