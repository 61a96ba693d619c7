/** The older `mutationReducer` of util/parsed-map-mutations.ts. It handles
    only the map-editing tags, takes coordinates from util/parser.ts's
    `parseLocation`, and lets every error thrown by the map propagate. */
module ParsedMapMutations {
  import opened Wrappers
  import opened Errors
  import opened Text
  import opened Geometry
  import opened Types
  import opened Routes
  import opened Maps
  import opened CommandParser
  import Parser

  /** The tags this reducer has a case for; every other tag is refused. */
  predicate Handled(cmd: Command) {
    cmd.AddLocation? || cmd.RemoveLocationByCoords? || cmd.RemoveLocationByName?
    || cmd.AddPath? || cmd.RemovePath?
  }

  /** The location the ADD_LOCATION case builds: the untrimmed label at the
      parsed coordinates. */
  function NewLocation(lbl: string, xy: (nat, nat)): (l: Location)
    ensures l.name == lbl && l.Coords() == Point(xy.0 as real, xy.1 as real)
  {
    Location(lbl, xy.0 as real, xy.1 as real)
  }

  /** The switch, applied to the clone `m`. REMOVE_PATH computes the edge's
      hash and then calls `removePathByHash`, which the map does not have:
      that case always fails, leaving `m` as it was. A failure of any case
      leaves the tables as they were. */
  method EditOld(m: SimMap, cmd: Command) returns (done: Outcome<SimError>)
    requires m.Valid()
    modifies m
    ensures m.Valid() && m.robots == old(m.robots) && m.inUse == old(m.inUse)
    ensures !Handled(cmd) ==> done == Fail(UnknownMutation)
    ensures cmd.RemovePath? ==> done == Fail(NotAFunction("map.removePathByHash"))
    ensures (cmd.AddLocation? || cmd.RemoveLocationByCoords?) && Parser.ParseLocation(cmd.loc).Err? ==>
      done == Fail(BadLocationText)
    ensures done.Fail? ==>
      m.locations == old(m.locations) && m.locationsByCoord == old(m.locationsByCoord) && m.paths == old(m.paths)
    ensures cmd.AddLocation? && Parser.ParseLocation(cmd.loc).Ok? ==>
      var l := NewLocation(cmd.locationLabel, Parser.ParseLocation(cmd.loc).value);
      done.Pass? <==> WithinSize(l, MapSize) && l.Coords() !in old(m.locationsByCoord) && l.name !in old(m.locations)
    ensures cmd.RemoveLocationByCoords? && Parser.ParseLocation(cmd.loc).Ok? ==>
      var xy := Parser.ParseLocation(cmd.loc).value;
      var p := Point(xy.0 as real, xy.1 as real);
      && (p !in old(m.locationsByCoord) ==> done == Fail(CoordsNotFound))
      && (p in old(m.locationsByCoord) ==>
            var lbl := old(m.locationsByCoord)[p];
            done.Pass? <==> !m.OnSomePath(lbl) && m.NoRobotsAt(old(m.locations)[lbl]))
    ensures cmd.RemoveLocationByName? ==>
      (done.Pass? <==> cmd.locationLabel in old(m.locations) && !m.OnSomePath(cmd.locationLabel)
                       && m.NoRobotsAt(old(m.locations)[cmd.locationLabel]))
    ensures cmd.AddPath? ==>
      (done.Pass? <==> Trim(cmd.from) in old(m.locations) && Trim(cmd.to) in old(m.locations)
                       && !HasEdge(old(m.paths), Trim(cmd.from), Trim(cmd.to)))
    ensures cmd.AddLocation? && done.Pass? ==>
      && Parser.ParseLocation(cmd.loc).Ok?
      && var l := NewLocation(cmd.locationLabel, Parser.ParseLocation(cmd.loc).value);
         m.locations == old(m.locations)[cmd.locationLabel := l] && cmd.locationLabel !in old(m.locations)
    ensures cmd.RemoveLocationByCoords? && done.Pass? ==>
      && Parser.ParseLocation(cmd.loc).Ok?
      && var xy := Parser.ParseLocation(cmd.loc).value;
         && Point(xy.0 as real, xy.1 as real) in old(m.locationsByCoord)
         && m.locations == old(m.locations) - {old(m.locationsByCoord)[Point(xy.0 as real, xy.1 as real)]}
    ensures cmd.RemoveLocationByName? && done.Pass? ==>
      cmd.locationLabel in old(m.locations) && m.locations == old(m.locations) - {cmd.locationLabel}
    ensures cmd.AddPath? && done.Pass? ==> forall a, b ::
      HasEdge(m.paths, a, b) <==> HasEdge(old(m.paths), a, b) || (a == Trim(cmd.from) && b == Trim(cmd.to))
  {
    match cmd {
      case AddLocation(lbl, loc) =>
        var parsed := Parser.ParseLocation(loc);
        if parsed.Err? {
          return Fail(parsed.error);
        }
        done := m.AddLocation(NewLocation(lbl, parsed.value));
      case RemoveLocationByCoords(loc) =>
        var parsed := Parser.ParseLocation(loc);
        if parsed.Err? {
          return Fail(parsed.error);
        }
        done := m.RemoveLocationByCoords(parsed.value.0 as real, parsed.value.1 as real);
      case RemoveLocationByName(lbl) =>
        done := m.RemoveLocationByLabel(lbl);
      case AddPath(from, to) =>
        var added := m.AddPath(Trim(from), Trim(to));
        done := if added.Ok? then Pass else Fail(added.error);
      case RemovePath(_, _) =>
        done := Fail(NotAFunction("map.removePathByHash"));
      case ShortestPath(_, _) =>
        done := Fail(UnknownMutation);
      case AddRobot(_, _) =>
        done := Fail(UnknownMutation);
      case AddBotDest(_, _) =>
        done := Fail(UnknownMutation);
      case DeleteBot(_) =>
        done := Fail(UnknownMutation);
      case Help =>
        done := Fail(UnknownMutation);
      case Other(_) =>
        done := Fail(UnknownMutation);
    }
  }

  /** `mutationReducer`: clone the map, apply the command to the clone, and
      return it. The old map itself is never changed, and the clone shares
      its robots. */
  method MutationReducer(oldMap: SimMap, cmd: Command) returns (r: Result<SimMap, SimError>)
    requires oldMap.Valid()
    ensures r.Ok? ==> fresh(r.value) && r.value.Valid() && r.value.robots == oldMap.robots && r.value.inUse == oldMap.inUse
    ensures r.Ok? ==> Handled(cmd) && !cmd.RemovePath?
    ensures !Handled(cmd) ==> r == Err(UnknownMutation)
    ensures cmd.RemovePath? ==> r == Err(NotAFunction("map.removePathByHash"))
    ensures (cmd.AddLocation? || cmd.RemoveLocationByCoords?) && Parser.ParseLocation(cmd.loc).Err? ==>
      r == Err(BadLocationText)
  {
    var m := oldMap.Clone();
    var done := EditOld(m, cmd);
    r := if done.Pass? then Ok(m) else Err(done.error);
  }
}
