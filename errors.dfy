/** Every error the simulator's core throws, with the message text it carries. */
module Errors {

  datatype SimError =
    // sim/map.ts
    | OutOfBounds
    | LocationExists
    | LocationNotFound
    | LocationOnPath
    | LocationBusy
    | CoordsNotFound
    | EndpointMissing
    | PathExists(from: string, to: string)
    | PathInUse(from: string, to: string)
    | PathNotFound
    | RobotNameTaken
    | RobotNotFound
    | DestinationNotFound
    | RobotNotRegistered
    | NoNearestPoint
    | Unreachable
    // sim/interpreter.ts, util/parsed-map-mutations.ts
    | PathingIncomplete
    | UnknownMutation
    // util/command-parser.ts, util/parser.ts
    | BadLocationText
    // TypeErrors the JavaScript engine raises: a property read on `undefined`,
    // and a call of a method that does not exist
    | UndefinedProperty(property: string)
    | NotAFunction(callee: string)

  /** The `message` of the thrown error. Engine-raised TypeErrors use V8's wording. */
  function Message(e: SimError): string {
    match e
    case OutOfBounds => "Location outside bounds of map"
    case LocationExists => "Location already exists"
    case LocationNotFound => "Location not found in possible locations"
    case LocationOnPath => "Cannot remove location that is part of path"
    case LocationBusy => "Cannot remove location with robots at/coming towards it"
    case CoordsNotFound => "Location not found in existing locations by coordinate"
    case EndpointMissing => "Path cannot be made since one of {from, to} is non-existent"
    case PathExists(from, to) => "Path between " + from + " and " + to + " already exists"
    case PathInUse(from, to) => "Cannot remove path " + from + "," + to + " that is in use"
    case PathNotFound => "Path does not exist in paths"
    case RobotNameTaken => "Cannot have robot with the same name as an existing one"
    case RobotNotFound => "Robot by that name does not exist"
    case DestinationNotFound => "Given destination does not exist"
    case RobotNotRegistered => "Robot is not in list of registered robots"
    case NoNearestPoint => "Cannot find nearest point to robot"
    case Unreachable => "Unable to find path to point"
    case PathingIncomplete => "Robot is not done with pathing. Cannot remove."
    case UnknownMutation => "Unknown map mutation"
    case BadLocationText => "Location given cannot be parsed into (x,y) pair"
    case UndefinedProperty(property) => "Cannot read properties of undefined (reading '" + property + "')"
    case NotAFunction(callee) => callee + " is not a function"
  }
}
