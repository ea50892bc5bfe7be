/** The log sink: `logging.info` appends one line per action. A line is kept
    as its kind and the replica path it names; the timestamp, the level and the
    text layout are not modelled. */
module Logging {
  import opened FileTree

  datatype Action =
    | CopiedFolder   // "Copied folder: <path>"
    | CopiedFile     // "Copied file: <path>"
    | DeletedFolder  // "Deleted folder: <path>"
    | DeletedFile    // "Deleted file: <path>"

  datatype Event = Event(action: Action, path: Path)

  class Logger {
    var events: seq<Event>

    constructor ()
      ensures events == []
    {
      events := [];
    }

    method Info(e: Event)
      modifies this
      ensures events == old(events) + [e]
    {
      events := events + [e];
    }
  }
}
