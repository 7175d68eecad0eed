// The log-record source the analyzer drains: a forward-only cursor over the
// entries of one access log. How entries are parsed from the log file is not
// part of this model; a reader is given by the entries it will produce.

module LogReader {

  /** One parsed access-log line: the hour, day of month and month of the access. */
  datatype LogEntry = LogEntry(hour: int, day: int, month: int)

  /** A single-pass cursor over a fixed sequence of entries. */
  class LogfileReader {
    const entries: seq<LogEntry>
    var pos: nat

    ghost predicate Valid()
      reads this
    {
      pos <= |entries|
    }

    /** The entries not yet handed out by Next. */
    function Unread(): seq<LogEntry>
      reads this
      requires Valid()
    {
      entries[pos..]
    }

    constructor (log: seq<LogEntry>)
      ensures Valid()
      ensures entries == log && pos == 0
    {
      entries := log;
      pos := 0;
    }

    /** True iff at least one more entry is available. */
    predicate HasNext()
      reads this
    {
      pos < |entries|
    }

    /** Hands out the next entry and moves the cursor past it, irreversibly. */
    method Next() returns (e: LogEntry)
      requires Valid() && HasNext()
      modifies this
      ensures Valid()
      ensures e == entries[old(pos)]
      ensures pos == old(pos) + 1
      ensures Unread() == old(Unread())[1..]
    {
      e := entries[pos];
      pos := pos + 1;
    }
  }
}
