/**
  The analysis history kept in `history.json` (BugBot/main.py): created
  empty when missing, rewritten in place with one more stamped record per
  saved result, reset to an empty list on request.  No failure of these
  operations reaches the caller.
 */
module History {
  import opened Diagnostics

  /** One history entry, `{"timestamp": ..., **entry}`. */
  datatype Record = Record(timestamp: string, entry: Explained)

  /** The history file, as `json.load` sees it. */
  datatype LogFile =
    | Missing                         // no file at all
    | Records(records: seq<Record>)   // a JSON list
    | Garbled                         // not JSON: loading raises JSONDecodeError
    | NotAList                        // JSON, but not a list: appending to it raises

  /**
    How one file operation goes.  `FailsBeforeWriting`: opening or reading
    fails, or the write stops before it has changed a character, so the file
    is as it was.  `FailsWhileWriting`: the write stops after changing the
    text, leaving text that is not JSON.
   */
  datatype IoOutcome = Succeeds | FailsBeforeWriting | FailsWhileWriting

  /**
    How the text a save writes from the start of the file lies over the text
    already there.  The file is opened with `'r+'` and never truncated, so
    with `TailRemains` the old text goes on after the new list with something
    other than whitespace, and `json.load` rejects the file.
   */
  datatype Overlap = Covers | TailRemains

  /**
    How one `save_to_history` goes: the `init_history` it starts with (which
    only acts on a missing file), the rewrite, and the overlap of the new text
    with the old.
   */
  datatype SaveOutcome = SaveOutcome(init: IoOutcome, write: IoOutcome, overlap: Overlap)

  /**
    Every step of a save on `log` goes through (the creation only matters
    for a missing file), and the new text reaches past the end of the old.
   */
  predicate Completes(log: LogFile, o: SaveOutcome) {
    (log.Missing? ==> o.init.Succeeds?) && o.write.Succeeds? && o.overlap.Covers?
  }

  /** The records a save starts from: those of a list, none when the file is missing or not JSON. */
  function Loaded(log: LogFile): seq<Record> {
    if log.Records? then log.records else []
  }

  /**
    `init_history`: a missing file is created and `[]` dumped into it; an
    existing one is left alone.  If the creation fails nothing exists; if the
    dump stops part-way the file holds text that is not JSON.
   */
  function Initialized(log: LogFile, io: IoOutcome): (r: LogFile)
    ensures log != Missing ==> r == log
    ensures log.Missing? && io.Succeeds? ==> r == Records([])
    ensures log.Missing? && io.FailsBeforeWriting? ==> r == Missing
    ensures log.Missing? && io.FailsWhileWriting? ==> r == Garbled
    ensures io.Succeeds? ==> r != Missing
    ensures Loaded(r) == Loaded(log)
  {
    if !log.Missing? then log
    else
      match io
      case Succeeds => Records([])
      case FailsBeforeWriting => Missing
      case FailsWhileWriting => Garbled
  }

  /**
    The file after `save_to_history` of record `r`: an `init_history` that
    raises ends the save; a list gets `r` appended, and a file that is not
    JSON is replaced by the list `[r]`; the new text is written from the start
    of the file without truncating it.
   */
  function AfterSave(log: LogFile, r: Record, o: SaveOutcome): LogFile {
    var start := Initialized(log, o.init);
    if log.Missing? && !o.init.Succeeds? then start
    else if o.write.FailsBeforeWriting? || start.NotAList? then start
    else if o.write.FailsWhileWriting? || (!log.Missing? && o.overlap.TailRemains?) then Garbled
    else Records(Loaded(start) + [r])
  }

  /** `save_to_history` with the file truncated after the dump: no tail of the old text can survive. */
  function AfterTruncatingSave(log: LogFile, r: Record, o: SaveOutcome): LogFile {
    AfterSave(log, r, o.(overlap := Covers))
  }

  /** The file after `clear_history`, whose mode `'w'` truncates the file. */
  function AfterClear(log: LogFile, io: IoOutcome): (r: LogFile)
    ensures log.Missing? ==> r == Missing
    ensures !log.Missing? && io.Succeeds? ==> r == Records([])
    ensures !log.Missing? && io.FailsWhileWriting? ==> r == Garbled
    ensures io.FailsBeforeWriting? ==> r == log
  {
    if log.Missing? || io.FailsBeforeWriting? then log
    else if io.FailsWhileWriting? then Garbled
    else Records([])
  }

  /** The file `history.json`, which the request handlers share. */
  class HistoryStore {
    var log: LogFile

    constructor (initial: LogFile)
      ensures log == initial
    {
      log := initial;
    }

    /** Creates the file holding `[]` when it is missing; the outcome of that write is `io`. */
    method InitHistory(io: IoOutcome)
      modifies this
      ensures log == Initialized(old(log), io)
    {
      if log.Missing? {
        if io.Succeeds? {
          log := Records([]);
        } else if io.FailsWhileWriting? {
          log := Garbled;
        }
      }
    }

    /**
      Appends `entry`, stamped with `timestamp`, to the stored list.  A file
      that is not JSON is treated as an empty list; every error is swallowed.
     */
    method SaveToHistory(entry: Explained, timestamp: string, o: SaveOutcome)
      modifies this
      ensures log == AfterSave(old(log), Record(timestamp, entry), o)
    {
      var existed := !log.Missing?;
      InitHistory(o.init);
      if !existed && !o.init.Succeeds? {
        // `init_history` raised; the error is swallowed.
        return;
      }
      if o.write.FailsBeforeWriting? {
        return;
      }
      var history: seq<Record>;
      if log.Records? {
        history := log.records;
      } else if log.Garbled? {
        history := [];
      } else {
        // `append` on a loaded value that is not a list raises; the error is swallowed.
        return;
      }
      history := history + [Record(timestamp, entry)];
      if o.write.FailsWhileWriting? {
        log := Garbled;
      } else if existed && o.overlap.TailRemains? {
        // `seek(0)` and `json.dump` without `truncate()`: the old tail stays after the new list.
        log := Garbled;
      } else {
        log := Records(history);
      }
    }

    /** Overwrites an existing file with an empty list; a missing file stays missing. */
    method ClearHistory(io: IoOutcome)
      modifies this
      ensures log == AfterClear(old(log), io)
    {
      if !log.Missing? && !io.FailsBeforeWriting? {
        if io.FailsWhileWriting? {
          log := Garbled;
        } else {
          log := Records([]);
        }
      }
    }
  }

  // ---------------------------------------------------------------------------
  // What the history promises

  /**
    A save that goes through keeps every earlier record and puts the new one
    last; on a file that is not JSON this needs the new list's text to reach
    past the end of the old text.
   */
  lemma SaveAppends(log: LogFile, r: Record, o: SaveOutcome)
    requires !log.NotAList? && Completes(log, o)
    ensures AfterSave(log, r, o) == Records(Loaded(log) + [r])
  {
  }

  /** A save that fails before writing, or whose `init_history` raises, leaves what the next save will load unchanged. */
  lemma FailedSaveChangesNothing(log: LogFile, r: Record, o: SaveOutcome)
    requires o.write.FailsBeforeWriting? || (log.Missing? && !o.init.Succeeds?)
    ensures Loaded(AfterSave(log, r, o)) == Loaded(log)
    ensures log != Missing ==> AfterSave(log, r, o) == log
  {
  }

  /** A file that is JSON but not a list is never repaired: every save to it is dropped. */
  lemma NotAListIsStuck(r: Record, o: SaveOutcome)
    ensures AfterSave(NotAList, r, o) == NotAList
  {
  }

  /**
    The file is rewritten in place, so a rewrite that stops part-way loses the
    whole history.  The next save that goes through writes a one-record list,
    which leaves a readable file only if its text reaches past the end of the
    broken text; otherwise the file stays unreadable.
   */
  lemma InterruptedSaveLosesHistory(rs: seq<Record>, r1: Record, o1: SaveOutcome, r2: Record, o2: SaveOutcome)
    requires o1.write.FailsWhileWriting? && o2.write.Succeeds?
    ensures var broken := AfterSave(Records(rs), r1, o1);
      && broken == Garbled
      && AfterSave(broken, r2, o2) == (if o2.overlap.Covers? then Records([r2]) else Garbled)
  {
  }

  /**
    As written, the rewrite is not truncated: a save that goes through on an
    unreadable file whose text outlasts the new list leaves the file
    unreadable, so the record it appends is lost.
   */
  lemma UntruncatedSaveKeepsTail(r: Record, o: SaveOutcome)
    requires o.write.Succeeds? && o.overlap.TailRemains?
    ensures AfterSave(Garbled, r, o) == Garbled
  {
  }

  /**
    With the file truncated after the dump, a save whose steps go through
    always leaves a readable list ending in the new record, whatever text
    was there before.
   */
  lemma TruncatingSaveAppends(log: LogFile, r: Record, o: SaveOutcome)
    requires !log.NotAList? && o.write.Succeeds? && (log.Missing? ==> o.init.Succeeds?)
    ensures AfterTruncatingSave(log, r, o) == Records(Loaded(log) + [r])
  {
  }

  /** After a successful clear, the history holds exactly what is saved afterwards. */
  lemma ClearThenSave(log: LogFile, r: Record, o: SaveOutcome)
    requires log != Missing && o.write.Succeeds? && o.overlap.Covers?
    ensures AfterSave(AfterClear(log, Succeeds), r, o) == Records([r])
  {
  }

  /** Once initialising has succeeded, initialising again changes nothing, whatever its outcome. */
  lemma InitIdempotent(log: LogFile, io1: IoOutcome, io2: IoOutcome)
    requires io1.Succeeds?
    ensures Initialized(Initialized(log, io1), io2) == Initialized(log, io1)
  {
  }
}
