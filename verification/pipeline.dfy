/**
  The analysis request of BugBot/main.py after pylint has run: group the
  diagnostics, explain each group, and record each result in the history
  as soon as it is made.
 */
module Pipeline {
  import opened Diagnostics
  import opened Grouping
  import opened Explainer
  import opened History

  /** The `result` dict built for one group. */
  function ResultOf(g: Group, code: string, backend: Backend): Explained {
    Explained(g.id, g.message, SortedSet(g.lines), Explain(g.id, g.message, code, backend))
  }

  /** The `results` list: one result per group, in group order. */
  function Results(raw: seq<RawDiagnostic>, code: string, backend: Backend): seq<Explained> {
    var groups := Grouped(raw, IgnoredPylintIds);
    seq(|groups|, i requires 0 <= i < |groups| => ResultOf(groups[i], code, backend))
  }

  /** The records saved for `results`, the i-th stamped with the i-th clock reading. */
  function Stamped(results: seq<Explained>, clock: nat -> string): seq<Record> {
    seq(|results|, i requires 0 <= i < |results| => Record(clock(i), results[i]))
  }

  /** The file after saving `results` one by one, the i-th save going as `disk(i)`. */
  function SaveAll(log: LogFile, results: seq<Explained>, clock: nat -> string, disk: nat -> SaveOutcome): LogFile {
    if results == [] then log
    else
      var n := |results| - 1;
      AfterSave(SaveAll(log, results[..n], clock, disk), Record(clock(n), results[n]), disk(n))
  }

  /**
    The two loops of the request: `grouped_errors` is built, then each group
    is explained, rendered into a result and saved.  `clock(i)` is the time
    read by the i-th save, `disk(i)` how that save goes.
   */
  method Analyze(raw: seq<RawDiagnostic>, code: string, backend: Backend, store: HistoryStore,
                 clock: nat -> string, disk: nat -> SaveOutcome)
    returns (results: seq<Explained>)
    modifies store
    ensures results == Results(raw, code, backend)
    ensures store.log == SaveAll(old(store.log), results, clock, disk)
  {
    var groups := GroupDiagnostics(raw, IgnoredPylintIds);
    results := [];
    for i := 0 to |groups|
      invariant |results| == i
      invariant forall k :: 0 <= k < i ==> results[k] == ResultOf(groups[k], code, backend)
      invariant store.log == SaveAll(old(store.log), results, clock, disk)
    {
      var g := groups[i];
      var explanation := Explain(g.id, g.message, code, backend);
      var result := Explained(g.id, g.message, SortedSet(g.lines), explanation);
      SaveAllSnoc(old(store.log), results, result, clock, disk);
      results := results + [result];
      store.SaveToHistory(result, clock(i), disk(i));
    }
  }

  lemma SaveAllSnoc(log: LogFile, results: seq<Explained>, r: Explained, clock: nat -> string, disk: nat -> SaveOutcome)
    ensures SaveAll(log, results + [r], clock, disk)
         == AfterSave(SaveAll(log, results, clock, disk), Record(clock(|results|), r), disk(|results|))
  {
    assert (results + [r])[..|results|] == results;
  }

  lemma StampedSnoc(results: seq<Explained>, r: Explained, clock: nat -> string)
    ensures Stamped(results + [r], clock) == Stamped(results, clock) + [Record(clock(|results|), r)]
  {
  }

  // ---------------------------------------------------------------------------
  // What the request promises

  /** There is a result for an id exactly when the input has it and it is not ignored. */
  lemma ResultsCoverInput(raw: seq<RawDiagnostic>, code: string, backend: Backend, id: string)
    ensures (exists r :: r in Results(raw, code, backend) && r.id == id) <==> id !in IgnoredPylintIds && Occurs(raw, id)
  {
    var ids := KeptIds(raw, IgnoredPylintIds);
    var results := Results(raw, code, backend);
    ResultIds(raw, code, backend);
    if r :| r in results && r.id == id {
      var i :| 0 <= i < |results| && results[i] == r;
      assert ids[i] == id;
    }
    if id in ids {
      var i :| 0 <= i < |ids| && ids[i] == id;
      assert results[i] in results;
    }
  }

  /** The results carry the kept ids, in order. */
  lemma ResultIds(raw: seq<RawDiagnostic>, code: string, backend: Backend)
    ensures var results := Results(raw, code, backend);
      |results| == |KeptIds(raw, IgnoredPylintIds)|
      && forall i :: 0 <= i < |results| ==> results[i].id == KeptIds(raw, IgnoredPylintIds)[i]
  {
  }

  /**
    Each result carries its id, the message of the first diagnostic with that
    id, every line of a diagnostic with that id once and in ascending order,
    and the explanation of that id and message.
   */
  lemma ResultContents(raw: seq<RawDiagnostic>, code: string, backend: Backend, i: nat)
    requires i < |Results(raw, code, backend)|
    ensures var r := Results(raw, code, backend)[i];
      && r.id !in IgnoredPylintIds
      && (exists j :: 0 <= j < |raw| && IdOf(raw[j]) == r.id && r.message == MessageOf(raw[j])
                      && (forall k :: 0 <= k < j ==> IdOf(raw[k]) != r.id))
      && StrictlyAscending(r.lines)
      && (forall x :: x in r.lines <==> exists k :: 0 <= k < |raw| && IdOf(raw[k]) == r.id && raw[k].line == x)
      && r.explanation == Explain(r.id, r.message, code, backend)
  {
    var ids := KeptIds(raw, IgnoredPylintIds);
    var g := Grouped(raw, IgnoredPylintIds)[i];
    assert g.id == ids[i] && ids[i] in ids;
    GroupContents(raw, IgnoredPylintIds, i);
  }

  /** Results come one per id, in the order the ids first appear in the input. */
  lemma ResultsInFirstSeenOrder(raw: seq<RawDiagnostic>, code: string, backend: Backend, i: nat, j: nat)
    requires i < j < |Results(raw, code, backend)|
    ensures var results := Results(raw, code, backend);
      results[i].id != results[j].id
      && Occurs(raw, results[i].id) && Occurs(raw, results[j].id)
      && FirstIndex(raw, results[i].id) < FirstIndex(raw, results[j].id)
  {
    var ids := KeptIds(raw, IgnoredPylintIds);
    assert ids[i] in ids && ids[j] in ids;
    GroupedInFirstSeenOrder(raw, IgnoredPylintIds, i, j);
  }

  /**
    When every save of the request goes through, on a file that is missing,
    a list, or not JSON and overwritten completely by the first new list, the
    history ends up as what it held before followed by the stamped results,
    in order.
   */
  lemma {:induction false} HistoryGrowsByResults(log: LogFile, results: seq<Explained>, clock: nat -> string,
                                                  disk: nat -> SaveOutcome)
    requires !log.NotAList?
    requires forall i :: 0 <= i < |results| ==> disk(i).write.Succeeds? && disk(i).overlap.Covers?
    requires log.Missing? && results != [] ==> disk(0).init.Succeeds?
    ensures Loaded(SaveAll(log, results, clock, disk)) == Loaded(log) + Stamped(results, clock)
    ensures results != [] ==> SaveAll(log, results, clock, disk).Records?
    ensures !SaveAll(log, results, clock, disk).NotAList?
  {
    if results != [] {
      var n := |results| - 1;
      var init, last := results[..n], results[n];
      assert init + [last] == results;
      HistoryGrowsByResults(log, init, clock, disk);
      SaveAllSnoc(log, init, last, clock, disk);
      assert Completes(SaveAll(log, init, clock, disk), disk(n));
      SaveAppends(SaveAll(log, init, clock, disk), Record(clock(n), last), disk(n));
      StampedSnoc(init, last, clock);
    }
  }

  /**
    The history never loses a record unless a save stops in the middle of
    rewriting the file or leaves a tail of the old text behind.
   */
  lemma {:induction false} HistoryKeptWithoutTornWrites(log: LogFile, results: seq<Explained>, clock: nat -> string,
                                                         disk: nat -> SaveOutcome)
    requires forall i :: 0 <= i < |results| ==> !disk(i).write.FailsWhileWriting? && disk(i).overlap.Covers?
    ensures Loaded(log) <= Loaded(SaveAll(log, results, clock, disk))
  {
    if results != [] {
      var n := |results| - 1;
      HistoryKeptWithoutTornWrites(log, results[..n], clock, disk);
      SaveAllSnoc(log, results[..n], results[n], clock, disk);
      assert results[..n] + [results[n]] == results;
    }
  }

  /**
    An unreadable file whose text outlasts the one-record list each save
    writes stays unreadable for the whole request: every result is lost.
   */
  lemma {:induction false} TailKeepsHistoryUnreadable(results: seq<Explained>, clock: nat -> string,
                                                       disk: nat -> SaveOutcome)
    requires forall i :: 0 <= i < |results| ==> disk(i).overlap.TailRemains?
    ensures SaveAll(Garbled, results, clock, disk) == Garbled
  {
    if results != [] {
      var n := |results| - 1;
      TailKeepsHistoryUnreadable(results[..n], clock, disk);
      SaveAllSnoc(Garbled, results[..n], results[n], clock, disk);
      assert results[..n] + [results[n]] == results;
    }
  }
}
