/**
 * Starting and running a batch. The "Process selection" handler checks the
 * output and marker directories and the selection, marks the selected rows
 * `Queued` and hands their names to the background batch. The batch processes
 * the archives one after another; the processor reports progress for the
 * current archive, and after it returns the batch posts `Processed` for that
 * archive. The event loop applies each posted status to the table.
 */
module Batch {
  import opened Wrappers
  import opened StatusTable

  /** Why the handler refuses to start a batch (it prints a message and waits for the next event). */
  datatype Rejection = OutputDirMissing | SuccessDirMissing | NothingSelected

  /** What the handler finds under the base path: `Project/SJ_X2U` and `Status/EventInc`. */
  datatype BaseDirs = BaseDirs(outputDirExists: bool, successDirExists: bool)

  datatype BatchStart = Rejected(reason: Rejection) | Started(items: seq<string>)

  /** The checks before a batch starts, in the order the handler makes them. */
  function CheckBatchStart(dirs: BaseDirs, selection: seq<string>): (r: BatchStart)
    ensures r.Started? <==> dirs.outputDirExists && dirs.successDirExists && selection != []
    ensures r.Started? ==> r.items == selection
    ensures r == Rejected(OutputDirMissing) <==> !dirs.outputDirExists
    ensures r == Rejected(SuccessDirMissing) <==> dirs.outputDirExists && !dirs.successDirExists
    ensures r == Rejected(NothingSelected) <==> dirs.outputDirExists && dirs.successDirExists && selection == []
  {
    if !dirs.outputDirExists then Rejected(OutputDirMissing)
    else if !dirs.successDirExists then Rejected(SuccessDirMissing)
    else if selection == [] then Rejected(NothingSelected)
    else Started(selection)
  }

  /** The names in the selected rows, in the order the rows were selected. */
  function SelectedNames(rows: seq<Row>, selectedRows: seq<nat>): (names: seq<string>)
    requires forall j :: 0 <= j < |selectedRows| ==> selectedRows[j] < |rows|
    ensures |names| == |selectedRows|
    ensures forall n :: n in names ==> HasRow(rows, n)
  {
    seq(|selectedRows|, j requires 0 <= j < |selectedRows| => rows[selectedRows[j]].name)
  }

  /**
   * The "Process selection" handler: reads the names of the selected rows,
   * rejects the batch without touching the table when a directory is missing
   * or nothing is selected, and otherwise marks the selected rows `Queued`
   * and returns the names handed to the background batch.
   */
  method ProcessSelection(table: array<Row>, selectedRows: seq<nat>, dirs: BaseDirs) returns (start: BatchStart)
    requires forall j :: 0 <= j < |selectedRows| ==> selectedRows[j] < table.Length
    modifies table
    ensures start == CheckBatchStart(dirs, SelectedNames(old(table[..]), selectedRows))
    ensures start.Rejected? ==> table[..] == old(table[..])
    ensures start.Started? ==> table[..] == MarkAll(old(table[..]), start.items, FileQueued)
  {
    var selection := SelectedNames(table[..], selectedRows);
    if !dirs.outputDirExists {
      return Rejected(OutputDirMissing);
    }
    if !dirs.successDirExists {
      return Rejected(SuccessDirMissing);
    }
    if |selection| == 0 {
      return Rejected(NothingSelected);
    }
    MarkQueued(table, selection);
    return Started(selection);
  }

  // ---------------------------------------------------------------------------
  // The events a batch posts

  /** One archive of the batch: its name and the progress texts the processor reports for it, in order. */
  datatype ItemRun = ItemRun(name: string, ticks: seq<string>)

  function RunNames(runs: seq<ItemRun>): (names: seq<string>)
    ensures |names| == |runs|
  {
    seq(|runs|, k requires 0 <= k < |runs| => runs[k].name)
  }

  /** The progress messages posted while one archive is processed. */
  function ProgressEvents(run: ItemRun): seq<Event>
  {
    seq(|run.ticks|, i requires 0 <= i < |run.ticks| => Event(run.name, run.ticks[i]))
  }

  /** All messages for one archive: its progress, then one `Processed`. */
  function ItemEvents(run: ItemRun): seq<Event>
  {
    ProgressEvents(run) + [Event(run.name, FileProcessed)]
  }

  /**
   * All messages of a batch, archive after archive in selection order: at
   * least one per archive, the last one the last archive's `Processed`.
   */
  function BatchEvents(runs: seq<ItemRun>): (evs: seq<Event>)
    ensures |evs| >= |runs|
    ensures runs != [] ==> evs[|evs| - 1] == Event(runs[|runs| - 1].name, FileProcessed)
  {
    if runs == [] then [] else ItemEvents(runs[0]) + BatchEvents(runs[1..])
  }

  /** The background batch: each archive is processed, then its `Processed` message is posted. */
  method ProcessIncFiles(runs: seq<ItemRun>) returns (events: seq<Event>)
    ensures events == BatchEvents(runs)
  {
    events := [];
    for k := 0 to |runs|
      invariant events == BatchEvents(runs[..k])
    {
      // the processor's progress callback posts these while the archive is processed
      ghost var before := events;
      events := events + ProgressEvents(runs[k]);
      events := events + [Event(runs[k].name, FileProcessed)];
      assert events == before + ItemEvents(runs[k]);
      assert runs[..k + 1] == runs[..k] + [runs[k]];
      BatchEventsSnoc(runs[..k], runs[k]);
    }
    assert runs[..|runs|] == runs;
  }

  lemma Assoc<T>(x: seq<T>, y: seq<T>, z: seq<T>)
    ensures x + (y + z) == (x + y) + z
  {
  }

  lemma {:induction false} BatchEventsAppend(a: seq<ItemRun>, b: seq<ItemRun>)
    ensures BatchEvents(a + b) == BatchEvents(a) + BatchEvents(b)
  {
    if a == [] {
      assert a + b == b;
    } else {
      assert (a + b)[1..] == a[1..] + b;
      BatchEventsAppend(a[1..], b);
      Assoc(ItemEvents(a[0]), BatchEvents(a[1..]), BatchEvents(b));
    }
  }

  lemma BatchEventsSingle(run: ItemRun)
    ensures BatchEvents([run]) == ItemEvents(run)
  {
    assert [run][1..] == [];
  }

  /** One more archive appends its progress and its `Processed` to the batch's messages. */
  lemma BatchEventsSnoc(init: seq<ItemRun>, last: ItemRun)
    ensures BatchEvents(init + [last]) == BatchEvents(init) + ItemEvents(last)
  {
    BatchEventsAppend(init, [last]);
    BatchEventsSingle(last);
  }

  /**
   * The batch's messages are those of the archives before the k-th, then
   * the k-th archive's progress followed by its single `Processed`, then those
   * of the archives after it.
   */
  lemma BatchEventsSplit(runs: seq<ItemRun>, k: nat)
    requires k < |runs|
    ensures BatchEvents(runs) == BatchEvents(runs[..k]) + ItemEvents(runs[k]) + BatchEvents(runs[k + 1..])
  {
    var pre, rest := runs[..k], runs[k..];
    assert runs == pre + rest;
    BatchEventsAppend(pre, rest);
    assert rest[1..] == runs[k + 1..];
    Assoc(BatchEvents(pre), ItemEvents(runs[k]), BatchEvents(runs[k + 1..]));
  }

  /** The names carried by the `Processed` messages, in order. */
  function ProcessedNames(events: seq<Event>): seq<string>
  {
    if events == [] then []
    else (if events[0].status == FileProcessed then [events[0].name] else []) + ProcessedNames(events[1..])
  }

  lemma {:induction false} ProcessedNamesAppend(a: seq<Event>, b: seq<Event>)
    ensures ProcessedNames(a + b) == ProcessedNames(a) + ProcessedNames(b)
  {
    if a == [] {
      assert a + b == b;
    } else {
      assert (a + b)[1..] == a[1..] + b;
      ProcessedNamesAppend(a[1..], b);
    }
  }

  lemma {:induction false} NoProcessedInProgress(events: seq<Event>)
    requires forall i :: 0 <= i < |events| ==> events[i].status != FileProcessed
    ensures ProcessedNames(events) == []
  {
    if events != [] {
      NoProcessedInProgress(events[1..]);
    }
  }

  /**
   * When no progress text reads `Processed`, the batch posts exactly one
   * `Processed` message per selected archive, in selection order.
   */
  lemma {:induction false} OneProcessedPerItem(runs: seq<ItemRun>)
    requires forall k, i :: 0 <= k < |runs| && 0 <= i < |runs[k].ticks| ==> runs[k].ticks[i] != FileProcessed
    ensures ProcessedNames(BatchEvents(runs)) == RunNames(runs)
  {
    if runs != [] {
      var run := runs[0];
      OneProcessedPerItem(runs[1..]);
      NoProcessedInProgress(ProgressEvents(run));
      ProcessedNamesAppend(ProgressEvents(run), [Event(run.name, FileProcessed)]);
      ProcessedNamesAppend(ItemEvents(run), BatchEvents(runs[1..]));
      assert ProcessedNames([Event(run.name, FileProcessed)]) == [run.name] by {
        assert [Event(run.name, FileProcessed)][1..] == [];
      }
      assert ProcessedNames(ItemEvents(run)) == [run.name];
      assert RunNames(runs) == [run.name] + RunNames(runs[1..]);
    }
  }

  // ---------------------------------------------------------------------------
  // The event loop applying the batch's messages to the table

  /**
   * The table after the event loop has applied `events` one by one; None when
   * an event names no row (the source raises TypeError there).
   */
  function ApplyAll(rows: seq<Row>, events: seq<Event>): (r: Option<seq<Row>>)
    ensures r.None? <==> exists i :: 0 <= i < |events| && !HasRow(rows, events[i].name)
    ensures r.Some? ==> Names(r.value) == Names(rows)
    decreases events
  {
    if events == [] then Some(rows)
    else if !HasRow(rows, events[0].name) then None
    else
      var next := SetStatus(rows, events[0].name, events[0].status);
      HasRowByNames(next, rows);
      assert forall i :: 1 <= i < |events| ==> events[1..][i - 1] == events[i];
      ApplyAll(next, events[1..])
  }

  /** Whether a name has a row depends on the names alone. */
  lemma HasRowByNames(a: seq<Row>, b: seq<Row>)
    requires Names(a) == Names(b)
    ensures forall x :: HasRow(a, x) <==> HasRow(b, x)
  {
    forall x ensures HasRow(a, x) <==> HasRow(b, x) {
      FirstIndexByNames(a, b, x);
    }
  }

  lemma {:induction false} ApplyAllAppend(rows: seq<Row>, a: seq<Event>, b: seq<Event>)
    ensures ApplyAll(rows, a + b) ==
      match ApplyAll(rows, a)
      case None => None
      case Some(mid) => ApplyAll(mid, b)
    decreases a
  {
    if a == [] {
      assert a + b == b;
    } else {
      assert (a + b)[1..] == a[1..] + b;
      if HasRow(rows, a[0].name) {
        ApplyAllAppend(SetStatus(rows, a[0].name, a[0].status), a[1..], b);
      }
    }
  }

  /** A message for a present row updates it, and the rest of the messages apply to the result. */
  lemma ApplyAllCons(rows: seq<Row>, events: seq<Event>)
    requires events != [] && HasRow(rows, events[0].name)
    ensures ApplyAll(rows, events) == ApplyAll(SetStatus(rows, events[0].name, events[0].status), events[1..])
  {
  }

  /** Messages that all name one present row leave that row with the last status and change nothing else. */
  lemma {:induction false} ApplySameRow(rows: seq<Row>, name: string, events: seq<Event>)
    requires HasRow(rows, name) && events != []
    requires forall i :: 0 <= i < |events| ==> events[i].name == name
    ensures ApplyAll(rows, events) == Some(SetStatus(rows, name, events[|events| - 1].status))
    decreases events
  {
    var next := SetStatus(rows, name, events[0].status);
    FirstIndexByNames(next, rows, name);
    ApplyAllCons(rows, events);
    var rest := events[1..];
    if rest != [] {
      assert forall i :: 0 <= i < |rest| ==> rest[i] == events[i + 1];
      ApplySameRow(next, name, rest);
      assert rest[|rest| - 1] == events[|events| - 1];
      SetStatusOverwrite(rows, name, events[0].status, events[|events| - 1].status);
    }
  }

  /** Every message for one archive names it, and the last one is its `Processed`. */
  lemma ItemEventsShape(run: ItemRun)
    ensures ItemEvents(run) != []
    ensures forall i :: 0 <= i < |ItemEvents(run)| ==> ItemEvents(run)[i].name == run.name
    ensures ItemEvents(run)[|ItemEvents(run)| - 1].status == FileProcessed
  {
  }

  /** Delivering one more archive's messages gives its row `Processed` on top of the table so far. */
  lemma BatchStep(rows: seq<Row>, init: seq<ItemRun>, last: ItemRun, mid: seq<Row>)
    requires ApplyAll(rows, BatchEvents(init)) == Some(mid)
    requires HasRow(mid, last.name)
    ensures ApplyAll(rows, BatchEvents(init + [last])) == Some(SetStatus(mid, last.name, FileProcessed))
  {
    BatchEventsSnoc(init, last);
    ApplyAllAppend(rows, BatchEvents(init), ItemEvents(last));
    ItemEventsShape(last);
    ApplySameRow(mid, last.name, ItemEvents(last));
  }

  /** Marking the rows of a batch's archives marks those before the last one, then the last one. */
  lemma MarkRunsStep(rows: seq<Row>, runs: seq<ItemRun>, status: string)
    requires runs != []
    ensures MarkAll(rows, RunNames(runs), status) ==
      SetStatus(MarkAll(rows, RunNames(runs[..|runs| - 1]), status), runs[|runs| - 1].name, status)
  {
    assert RunNames(runs)[..|runs| - 1] == RunNames(runs[..|runs| - 1]);
  }

  /**
   * Applied to a table that holds every selected archive, a batch's messages
   * never name a missing row, and leave exactly the first row of each
   * selected name `Processed`, whatever progress was reported.
   */
  lemma {:induction false} BatchConverges(rows: seq<Row>, runs: seq<ItemRun>)
    requires forall k :: 0 <= k < |runs| ==> HasRow(rows, runs[k].name)
    ensures ApplyAll(rows, BatchEvents(runs)) == Some(MarkAll(rows, RunNames(runs), FileProcessed))
  {
    if runs != [] {
      var n := |runs|;
      var init, last := runs[..n - 1], runs[n - 1];
      assert runs == init + [last];
      BatchConverges(rows, init);
      var mid := MarkAll(rows, RunNames(init), FileProcessed);
      assert HasRow(rows, last.name);
      FirstIndexByNames(mid, rows, last.name);
      BatchStep(rows, init, last, mid);
      MarkRunsStep(rows, runs, FileProcessed);
    }
  }

  /** Marking `Queued` first and `Processed` afterwards ends as marking `Processed` alone. */
  lemma QueuedThenProcessed(rows: seq<Row>, names: seq<string>)
    ensures MarkAll(MarkAll(rows, names, FileQueued), names, FileProcessed) == MarkAll(rows, names, FileProcessed)
  {
    var queued := MarkAll(rows, names, FileQueued);
    MarkAllAt(rows, names, FileQueued);
    MarkAllAt(queued, names, FileProcessed);
    MarkAllAt(rows, names, FileProcessed);
    forall k | 0 <= k < |rows| ensures FirstIndex(queued, queued[k].name) == FirstIndex(rows, rows[k].name) {
      FirstIndexByNames(queued, rows, rows[k].name);
    }
  }

  /**
   * A started batch, run to the end with all its messages delivered, leaves
   * the table as it was except that the first row of every selected name is
   * `Processed`.
   */
  lemma SelectionEndsProcessed(rows: seq<Row>, runs: seq<ItemRun>)
    requires forall k :: 0 <= k < |runs| ==> HasRow(rows, runs[k].name)
    ensures ApplyAll(MarkAll(rows, RunNames(runs), FileQueued), BatchEvents(runs))
      == Some(MarkAll(rows, RunNames(runs), FileProcessed))
  {
    var queued := MarkAll(rows, RunNames(runs), FileQueued);
    MarkAllAt(rows, RunNames(runs), FileQueued);
    forall k | 0 <= k < |runs| ensures HasRow(queued, runs[k].name) {
      FirstIndexByNames(queued, rows, runs[k].name);
    }
    BatchConverges(queued, runs);
    QueuedThenProcessed(rows, RunNames(runs));
  }
}
