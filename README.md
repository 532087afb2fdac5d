# EventInc archive bookkeeping — a Dafny model

This project models the bookkeeping core of the EventInc processor window
(`GUI_PhotoRenamer.py`): which directory entries count as EventInc archives,
how the archive list is labelled and ordered, how the status table is looked
up and edited in place, when a batch is allowed to start, and which status
messages a batch posts and what they do to the table.

Modules, one per component:

- `FilePattern` (`file_pattern.dfy`): the archive-name validator. The regular
  expression `^EventInc_\d{4}-\d{2}-\d{2}\.uat\.zip$` with IGNORECASE is a
  sequence of atoms matched end to end. It is proved equal to a plain
  reference description (prefix, three digit groups, suffix, 27 characters).
- `StatusTable` (`status_table.dfy`): `[name, status]` rows; first-match row
  lookup; setting one row's status; marking a selection `Queued`; applying one
  status message. The in-place operations are methods on an `array<Row>`. Each
  is proved against a function on `seq<Row>`.
- `RowOrder` (`row_order.dfy`): Python's `<=` on `str` and on two-element
  lists, and `sorted(rows, reverse=True)` as a descending insertion sort. The
  descending arrangement of a multiset of rows is proved unique.
- `Listing` (`listing.dfy`): the scan of the archive directory as a function
  and as the appending loop of the source, with the displayed (sorted) table.
- `Batch` (`batch.dfy`): the start checks and the "Process selection" handler;
  the message sequence of a batch; the event loop's application of those
  messages to the table.
- `Wrappers` (`wrappers.dfy`): `Option`.

Inputs the source obtains from the outside world are parameters here:

- the directory listing is a `seq<string>` in iteration order;
- `<base>/Status/EventInc` is a map from entry name to node kind, so a marker
  that exists but is a directory is representable;
- the existence of `Project/SJ_X2U` and `Status/EventInc` is two booleans;
- the selected table rows are a sequence of row indices;
- the progress texts the archive processor reports are opaque strings per archive.

Behaviour of the code that the model keeps as written:

- The "Process selection" handler does not check that the selected names are
  in the table. They are read from the table's own selected rows
  (`GUI_PhotoRenamer.py:210`), so they are always present. The model takes the
  selection as row indices for the same reason.
- The batch loop (`GUI_PhotoRenamer.py:70-74`) has no exception handler, so an
  archive that fails to process ends the batch. The model assumes the
  processor returns for every archive (see Left out).
- A status message whose name has no row makes the lookup return `None`. The
  handler then indexes the table with `None`, which raises `TypeError`
  (`GUI_PhotoRenamer.py:248-250`). `ApplyStatusEvent` reports this as
  `RowMissing`, and `ApplyAll` yields `None`.

## Model

| member | source | states |
|---|---|---|
| FilePattern.ValidatorMatchesReference | GUI_PhotoRenamer.py:17 | a name is accepted iff it is `EventInc_` (ASCII case ignored), 4 digits, `-`, 2 digits, `-`, 2 digits, `.uat.zip` (case ignored), and nothing else |
| FilePattern.IsEventIncName | GUI_PhotoRenamer.py:49 | the `re.match` test with IGNORECASE accepts a name iff it has the reference layout (prefix, digit groups, suffix, 27 characters) |
| FilePattern.FullMatchPointwise | GUI_PhotoRenamer.py:49 | the anchored match holds iff the name has exactly the pattern's length and every character matches its atom |
| FilePattern.AcceptedLength | GUI_PhotoRenamer.py:17 | every accepted name has exactly 27 characters |
| FilePattern.Anchored | GUI_PhotoRenamer.py:17 | any non-empty text before or after an accepted name makes it rejected (the `^`/`$` anchors) |
| FilePattern.MarkerNameRejected | GUI_PhotoRenamer.py:49-51 | the `<name>.success` marker of an accepted archive is never itself accepted |
| FilePattern.CaseInsensitive | GUI_PhotoRenamer.py:49 | two names equal up to ASCII case are both accepted or both rejected (`re.IGNORECASE`) |
| FilePattern.AcceptsEveryDate | GUI_PhotoRenamer.py:17 | every name built from the prefix, digit groups of lengths 4, 2, 2 and the suffix is accepted |
| FilePattern.RejectsShortMonth | GUI_PhotoRenamer.py:17 | for any year of 4 characters, month of 1 and day of 2, `EventInc_<year>-<month>-<day>.uat.zip` is rejected (`\d{2}` is exact) |
| FilePattern.RejectsWrongSeparator | GUI_PhotoRenamer.py:17 | any 27-character name with `_` where the dot before `uat` belongs is rejected (the dot is escaped, so it matches only `.`) |
| StatusTable.FirstIndex | GUI_PhotoRenamer.py:81-87 | the result is the smallest index whose row has the name; it is absent iff no row has the name |
| StatusTable.GetTableRowId | GUI_PhotoRenamer.py:81-87 | the scanning loop returns the first index with that name, or None iff no row has it |
| StatusTable.FirstIndexByNames | GUI_PhotoRenamer.py:85-86 | lookup looks at the name column only: tables with the same names give the same index |
| StatusTable.FirstIndexDistinct | GUI_PhotoRenamer.py:81-87 | with distinct names, looking up a row's name finds that row |
| StatusTable.SetStatus | GUI_PhotoRenamer.py:248-253 | setting a status keeps the length and the names; a missing name leaves the table as it is; otherwise the first row of that name gets the new status |
| StatusTable.MarkAll | GUI_PhotoRenamer.py:235-237 | marking names one after another keeps the length and the names of the table |
| StatusTable.SetStatusFrame | GUI_PhotoRenamer.py:253 | setting a status keeps the length and every name; only the first row of that name changes, and it gets the new status |
| StatusTable.SetStatusNoOp | GUI_PhotoRenamer.py:250-251 | a message repeating the row's current status leaves the table unchanged |
| StatusTable.SetStatusOverwrite | GUI_PhotoRenamer.py:253 | a second status for the same row replaces the first |
| StatusTable.SetStatusIdempotent | GUI_PhotoRenamer.py:245-253 | applying the same status message twice equals applying it once |
| StatusTable.MarkAllAt | GUI_PhotoRenamer.py:234-237 | after marking a selection, a row has the new status iff its name is selected and it is the first row of that name; all other rows and all names are unchanged |
| StatusTable.MarkAllDistinct | GUI_PhotoRenamer.py:234-237 | with distinct row names, exactly the rows whose names are selected get the new status |
| StatusTable.MarkQueued | GUI_PhotoRenamer.py:234-237 | the in-place loop leaves the array equal to the selection marked `Queued` |
| StatusTable.ApplyStatusEvent | GUI_PhotoRenamer.py:245-253 | a message for a missing row is reported (the source raises there); one repeating the status changes nothing; otherwise only that row's status is replaced |
| RowOrder.StrLeqTotal | GUI_PhotoRenamer.py:193 | Python string comparison is total |
| RowOrder.StrLeqAntisymmetric | GUI_PhotoRenamer.py:193 | Python string comparison is antisymmetric |
| RowOrder.StrLeqTransitive | GUI_PhotoRenamer.py:193 | Python string comparison is transitive |
| RowOrder.RowLeqTotal | GUI_PhotoRenamer.py:193 | comparison of `[name, status]` rows is total |
| RowOrder.RowLeqAntisymmetric | GUI_PhotoRenamer.py:193 | comparison of rows is antisymmetric |
| RowOrder.RowLeqTransitive | GUI_PhotoRenamer.py:193 | comparison of rows is transitive |
| RowOrder.InsertDescending | GUI_PhotoRenamer.py:193 | inserting into a descending list keeps it descending and adds exactly that row |
| RowOrder.SortDescending | GUI_PhotoRenamer.py:193 | the displayed order is descending and a permutation of the listed rows |
| RowOrder.SameHead | GUI_PhotoRenamer.py:193 | two descending arrangements of the same rows begin with the same row |
| RowOrder.SortedUnique | GUI_PhotoRenamer.py:193 | two descending arrangements of the same rows are equal |
| RowOrder.DisplayOrderIsUnique | GUI_PhotoRenamer.py:193 | any descending permutation of the listed rows is exactly the displayed table |
| Listing.ListedStatus | GUI_PhotoRenamer.py:51-57 | the listing only ever labels an entry `Processed` or empty |
| Listing.ListedRows | GUI_PhotoRenamer.py:47-57 | the listing has at most one row per entry; each row names a directory entry that the validator accepts, and is `Processed` iff `<name>.success` is a regular file in the marker directory |
| Listing.DisplayedRows | GUI_PhotoRenamer.py:193 | the displayed table is in descending order and holds exactly the listed rows (same multiset) |
| Listing.ListedRowsSpec | GUI_PhotoRenamer.py:47-57 | the listed names are the accepted entries in directory order; a row is `Processed` iff `<name>.success` is a regular file in the marker directory, and empty otherwise |
| Listing.ListedRowsCount | GUI_PhotoRenamer.py:47-57 | the listing has as many rows as there are accepted entries |
| Listing.AcceptedNamesCount | GUI_PhotoRenamer.py:48-49 | each accepted entry is kept as often as it occurs; rejected entries never appear |
| Listing.AcceptedNamesDistinct | GUI_PhotoRenamer.py:48-49 | distinct directory entries give distinct accepted names |
| Listing.ListedNamesDistinct | GUI_PhotoRenamer.py:47-57 | a directory listing gives rows with distinct names |
| Listing.DisplayedRowsSpec | GUI_PhotoRenamer.py:193 | the displayed table is descending, a permutation of the listing, and the only such arrangement |
| Listing.ListIncFiles | GUI_PhotoRenamer.py:42-57 | the appending scan loop returns exactly the listing |
| Batch.CheckBatchStart | GUI_PhotoRenamer.py:221-232 | a missing output directory rejects first, then a missing marker directory, then an empty selection; otherwise the batch starts with the selection |
| Batch.SelectedNames | GUI_PhotoRenamer.py:210 | the selection has one name per selected row, and each is the name of a row of the table |
| Batch.ProcessSelection | GUI_PhotoRenamer.py:207-240 | a rejected batch leaves the table untouched; a started batch marks the selected rows `Queued` and hands over the selected names in selection order |
| Batch.ProcessIncFiles | GUI_PhotoRenamer.py:64-74 | the batch loop posts exactly the batch's message sequence |
| Batch.BatchEvents | GUI_PhotoRenamer.py:70-74 | a batch posts at least one message per archive, and its last message is the last archive's `Processed` |
| Batch.BatchEventsSnoc | GUI_PhotoRenamer.py:70-74 | one more archive in the selection appends exactly its progress messages and then its `Processed` to the batch's messages |
| Batch.ItemEventsShape | GUI_PhotoRenamer.py:67-74 | the messages for one archive are non-empty, all name that archive, and end with its `Processed` |
| Batch.BatchEventsSplit | GUI_PhotoRenamer.py:70-74 | the messages are those of earlier archives, then this archive's progress and its one `Processed`, then those of later archives |
| Batch.OneProcessedPerItem | GUI_PhotoRenamer.py:70-74 | when no progress text reads `Processed`, the `Processed` messages name the selection exactly, once each, in selection order |
| Batch.ApplyAll | GUI_PhotoRenamer.py:243-253 | applying messages in order fails (None, where the source raises `TypeError`) iff some message names a missing row; otherwise the table keeps its names |
| Batch.ApplySameRow | GUI_PhotoRenamer.py:245-253 | messages that all name one present row leave it with the last status and change nothing else |
| Batch.BatchConverges | GUI_PhotoRenamer.py:243-253 | a batch's messages never hit a missing row of a table holding the selection, and end with the first row of each selected name `Processed` and every other row unchanged |
| Batch.QueuedThenProcessed | GUI_PhotoRenamer.py:234-237 | marking `Queued` and then `Processed` ends the same as marking `Processed` alone |
| Batch.SelectionEndsProcessed | GUI_PhotoRenamer.py:234-253 | after queued-marking and delivery of all of a batch's messages, the table differs from the original only in the selected rows being `Processed` |

## Left out

- Window, layout, widget updates, button states, table re-render and refresh, and debug printing (`get_layout`, `set_button_status`, `print_event_data`, `GUI_PhotoRenamer.py:198-202`, `:255-259`): user-interface plumbing.
- Threads and `window.write_event_value` (`GUI_PhotoRenamer.py:61`, `:68`, `:183`, `:240`): message delivery is modelled as a returned sequence of messages, applied in order by `ApplyAll`. Interleaving with other events is not modelled.
- `iterdir`, `exists`, `is_file` (`GUI_PhotoRenamer.py:48`, `:53-54`, `:221`, `:225`): replaced by the entry sequence, the marker-directory map and two booleans. A missing input directory makes `iterdir` raise in the scan thread; that path is not modelled.
- `process_eventinc_file` (`processors.eventinc`) is not part of this model. Its progress is an opaque list of texts per archive. The model assumes these are reported under the archive's own name, and that the call returns.
- Batch.ProcessIncFiles: an exception raised by the processor would end the batch thread without further messages (the loop at `GUI_PhotoRenamer.py:70-74` has no handler); not modelled.
- The percentage text `f"{round(value * 100)}%"` (`GUI_PhotoRenamer.py:68`): floating-point rounding; progress texts are opaque strings.
- FilePattern.IsEventIncName: ASCII digits and ASCII case folding only. Python's `\d` also accepts other Unicode decimal digits, IGNORECASE also matches `I` and `i` against U+0130 `İ` and U+0131 `ı`, so `EventInc_2021-01-01.uat.zıp` is accepted by the source and rejected by the model, and `$` also matches before one trailing newline.
- The substring test `event in KEY.PROCESS_SEL_BTN` (`GUI_PhotoRenamer.py:207`): an event-dispatch detail of the window loop; the handler is modelled as the branch it guards.
- The "no input path" check on listing (`GUI_PhotoRenamer.py:174-176`), `getopt` argument parsing and `print_help` (`GUI_PhotoRenamer.py:273-337`): argument and window plumbing.
- Photo EXIF reading, renaming, copying and moving: not present in this source file.
