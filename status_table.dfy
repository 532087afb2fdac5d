/**
 * The status table shown in the window: a list of `[name, status]` rows that
 * the event loop edits in place. Row lookup takes the first row with a given
 * name; marking a selection `Queued` and applying a progress event each
 * overwrite the status of that row and nothing else.
 */
module StatusTable {
  import opened Wrappers

  const FileEmpty: string := ""
  const FileProcessed: string := "Processed"
  const FileQueued: string := "Queued"

  datatype Row = Row(name: string, status: string)

  /** A status message posted to the event loop: the row name and its new status. */
  datatype Event = Event(name: string, status: string)

  function Names(rows: seq<Row>): (ns: seq<string>)
    ensures |ns| == |rows|
  {
    seq(|rows|, i requires 0 <= i < |rows| => rows[i].name)
  }

  predicate HasRow(rows: seq<Row>, name: string)
  {
    exists k :: 0 <= k < |rows| && rows[k].name == name
  }

  predicate DistinctNames(rows: seq<Row>)
  {
    forall i, j :: 0 <= i < j < |rows| ==> rows[i].name != rows[j].name
  }

  /** The index of the first row called `name`, or None when no row is. */
  function FirstIndex(rows: seq<Row>, name: string): (r: Option<nat>)
    ensures r.Some? ==> r.value < |rows| && rows[r.value].name == name
    ensures r.Some? ==> forall k :: 0 <= k < r.value ==> rows[k].name != name
    ensures r.None? <==> !HasRow(rows, name)
  {
    if rows == [] then None
    else if rows[0].name == name then Some(0)
    else
      match FirstIndex(rows[1..], name)
      case None =>
        assert forall k :: 1 <= k < |rows| ==> rows[1..][k - 1] == rows[k];
        None
      case Some(i) => Some(i + 1)
  }

  /**
   * The table after the first row called `name` has been given `status`;
   * without such a row, the table as it was. Every name stays, and no other
   * row changes.
   */
  function SetStatus(rows: seq<Row>, name: string, status: string): (r: seq<Row>)
    ensures |r| == |rows| && Names(r) == Names(rows)
    ensures !HasRow(rows, name) ==> r == rows
    ensures HasRow(rows, name) ==> r[FirstIndex(rows, name).value].status == status
  {
    match FirstIndex(rows, name)
    case None => rows
    case Some(i) => rows[i := rows[i].(status := status)]
  }

  /** The table after `SetStatus` for each of `names` in turn, all with the same status; every name stays. */
  function MarkAll(rows: seq<Row>, names: seq<string>, status: string): (r: seq<Row>)
    ensures |r| == |rows| && Names(r) == Names(rows)
  {
    if names == [] then rows
    else SetStatus(MarkAll(rows, names[..|names| - 1], status), names[|names| - 1], status)
  }

  // ---------------------------------------------------------------------------
  // Properties of the table operations

  /** Row lookup depends on the names alone. */
  lemma FirstIndexByNames(a: seq<Row>, b: seq<Row>, name: string)
    requires Names(a) == Names(b)
    ensures FirstIndex(a, name) == FirstIndex(b, name)
  {
    assert forall k :: 0 <= k < |a| ==> a[k].name == Names(a)[k] == Names(b)[k] == b[k].name;
  }

  /** In a table with distinct names, a row is the first row of its own name. */
  lemma FirstIndexDistinct(rows: seq<Row>, k: nat)
    requires DistinctNames(rows) && k < |rows|
    ensures FirstIndex(rows, rows[k].name) == Some(k)
  {
  }

  /** Setting a status changes one row's status and nothing else: every name stays, every other row stays. */
  lemma SetStatusFrame(rows: seq<Row>, name: string, status: string)
    ensures var r := SetStatus(rows, name, status);
      && |r| == |rows| && Names(r) == Names(rows)
      && (forall k :: 0 <= k < |rows| && Some(k) != FirstIndex(rows, name) ==> r[k] == rows[k])
      && (forall k :: 0 <= k < |rows| && Some(k) == FirstIndex(rows, name) ==> r[k].status == status)
  {
  }

  /** An event that repeats a row's current status leaves the table as it is. */
  lemma SetStatusNoOp(rows: seq<Row>, name: string, status: string)
    requires FirstIndex(rows, name).Some?
    requires rows[FirstIndex(rows, name).value].status == status
    ensures SetStatus(rows, name, status) == rows
  {
  }

  /** A second status for the same row replaces the first. */
  lemma SetStatusOverwrite(rows: seq<Row>, name: string, first: string, second: string)
    ensures SetStatus(SetStatus(rows, name, first), name, second) == SetStatus(rows, name, second)
  {
    var mid := SetStatus(rows, name, first);
    FirstIndexByNames(mid, rows, name);
  }

  /** Applying the same event twice is the same as applying it once. */
  lemma SetStatusIdempotent(rows: seq<Row>, name: string, status: string)
    ensures SetStatus(SetStatus(rows, name, status), name, status) == SetStatus(rows, name, status)
  {
    SetStatusOverwrite(rows, name, status, status);
  }

  /** What marking `names` with `status` makes of the k-th row. */
  function MarkedRow(rows: seq<Row>, names: seq<string>, status: string, k: nat): Row
    requires k < |rows|
  {
    if rows[k].name in names && FirstIndex(rows, rows[k].name) == Some(k)
    then rows[k].(status := status) else rows[k]
  }

  /** One marking step keeps the k-th row as `MarkedRow` describes it. */
  lemma MarkAllStepAt(rows: seq<Row>, init: seq<string>, last: string, status: string, k: nat)
    requires k < |rows|
    requires MarkAll(rows, init, status)[k] == MarkedRow(rows, init, status, k)
    ensures MarkAll(rows, init + [last], status)[k] == MarkedRow(rows, init + [last], status, k)
  {
    var mid := MarkAll(rows, init, status);
    assert (init + [last])[..|init|] == init;
    SetStatusFrame(mid, last, status);
    FirstIndexByNames(mid, rows, last);
    if FirstIndex(rows, last) == Some(k) {
      assert rows[k].name == last;
    }
  }

  /**
   * After marking `names`, a row carries `status` exactly when its name is
   * among `names` and it is the first row of that name; every other row,
   * and every name, is as before.
   */
  lemma {:induction false} MarkAllAt(rows: seq<Row>, names: seq<string>, status: string)
    ensures |MarkAll(rows, names, status)| == |rows|
    ensures Names(MarkAll(rows, names, status)) == Names(rows)
    ensures forall k :: 0 <= k < |rows| ==>
      MarkAll(rows, names, status)[k] ==
        if rows[k].name in names && FirstIndex(rows, rows[k].name) == Some(k)
        then rows[k].(status := status) else rows[k]
  {
    if names != [] {
      var init, last := names[..|names| - 1], names[|names| - 1];
      MarkAllAt(rows, init, status);
      assert names == init + [last];
      forall k | 0 <= k < |rows| ensures MarkAll(rows, names, status)[k] == MarkedRow(rows, names, status, k) {
        assert MarkAll(rows, init, status)[k] == MarkedRow(rows, init, status, k);
        MarkAllStepAt(rows, init, last, status, k);
      }
    }
  }

  /** With distinct names, marking gives `status` to exactly the rows whose names are marked. */
  lemma MarkAllDistinct(rows: seq<Row>, names: seq<string>, status: string)
    requires DistinctNames(rows)
    ensures |MarkAll(rows, names, status)| == |rows|
    ensures forall k :: 0 <= k < |rows| ==>
      MarkAll(rows, names, status)[k] ==
        if rows[k].name in names then Row(rows[k].name, status) else rows[k]
  {
    MarkAllAt(rows, names, status);
    forall k | 0 <= k < |rows| ensures FirstIndex(rows, rows[k].name) == Some(k) {
      FirstIndexDistinct(rows, k);
    }
  }

  // ---------------------------------------------------------------------------
  // The table as the event loop holds it: an array edited in place

  /** Index of the first row called `name`, scanning from the top; None when there is none. */
  method GetTableRowId(table: array<Row>, name: string) returns (idx: Option<nat>)
    ensures idx.Some? ==> idx.value < table.Length && table[idx.value].name == name
    ensures idx.Some? ==> forall k :: 0 <= k < idx.value ==> table[k].name != name
    ensures idx.None? <==> forall k :: 0 <= k < table.Length ==> table[k].name != name
    ensures idx == FirstIndex(table[..], name)
  {
    var i := 0;
    while i < table.Length
      invariant 0 <= i <= table.Length
      invariant forall k :: 0 <= k < i ==> table[k].name != name
    {
      if table[i].name == name {
        return Some(i);
      }
      i := i + 1;
    }
    return None;
  }

  /** Sets the status of every selected row to `Queued`; every selected name is a row of the table. */
  method MarkQueued(table: array<Row>, selection: seq<string>)
    requires forall n :: n in selection ==> HasRow(table[..], n)
    modifies table
    ensures table[..] == MarkAll(old(table[..]), selection, FileQueued)
  {
    var i := 0;
    while i < |selection|
      invariant 0 <= i <= |selection|
      invariant table[..] == MarkAll(old(table[..]), selection[..i], FileQueued)
    {
      MarkAllAt(old(table[..]), selection[..i], FileQueued);
      FirstIndexByNames(table[..], old(table[..]), selection[i]);
      var idx := GetTableRowId(table, selection[i]);
      table[idx.value] := table[idx.value].(status := FileQueued);
      assert selection[..i + 1][..i] == selection[..i];
      i := i + 1;
    }
    assert selection[..i] == selection;
  }

  /** What applying one status message did to the table. */
  datatype EventEffect =
    | Unchanged   // the row already had that status
    | Overwritten // the row's status was replaced
    | RowMissing  // no row has that name: the source indexes the table with None here and raises TypeError

  /** Applies one status message: nothing if the row already has that status, otherwise that row's status is replaced. */
  method ApplyStatusEvent(table: array<Row>, ev: Event) returns (effect: EventEffect)
    modifies table
    ensures effect == RowMissing <==> !HasRow(old(table[..]), ev.name)
    ensures effect == Unchanged <==>
      HasRow(old(table[..]), ev.name) && old(table[..])[FirstIndex(old(table[..]), ev.name).value].status == ev.status
    ensures effect != Overwritten ==> table[..] == old(table[..])
    ensures table[..] == SetStatus(old(table[..]), ev.name, ev.status)
  {
    var idx := GetTableRowId(table, ev.name);
    if idx.None? {
      return RowMissing;
    }
    if table[idx.value].status == ev.status {
      return Unchanged;
    }
    table[idx.value] := table[idx.value].(status := ev.status);
    return Overwritten;
  }
}
