/**
 * Listing the archive directory: keep the entries whose names pass the
 * validator, label each `Processed` when a regular file `<name>.success`
 * exists in `<base>/Status/EventInc` and empty otherwise, then display the
 * rows in descending order.
 *
 * The directory iteration is the sequence `entries`; the marker directory is
 * a map from entry name to the kind of filesystem node found there.
 */
module Listing {
  import opened FilePattern
  import opened StatusTable
  import opened RowOrder

  datatype NodeKind = RegularFile | Directory | OtherNode

  /** The entries of `<base>/Status/EventInc`, by name. */
  type StatusDir = map<string, NodeKind>

  /** `<name>.success` exists in the marker directory and is a regular file. */
  predicate HasSuccessMarker(statusDir: StatusDir, name: string)
  {
    var marker := name + ".success";
    marker in statusDir && statusDir[marker] == RegularFile
  }

  function ListedStatus(statusDir: StatusDir, name: string): (s: string)
    ensures s == FileProcessed || s == FileEmpty
  {
    if HasSuccessMarker(statusDir, name) then FileProcessed else FileEmpty
  }

  /**
   * The rows the scan posts, in directory order: only accepted entries, each
   * `Processed` exactly when its marker is a regular file.
   */
  function ListedRows(entries: seq<string>, statusDir: StatusDir): (r: seq<Row>)
    ensures |r| <= |entries|
    ensures forall i :: 0 <= i < |r| ==>
      r[i].name in entries && IsEventIncName(r[i].name) &&
      (r[i].status == FileProcessed <==> HasSuccessMarker(statusDir, r[i].name))
  {
    if entries == [] then []
    else
      var last := entries[|entries| - 1];
      var before := ListedRows(entries[..|entries| - 1], statusDir);
      if IsEventIncName(last) then before + [Row(last, ListedStatus(statusDir, last))] else before
  }

  /** Reference: the accepted entry names, in directory order. */
  function AcceptedNames(entries: seq<string>): seq<string>
  {
    if entries == [] then []
    else if IsEventIncName(entries[0]) then [entries[0]] + AcceptedNames(entries[1..])
    else AcceptedNames(entries[1..])
  }

  /** The table as first displayed: the listed rows, rearranged in descending order. */
  function DisplayedRows(entries: seq<string>, statusDir: StatusDir): (r: seq<Row>)
    ensures SortedDescending(r)
    ensures multiset(r) == multiset(ListedRows(entries, statusDir))
  {
    SortDescending(ListedRows(entries, statusDir))
  }

  // ---------------------------------------------------------------------------
  // Properties

  lemma {:induction false} AcceptedNamesAppend(a: seq<string>, b: seq<string>)
    ensures AcceptedNames(a + b) == AcceptedNames(a) + AcceptedNames(b)
  {
    if a != [] {
      assert (a + b)[1..] == a[1..] + b;
      AcceptedNamesAppend(a[1..], b);
    } else {
      assert a + b == b;
    }
  }

  /** Each accepted name occurs in the reference as often as in the directory; rejected names never occur. */
  lemma {:induction false} AcceptedNamesCount(entries: seq<string>, x: string)
    ensures multiset(AcceptedNames(entries))[x] == if IsEventIncName(x) then multiset(entries)[x] else 0
  {
    if entries != [] {
      AcceptedNamesCount(entries[1..], x);
      assert entries == [entries[0]] + entries[1..];
    }
  }

  /**
   * The listing keeps exactly the accepted entries, in directory order, and
   * labels each one from its marker: `Processed` when `<name>.success` is a
   * regular file, empty otherwise.
   */
  lemma {:induction false} ListedRowsSpec(entries: seq<string>, statusDir: StatusDir)
    ensures Names(ListedRows(entries, statusDir)) == AcceptedNames(entries)
    ensures forall i :: 0 <= i < |ListedRows(entries, statusDir)| ==>
      var row := ListedRows(entries, statusDir)[i];
      IsEventIncName(row.name) &&
      (row.status == FileProcessed <==> HasSuccessMarker(statusDir, row.name)) &&
      (row.status == FileEmpty <==> !HasSuccessMarker(statusDir, row.name))
  {
    if entries != [] {
      var init, last := entries[..|entries| - 1], entries[|entries| - 1];
      ListedRowsSpec(init, statusDir);
      assert entries == init + [last];
      AcceptedNamesAppend(init, [last]);
      assert AcceptedNames([last]) == if IsEventIncName(last) then [last] else [] by {
        assert [last][1..] == [];
      }
    }
  }

  /** The listing holds as many rows as the directory holds accepted entries. */
  lemma ListedRowsCount(entries: seq<string>, statusDir: StatusDir)
    ensures |ListedRows(entries, statusDir)| == |AcceptedNames(entries)|
  {
    ListedRowsSpec(entries, statusDir);
  }

  predicate DistinctEntries(entries: seq<string>)
  {
    forall i, j :: 0 <= i < j < |entries| ==> entries[i] != entries[j]
  }

  /** Distinct directory entries give distinct accepted names. */
  lemma {:induction false} AcceptedNamesDistinct(entries: seq<string>)
    requires DistinctEntries(entries)
    ensures DistinctEntries(AcceptedNames(entries))
  {
    if entries != [] {
      var rest := entries[1..];
      AcceptedNamesDistinct(rest);
      if IsEventIncName(entries[0]) {
        AcceptedNamesCount(rest, entries[0]);
        assert entries[0] !in rest;
        assert multiset(rest)[entries[0]] == 0;
        assert entries[0] !in AcceptedNames(rest);
      }
    }
  }

  /** Directory entries are unique, so the listed rows have distinct names. */
  lemma ListedNamesDistinct(entries: seq<string>, statusDir: StatusDir)
    requires DistinctEntries(entries)
    ensures DistinctNames(ListedRows(entries, statusDir))
  {
    var rows := ListedRows(entries, statusDir);
    ListedRowsSpec(entries, statusDir);
    AcceptedNamesDistinct(entries);
    assert forall i :: 0 <= i < |rows| ==> rows[i].name == AcceptedNames(entries)[i];
  }

  /** The displayed table holds the listed rows, each as often as listed, in descending order. */
  lemma DisplayedRowsSpec(entries: seq<string>, statusDir: StatusDir)
    ensures SortedDescending(DisplayedRows(entries, statusDir))
    ensures multiset(DisplayedRows(entries, statusDir)) == multiset(ListedRows(entries, statusDir))
    ensures forall shown ::
      (SortedDescending(shown) && multiset(shown) == multiset(ListedRows(entries, statusDir)))
      ==> shown == DisplayedRows(entries, statusDir)
  {
    forall shown | SortedDescending(shown) && multiset(shown) == multiset(ListedRows(entries, statusDir))
      ensures shown == DisplayedRows(entries, statusDir)
    {
      DisplayOrderIsUnique(ListedRows(entries, statusDir), shown);
    }
  }

  /** Scanning the archive directory: entries are examined in directory order and accepted ones appended. */
  method ListIncFiles(entries: seq<string>, statusDir: StatusDir) returns (rows: seq<Row>)
    ensures rows == ListedRows(entries, statusDir)
  {
    rows := [];
    var i := 0;
    while i < |entries|
      invariant 0 <= i <= |entries|
      invariant rows == ListedRows(entries[..i], statusDir)
    {
      var name := entries[i];
      assert entries[..i + 1][..i] == entries[..i];
      if IsEventIncName(name) {
        var marker := name + ".success";
        if marker in statusDir && statusDir[marker] == RegularFile {
          rows := rows + [Row(name, FileProcessed)];
        } else {
          rows := rows + [Row(name, FileEmpty)];
        }
      }
      i := i + 1;
    }
    assert entries[..i] == entries;
  }
}
