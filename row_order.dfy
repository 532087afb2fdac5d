/**
 * The order in which the listing is displayed: Python's `sorted(rows,
 * reverse=True)` over `[name, status]` rows, i.e. descending in the
 * lexicographic order of lists, whose elements are compared as `str`
 * (code point by code point, a proper prefix first).
 */
module RowOrder {
  import opened StatusTable

  /** Python's `a <= b` on `str`. */
  predicate StrLeq(a: string, b: string)
  {
    if a == [] then true
    else if b == [] then false
    else if a[0] != b[0] then a[0] < b[0]
    else StrLeq(a[1..], b[1..])
  }

  lemma {:induction false} StrLeqTotal(a: string, b: string)
    ensures StrLeq(a, b) || StrLeq(b, a)
  {
    if a != [] && b != [] && a[0] == b[0] {
      StrLeqTotal(a[1..], b[1..]);
    }
  }

  lemma {:induction false} StrLeqAntisymmetric(a: string, b: string)
    requires StrLeq(a, b) && StrLeq(b, a)
    ensures a == b
  {
    if a != [] && b != [] {
      StrLeqAntisymmetric(a[1..], b[1..]);
      assert a == [a[0]] + a[1..] && b == [b[0]] + b[1..];
    }
  }

  lemma {:induction false} StrLeqTransitive(a: string, b: string, c: string)
    requires StrLeq(a, b) && StrLeq(b, c)
    ensures StrLeq(a, c)
  {
    if a != [] && b != [] && c != [] && a[0] == b[0] == c[0] {
      StrLeqTransitive(a[1..], b[1..], c[1..]);
    }
  }

  /** Python's `x <= y` on the two-element lists `[name, status]`. */
  predicate RowLeq(x: Row, y: Row)
  {
    if x.name != y.name then StrLeq(x.name, y.name) else StrLeq(x.status, y.status)
  }

  lemma RowLeqTotal(x: Row, y: Row)
    ensures RowLeq(x, y) || RowLeq(y, x)
  {
    StrLeqTotal(x.name, y.name);
    StrLeqTotal(x.status, y.status);
  }

  lemma RowLeqAntisymmetric(x: Row, y: Row)
    requires RowLeq(x, y) && RowLeq(y, x)
    ensures x == y
  {
    if x.name != y.name {
      StrLeqAntisymmetric(x.name, y.name);
    } else {
      StrLeqAntisymmetric(x.status, y.status);
    }
  }

  lemma RowLeqTransitive(x: Row, y: Row, z: Row)
    requires RowLeq(x, y) && RowLeq(y, z)
    ensures RowLeq(x, z)
  {
    if x.name == y.name == z.name {
      StrLeqTransitive(x.status, y.status, z.status);
    } else if x.name == y.name {
      assert StrLeq(y.name, z.name);
    } else if y.name == z.name {
      assert StrLeq(x.name, y.name);
    } else if x.name == z.name {
      StrLeqAntisymmetric(x.name, y.name);
      assert false;
    } else {
      StrLeqTransitive(x.name, y.name, z.name);
    }
  }

  predicate SortedDescending(s: seq<Row>)
  {
    forall i, j :: 0 <= i < j < |s| ==> RowLeq(s[j], s[i])
  }

  /** Inserts `x` before the first row that is not above it. */
  function InsertDescending(x: Row, s: seq<Row>): (r: seq<Row>)
    requires SortedDescending(s)
    ensures SortedDescending(r)
    ensures multiset(r) == multiset(s) + multiset{x}
  {
    if s == [] then [x]
    else if RowLeq(s[0], x) then
      assert forall j :: 0 <= j < |s| ==> RowLeq(s[j], x) by {
        forall j | 0 <= j < |s| ensures RowLeq(s[j], x) {
          if j > 0 { RowLeqTransitive(s[j], s[0], x); }
        }
      }
      [x] + s
    else
      RowLeqTotal(s[0], x);
      var rest := InsertDescending(x, s[1..]);
      assert s == [s[0]] + s[1..];
      assert forall j :: 0 <= j < |rest| ==> RowLeq(rest[j], s[0]) by {
        forall j | 0 <= j < |rest| ensures RowLeq(rest[j], s[0]) {
          assert rest[j] in multiset(rest);
          if rest[j] != x {
            assert rest[j] in multiset(s[1..]);
            var m :| 0 <= m < |s[1..]| && s[1..][m] == rest[j];
            assert RowLeq(s[m + 1], s[0]);
          }
        }
      }
      [s[0]] + rest
  }

  /** The displayed order of a listing: `sorted(rows, reverse=True)`. */
  function SortDescending(rows: seq<Row>): (r: seq<Row>)
    ensures SortedDescending(r)
    ensures multiset(r) == multiset(rows)
  {
    if rows == [] then []
    else
      assert rows == [rows[0]] + rows[1..];
      InsertDescending(rows[0], SortDescending(rows[1..]))
  }

  /** Two descending arrangements of the same rows start with the same (greatest) row. */
  lemma SameHead(a: seq<Row>, b: seq<Row>)
    requires SortedDescending(a) && SortedDescending(b)
    requires multiset(a) == multiset(b) && a != []
    ensures b != [] && a[0] == b[0]
  {
    assert a[0] in multiset(b);
    var k :| 0 <= k < |b| && b[k] == a[0];
    assert b[0] in multiset(a);
    var m :| 0 <= m < |a| && a[m] == b[0];
    if k > 0 { assert RowLeq(b[k], b[0]); } else { RowLeqTotal(a[0], b[0]); }
    if m > 0 { assert RowLeq(a[m], a[0]); } else { RowLeqTotal(a[0], b[0]); }
    RowLeqAntisymmetric(a[0], b[0]);
  }

  lemma MultisetTail(a: seq<Row>)
    requires a != []
    ensures multiset(a[1..]) == multiset(a) - multiset{a[0]}
  {
    assert a == [a[0]] + a[1..];
  }

  /** Two descending arrangements of the same rows are the same sequence. */
  lemma {:induction false} SortedUnique(a: seq<Row>, b: seq<Row>)
    requires SortedDescending(a) && SortedDescending(b)
    requires multiset(a) == multiset(b)
    ensures a == b
  {
    if a != [] {
      SameHead(a, b);
      MultisetTail(a);
      MultisetTail(b);
      SortedUnique(a[1..], b[1..]);
      assert a == [a[0]] + a[1..] && b == [b[0]] + b[1..];
    }
  }

  /** The displayed table is the one descending arrangement of the listed rows. */
  lemma DisplayOrderIsUnique(rows: seq<Row>, shown: seq<Row>)
    requires SortedDescending(shown) && multiset(shown) == multiset(rows)
    ensures shown == SortDescending(rows)
  {
    SortedUnique(shown, SortDescending(rows));
  }
}
