/** Tables with an integer primary key, as rows in key order. */
module MigrationTables {
  import opened Wrappers

  datatype Row<T> = Row(id: int, value: T)

  ghost predicate Sorted<T>(t: seq<Row<T>>) {
    forall i, j :: 0 <= i < j < |t| ==> t[i].id < t[j].id
  }

  predicate Reaches(id: int, last: Option<int>) {
    last.Some? && id <= last.value
  }

  /** How many rows have an id up to `last`; no `last` means none. */
  function Rank<T>(t: seq<Row<T>>, last: Option<int>): (k: nat)
    ensures k <= |t|
    ensures Sorted(t) ==> forall i :: 0 <= i < |t| ==> (i < k <==> Reaches(t[i].id, last))
  {
    if t == [] || !Reaches(t[0].id, last) then 0 else 1 + Rank(t[1..], last)
  }

  lemma {:induction false} RankIs<T>(t: seq<Row<T>>, last: Option<int>, k: nat)
    requires Sorted(t) && k <= |t| && (k > 0 ==> Reaches(t[k - 1].id, last)) && (k < |t| ==> !Reaches(t[k].id, last))
    ensures Rank(t, last) == k
  {
    if k > 0 {
      assert k > 1 ==> t[0].id < t[k - 1].id;
      RankIs(t[1..], last, k - 1);
    }
  }

  lemma {:induction false} RankGrows<T>(t: seq<Row<T>>, a: Option<int>, b: Option<int>)
    requires a.Some? ==> b.Some? && a.value <= b.value
    ensures Rank(t, a) <= Rank(t, b)
  {
    if t != [] {
      RankGrows(t[1..], a, b);
    }
  }

  function UpTo<T>(t: seq<Row<T>>, last: Option<int>): seq<Row<T>> {
    t[..Rank(t, last)]
  }

  function MaxKey<T>(t: seq<Row<T>>): Option<int> {
    if t == [] then None else Some(t[|t| - 1].id)
  }

  /** INSERT under a primary key: `None` when the key is taken. */
  function InsertRow<T>(t: seq<Row<T>>, row: Row<T>): Option<seq<Row<T>>> {
    if t == [] || row.id < t[0].id then Some([row] + t)
    else if row.id == t[0].id then None
    else
      match InsertRow(t[1..], row)
      case None => None
      case Some(rest) => Some([t[0]] + rest)
  }

  function InsertAll<T>(t: seq<Row<T>>, rows: seq<Row<T>>): Option<seq<Row<T>>>
    decreases |rows|
  {
    if rows == [] then Some(t)
    else
      match InsertRow(t, rows[0])
      case None => None
      case Some(t') => InsertAll(t', rows[1..])
  }

  lemma {:induction false} InsertKeepsSorted<T>(t: seq<Row<T>>, row: Row<T>)
    requires Sorted(t) && InsertRow(t, row).Some?
    ensures var r := InsertRow(t, row).value;
      Sorted(r) && forall i :: 0 <= i < |r| ==> r[i] == row || r[i] in t
  {
    if t != [] && row.id > t[0].id {
      InsertKeepsSorted(t[1..], row);
    }
  }

  lemma {:induction false} InsertAllKeepsSorted<T>(t: seq<Row<T>>, rows: seq<Row<T>>)
    requires Sorted(t) && InsertAll(t, rows).Some?
    ensures Sorted(InsertAll(t, rows).value)
    decreases |rows|
  {
    if rows != [] {
      InsertKeepsSorted(t, rows[0]);
      InsertAllKeepsSorted(InsertRow(t, rows[0]).value, rows[1..]);
    }
  }

  lemma {:induction false} InsertAtEnd<T>(t: seq<Row<T>>, row: Row<T>)
    requires forall i :: 0 <= i < |t| ==> t[i].id < row.id
    ensures InsertRow(t, row) == Some(t + [row])
  {
    if t == [] {
      assert t + [row] == [row] + t;
    } else {
      InsertAtEnd(t[1..], row);
      assert [t[0]] + (t[1..] + [row]) == t + [row];
    }
  }

  lemma {:induction false} InsertAllAtEnd<T>(t: seq<Row<T>>, rows: seq<Row<T>>)
    requires Sorted(t + rows)
    ensures InsertAll(t, rows) == Some(t + rows)
    decreases |rows|
  {
    if rows == [] {
      assert t + rows == t;
    } else {
      forall i | 0 <= i < |t| ensures t[i].id < rows[0].id {
        assert (t + rows)[i].id < (t + rows)[|t|].id;
      }
      InsertAtEnd(t, rows[0]);
      assert (t + [rows[0]]) + rows[1..] == t + rows;
      InsertAllAtEnd(t + [rows[0]], rows[1..]);
    }
  }

  /** The only table with as many rows that holds every row of a table is that table. */
  lemma {:induction false} SameRows<T>(a: seq<Row<T>>, b: seq<Row<T>>)
    requires Sorted(a) && Sorted(b) && forall i :: 0 <= i < |a| ==> a[i] in b
    ensures |a| <= |b| && (|a| == |b| ==> a == b)
    decreases |b|
  {
    if a != [] {
      assert a[0] in b;
      var rest := b[1..];
      if a[0] == b[0] {
        forall i | 0 <= i < |a[1..]| ensures a[1..][i] in rest {
          var j :| 0 <= j < |b| && b[j] == a[i + 1];
          assert j > 0 && rest[j - 1] == a[i + 1];
        }
        SameRows(a[1..], rest);
        assert a == [a[0]] + a[1..] && b == [b[0]] + rest;
      } else {
        var k :| 0 <= k < |b| && b[k] == a[0];
        forall i | 0 <= i < |a| ensures a[i] in rest {
          var j :| 0 <= j < |b| && b[j] == a[i];
          assert j >= k > 0 && rest[j - 1] == a[i];
        }
        SameRows(a, rest);
      }
    }
  }

  function Lookup<T>(t: seq<Row<T>>, id: int): (r: Option<T>)
    ensures r.Some? ==> Row(id, r.value) in t
    ensures r.None? ==> forall i :: 0 <= i < |t| ==> t[i].id != id
  {
    if t == [] then None else if t[0].id == id then Some(t[0].value) else Lookup(t[1..], id)
  }
}
