/** Row order for the table reads: ids in ascending (AUTO_INCREMENT) order, the
    rows a query selects in that order, and `ORDER BY sessionDate DESC`. */
module Ordering {

  import opened Php

  predicate Increasing(s: seq<int>)
  {
    forall i, j :: 0 <= i < j < |s| ==> s[i] < s[j]
  }

  predicate IsLeast(m: int, s: set<int>)
  {
    m in s && forall k :: k in s ==> m <= k
  }

  lemma {:induction false} LeastExists(s: set<int>)
    requires exists k :: k in s
    ensures exists m :: IsLeast(m, s)
    decreases |s|
  {
    var x :| x in s;
    var rest := s - {x};
    if exists k :: k in rest {
      LeastExists(rest);
      var m :| IsLeast(m, rest);
      var least := if x < m then x else m;
      forall k | k in s ensures least <= k {
        if k != x { assert k in rest; }
      }
      assert IsLeast(least, s);
    } else {
      assert forall k :: k in s ==> k == x;
      assert IsLeast(x, s);
    }
  }

  function Least(s: set<int>): (m: int)
    requires exists k :: k in s
    ensures IsLeast(m, s)
  {
    LeastExists(s);
    var m :| IsLeast(m, s);
    m
  }

  /** The keys of a table, in ascending order. */
  function SortedIds(s: set<int>): (ids: seq<int>)
    ensures Increasing(ids)
    ensures forall k :: k in ids <==> k in s
    decreases |s|
  {
    if exists k :: k in s then
      var m := Least(s);
      [m] + SortedIds(s - {m})
    else []
  }

  /** The rows of a query over table rows: for each id in turn, `(id, v)` when
      `pick(id)` selects the row as `v`. */
  function Select<T(!new)>(ids: seq<int>, pick: int -> Option<T>): (rows: seq<(int, T)>)
    ensures forall row :: row in rows <==> row.0 in ids && pick(row.0) == Some(row.1)
    ensures Increasing(ids) ==> IdsAscending(rows)
  {
    if ids == [] then []
    else
      var rest := Select(ids[1..], pick);
      assert Increasing(ids) ==> Increasing(ids[1..]);
      assert forall k :: k in ids <==> k == ids[0] || k in ids[1..];
      match pick(ids[0])
      case Some(v) => [(ids[0], v)] + rest
      case None => rest
  }

  predicate IdsAscending<T>(rows: seq<(int, T)>)
  {
    forall i, j :: 0 <= i < j < |rows| ==> rows[i].0 < rows[j].0
  }

  /** No id appears twice. */
  predicate UniqueIds<T>(rows: seq<(int, T)>)
  {
    forall i, j :: 0 <= i < j < |rows| ==> rows[i].0 != rows[j].0
  }

  /** `a` orders no later than `b`, character by character: for the
      `YYYY-MM-DD` text of a DATE column this is chronological order. */
  predicate DateLeq(a: string, b: string)
  {
    a == [] || (b != [] && (a[0] < b[0] || (a[0] == b[0] && DateLeq(a[1..], b[1..]))))
  }

  lemma {:induction false} DateLeqTotal(a: string, b: string)
    ensures DateLeq(a, b) || DateLeq(b, a)
  {
    if a != [] && b != [] && a[0] == b[0] {
      DateLeqTotal(a[1..], b[1..]);
    }
  }

  lemma {:induction false} DateLeqTransitive(a: string, b: string, c: string)
    requires DateLeq(a, b) && DateLeq(b, c)
    ensures DateLeq(a, c)
  {
    if a != [] && a[0] == b[0] && b[0] == c[0] {
      DateLeqTransitive(a[1..], b[1..], c[1..]);
    }
  }

  /** Latest date first. */
  predicate SortedByDateDesc<T>(rows: seq<(int, T)>, date: T -> string)
  {
    forall i, j :: 0 <= i < j < |rows| ==> DateLeq(date(rows[j].1), date(rows[i].1))
  }

  function InsertByDateDesc<T>(x: (int, T), rows: seq<(int, T)>, date: T -> string): (r: seq<(int, T)>)
    ensures multiset(r) == multiset(rows) + multiset{x}
  {
    if rows == [] || DateLeq(date(rows[0].1), date(x.1)) then [x] + rows
    else
      assert rows == [rows[0]] + rows[1..];
      [rows[0]] + InsertByDateDesc(x, rows[1..], date)
  }

  lemma {:induction false} InsertKeepsOrder<T>(x: (int, T), rows: seq<(int, T)>, date: T -> string)
    requires SortedByDateDesc(rows, date)
    ensures SortedByDateDesc(InsertByDateDesc(x, rows, date), date)
  {
    var r := InsertByDateDesc(x, rows, date);
    if rows == [] || DateLeq(date(rows[0].1), date(x.1)) {
      forall j | 1 <= j < |r| ensures DateLeq(date(r[j].1), date(x.1)) {
        if j > 1 { DateLeqTransitive(date(rows[j - 1].1), date(rows[0].1), date(x.1)); }
      }
    } else {
      InsertKeepsOrder(x, rows[1..], date);
      DateLeqTotal(date(rows[0].1), date(x.1));
      var rest := InsertByDateDesc(x, rows[1..], date);
      forall j | 0 <= j < |rest| ensures DateLeq(date(rest[j].1), date(rows[0].1)) {
        assert rest[j] in multiset(rest);
        if rest[j] != x {
          var k :| 0 <= k < |rows[1..]| && rows[1..][k] == rest[j];
          assert rows[k + 1] == rest[j];
        }
      }
    }
  }

  lemma {:induction false} InsertKeepsUniqueIds<T>(x: (int, T), rows: seq<(int, T)>, date: T -> string)
    requires UniqueIds(rows) && forall i :: 0 <= i < |rows| ==> rows[i].0 != x.0
    ensures UniqueIds(InsertByDateDesc(x, rows, date))
  {
    if !(rows == [] || DateLeq(date(rows[0].1), date(x.1))) {
      InsertKeepsUniqueIds(x, rows[1..], date);
      var rest := InsertByDateDesc(x, rows[1..], date);
      forall j | 0 <= j < |rest| ensures rest[j].0 != rows[0].0 {
        assert rest[j] in multiset(rest);
        if rest[j] != x {
          var k :| 0 <= k < |rows[1..]| && rows[1..][k] == rest[j];
          assert rows[k + 1] == rest[j];
        }
      }
    }
  }

  /** `ORDER BY` date descending, a stable insertion sort: rows with equal
      dates keep their order. */
  function SortByDateDesc<T>(rows: seq<(int, T)>, date: T -> string): (r: seq<(int, T)>)
    ensures SortedByDateDesc(r, date)
    ensures multiset(r) == multiset(rows)
  {
    if rows == [] then []
    else
      assert rows == [rows[0]] + rows[1..];
      var rest := SortByDateDesc(rows[1..], date);
      InsertKeepsOrder(rows[0], rest, date);
      InsertByDateDesc(rows[0], rest, date)
  }

  /** Sorting neither duplicates nor merges rows. */
  lemma {:induction false} SortKeepsUniqueIds<T>(rows: seq<(int, T)>, date: T -> string)
    requires UniqueIds(rows)
    ensures UniqueIds(SortByDateDesc(rows, date))
  {
    if rows != [] {
      var rest := SortByDateDesc(rows[1..], date);
      SortKeepsUniqueIds(rows[1..], date);
      forall i | 0 <= i < |rest| ensures rest[i].0 != rows[0].0 {
        assert rest[i] in multiset(rows[1..]);
        var k :| 0 <= k < |rows[1..]| && rows[1..][k] == rest[i];
        assert rows[k + 1] == rest[i];
      }
      InsertKeepsUniqueIds(rows[0], rest, date);
    }
  }
}
