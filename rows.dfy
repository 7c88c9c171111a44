/**
 * The two QuerySet operations the core relies on, over a table held as a
 * sequence of rows: `filter(...)` keeps the rows a condition accepts, in
 * table order, and `get(...)` insists on exactly one of them.
 */
module Rows {

  /** The three outcomes of Django's `QuerySet.get`. */
  datatype GetResult<T> = DoesNotExist | Found(row: T) | MultipleObjectsReturned

  /** `filter(cond)`: the rows satisfying `cond`, in table order. */
  function Filter<T(!new)>(rows: seq<T>, cond: T -> bool): (r: seq<T>)
    ensures |r| <= |rows|
    ensures forall x :: x in r <==> x in rows && cond(x)
    ensures forall x :: multiset(r)[x] == if cond(x) then multiset(rows)[x] else 0
    ensures (forall i :: 0 <= i < |rows| ==> !cond(rows[i])) ==> r == []
  {
    if rows == [] then []
    else
      assert rows == [rows[0]] + rows[1..];
      if cond(rows[0]) then [rows[0]] + Filter(rows[1..], cond)
      else Filter(rows[1..], cond)
  }

  /** One step of `filter`: the first row, when kept, followed by the filtered rest. */
  lemma FilterUnfold<T(!new)>(rows: seq<T>, cond: T -> bool)
    requires rows != []
    ensures Filter(rows, cond) == (if cond(rows[0]) then [rows[0]] else []) + Filter(rows[1..], cond)
  {
  }

  /** Some row satisfies `cond`. */
  predicate OneSatisfies<T>(rows: seq<T>, cond: T -> bool) {
    exists i :: 0 <= i < |rows| && cond(rows[i])
  }

  /** Two different rows satisfy `cond`. */
  predicate TwoSatisfy<T>(rows: seq<T>, cond: T -> bool) {
    exists i, j :: 0 <= i < j < |rows| && cond(rows[i]) && cond(rows[j])
  }

  /** `filter` keeps some row exactly when some row satisfies the condition. */
  lemma FilterNonEmpty<T(!new)>(rows: seq<T>, cond: T -> bool)
    ensures |Filter(rows, cond)| >= 1 <==> OneSatisfies(rows, cond)
  {
    var r := Filter(rows, cond);
    if |r| >= 1 {
      assert r[0] in r;
    }
    if OneSatisfies(rows, cond) {
      var i :| 0 <= i < |rows| && cond(rows[i]);
      assert rows[i] in r;
    }
  }

  /** Two rows satisfy `cond` exactly when, past the first row, one more does (or two, if the first does not). */
  lemma TwoSatisfyStep<T>(rows: seq<T>, cond: T -> bool)
    requires rows != []
    ensures TwoSatisfy(rows, cond) <==>
      if cond(rows[0]) then OneSatisfies(rows[1..], cond) else TwoSatisfy(rows[1..], cond)
  {
    var tail := rows[1..];
    if TwoSatisfy(rows, cond) {
      var i, j :| 0 <= i < j < |rows| && cond(rows[i]) && cond(rows[j]);
      assert tail[j - 1] == rows[j];
      if !cond(rows[0]) {
        assert tail[i - 1] == rows[i];
      }
    }
    if cond(rows[0]) && OneSatisfies(tail, cond) {
      var k :| 0 <= k < |tail| && cond(tail[k]);
      assert rows[k + 1] == tail[k];
    }
    if !cond(rows[0]) && TwoSatisfy(tail, cond) {
      var i, j :| 0 <= i < j < |tail| && cond(tail[i]) && cond(tail[j]);
      assert rows[i + 1] == tail[i] && rows[j + 1] == tail[j];
    }
  }

  /** `filter` keeps two or more rows exactly when two different rows satisfy the condition. */
  lemma {:induction false} FilterTwo<T(!new)>(rows: seq<T>, cond: T -> bool)
    ensures |Filter(rows, cond)| >= 2 <==> TwoSatisfy(rows, cond)
  {
    if rows != [] {
      FilterUnfold(rows, cond);
      TwoSatisfyStep(rows, cond);
      if cond(rows[0]) {
        FilterNonEmpty(rows[1..], cond);
      } else {
        FilterTwo(rows[1..], cond);
      }
    }
  }

  /** `get(cond)`: the single row satisfying `cond`, or which of the two errors applies. */
  function Get<T(!new)>(rows: seq<T>, cond: T -> bool): (r: GetResult<T>)
    ensures r.DoesNotExist? <==> forall x :: x in rows ==> !cond(x)
    ensures r.Found? ==> r.row in rows && cond(r.row)
    ensures r.Found? ==> forall x :: x in rows && cond(x) ==> x == r.row
    ensures r.MultipleObjectsReturned? <==> TwoSatisfy(rows, cond)
  {
    FilterTwo(rows, cond);
    var matches := Filter(rows, cond);
    if |matches| == 0 then DoesNotExist
    else if |matches| == 1 then assert matches[0] in matches; Found(matches[0])
    else MultipleObjectsReturned
  }

  /** Position of the first row satisfying `cond`. */
  function IndexWhere<T>(rows: seq<T>, cond: T -> bool): (r: nat)
    ensures r <= |rows|
    ensures r < |rows| ==> cond(rows[r])
    ensures forall j :: 0 <= j < r ==> !cond(rows[j])
  {
    if rows == [] then 0
    else if cond(rows[0]) then 0
    else 1 + IndexWhere(rows[1..], cond)
  }

  /** At most one row satisfies `cond` exactly when `filter(cond)` has at most one element. */
  lemma {:induction false} FilterAtMostOne<T(!new)>(rows: seq<T>, cond: T -> bool)
    requires forall i, j :: 0 <= i < j < |rows| && cond(rows[i]) ==> !cond(rows[j])
    ensures |Filter(rows, cond)| <= 1
  {
    if rows != [] {
      FilterAtMostOne(rows[1..], cond);
      if cond(rows[0]) {
        assert forall j :: 0 <= j < |rows| - 1 ==> !cond(rows[1..][j]);
      }
    }
  }

  /**
   * Writing `row` to a table: it replaces the first row `same` accepts (an
   * UPDATE of an existing primary key) or is appended (an INSERT).
   */
  function Upsert<T>(rows: seq<T>, row: T, same: T -> bool): (r: seq<T>)
    ensures |r| == |rows| || |r| == |rows| + 1
    ensures row in r
    ensures forall k :: 0 <= k < |rows| && !same(rows[k]) ==> rows[k] in r
    ensures forall k :: 0 <= k < |rows| ==> r[k] == rows[k] || (r[k] == row && same(rows[k]))
    ensures |r| == |rows| + 1 ==> r[|rows|] == row && forall k :: 0 <= k < |rows| ==> !same(rows[k])
    ensures (forall k :: 0 <= k < |rows| ==> !same(rows[k])) ==> r == rows + [row]
    ensures (exists k :: 0 <= k < |rows| && same(rows[k])) ==> |r| == |rows|
  {
    var i := IndexWhere(rows, same);
    if i < |rows| then
      var r := rows[i := row];
      assert r[i] == row;
      assert forall k :: 0 <= k < |rows| && k != i ==> r[k] == rows[k];
      r
    else rows + [row]
  }
}
