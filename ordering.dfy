/** The two index operations the loaders apply after set_index: sort_index
    (sort the rows by date) and `~index.duplicated(keep="first")` (drop every
    row whose date already occurred higher up). */
module Ordering {
  import opened Dates
  import opened Tables

  predicate SortedByDate(rows: seq<Row>) {
    NonDecreasing(DatesOf(rows))
  }

  function Insert(x: Row, rows: seq<Row>): (r: seq<Row>)
    ensures multiset(r) == multiset(rows) + multiset{x}
    decreases |rows|
  {
    assert rows != [] ==> rows == [rows[0]] + rows[1..];
    if rows == [] || !Before(rows[0].date, x.date) then [x] + rows
    else [rows[0]] + Insert(x, rows[1..])
  }

  /** sort_index, as an insertion sort on the date. */
  function SortByDate(rows: seq<Row>): (r: seq<Row>)
    ensures multiset(r) == multiset(rows)
    decreases |rows|
  {
    if rows == [] then []
    else
      assert rows == [rows[0]] + rows[1..];
      Insert(rows[0], SortByDate(rows[1..]))
  }

  /** A row that precedes every row of a sorted sequence can be put in front. */
  lemma ConsSorted(a: Row, rows: seq<Row>)
    requires SortedByDate(rows)
    requires forall k :: 0 <= k < |rows| ==> NotAfter(a.date, rows[k].date)
    ensures SortedByDate([a] + rows)
  {
    var r := [a] + rows;
    forall i, j | 0 <= i < j < |r| ensures NotAfter(r[i].date, r[j].date) {
      if i > 0 {
        assert NotAfter(rows[i - 1].date, rows[j - 1].date);
      }
    }
  }

  lemma TailSorted(rows: seq<Row>)
    requires rows != [] && SortedByDate(rows)
    ensures SortedByDate(rows[1..])
    ensures forall k :: 0 <= k < |rows| - 1 ==> NotAfter(rows[0].date, rows[1..][k].date)
  {
    var tail := rows[1..];
    forall i, j | 0 <= i < j < |tail| ensures NotAfter(tail[i].date, tail[j].date) {
      assert NotAfter(rows[i + 1].date, rows[j + 1].date);
    }
    forall k | 0 <= k < |tail| ensures NotAfter(rows[0].date, tail[k].date) {
      assert NotAfter(rows[0].date, rows[k + 1].date);
    }
  }

  lemma {:induction false} InsertSorted(x: Row, rows: seq<Row>)
    requires SortedByDate(rows)
    ensures SortedByDate(Insert(x, rows))
    decreases |rows|
  {
    if rows == [] {
    } else if !Before(rows[0].date, x.date) {
      TailSorted(rows);
      forall k | 0 <= k < |rows| ensures NotAfter(x.date, rows[k].date) {
        if k > 0 {
          assert NotAfter(rows[0].date, rows[k].date);
          BeforeIsStrictTotalOrder(x.date, rows[0].date, rows[k].date);
        } else {
          BeforeIsStrictTotalOrder(x.date, rows[0].date, rows[0].date);
        }
      }
      ConsSorted(x, rows);
    } else {
      var tail := rows[1..];
      TailSorted(rows);
      InsertSorted(x, tail);
      var ins := Insert(x, tail);
      forall k | 0 <= k < |ins| ensures NotAfter(rows[0].date, ins[k].date) {
        var y := ins[k];
        assert y in multiset(ins);
        if y != x {
          assert y in multiset(tail);
          var m :| 0 <= m < |tail| && tail[m] == y;
        }
      }
      ConsSorted(rows[0], ins);
    }
  }

  /** sort_index puts the rows in date order. */
  lemma {:induction false} SortByDateSorted(rows: seq<Row>)
    ensures SortedByDate(SortByDate(rows))
    decreases |rows|
  {
    if rows != [] {
      SortByDateSorted(rows[1..]);
      InsertSorted(rows[0], SortByDate(rows[1..]));
    }
  }

  /** Sorting keeps exactly the rows it was given. */
  lemma SortedRowsAreInput(rows: seq<Row>)
    ensures forall x :: x in SortByDate(rows) <==> x in rows
  {
    forall x ensures x in SortByDate(rows) <==> x in rows {
      assert x in SortByDate(rows) <==> x in multiset(SortByDate(rows));
    }
  }

  /** Sorting keeps exactly the set of dates. */
  lemma SortByDateKeepsDates(rows: seq<Row>)
    ensures forall d :: d in DatesOf(SortByDate(rows)) <==> d in DatesOf(rows)
  {
    SortedRowsAreInput(rows);
    SameRowsSameDates(SortByDate(rows), rows);
  }

  /** Two sequences with the same rows have the same dates. */
  lemma {:induction false} SameRowsSameDates(a: seq<Row>, b: seq<Row>)
    requires forall x :: x in a <==> x in b
    ensures forall d :: d in DatesOf(a) <==> d in DatesOf(b)
  {
    forall d | d in DatesOf(a) ensures d in DatesOf(b) {
      var m :| 0 <= m < |a| && DatesOf(a)[m] == d;
      assert a[m] in a;
      var i :| 0 <= i < |b| && b[i] == a[m];
      assert DatesOf(b)[i] == d;
    }
    forall d | d in DatesOf(b) ensures d in DatesOf(a) {
      var i :| 0 <= i < |b| && DatesOf(b)[i] == d;
      assert b[i] in b;
      var m :| 0 <= m < |a| && a[m] == b[i];
      assert DatesOf(a)[m] == d;
    }
  }

  /** The rows that survive `~index.duplicated(keep="first")`: a row is kept
      exactly when no earlier row carries its date. */
  function KeepFirst(rows: seq<Row>): (r: seq<Row>)
    ensures forall x :: x in r ==> x in rows
    decreases |rows|
  {
    if rows == [] then []
    else
      var kept := KeepFirst(rows[..|rows| - 1]);
      var x := rows[|rows| - 1];
      if x.date in DatesOf(kept) then kept else kept + [x]
  }

  /** Row `j` is the first of the rows with its date. */
  predicate IsFirstOfDate(rows: seq<Row>, j: int) {
    0 <= j < |rows| && forall i :: 0 <= i < j ==> rows[i].date != rows[j].date
  }

  /** Dropping duplicates loses no date. */
  lemma {:induction false} KeepFirstKeepsDates(rows: seq<Row>)
    ensures forall d :: d in DatesOf(KeepFirst(rows)) <==> d in DatesOf(rows)
    decreases |rows|
  {
    if rows != [] {
      var init := rows[..|rows| - 1];
      KeepFirstKeepsDates(init);
      assert rows == init + [rows[|rows| - 1]];
      var kept, x := KeepFirst(init), rows[|rows| - 1];
      forall d | d in DatesOf(rows) ensures d in DatesOf(KeepFirst(rows)) {
        var m :| 0 <= m < |rows| && rows[m].date == d;
        assert KeepFirst(rows) == if x.date in DatesOf(kept) then kept else kept + [x];
        if m < |rows| - 1 {
          assert init[m].date == d;
          assert d in DatesOf(init);
          var q :| 0 <= q < |kept| && kept[q].date == d;
          assert KeepFirst(rows)[q] == kept[q];
        } else if x.date !in DatesOf(kept) {
          assert DatesOf(kept + [x])[|kept|] == d;
        }
      }
      forall d | d in DatesOf(KeepFirst(rows)) ensures d in DatesOf(rows) {
        var out := KeepFirst(rows);
        var m :| 0 <= m < |out| && out[m].date == d;
        assert out[m] in rows;
      }
    }
  }

  /** After dropping duplicates every date occurs once. */
  lemma {:induction false} KeepFirstDistinct(rows: seq<Row>)
    ensures Distinct(DatesOf(KeepFirst(rows)))
    decreases |rows|
  {
    if rows != [] {
      KeepFirstDistinct(rows[..|rows| - 1]);
    }
  }

  /** The first row of each date is the one that survives. */
  lemma KeepFirstKeepsFirst(rows: seq<Row>)
    ensures forall j :: IsFirstOfDate(rows, j) ==> rows[j] in KeepFirst(rows)
  {
    forall j | IsFirstOfDate(rows, j) ensures rows[j] in KeepFirst(rows) {
      FirstOfDateSurvives(rows, j);
    }
  }

  lemma {:induction false} FirstOfDateSurvives(rows: seq<Row>, j: int)
    requires IsFirstOfDate(rows, j)
    ensures rows[j] in KeepFirst(rows)
    decreases |rows|
  {
    var last := |rows| - 1;
    var init := rows[..last];
    var kept, x := KeepFirst(init), rows[last];
    assert KeepFirst(rows) == if x.date in DatesOf(kept) then kept else kept + [x];
    if j < last {
      assert IsFirstOfDate(init, j);
      FirstOfDateSurvives(init, j);
      assert init[j] == rows[j];
    } else {
      forall m | 0 <= m < |init| ensures init[m].date != x.date {
        assert rows[m].date != rows[last].date;
      }
      assert x.date !in DatesOf(init);
      KeepFirstKeepsDates(init);
      assert KeepFirst(rows) == kept + [x];
    }
  }

  /** The row kept for a date is that date's first row. */
  lemma KeptRowIsFirst(rows: seq<Row>, i: int, j: int)
    requires IsFirstOfDate(rows, j)
    requires 0 <= i < |KeepFirst(rows)| && KeepFirst(rows)[i].date == rows[j].date
    ensures KeepFirst(rows)[i] == rows[j]
  {
    var out := KeepFirst(rows);
    KeepFirstKeepsFirst(rows);
    KeepFirstDistinct(rows);
    var m :| 0 <= m < |out| && out[m] == rows[j];
    assert DatesOf(out)[m] == DatesOf(out)[i];
  }

  /** On sorted rows, dropping duplicates leaves strictly increasing dates. */
  lemma {:induction false} KeepFirstIncreasing(rows: seq<Row>)
    requires SortedByDate(rows)
    ensures StrictlyIncreasing(DatesOf(KeepFirst(rows)))
    decreases |rows|
  {
    if rows != [] {
      var init := rows[..|rows| - 1];
      var x := rows[|rows| - 1];
      assert SortedByDate(init) by {
        forall i, j | 0 <= i < j < |init| ensures NotAfter(init[i].date, init[j].date) {
          assert NotAfter(rows[i].date, rows[j].date);
        }
      }
      KeepFirstIncreasing(init);
      KeepFirstKeepsDates(init);
      var kept := KeepFirst(init);
      if x.date !in DatesOf(kept) {
        var out := kept + [x];
        forall i, j | 0 <= i < j < |out| ensures Before(out[i].date, out[j].date) {
          if j == |kept| {
            assert out[i].date in DatesOf(init);
            var m :| 0 <= m < |init| && init[m].date == out[i].date;
            assert NotAfter(rows[m].date, x.date);
          } else {
            assert Before(DatesOf(kept)[i], DatesOf(kept)[j]);
          }
        }
      }
    }
  }

  /** The duplicate filter: one pass that remembers the dates already seen. */
  method DropDuplicateDates(rows: seq<Row>) returns (kept: seq<Row>)
    ensures kept == KeepFirst(rows)
  {
    kept := [];
    var seen: set<Date> := {};
    for i := 0 to |rows|
      invariant kept == KeepFirst(rows[..i])
      invariant forall d :: d in seen <==> d in DatesOf(kept)
    {
      assert rows[..i + 1][..i] == rows[..i];
      if rows[i].date !in seen {
        assert DatesOf(kept + [rows[i]]) == DatesOf(kept) + [rows[i].date];
        kept := kept + [rows[i]];
        seen := seen + {rows[i].date};
      }
    }
    assert rows[..|rows|] == rows;
  }
}
