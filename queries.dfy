/** What the script relies on from its storage library: the queries and writes
    it issues against the two tables, stated on the rows as values. */
module Queries {
  import opened Records

  // ---------------------------------------------------------------------------
  // Filtering and pairwise properties of rows
  // ---------------------------------------------------------------------------

  /** The rows of `s` that `keep` selects, in their original order. */
  function Filter<T(==,!new)>(s: seq<T>, keep: T -> bool): (r: seq<T>)
    ensures forall x :: x in r <==> x in s && keep(x)
    ensures |r| <= |s|
  {
    if s == [] then []
    else (if keep(s[0]) then [s[0]] else []) + Filter(s[1..], keep)
  }

  /** Every two different positions of `s` hold rows that are `apart`. */
  ghost predicate Pairwise<T>(s: seq<T>, apart: (T, T) -> bool)
  {
    forall i, j :: 0 <= i < j < |s| ==> apart(s[i], s[j])
  }

  /** Removing rows never makes two remaining rows clash. */
  lemma {:induction false} FilterKeepsPairwise<T(!new)>(s: seq<T>, keep: T -> bool, apart: (T, T) -> bool)
    requires Pairwise(s, apart)
    ensures Pairwise(Filter(s, keep), apart)
  {
    if s != [] {
      var tail := s[1..];
      assert Pairwise(tail, apart) by {
        forall i, j | 0 <= i < j < |tail| ensures apart(tail[i], tail[j]) {
          assert apart(s[i + 1], s[j + 1]);
        }
      }
      FilterKeepsPairwise(tail, keep, apart);
      var rest := Filter(tail, keep);
      if keep(s[0]) {
        var r := [s[0]] + rest;
        forall j | 0 <= j < |rest| ensures apart(s[0], rest[j]) {
          assert rest[j] in tail;
          var k :| 0 <= k < |tail| && tail[k] == rest[j];
          assert apart(s[0], s[k + 1]);
        }
        forall i, j | 0 <= i < j < |r| ensures apart(r[i], r[j]) {
          if i == 0 {
            assert apart(s[0], rest[j - 1]);
          } else {
            assert apart(rest[i - 1], rest[j - 1]);
          }
        }
      }
    }
  }

  // ---------------------------------------------------------------------------
  // The adhkars table
  // ---------------------------------------------------------------------------

  /** Two goals that may coexist in the table: their primary keys differ. */
  predicate IdsDiffer(a: Adhkar, b: Adhkar)
  {
    a.id != b.id
  }

  /** `adhkars.find(a => a.id === id)`: a goal with that id, if there is one. */
  function FindAdhkar(s: seq<Adhkar>, id: nat): (r: Option<Adhkar>)
    ensures r.Some? ==> r.value in s && r.value.id == id
    ensures r.None? <==> forall g :: g in s ==> g.id != id
  {
    if s == [] then None
    else if s[0].id == id then Some(s[0])
    else FindAdhkar(s[1..], id)
  }

  /** With distinct primary keys, the lookup finds exactly the goal that has the key. */
  lemma FindAdhkarUnique(s: seq<Adhkar>, g: Adhkar)
    requires Pairwise(s, IdsDiffer)
    requires g in s
    ensures FindAdhkar(s, g.id) == Some(g)
  {
    var f := FindAdhkar(s, g.id).value;
    var i :| 0 <= i < |s| && s[i] == g;
    var j :| 0 <= j < |s| && s[j] == f;
    assert i < j ==> IdsDiffer(s[i], s[j]);
    assert j < i ==> IdsDiffer(s[j], s[i]);
  }

  /** The selection `delete(id)` leaves standing: every goal except the one keyed `id`. */
  function OtherThanAdhkar(id: nat): Adhkar -> bool
  {
    (g: Adhkar) => g.id != id
  }

  /** `adhkars.delete(id)`. */
  function DeleteAdhkar(goals: seq<Adhkar>, id: nat): (r: seq<Adhkar>)
    ensures forall g :: g in r <==> g in goals && g.id != id
  {
    Filter(goals, OtherThanAdhkar(id))
  }

  /** The index order of `orderBy('createdAt')`: by creation time, ties by primary key. */
  predicate CreatedNoLater(a: Adhkar, b: Adhkar)
  {
    a.createdAt < b.createdAt || (a.createdAt == b.createdAt && a.id <= b.id)
  }

  ghost predicate OrderedByCreation(s: seq<Adhkar>)
  {
    forall i, j :: 0 <= i < j < |s| ==> CreatedNoLater(s[i], s[j])
  }

  /** Places `g` into an ordered list of goals. */
  function InsertByCreation(g: Adhkar, s: seq<Adhkar>): (r: seq<Adhkar>)
    requires OrderedByCreation(s)
    ensures OrderedByCreation(r)
    ensures multiset(r) == multiset(s) + multiset{g}
    ensures |r| == |s| + 1 && (r[0] == g || (s != [] && r[0] == s[0]))
  {
    if s == [] || CreatedNoLater(g, s[0]) then
      [g] + s
    else
      var rest := InsertByCreation(g, s[1..]);
      assert s == [s[0]] + s[1..];
      assert CreatedNoLater(s[0], rest[0]);
      [s[0]] + rest
  }

  /** `adhkars.orderBy('createdAt').toArray()`: every goal of the table, each once,
      ordered by creation time. */
  function OrderByCreatedAt(s: seq<Adhkar>): (r: seq<Adhkar>)
    ensures OrderedByCreation(r)
    ensures multiset(r) == multiset(s)
  {
    if s == [] then []
    else
      assert s == [s[0]] + s[1..];
      InsertByCreation(s[0], OrderByCreatedAt(s[1..]))
  }

  /** With distinct primary keys, ordering the goals does not change what a key finds. */
  lemma FindInOrdered(s: seq<Adhkar>, id: nat)
    requires Pairwise(s, IdsDiffer)
    ensures FindAdhkar(OrderByCreatedAt(s), id) == FindAdhkar(s, id)
  {
    var o := OrderByCreatedAt(s);
    match FindAdhkar(o, id)
    case Some(g) =>
      assert g in multiset(o);
      FindAdhkarUnique(s, g);
    case None =>
      forall g | g in s ensures g.id != id {
        assert g in multiset(s);
        assert g in o;
      }
  }

  // ---------------------------------------------------------------------------
  // The counts table
  // ---------------------------------------------------------------------------

  /** Two count rows that may coexist: distinct primary keys, and not the same goal on the same day. */
  predicate RowsApart(a: CountRow, b: CountRow)
  {
    a.id != b.id && (a.adhkarId != b.adhkarId || a.date != b.date)
  }

  /** When no two rows clash, a row is determined by its primary key and also by its (goal, day) pair. */
  lemma RowsDetermined(rows: seq<CountRow>, x: CountRow, y: CountRow)
    requires Pairwise(rows, RowsApart)
    requires x in rows && y in rows
    requires x.id == y.id || (x.adhkarId == y.adhkarId && x.date == y.date)
    ensures x == y
  {
    var i :| 0 <= i < |rows| && rows[i] == x;
    var j :| 0 <= j < |rows| && rows[j] == y;
    assert i < j ==> RowsApart(rows[i], rows[j]);
    assert j < i ==> RowsApart(rows[j], rows[i]);
  }

  /** The selection `where('date').equals(day)` makes. */
  function DatedOn(day: string): CountRow -> bool
  {
    (r: CountRow) => r.date == day
  }

  /** `counts.where('date').equals(day).toArray()`. */
  function RowsOn(rows: seq<CountRow>, day: string): (r: seq<CountRow>)
    ensures forall x :: x in r <==> x in rows && x.date == day
  {
    Filter(rows, DatedOn(day))
  }

  /** The rows of one day never clash when the table's rows do not. */
  lemma RowsOnKeepApart(rows: seq<CountRow>, day: string)
    requires Pairwise(rows, RowsApart)
    ensures Pairwise(RowsOn(rows, day), RowsApart)
  {
    FilterKeepsPairwise(rows, DatedOn(day), RowsApart);
  }

  /** `counts.where('adhkarId').equals(adhkarId).and(c => c.date === day).first()`. */
  function FindRow(rows: seq<CountRow>, adhkarId: nat, day: string): (r: Option<CountRow>)
    ensures r.Some? ==> r.value in rows && r.value.adhkarId == adhkarId && r.value.date == day
    ensures r.None? <==> forall x :: x in rows ==> x.adhkarId != adhkarId || x.date != day
  {
    if rows == [] then None
    else if rows[0].adhkarId == adhkarId && rows[0].date == day then Some(rows[0])
    else FindRow(rows[1..], adhkarId, day)
  }

  /** The count the table holds for goal `adhkarId` on `day`; 0 when it holds no row. */
  function StoredCount(rows: seq<CountRow>, adhkarId: nat, day: string): int
  {
    match FindRow(rows, adhkarId, day)
    case Some(r) => r.count
    case None => 0
  }

  /** `counts.update(rowId, { count: c })`: the row keyed `rowId` gets count `c`. */
  function SetCountById(rows: seq<CountRow>, rowId: nat, c: int): seq<CountRow>
  {
    seq(|rows|, k requires 0 <= k < |rows| =>
      if rows[k].id == rowId then rows[k].(count := c) else rows[k])
  }

  /** Updating the row `x` by its key changes that row's count and nothing else,
      and leaves no two rows clashing. */
  lemma {:induction false} UpdateInPlace(rows: seq<CountRow>, x: CountRow, c: int)
    requires Pairwise(rows, RowsApart)
    requires x in rows
    ensures var r := SetCountById(rows, x.id, c);
      && |r| == |rows|
      && Pairwise(r, RowsApart)
      && (forall y :: y in r <==> y == x.(count := c) || (y in rows && y != x))
      && StoredCount(r, x.adhkarId, x.date) == c
  {
    var r := SetCountById(rows, x.id, c);
    forall k | 0 <= k < |rows| ensures rows[k].id == x.id <==> rows[k] == x {
      if rows[k].id == x.id {
        RowsDetermined(rows, rows[k], x);
      }
    }
    forall i, j | 0 <= i < j < |r| ensures RowsApart(r[i], r[j]) {
      assert RowsApart(rows[i], rows[j]);
    }
    forall y ensures y in r <==> y == x.(count := c) || (y in rows && y != x) {
      if y in r {
        var k :| 0 <= k < |r| && r[k] == y;
      }
      if y == x.(count := c) {
        var k :| 0 <= k < |rows| && rows[k] == x;
        assert r[k] == y;
      } else if y in rows && y != x {
        var k :| 0 <= k < |rows| && rows[k] == y;
        assert r[k] == y;
      }
    }
    forall y | y in rows && y.adhkarId == x.adhkarId && y.date == x.date ensures y == x {
      RowsDetermined(rows, y, x);
    }
    assert x.(count := c) in r;
  }

  /** `counts.add(...)` of a row for a (goal, day) pair the table has no row for:
      the new row receives the table's next key and clashes with no existing row. */
  lemma InsertFresh(t: Table<CountRow>, adhkarId: nat, day: string, c: int)
    requires Pairwise(t.rows, RowsApart)
    requires forall x :: x in t.rows ==> x.id < t.nextId
    requires FindRow(t.rows, adhkarId, day).None?
    ensures var r := t.rows + [CountRow(t.nextId, adhkarId, day, c)];
      && Pairwise(r, RowsApart)
      && StoredCount(r, adhkarId, day) == c
  {
    var n := CountRow(t.nextId, adhkarId, day, c);
    var r := t.rows + [n];
    forall i, j | 0 <= i < j < |r| ensures RowsApart(r[i], r[j]) {
      if j < |t.rows| {
        assert RowsApart(t.rows[i], t.rows[j]);
      } else {
        assert r[i] in t.rows;
      }
    }
    assert n in r;
    assert forall x :: x in r && x.adhkarId == adhkarId && x.date == day ==> x == n;
  }

  /** The selection `where('adhkarId').equals(id).delete()` leaves standing. */
  function OfOtherAdhkar(id: nat): CountRow -> bool
  {
    (r: CountRow) => r.adhkarId != id
  }

  /** `counts.where('adhkarId').equals(id).delete()`. */
  function DeleteCountsOf(rows: seq<CountRow>, id: nat): (r: seq<CountRow>)
    ensures forall x :: x in r <==> x in rows && x.adhkarId != id
  {
    Filter(rows, OfOtherAdhkar(id))
  }

  /** The cascade never makes two remaining rows clash. */
  lemma DeleteCountsKeepApart(rows: seq<CountRow>, id: nat)
    requires Pairwise(rows, RowsApart)
    ensures Pairwise(DeleteCountsOf(rows, id), RowsApart)
  {
    FilterKeepsPairwise(rows, OfOtherAdhkar(id), RowsApart);
  }

  /** Deleting a goal leaves no two remaining goals with the same key. */
  lemma DeleteAdhkarKeepsIdsDistinct(goals: seq<Adhkar>, id: nat)
    requires Pairwise(goals, IdsDiffer)
    ensures Pairwise(DeleteAdhkar(goals, id), IdsDiffer)
  {
    FilterKeepsPairwise(goals, OtherThanAdhkar(id), IdsDiffer);
  }
}
