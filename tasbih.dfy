/** The counter bookkeeping of the tasbih app: the two stored tables, the two
    in-memory caches rebuilt from them, and the operations behind the "add",
    "count (+1)" and "delete" buttons and the midnight reset. Line numbers in the
    comments below refer to script.js. */
module Tasbih {
  import opened Records
  import opened Queries
  import opened Counter

  /** What a press of a card's counter button leads to. */
  datatype IncrementOutcome =
    | NotLoaded                                // the id is not in the loaded list: nothing happens
    | AlreadyComplete                          // "Daily target already completed!"
    | Counted(newCount: int, completed: bool)  // counted; `completed` raises "Target completed"

  // ---------------------------------------------------------------------------
  // Invariants of the stored data and of the caches
  // ---------------------------------------------------------------------------

  /** Goals as the add form admits them, with distinct keys below the next key. */
  ghost predicate GoalsWellFormed(t: Table<Adhkar>)
  {
    && Pairwise(t.rows, IdsDiffer)
    && forall g :: g in t.rows ==> g.id < t.nextId && g.name != "" && g.dailyLimit >= 1
  }

  /** `c` is a count that goal `adhkarId` can have reached on a day it was counted:
      the goal exists and `c` lies between 1 and its daily limit. */
  predicate CountFits(goals: seq<Adhkar>, adhkarId: nat, c: int)
  {
    match FindAdhkar(goals, adhkarId)
    case Some(g) => 1 <= c <= g.dailyLimit
    case None => false
  }

  /** At most one row per (goal, day), distinct keys below the next key, and every
      row belongs to an existing goal and stays within its daily limit. */
  ghost predicate CountsWellFormed(t: Table<CountRow>, goals: seq<Adhkar>)
  {
    && Pairwise(t.rows, RowsApart)
    && forall r :: r in t.rows ==> r.id < t.nextId && CountFits(goals, r.adhkarId, r.count)
  }

  /** Every cached count belongs to an existing goal and stays within its daily limit. */
  ghost predicate CacheFits(todaysCounts: map<nat, int>, goals: seq<Adhkar>)
  {
    forall id :: id in todaysCounts ==> CountFits(goals, id, todaysCounts[id])
  }

  /** What a tap on a goal's card leads to (lines 176-185 and 221-223): nothing for
      an id that is not in the loaded list, a refusal at the daily cap, and otherwise
      the cached count plus one, flagged complete once it reaches the limit. */
  function TapOutcome(goals: seq<Adhkar>, todaysCounts: map<nat, int>, adhkarId: nat): (r: IncrementOutcome)
    ensures r.NotLoaded? <==> FindAdhkar(goals, adhkarId).None?
    ensures r.AlreadyComplete? <==>
      FindAdhkar(goals, adhkarId).Some? && AtCap(CachedCount(todaysCounts, adhkarId), FindAdhkar(goals, adhkarId).value.dailyLimit)
    ensures r.Counted? ==> r.newCount == CachedCount(todaysCounts, adhkarId) + 1
  {
    match FindAdhkar(goals, adhkarId)
    case None => NotLoaded
    case Some(g) =>
      var current := CachedCount(todaysCounts, adhkarId);
      if AtCap(current, g.dailyLimit) then AlreadyComplete
      else Counted(current + 1, current + 1 >= g.dailyLimit)
  }

  /** With the cache within its bounds a counted tap never passes the daily limit,
      it is flagged complete exactly when it lands on the limit, and "Remaining"
      drops by one. */
  lemma CountedWithinLimit(goals: seq<Adhkar>, todaysCounts: map<nat, int>, adhkarId: nat)
    requires CacheFits(todaysCounts, goals)
    requires TapOutcome(goals, todaysCounts, adhkarId).Counted?
    ensures var g, r := FindAdhkar(goals, adhkarId).value, TapOutcome(goals, todaysCounts, adhkarId);
      && 1 <= r.newCount <= g.dailyLimit
      && (r.completed <==> r.newCount == g.dailyLimit)
      && Remaining(g.dailyLimit, r.newCount) == Remaining(g.dailyLimit, r.newCount - 1) - 1
  {
    var g := FindAdhkar(goals, adhkarId).value;
    var current := CachedCount(todaysCounts, adhkarId);
    if adhkarId in todaysCounts {
      assert CountFits(goals, adhkarId, todaysCounts[adhkarId]);
    }
    RemainingCountsDown(g.dailyLimit, current);
  }

  /** The map holds exactly the table's rows dated `day`, each under its goal's key. */
  ghost predicate Mirrors(todaysCounts: map<nat, int>, rows: seq<CountRow>, day: string)
  {
    && (forall id :: id in todaysCounts ==> exists r :: r in rows && r.date == day && r.adhkarId == id)
    && (forall r :: r in rows && r.date == day ==>
          r.adhkarId in todaysCounts && todaysCounts[r.adhkarId] == r.count)
  }

  /** A mirroring map reports, for every goal, the count the table holds for that day. */
  lemma MirrorsAgree(todaysCounts: map<nat, int>, rows: seq<CountRow>, day: string, id: nat)
    requires Pairwise(rows, RowsApart)
    requires Mirrors(todaysCounts, rows, day)
    ensures CachedCount(todaysCounts, id) == StoredCount(rows, id, day)
  {
    if id in todaysCounts {
      var r :| r in rows && r.date == day && r.adhkarId == id;
      RowsDetermined(rows, r, FindRow(rows, id, day).value);
    }
  }

  /** The emptied map of the midnight reset mirrors the table for a day key exactly
      when the table holds no row of that day. */
  lemma ClearedMapMirrors(rows: seq<CountRow>, day: string)
    ensures Mirrors(map[], rows, day) <==> forall r :: r in rows ==> r.date != day
  {
  }

  /** The map `counts.forEach(...)` builds: later rows overwrite earlier ones. */
  function MapOf(rows: seq<CountRow>): map<nat, int>
  {
    if rows == [] then map[]
    else
      var last := rows[|rows| - 1];
      MapOf(rows[..|rows| - 1])[last.adhkarId := last.count]
  }

  /** One step of `forEach`: the map of one more row is the previous map overwritten by that row. */
  lemma MapOfStep(rows: seq<CountRow>, i: nat)
    requires i < |rows|
    ensures MapOf(rows[..i + 1]) == MapOf(rows[..i])[rows[i].adhkarId := rows[i].count]
  {
    assert rows[..i + 1][..i] == rows[..i];
  }

  /** A row of `day` that clashes with none of the earlier rows, written over a
      map that mirrors them, gives a map that mirrors all of them. */
  lemma MirrorsExtend(todaysCounts: map<nat, int>, init: seq<CountRow>, last: CountRow, day: string)
    requires Mirrors(todaysCounts, init, day)
    requires last.date == day
    requires forall k :: 0 <= k < |init| ==> RowsApart(init[k], last)
    ensures Mirrors(todaysCounts[last.adhkarId := last.count], init + [last], day)
  {
    var rows, m := init + [last], todaysCounts[last.adhkarId := last.count];
    forall id | id in m ensures exists r :: r in rows && r.date == day && r.adhkarId == id {
      if id != last.adhkarId {
        var r :| r in init && r.date == day && r.adhkarId == id;
        assert r in rows;
      } else {
        assert last in rows;
      }
    }
    forall r | r in rows && r.date == day ensures r.adhkarId in m && m[r.adhkarId] == r.count {
      if r != last {
        var k :| 0 <= k < |init| && init[k] == r;
        assert RowsApart(init[k], last);
      }
    }
  }

  /** When no two rows of one day clash, the map built from them mirrors them. */
  lemma {:induction false} MapOfMirrors(rows: seq<CountRow>, day: string)
    requires Pairwise(rows, RowsApart)
    requires forall r :: r in rows ==> r.date == day
    ensures Mirrors(MapOf(rows), rows, day)
  {
    if rows != [] {
      var init, last := rows[..|rows| - 1], rows[|rows| - 1];
      assert rows == init + [last];
      assert Pairwise(init, RowsApart) by {
        forall i, j | 0 <= i < j < |init| ensures RowsApart(init[i], init[j]) {
          assert RowsApart(rows[i], rows[j]);
        }
      }
      forall k | 0 <= k < |init| ensures RowsApart(init[k], last) {
        assert RowsApart(rows[k], rows[|rows| - 1]);
      }
      MapOfMirrors(init, day);
      MirrorsExtend(MapOf(init), init, last, day);
    }
  }

  /** `loadTodaysCounts` mirrors the table for the day it loads. */
  lemma TodayMapMirrors(rows: seq<CountRow>, day: string)
    requires Pairwise(rows, RowsApart)
    ensures Mirrors(MapOf(RowsOn(rows, day)), rows, day)
  {
    RowsOnKeepApart(rows, day);
    MapOfMirrors(RowsOn(rows, day), day);
  }

  /** A count row's goal is still the same goal in a new goal list that keeps it. */
  lemma CountFitsTransfer(goals: seq<Adhkar>, goals': seq<Adhkar>, id: nat, c: int)
    requires CountFits(goals, id, c)
    requires Pairwise(goals', IdsDiffer)
    requires FindAdhkar(goals, id).value in goals'
    ensures CountFits(goals', id, c)
  {
    FindAdhkarUnique(goals', FindAdhkar(goals, id).value);
  }

  /** A map that mirrors rows within their limits is itself within the limits. */
  lemma MirroredCacheFits(todaysCounts: map<nat, int>, rows: seq<CountRow>, day: string, goals: seq<Adhkar>)
    requires Mirrors(todaysCounts, rows, day)
    requires forall r :: r in rows ==> CountFits(goals, r.adhkarId, r.count)
    ensures CacheFits(todaysCounts, goals)
  {
    forall id | id in todaysCounts ensures CountFits(goals, id, todaysCounts[id]) {
      var r :| r in rows && r.date == day && r.adhkarId == id;
    }
  }

  /** The effect on the counts table of writing count `c` for (adhkarId, day): the
      row holding that pair is overwritten in place, or, when there is none, a row
      with the table's next key is appended. */
  predicate Upserted(before: Table<CountRow>, after: Table<CountRow>, adhkarId: nat, day: string, c: int)
  {
    match FindRow(before.rows, adhkarId, day)
    case Some(x) => after == Table(SetCountById(before.rows, x.id, c), before.nextId)
    case None => after == Table(before.rows + [CountRow(before.nextId, adhkarId, day, c)], before.nextId + 1)
  }

  /** Every row that is not the one of (adhkarId, day) is in `after` exactly when it is in `before`. */
  ghost predicate OthersUnchanged(before: seq<CountRow>, after: seq<CountRow>, adhkarId: nat, day: string)
  {
    forall r: CountRow :: r.adhkarId != adhkarId || r.date != day ==> (r in after <==> r in before)
  }

  /** Lines 197-198 keep the map mirroring the table: the found row is updated in place. */
  lemma MirrorAfterUpdate(todaysCounts: map<nat, int>, rows: seq<CountRow>, day: string, x: CountRow, c: int)
    requires Pairwise(rows, RowsApart)
    requires Mirrors(todaysCounts, rows, day)
    requires x in rows && x.date == day
    ensures Mirrors(todaysCounts[x.adhkarId := c], SetCountById(rows, x.id, c), day)
  {
    UpdateInPlace(rows, x, c);
    var rows', m' := SetCountById(rows, x.id, c), todaysCounts[x.adhkarId := c];
    forall id | id in m' ensures exists r :: r in rows' && r.date == day && r.adhkarId == id {
      if id == x.adhkarId {
        assert x.(count := c) in rows';
      } else {
        var r :| r in rows && r.date == day && r.adhkarId == id;
        assert r in rows';
      }
    }
    forall r | r in rows && r.date == day && r.adhkarId == x.adhkarId ensures r == x {
      RowsDetermined(rows, r, x);
    }
  }

  /** Lines 199-204 keep the map mirroring the table: a row is added only for a
      goal that had none that day. */
  lemma MirrorAfterInsert(todaysCounts: map<nat, int>, t: Table<CountRow>, day: string, adhkarId: nat, c: int)
    requires Mirrors(todaysCounts, t.rows, day)
    requires FindRow(t.rows, adhkarId, day).None?
    ensures Mirrors(todaysCounts[adhkarId := c], t.rows + [CountRow(t.nextId, adhkarId, day, c)], day)
  {
    var n := CountRow(t.nextId, adhkarId, day, c);
    var rows', m' := t.rows + [n], todaysCounts[adhkarId := c];
    forall id | id in m'
      ensures exists r :: r in rows' && r.date == day && r.adhkarId == id
    {
      if id == adhkarId {
        assert n in rows';
      } else {
        var r :| r in t.rows && r.date == day && r.adhkarId == id;
        assert r in rows';
      }
    }
  }

  // ---------------------------------------------------------------------------
  // Each write keeps the stored data well formed
  // ---------------------------------------------------------------------------

  /** Line 161: a goal stored under the table's next key keeps the goals well formed,
      and every count row and cached count keeps its goal. */
  lemma AddKeepsWellFormed(goals: Table<Adhkar>, counts: Table<CountRow>, todaysCounts: map<nat, int>, g: Adhkar)
    requires GoalsWellFormed(goals) && CountsWellFormed(counts, goals.rows) && CacheFits(todaysCounts, goals.rows)
    requires g.id == goals.nextId && g.name != "" && g.dailyLimit >= 1
    ensures var goals' := Table(goals.rows + [g], goals.nextId + 1);
      && GoalsWellFormed(goals')
      && CountsWellFormed(counts, goals'.rows)
      && CacheFits(todaysCounts, goals'.rows)
  {
    var rows := goals.rows;
    var rows' := rows + [g];
    forall i, j | 0 <= i < j < |rows'| ensures IdsDiffer(rows'[i], rows'[j]) {
      if j < |rows| {
        assert IdsDiffer(rows[i], rows[j]);
      } else {
        assert rows'[i] in rows;
      }
    }
    forall r | r in counts.rows ensures CountFits(rows', r.adhkarId, r.count) {
      CountFitsTransfer(rows, rows', r.adhkarId, r.count);
    }
    forall id | id in todaysCounts ensures CountFits(rows', id, todaysCounts[id]) {
      CountFitsTransfer(rows, rows', id, todaysCounts[id]);
    }
  }

  /** A goal of the loaded list admits one more repetition while it is below its cap. */
  lemma NextCountFits(goals: seq<Adhkar>, todaysCounts: map<nat, int>, g: Adhkar)
    requires Pairwise(goals, IdsDiffer) && CacheFits(todaysCounts, goals)
    requires g in OrderByCreatedAt(goals)
    requires !AtCap(CachedCount(todaysCounts, g.id), g.dailyLimit)
    ensures FindAdhkar(goals, g.id) == Some(g)
    ensures CountFits(goals, g.id, CachedCount(todaysCounts, g.id) + 1)
    ensures CacheFits(todaysCounts[g.id := CachedCount(todaysCounts, g.id) + 1], goals)
  {
    assert g in multiset(OrderByCreatedAt(goals));
    FindAdhkarUnique(goals, g);
  }

  /** Lines 190-208: whichever branch the write takes, the count rows stay well
      formed, the pair (adhkarId, day) now stores `c`, every other row is left as
      it was, and a map that mirrored the table still does once its entry for the
      goal is set to `c`. */
  lemma UpsertKeepsWellFormed(t: Table<CountRow>, t': Table<CountRow>, goals: seq<Adhkar>,
                              todaysCounts: map<nat, int>, adhkarId: nat, day: string, c: int)
    requires CountsWellFormed(t, goals) && CountFits(goals, adhkarId, c)
    requires Upserted(t, t', adhkarId, day, c)
    ensures CountsWellFormed(t', goals)
    ensures StoredCount(t'.rows, adhkarId, day) == c
    ensures OthersUnchanged(t.rows, t'.rows, adhkarId, day)
    ensures Mirrors(todaysCounts, t.rows, day) ==> Mirrors(todaysCounts[adhkarId := c], t'.rows, day)
  {
    match FindRow(t.rows, adhkarId, day)
    case Some(x) =>
      UpdateInPlace(t.rows, x, c);
      if Mirrors(todaysCounts, t.rows, day) {
        MirrorAfterUpdate(todaysCounts, t.rows, day, x, c);
      }
    case None =>
      InsertFresh(t, adhkarId, day, c);
      if Mirrors(todaysCounts, t.rows, day) {
        MirrorAfterInsert(todaysCounts, t, day, adhkarId, c);
      }
  }

  /** Lines 242-245: the cascade keeps both tables well formed. */
  lemma DeleteKeepsWellFormed(goals: Table<Adhkar>, counts: Table<CountRow>, id: nat)
    requires GoalsWellFormed(goals) && CountsWellFormed(counts, goals.rows)
    ensures var goals', counts' := DeleteAdhkar(goals.rows, id), DeleteCountsOf(counts.rows, id);
      && GoalsWellFormed(Table(goals', goals.nextId))
      && CountsWellFormed(Table(counts', counts.nextId), goals')
  {
    var goals', counts' := DeleteAdhkar(goals.rows, id), DeleteCountsOf(counts.rows, id);
    DeleteAdhkarKeepsIdsDistinct(goals.rows, id);
    DeleteCountsKeepApart(counts.rows, id);
    forall r | r in counts' ensures CountFits(goals', r.adhkarId, r.count) {
      CountFitsTransfer(goals.rows, goals', r.adhkarId, r.count);
    }
  }

  /** Lines 242-251: once the cascade has run and both caches are reloaded, the
      deleted goal is neither in the goal list nor a key of today's map. */
  lemma DeletedGoalForgotten(goals: seq<Adhkar>, rows: seq<CountRow>, todaysCounts: map<nat, int>, day: string, id: nat)
    requires Mirrors(todaysCounts, DeleteCountsOf(rows, id), day)
    ensures FindAdhkar(OrderByCreatedAt(DeleteAdhkar(goals, id)), id).None?
    ensures id !in todaysCounts
  {
    var goals' := DeleteAdhkar(goals, id);
    forall g | g in OrderByCreatedAt(goals') ensures g.id != id {
      assert g in multiset(OrderByCreatedAt(goals'));
      assert g in goals';
    }
  }

  // ---------------------------------------------------------------------------
  // The module-level state of the script
  // ---------------------------------------------------------------------------

  class App {
    /** The `adhkars` table of the database. */
    var adhkarTable: Table<Adhkar>
    /** The `counts` table of the database. */
    var countTable: Table<CountRow>
    /** The loaded goal list, `adhkars`. */
    var adhkars: seq<Adhkar>
    /** The loaded counts of today, `todaysCounts`, keyed by goal. */
    var todaysCounts: map<nat, int>

    ghost predicate Valid()
      reads this
    {
      && GoalsWellFormed(adhkarTable)
      && CountsWellFormed(countTable, adhkarTable.rows)
      && adhkars == OrderByCreatedAt(adhkarTable.rows)
      && CacheFits(todaysCounts, adhkarTable.rows)
    }

    /** Opening the database and the start-up handler: both caches are loaded from
        the stored tables for day `today`. */
    constructor Open(goals: Table<Adhkar>, counts: Table<CountRow>, today: string)
      requires GoalsWellFormed(goals) && CountsWellFormed(counts, goals.rows)
      ensures Valid()
      ensures adhkarTable == goals && countTable == counts
      ensures OrderedByCreation(adhkars) && multiset(adhkars) == multiset(goals.rows)
      ensures Mirrors(todaysCounts, counts.rows, today)
    {
      adhkarTable := goals;
      countTable := counts;
      adhkars := [];
      todaysCounts := map[];
      new;
      Reload(today);
    }

    /** Lines 16-17 and 248-249: `loadAdhkars` then `loadTodaysCounts`, which bring
        both caches back in line with the tables. */
    method Reload(today: string)
      requires GoalsWellFormed(adhkarTable) && CountsWellFormed(countTable, adhkarTable.rows)
      modifies this`adhkars, this`todaysCounts
      ensures Valid()
      ensures OrderedByCreation(adhkars) && multiset(adhkars) == multiset(adhkarTable.rows)
      ensures Mirrors(todaysCounts, countTable.rows, today)
    {
      LoadAdhkars();
      LoadTodaysCounts(today);
      TodayMapMirrors(countTable.rows, today);
      MirroredCacheFits(todaysCounts, countTable.rows, today, adhkarTable.rows);
    }

    /** `loadAdhkars`: the goal list becomes every stored goal, ordered by creation time. */
    method LoadAdhkars()
      modifies this`adhkars
      ensures adhkars == OrderByCreatedAt(adhkarTable.rows)
      ensures OrderedByCreation(adhkars) && multiset(adhkars) == multiset(adhkarTable.rows)
    {
      adhkars := OrderByCreatedAt(adhkarTable.rows);
    }

    /** `loadTodaysCounts`: the map is rebuilt from the rows dated `today`. */
    method LoadTodaysCounts(today: string)
      modifies this`todaysCounts
      ensures todaysCounts == MapOf(RowsOn(countTable.rows, today))
    {
      var counts := RowsOn(countTable.rows, today);
      todaysCounts := map[];
      var i := 0;
      while i < |counts|
        invariant 0 <= i <= |counts|
        invariant todaysCounts == MapOf(counts[..i])
      {
        MapOfStep(counts, i);
        todaysCounts := todaysCounts[counts[i].adhkarId := counts[i].count];
        i := i + 1;
      }
      assert counts[..i] == counts;
    }

    /** `handleAddAdhkar` on an already trimmed name and a parsed limit: an empty name
        or a limit below 1 is refused; otherwise the goal is stored under a fresh key,
        stamped `now`, and the goal list is reloaded. */
    method AddAdhkar(name: string, text: string, dailyLimit: int, now: int) returns (added: bool)
      requires Valid()
      modifies this`adhkarTable, this`adhkars
      ensures Valid()
      ensures added <==> name != "" && dailyLimit >= 1
      ensures !added ==> adhkarTable == old(adhkarTable) && adhkars == old(adhkars)
      ensures added ==> adhkarTable == Table(old(adhkarTable.rows) + [Adhkar(old(adhkarTable.nextId), name, text, dailyLimit, now)],
                                             old(adhkarTable.nextId) + 1)
      ensures added ==> forall g :: g in old(adhkarTable.rows) ==> g.id != old(adhkarTable.nextId)
      ensures OrderedByCreation(adhkars) && multiset(adhkars) == multiset(adhkarTable.rows)
    {
      if name == "" || dailyLimit < 1 {
        return false;
      }
      var goal := Adhkar(adhkarTable.nextId, name, text, dailyLimit, now);
      AddKeepsWellFormed(adhkarTable, countTable, todaysCounts, goal);
      adhkarTable := Table(adhkarTable.rows + [goal], adhkarTable.nextId + 1);
      LoadAdhkars();
      added := true;
    }

    /** `incrementCount(adhkarId)` on day `today`: nothing for a goal that is not in
        the loaded list, nothing at the daily cap, and otherwise the cached count plus
        one is written to the table and to the map. */
    method Increment(adhkarId: nat, today: string) returns (outcome: IncrementOutcome)
      requires Valid()
      modifies this`countTable, this`todaysCounts
      ensures Valid()
      ensures outcome == TapOutcome(adhkars, old(todaysCounts), adhkarId)
      ensures !outcome.Counted? ==> countTable == old(countTable) && todaysCounts == old(todaysCounts)
      ensures outcome.Counted? ==>
        && todaysCounts == old(todaysCounts)[adhkarId := outcome.newCount]
        && Upserted(old(countTable), countTable, adhkarId, today, outcome.newCount)
        && StoredCount(countTable.rows, adhkarId, today) == outcome.newCount
        && OthersUnchanged(old(countTable.rows), countTable.rows, adhkarId, today)
      ensures old(Mirrors(todaysCounts, countTable.rows, today)) ==>
        && Mirrors(todaysCounts, countTable.rows, today)
        && StoredCount(countTable.rows, adhkarId, today) >= old(StoredCount(countTable.rows, adhkarId, today))
    {
      var found := FindAdhkar(adhkars, adhkarId);
      if found.None? {
        return NotLoaded;
      }
      var adhkar := found.value;
      var currentCount := CachedCount(todaysCounts, adhkarId);
      if AtCap(currentCount, adhkar.dailyLimit) {
        return AlreadyComplete;
      }
      var newCount := currentCount + 1;
      NextCountFits(adhkarTable.rows, todaysCounts, adhkar);
      ghost var m, rows := todaysCounts, countTable.rows;
      if Mirrors(m, rows, today) {
        MirrorsAgree(m, rows, today, adhkarId);
      }
      StoreCount(adhkarId, today, newCount);
      outcome := Counted(newCount, newCount >= adhkar.dailyLimit);
    }

    /** Lines 190-208: the row of (adhkarId, today) is looked up; its count is updated
        in place when it exists, otherwise a row is added; then the map entry is set. */
    method StoreCount(adhkarId: nat, today: string, newCount: int)
      requires Valid()
      requires CountFits(adhkarTable.rows, adhkarId, newCount)
      requires CacheFits(todaysCounts[adhkarId := newCount], adhkarTable.rows)
      modifies this`countTable, this`todaysCounts
      ensures Valid()
      ensures todaysCounts == old(todaysCounts)[adhkarId := newCount]
      ensures Upserted(old(countTable), countTable, adhkarId, today, newCount)
      ensures StoredCount(countTable.rows, adhkarId, today) == newCount
      ensures OthersUnchanged(old(countTable.rows), countTable.rows, adhkarId, today)
      ensures old(Mirrors(todaysCounts, countTable.rows, today)) ==> Mirrors(todaysCounts, countTable.rows, today)
    {
      ghost var t, m := countTable, todaysCounts;
      var existingCount := FindRow(countTable.rows, adhkarId, today);
      if existingCount.Some? {
        countTable := countTable.(rows := SetCountById(countTable.rows, existingCount.value.id, newCount));
      } else {
        countTable := Table(countTable.rows + [CountRow(countTable.nextId, adhkarId, today, newCount)], countTable.nextId + 1);
      }
      todaysCounts := todaysCounts[adhkarId := newCount];
      UpsertKeepsWellFormed(t, countTable, adhkarTable.rows, m, adhkarId, today, newCount);
    }

    /** `deleteAdhkar(adhkarId)` once the user has confirmed: the goal and every one of
        its count rows go in one transaction, then both caches are reloaded. */
    method Delete(adhkarId: nat, today: string) returns (deleted: bool)
      requires Valid()
      modifies this
      ensures Valid()
      ensures deleted <==> FindAdhkar(old(adhkars), adhkarId).Some?
      ensures !deleted ==>
        && adhkarTable == old(adhkarTable) && countTable == old(countTable)
        && adhkars == old(adhkars) && todaysCounts == old(todaysCounts)
      ensures deleted ==>
        && adhkarTable == Table(DeleteAdhkar(old(adhkarTable.rows), adhkarId), old(adhkarTable.nextId))
        && countTable == Table(DeleteCountsOf(old(countTable.rows), adhkarId), old(countTable.nextId))
        && FindAdhkar(adhkars, adhkarId).None?
        && Mirrors(todaysCounts, countTable.rows, today)
        && adhkarId !in todaysCounts
    {
      var found := FindAdhkar(adhkars, adhkarId);
      if found.None? {
        return false;
      }
      ghost var goals, rows := adhkarTable.rows, countTable.rows;
      DeleteCascade(adhkarId);
      Reload(today);
      deleted := true;
      DeletedGoalForgotten(goals, rows, todaysCounts, today, adhkarId);
    }

    /** Lines 242-245: the goal and all of its count rows are removed in one transaction. */
    method DeleteCascade(adhkarId: nat)
      requires GoalsWellFormed(adhkarTable) && CountsWellFormed(countTable, adhkarTable.rows)
      modifies this`adhkarTable, this`countTable
      ensures GoalsWellFormed(adhkarTable) && CountsWellFormed(countTable, adhkarTable.rows)
      ensures adhkarTable == Table(DeleteAdhkar(old(adhkarTable.rows), adhkarId), old(adhkarTable.nextId))
      ensures countTable == Table(DeleteCountsOf(old(countTable.rows), adhkarId), old(countTable.nextId))
    {
      DeleteKeepsWellFormed(adhkarTable, countTable, adhkarId);
      adhkarTable := adhkarTable.(rows := DeleteAdhkar(adhkarTable.rows, adhkarId));
      countTable := countTable.(rows := DeleteCountsOf(countTable.rows, adhkarId));
    }

    /** The midnight timer's callback: the map is emptied, so every goal reads 0. */
    method ResetAtMidnight()
      requires Valid()
      modifies this`todaysCounts
      ensures Valid()
      ensures todaysCounts == map[]
      ensures forall id :: CachedCount(todaysCounts, id) == 0
    {
      todaysCounts := map[];
    }

    /** The midnight reset as it is meant to work: the map is rebuilt for the day key
        the counter writes under, so it is empty on a day without rows and never
        disagrees with the table. */
    method StartNewDay(today: string)
      requires Valid()
      modifies this`todaysCounts
      ensures Valid()
      ensures Mirrors(todaysCounts, countTable.rows, today)
      ensures (forall r :: r in countTable.rows ==> r.date != today) ==> todaysCounts == map[]
    {
      LoadTodaysCounts(today);
      TodayMapMirrors(countTable.rows, today);
      MirroredCacheFits(todaysCounts, countTable.rows, today, adhkarTable.rows);
    }
  }
}
