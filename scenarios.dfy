/** Whole sessions of the counter, run against the `App` model from empty tables. */
module Scenarios {
  import opened Records
  import opened Queries
  import opened Counter
  import opened Tasbih

  /** The goal every session uses: the first one added, so it is stored under key 1. */
  function Goal(): Adhkar
  {
    Adhkar(1, "Subhan Allah", "", 33, 0)
  }

  /** Empty tables are opened and the goal is added; nothing is counted yet. */
  method NewSession(day: string) returns (app: App)
    ensures fresh(app) && app.Valid() && app.adhkars == [Goal()]
    ensures Mirrors(app.todaysCounts, app.countTable.rows, day)
    ensures CachedCount(app.todaysCounts, 1) == 0
    ensures app.countTable.rows == []
  {
    app := new App.Open(Table([], 1), Table([], 1), day);
    var added := app.AddAdhkar(Goal().name, Goal().text, Goal().dailyLimit, Goal().createdAt);
    assert app.adhkarTable.rows == [Goal()];
    assert app.adhkars == [Goal()];
  }

  /** One tap while the goal is below its target, with the map mirroring the table. */
  method TapBelowTarget(app: App, day: string) returns (outcome: IncrementOutcome)
    requires app.Valid() && app.adhkars == [Goal()]
    requires Mirrors(app.todaysCounts, app.countTable.rows, day)
    requires CachedCount(app.todaysCounts, 1) < 33
    requires forall r :: r in app.countTable.rows ==> r.date == day
    modifies app
    ensures app.Valid() && app.adhkars == [Goal()]
    ensures Mirrors(app.todaysCounts, app.countTable.rows, day)
    ensures forall r :: r in app.countTable.rows ==> r.date == day
    ensures CachedCount(app.todaysCounts, 1) == old(CachedCount(app.todaysCounts, 1)) + 1
    ensures outcome == Counted(CachedCount(app.todaysCounts, 1), CachedCount(app.todaysCounts, 1) == 33)
  {
    outcome := app.Increment(1, day);
  }

  /** A new session in which the goal has been tapped twice on day `day`. */
  method TappedTwice(day: string) returns (app: App)
    ensures fresh(app) && app.Valid() && app.adhkars == [Goal()]
    ensures Mirrors(app.todaysCounts, app.countTable.rows, day)
    ensures forall r :: r in app.countTable.rows ==> r.date == day
    ensures StoredCount(app.countTable.rows, 1, day) == 2
  {
    app := NewSession(day);
    var first := TapBelowTarget(app, day);
    var second := TapBelowTarget(app, day);
    MirrorsAgree(app.todaysCounts, app.countTable.rows, day, 1);
  }

  /** A goal with a daily limit of 33 is tapped on one day: each of the 33 taps is
      accepted, the 33rd reports completion, the table then holds 33 for the day,
      and a 34th tap is refused. */
  method DailyTargetReached(day: string) returns (last: IncrementOutcome, extra: IncrementOutcome, stored: int)
    ensures last == Counted(33, true)
    ensures extra == AlreadyComplete
    ensures stored == 33
  {
    var app := NewSession(day);
    last := NotLoaded;
    var i := 0;
    while i < 33
      invariant 0 <= i <= 33
      invariant app.Valid() && app.adhkars == [Goal()]
      invariant Mirrors(app.todaysCounts, app.countTable.rows, day)
      invariant forall r :: r in app.countTable.rows ==> r.date == day
      invariant CachedCount(app.todaysCounts, 1) == i
      invariant i > 0 ==> last == Counted(i, i == 33)
    {
      last := TapBelowTarget(app, day);
      i := i + 1;
    }
    extra := app.Increment(1, day);
    MirrorsAgree(app.todaysCounts, app.countTable.rows, day, 1);
    stored := StoredCount(app.countTable.rows, 1, day);
  }

  /** Two taps, then the midnight reset as the script performs it while the day key
      is still the same (the reset runs at local midnight, the key is the UTC date),
      then one more tap: the emptied map makes that tap count from 0, and the stored
      count of the day drops from 2 to 1. */
  method MidnightResetLosesCount(day: string) returns (before: int, after: int)
    ensures before == 2 && after == 1
  {
    var app := TappedTwice(day);
    before := StoredCount(app.countTable.rows, 1, day);
    app.ResetAtMidnight();
    var third := app.Increment(1, day);
    after := StoredCount(app.countTable.rows, 1, day);
  }

  /** The same session with the map rebuilt from the table at midnight instead of
      emptied: the tap after midnight continues from the stored 2. */
  method MidnightReloadKeepsCount(day: string) returns (before: int, after: int)
    ensures before == 2 && after == 3
  {
    var app := TappedTwice(day);
    before := StoredCount(app.countTable.rows, 1, day);
    app.StartNewDay(day);
    MirrorsAgree(app.todaysCounts, app.countTable.rows, day, 1);
    var third := TapBelowTarget(app, day);
    MirrorsAgree(app.todaysCounts, app.countTable.rows, day, 1);
    after := StoredCount(app.countTable.rows, 1, day);
  }

  /** Two taps under one day key, then a tap after the key has moved on but before
      the midnight reset (west of Greenwich the UTC date changes hours before local
      midnight): the map still holds the old key's count, so the first row of the
      new key is stored with 3 instead of 1. */
  method KeyChangeCarriesCount() returns (before: int, after: int)
    ensures before == 0 && after == 3
  {
    var app := TappedTwice("2026-10-14");
    MirrorsAgree(app.todaysCounts, app.countTable.rows, "2026-10-14", 1);
    before := StoredCount(app.countTable.rows, 1, "2026-10-15");
    var third := app.Increment(1, "2026-10-15");
    after := StoredCount(app.countTable.rows, 1, "2026-10-15");
  }

  /** The same session with the map rebuilt for the new key before the tap: the
      new key's first row is stored with 1. */
  method KeyChangeWithReloadStartsAtOne() returns (before: int, after: int)
    ensures before == 0 && after == 1
  {
    var app := TappedTwice("2026-10-14");
    before := StoredCount(app.countTable.rows, 1, "2026-10-15");
    app.StartNewDay("2026-10-15");
    MirrorsAgree(app.todaysCounts, app.countTable.rows, "2026-10-15", 1);
    var third := app.Increment(1, "2026-10-15");
    after := StoredCount(app.countTable.rows, 1, "2026-10-15");
  }
}
