/**
 * What the handlers of src/main.py do to the day totals of src/db.py over
 * time: where a midnight split lands, how a session begun on a later day
 * than the window's date is split, and what a resumed session adds.
 */
module Timeline {
  import opened Optional
  import opened Clock
  import opened Ledger
  import opened Controller

  /** Lines 108-117: on the first tick of a new day a running session is
      closed at that day's midnight, with the whole seconds it ran until then. */
  lemma RolloverClosesAtMidnight(app: App, now: int, id: int, t0: int, m: int)
    requires Inv(app) && app.win.running && DayOf(now) != app.win.currentDate
    requires m == Midnight(DayOf(now))
    requires app.win.currentId == Some(id) && app.win.sessionStart == Some(t0)
    ensures Find(UpdateTimer(app, now).db.sessions, id) == Some(Session(id, Iso(t0), Some(Iso(m)), Some(TruncSeconds(m - t0))))
  {
    RolloverShape(app, now, m);
    SplitFindsOld(app.db, id, t0, m);
  }

  /** Lines 108-117: the split session continues under a fresh id in a row
      starting at the midnight where the old one ends, and the window now
      tracks that row. */
  lemma RolloverContinuesAtMidnight(app: App, now: int, m: int)
    requires Inv(app) && app.win.running && DayOf(now) != app.win.currentDate
    requires m == Midnight(DayOf(now))
    ensures var r := UpdateTimer(app, now);
      var n := app.db.nextId;
      && Find(app.db.sessions, n).None?
      && Find(r.db.sessions, n) == Some(Session(n, Iso(m), None, None))
      && r.win == Window(true, Some(n), Some(m), DayOf(now))
  {
    RolloverShape(app, now, m);
    SplitFindsNew(app.db, app.win.currentId.value, m);
  }

  /** The day totals after the midnight split of RolloverClosesAtMidnight: the
      closed row's whole seconds are added to the day it started on and to
      the new day (once if they coincide), and to no other day. */
  lemma RolloverDayTotals(app: App, now: int, t0: int, m: int)
    requires Inv(app) && app.win.running && DayOf(now) != app.win.currentDate
    requires m == Midnight(DayOf(now))
    requires app.win.sessionStart == Some(t0)
    ensures var r := UpdateTimer(app, now);
      forall d :: TotalSecondsForDate(r.db.sessions, d)
           == TotalSecondsForDate(app.db.sessions, d)
              + (if d == DayOf(t0) || d == DayOf(now) then TruncSeconds(m - t0) else 0)
  {
    var id := app.win.currentId.value;
    RolloverShape(app, now, m);
    DayOfMidnight(DayOf(now));
    forall d
      ensures TotalSecondsForDate(UpdateTimer(app, now).db.sessions, d)
           == TotalSecondsForDate(app.db.sessions, d)
              + (if d == DayOf(t0) || d == DayOf(now) then TruncSeconds(m - t0) else 0)
    {
      SplitDayTotal(app.db, id, t0, m, d);
    }
  }

  /** UpdateTimer on a new day while running, unfolded. */
  lemma RolloverShape(app: App, now: int, m: int)
    requires Inv(app) && app.win.running && DayOf(now) != app.win.currentDate
    requires m == Midnight(DayOf(now))
    ensures var ins := StartSession(EndSession(app.db, app.win.currentId.value, Iso(m)), Iso(m));
      && UpdateTimer(app, now).db == ins.db
      && UpdateTimer(app, now).win == Window(true, Some(app.db.nextId), Some(m), DayOf(now))
  {
    RunningHasId(app);
  }

  /** A row opened at `now` and split at midnight `m`: after the rows `ss`
      come row `n`, from `now` back to `m`, and its continuation `n + 1`
      from `m`, which the running window tracks on the day of `now`. */
  predicate SplitAtMidnight(r: App, ss: seq<Session>, n: int, now: int, m: int) {
    && r.db.sessions == ss + [Session(n, Iso(now), Some(Iso(m)), Some(TruncSeconds(m - now))), Session(n + 1, Iso(m), None, None)]
    && r.win == Window(true, Some(n + 1), Some(m), DayOf(now))
  }

  /** `on_start` refreshes the display, which runs `update_timer`. The timer
      is stopped while the lock screen is up, so the window's date still
      names the day of the stop; unlocking on a later day therefore opens a
      row at `now` and at once closes it at that day's midnight, which is
      not after `now`, leaving a row whose duration is zero or negative,
      and continues it from midnight. The day's displayed total is
      nevertheless just the stored total: the two effects cancel. */
  lemma UnlockOnLaterDay(app: App, now: int, m: int)
    requires Inv(app) && Locked(app) && DayOf(now) != app.win.currentDate
    requires m == Midnight(DayOf(now))
    ensures SplitAtMidnight(UnlockKiosk(app, now), app.db.sessions, app.db.nextId, now, m)
  {
    UnlockIsBegin(app, now);
    BeginOnLaterDay(app.(lock := Some(Kiosk.Unlock(app.lock.value))), now, m);
  }

  /** Opening a row at `now` in a stopped window whose date is an earlier
      day, then refreshing: the refresh splits the new row at midnight. */
  lemma BeginOnLaterDay(app: App, now: int, m: int)
    requires Inv(app) && !app.win.running && DayOf(now) != app.win.currentDate
    requires m == Midnight(DayOf(now))
    ensures SplitAtMidnight(UpdateTimer(Begin(app, now), now), app.db.sessions, app.db.nextId, now, m)
  {
    var b := Begin(app, now);
    var st := StartSession(app.db, Iso(now));
    var n := app.db.nextId;
    assert b.db == st.db && st.id == n && b.win.currentId == Some(n);
    assert HasId(b.win);
    var r := Rollover(b, m);
    assert UpdateTimer(b, now) == r.(win := r.win.(currentDate := DayOf(now)));
    assert r.db == StartSession(EndSession(st.db, st.id, Iso(m)), Iso(m)).db;
    OpenCloseReopen(app.db, now, m);
  }

  /** After UnlockOnLaterDay the label shows the day's stored total: the
      negative row and the time since midnight cancel. */
  lemma UnlockOnLaterDayTotal(app: App, now: int, m: int)
    requires Inv(app) && Locked(app) && DayOf(now) != app.win.currentDate
    requires m == Midnight(DayOf(now))
    ensures DisplayedTotal(UnlockKiosk(app, now), now) == TotalSecondsForDate(app.db.sessions, DayOf(now))
  {
    UnlockOnLaterDay(app, now, m);
    CancellingRows(UnlockKiosk(app, now), app.db.sessions, app.db.nextId, now, m);
  }

  /** The label of a window tracking the continuation of a row that ran
      from `now` back to midnight `m` shows the day's total without both. */
  lemma CancellingRows(r: App, ss: seq<Session>, n: int, now: int, m: int)
    requires m == Midnight(DayOf(now))
    requires SplitAtMidnight(r, ss, n, now, m)
    ensures DisplayedTotal(r, now) == TotalSecondsForDate(ss, DayOf(now))
  {
    OpenCloseReopenTotal(ss, n, now, m);
    TruncSecondsNegate(now, m);
  }

  /** Lines 30-40 and 118-120: a session left open by an earlier run is
      adopted as it is, never split, so the label counts all of its time
      since it started toward today, even the part before today's midnight. */
  lemma ResumeCountsWholeSession(db: Db, today: int, now: int, first: Dialog, second: Dialog, hash: string -> string, t0: int)
    requires Valid(db) && DayOf(now) == today
    requires OpenSession(db.sessions).Some? && OpenSession(db.sessions).value.start == Iso(t0)
    ensures DisplayedTotal(Startup(db, today, now, first, second, hash), now)
      == TotalSecondsForDate(db.sessions, DayOf(now)) + TruncSeconds(now - t0)
  {
    var r := Startup(db, today, now, first, second, hash);
    assert r.win.running && r.win.sessionStart == Some(t0);
    assert r.db.sessions == db.sessions && r.win.currentDate == DayOf(now);
  }

  /** Lines 30, 68-69 and 78: when the PIN dialog is answered on a later day
      than the launch, the first refresh splits a resumed row at that day's
      midnight, as a tick would, and the window tracks the continuation. */
  lemma ResumeAcrossMidnight(db: Db, today: int, now: int, first: Dialog, second: Dialog, hash: string -> string,
                             id: int, t0: int, m: int)
    requires Valid(db) && DayOf(now) != today && m == Midnight(DayOf(now))
    requires OpenSession(db.sessions).Some? && OpenSession(db.sessions).value.id == id
    requires OpenSession(db.sessions).value.start == Iso(t0)
    ensures var r := Startup(db, today, now, first, second, hash);
      && Find(r.db.sessions, id) == Some(Session(id, Iso(t0), Some(Iso(m)), Some(TruncSeconds(m - t0))))
      && r.db.sessions == StartSession(EndSession(db, id, Iso(m)), Iso(m)).db.sessions
      && r.win == Window(true, Some(db.nextId), Some(m), DayOf(now))
  {
    var app := Adopted(db, today, first, second, hash);
    ResumeKeepsInv(db, app.db, app.win);
    RolloverShape(app, now, m);
    StartupIsRefresh(db, today, now, first, second, hash);
    var s := OpenSession(db.sessions).value;
    var k :| 0 <= k < |db.sessions| && db.sessions[k] == s;
    FindRow(db.sessions, k);
    SplitFindsOld(app.db, id, t0, m);
  }

  /** Lines 30, 68-73: with nothing to resume and the PIN dialog answered on
      a later day than the launch, `on_start`'s refresh splits the new row at
      once, leaving a row from `now` back to midnight and its continuation,
      exactly as an unlock on a later day does. */
  lemma StartAcrossMidnight(db: Db, today: int, now: int, first: Dialog, second: Dialog, hash: string -> string, m: int)
    requires Valid(db) && DayOf(now) != today && m == Midnight(DayOf(now))
    requires OpenSession(db.sessions).None?
    ensures SplitAtMidnight(Startup(db, today, now, first, second, hash), db.sessions, db.nextId, now, m)
  {
    var app := StartupBegins(db, today, now, first, second, hash);
    BeginOnLaterDay(app, now, m);
  }

  /** The day filter of src/db.py:73 attributes whole durations, not the part
      inside the day: a session from 23:00 to 01:00 counts two hours toward
      each of the two days. */
  lemma {:induction false} MidnightCrossingCountsTwice(d: int)
    ensures var hour := 3_600_000_000;
      var s := Closed(Session(1, Iso(Midnight(d + 1) - hour), None, None), Iso(Midnight(d + 1) + hour));
      && s.duration == Some(7200)
      && TotalSecondsForDate([s], d) == 7200
      && TotalSecondsForDate([s], d + 1) == 7200
      && TotalSecondsForDate([s], d + 2) == 0
  {
    var hour := 3_600_000_000;
    var s := Closed(Session(1, Iso(Midnight(d + 1) - hour), None, None), Iso(Midnight(d + 1) + hour));
    assert DayOf(Midnight(d + 1) - hour) == d;
    assert DayOf(Midnight(d + 1) + hour) == d + 1;
    assert [s][1..] == [];
  }
}
