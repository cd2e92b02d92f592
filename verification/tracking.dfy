/**
 * At most one open row, and it is the one the window tracks. `on_start`
 * opens a row only when nothing runs, `on_stop` closes the tracked row
 * before clearing the fields, and the midnight split closes the tracked row
 * before opening its continuation; so while the program runs, every open
 * row of `sessions` is the running window's `current_session_id`. A launch
 * keeps this unless it finds an open row whose start cannot be read
 * (src/main.py:39-40 and 72-73): that row stays open next to the new one.
 */
module Tracking {
  import opened Optional
  import opened Clock
  import opened Ledger
  import Kiosk
  import opened Controller

  /** Every open row is the one a running window tracks. */
  predicate OnlyTrackedOpen(app: App) {
    forall s | s in app.db.sessions && s.end.None? :: app.win.running && app.win.currentId == Some(s.id)
  }

  /** Stopping closes the only open row, so none is left open. */
  lemma HaltKeepsOnlyTracked(app: App, now: int)
    requires Inv(app) && OnlyTrackedOpen(app) && app.win.running
    ensures forall s | s in Halt(app, now).db.sessions :: s.end.Some?
    ensures OnlyTrackedOpen(Halt(app, now))
  {
    OpenAfterEnd(app.db, app.win.currentId.value, Iso(now));
  }

  /** The midnight split closes the tracked row and tracks the continuation,
      the only row it leaves open. */
  lemma UpdateTimerKeepsOnlyTracked(app: App, now: int)
    requires Inv(app) && OnlyTrackedOpen(app)
    ensures OnlyTrackedOpen(UpdateTimer(app, now))
  {
    if DayOf(now) != app.win.currentDate && app.win.running {
      RunningHasId(app);
      OpenAfterEnd(app.db, app.win.currentId.value, Iso(Midnight(DayOf(now))));
    }
  }

  /** A stopped window has no open row, so the row `on_start` opens is the
      only one and it is tracked. */
  lemma BeginKeepsOnlyTracked(app: App, now: int)
    requires OnlyTrackedOpen(app) && !app.win.running
    ensures OnlyTrackedOpen(Begin(app, now))
  {
  }

  lemma OnStartKeepsOnlyTracked(app: App, now: int)
    requires Inv(app) && !Locked(app) && OnlyTrackedOpen(app)
    ensures OnlyTrackedOpen(OnStart(app, now))
  {
    if !app.win.running {
      BeginKeepsInv(app, now);
      BeginKeepsOnlyTracked(app, now);
      UpdateTimerKeepsOnlyTracked(Begin(app, now), now);
    }
  }

  /** Every event keeps the open rows tracked. */
  lemma StepKeepsOnlyTracked(app: App, e: Event)
    requires Inv(app) && OnlyTrackedOpen(app)
    ensures OnlyTrackedOpen(Step(app, e))
  {
    match e
    case Tick(now) =>
      if app.win.running {
        UpdateTimerKeepsOnlyTracked(app, now);
      }
    case Stop(now) =>
      if app.win.running {
        HaltKeepsOnlyTracked(app, now);
      }
    case Unlock(now) =>
      if app.lock.Some? && app.lock.value.shown {
        OnStartKeepsOnlyTracked(app.(lock := Some(Kiosk.Unlock(app.lock.value))), now);
      }
    case CloseLock =>
  }

  /** No sequence of events leaves an untracked row open. */
  lemma {:induction false} RunKeepsOnlyTracked(app: App, events: seq<Event>)
    requires Inv(app) && OnlyTrackedOpen(app)
    ensures OnlyTrackedOpen(Run(app, events))
    decreases |events|
  {
    if |events| > 0 {
      StepKeepsInv(app, events[0]);
      StepKeepsOnlyTracked(app, events[0]);
      RunKeepsOnlyTracked(Step(app, events[0]), events[1..]);
    }
  }

  /** While a session runs, `get_open_session` returns exactly the tracked
      row, which is what a relaunch would resume. */
  lemma RunningIsOpenSession(app: App, id: int, t0: int)
    requires Inv(app) && OnlyTrackedOpen(app) && app.win.running
    requires app.win.currentId == Some(id) && app.win.sessionStart == Some(t0)
    ensures OpenSession(app.db.sessions) == Some(Session(id, Iso(t0), None, None))
  {
    var ss := app.db.sessions;
    var row := Session(id, Iso(t0), None, None);
    assert row in ss;
    var s := OpenSession(ss).value;
    var k :| 0 <= k < |ss| && ss[k] == s;
    FindRow(ss, k);
  }

  /** Relaunching on the same day over the database of a running program
      resumes its session: same row, same start, nothing written. */
  lemma RelaunchResumes(app: App, today: int, now: int, first: Dialog, second: Dialog, hash: string -> string,
                        id: int, t0: int)
    requires Inv(app) && OnlyTrackedOpen(app) && app.win.running
    requires app.win.currentId == Some(id) && app.win.sessionStart == Some(t0)
    requires DayOf(now) == today
    ensures var r := Startup(app.db, today, now, first, second, hash);
      && r.win.currentId == Some(id) && r.win.sessionStart == Some(t0)
      && r.db.sessions == app.db.sessions
  {
    RunningIsOpenSession(app, id, t0);
  }

  /** A launch over a database whose open rows all have the id of the latest
      one, whose start can be read, leaves only the tracked row open. */
  lemma StartupOnlyTracked(db: Db, today: int, now: int, first: Dialog, second: Dialog, hash: string -> string)
    requires Valid(db)
    requires forall s | s in db.sessions && s.end.None? ::
      OpenSession(db.sessions).Some? && s.id == OpenSession(db.sessions).value.id
    requires OpenSession(db.sessions).Some? ==> OpenSession(db.sessions).value.start.Iso?
    ensures OnlyTrackedOpen(Startup(db, today, now, first, second, hash))
  {
    var app := Adopted(db, today, first, second, hash);
    StartupIsRefresh(db, today, now, first, second, hash);
    assert OnlyTrackedOpen(app);
    if app.win.running {
      ResumeKeepsInv(db, app.db, app.win);
      UpdateTimerKeepsOnlyTracked(app, now);
    } else {
      assert Inv(app);
      OnStartKeepsOnlyTracked(app, now);
    }
  }

  /** The exception: when the latest open row's start cannot be read, the
      launch on the same day opens a new row and tracks it, and the old row
      stays open beside it. */
  lemma UnreadableStartStaysOpen(db: Db, today: int, now: int, first: Dialog, second: Dialog, hash: string -> string)
    requires Valid(db) && DayOf(now) == today
    requires OpenSession(db.sessions).Some? && OpenSession(db.sessions).value.start.Malformed?
    ensures var r := Startup(db, today, now, first, second, hash);
      && OpenSession(db.sessions).value in r.db.sessions
      && !OnlyTrackedOpen(r)
  {
    var s := OpenSession(db.sessions).value;
    var r := Startup(db, today, now, first, second, hash);
    assert s.id < db.nextId;
    assert s in r.db.sessions && s.end.None?;
    assert r.win.currentId != Some(s.id);
  }
}
