/**
 * The session controller and enforcement of src/main.py (`MainWindow`):
 * start, stop, resume at launch, the midnight split done by the one-second
 * timer, the day total on the label, PIN-gated shutdown and the lock screen
 * opened on stop. Every handler is a pure function of the program state and
 * of what the outside world supplies: the clock reading `now` (local
 * microseconds, as in Clock) and what was typed into a dialog.
 */
module Controller {
  import opened Optional
  import opened Clock
  import opened Ledger
  import opened Settings
  import Kiosk

  /** `QInputDialog.getText`: the text typed and whether OK was pressed. */
  datatype Dialog = Dialog(text: string, ok: bool)

  /** MainWindow's session fields: `running`, `current_session_id`,
      `session_start` and `current_date`. */
  datatype Window = Window(running: bool, currentId: Option<int>, sessionStart: Option<int>, currentDate: int)

  /** The running program: the window's fields, the database, and the lock
      screen opened by the last stop, if any. */
  datatype App = App(win: Window, db: Db, lock: Option<Kiosk.Lock>)

  /** The lock screen is up and has not been unlocked. */
  predicate Locked(app: App) {
    app.lock.Some? && app.lock.value.shown && !app.lock.value.unlocked
  }

  /** Python truthiness of `current_session_id`: set and nonzero. */
  predicate HasId(w: Window) {
    w.currentId.Some? && w.currentId.value != 0
  }

  /** What the program keeps true between events: the database is well
      formed, a running window tracks an open row that started at
      `session_start`, and nothing runs behind a locked screen. */
  predicate Inv(app: App) {
    && Valid(app.db)
    && (app.win.running ==>
          && app.win.currentId.Some? && app.win.sessionStart.Some?
          && Find(app.db.sessions, app.win.currentId.value)
             == Some(Session(app.win.currentId.value, Iso(app.win.sessionStart.value), None, None)))
    && (Locked(app) ==> !app.win.running)
  }

  /** A running window's id is truthy, because ids start at 1. */
  lemma RunningHasId(app: App)
    requires Inv(app) && app.win.running
    ensures HasId(app.win)
  {
    var id := app.win.currentId.value;
    var s := Find(app.db.sessions, id).value;
    var k :| 0 <= k < |app.db.sessions| && app.db.sessions[k] == s;
  }

  /** Lines 112-116: close the running row at `midnight` and open its
      continuation at that same instant. */
  function Rollover(app: App, midnight: int): (r: App)
    requires HasId(app.win)
    ensures r.db.sessions == EndSession(app.db, app.win.currentId.value, Iso(midnight)).sessions
                             + [Session(app.db.nextId, Iso(midnight), None, None)]
    ensures r.db.nextId == app.db.nextId + 1 && r.db.settings == app.db.settings
    ensures r.win == app.win.(currentId := Some(app.db.nextId), sessionStart := Some(midnight))
    ensures r.lock == app.lock
  {
    var closed := EndSession(app.db, app.win.currentId.value, Iso(midnight));
    var ins := StartSession(closed, Iso(midnight));
    app.(db := ins.db, win := app.win.(currentId := Some(ins.id), sessionStart := Some(midnight)))
  }

  /** Lines 118-120, the label `update_timer` sets: the stored total of the
      window's day plus, while running, the whole seconds since the session
      started. A running session never lowers it below the stored total. */
  function DisplayedTotal(app: App, now: int): (r: int)
    ensures app.win.running && app.win.sessionStart.Some? && now >= app.win.sessionStart.value ==>
      r >= TotalSecondsForDate(app.db.sessions, app.win.currentDate)
  {
    TotalSecondsForDate(app.db.sessions, app.win.currentDate)
    + if app.win.running && app.win.sessionStart.Some? then TruncSeconds(now - app.win.sessionStart.value) else 0
  }

  /** `update_timer`: on reaching a new calendar day, split a running
      session at that day's midnight. The label it then sets is
      DisplayedTotal of the state returned. */
  function UpdateTimer(app: App, now: int): (r: App)
    ensures r.win.currentDate == DayOf(now)
    ensures r.win.running == app.win.running && r.lock == app.lock
    ensures r.db.settings == app.db.settings
    ensures DayOf(now) == app.win.currentDate ==> r == app
    ensures !app.win.running ==> r == app.(win := app.win.(currentDate := DayOf(now)))
  {
    var today := DayOf(now);
    if today != app.win.currentDate then
      var rolled := if app.win.running && HasId(app.win) then Rollover(app, Midnight(today)) else app;
      rolled.(win := rolled.win.(currentDate := today))
    else app
  }

  /** The midnight split keeps the invariant: the window tracks the
      continuing row, which is open and starts at midnight. */
  lemma UpdateTimerKeepsInv(app: App, now: int)
    requires Inv(app)
    ensures Inv(UpdateTimer(app, now))
  {
    if DayOf(now) != app.win.currentDate && app.win.running {
      RolloverKeepsInv(app, Midnight(DayOf(now)));
    }
  }

  lemma RolloverKeepsInv(app: App, midnight: int)
    requires Inv(app) && app.win.running
    ensures HasId(app.win) && Inv(Rollover(app, midnight))
  {
    RunningHasId(app);
    var closed := EndSession(app.db, app.win.currentId.value, Iso(midnight));
    StartSessionFind(closed, Iso(midnight));
  }

  /** Lines 83-87 of `on_start`: open a row at `now` and track it. */
  function Begin(app: App, now: int): (r: App)
    ensures r.db.sessions == app.db.sessions + [Session(app.db.nextId, Iso(now), None, None)]
    ensures r.db.nextId == app.db.nextId + 1 && r.db.settings == app.db.settings
    ensures r.win == app.win.(running := true, currentId := Some(app.db.nextId), sessionStart := Some(now))
    ensures r.lock == app.lock
  {
    var ins := StartSession(app.db, Iso(now));
    app.(db := ins.db, win := app.win.(running := true, currentId := Some(ins.id), sessionStart := Some(now)))
  }

  /** `on_start`: nothing when already running; otherwise open a session
      at `now`, then refresh the display, which runs `update_timer`. */
  function OnStart(app: App, now: int): (r: App)
    ensures app.win.running ==> r == app
    ensures r.win.running && r.lock == app.lock
    ensures r.db.settings == app.db.settings
    ensures !app.win.running ==> r.win.currentDate == DayOf(now)
    ensures !app.win.running && DayOf(now) == app.win.currentDate ==>
      && r.db.sessions == app.db.sessions + [Session(app.db.nextId, Iso(now), None, None)]
      && r.win.currentId == Some(app.db.nextId)
      && r.win.sessionStart == Some(now)
  {
    if app.win.running then app
    else UpdateTimer(Begin(app, now), now)
  }

  /** Starting from an unlocked window keeps the invariant. */
  lemma OnStartKeepsInv(app: App, now: int)
    requires Inv(app) && !Locked(app)
    ensures Inv(OnStart(app, now))
  {
    if !app.win.running {
      BeginKeepsInv(app, now);
      UpdateTimerKeepsInv(Begin(app, now), now);
    }
  }

  lemma BeginKeepsInv(app: App, now: int)
    requires Inv(app) && !Locked(app) && !app.win.running
    ensures Inv(Begin(app, now))
  {
    StartSessionFind(app.db, Iso(now));
  }

  /** Starting twice is starting once. */
  lemma OnStartIdempotent(app: App, now: int)
    ensures OnStart(OnStart(app, now), now) == OnStart(app, now)
  {
  }

  /** `end_session(current_session_id, ...)`: no row matches a missing id. */
  function CloseCurrent(db: Db, id: Option<int>, at: Stamp): Db {
    match id
    case None => db
    case Some(i) => EndSession(db, i, at)
  }

  /** `on_stop`: nothing when not running; otherwise close the tracked
      session at `now`, clear the session fields, refresh the display and
      put up a new lock screen. */
  function OnStop(app: App, now: int): (r: App)
    ensures !app.win.running ==> r == app
    ensures !r.win.running
    ensures app.win.running ==> r.win.currentId.None? && r.win.sessionStart.None? && Locked(r)
  {
    if !app.win.running then app
    else Halt(app, now)
  }

  /** Stopping keeps the invariant: nothing runs behind the new lock screen. */
  lemma OnStopKeepsInv(app: App, now: int)
    requires Inv(app)
    ensures Inv(OnStop(app, now))
  {
    if app.win.running {
      HaltKeepsInv(app, now);
    }
  }

  /** Lines 95-105: the running branch of `on_stop`: the tracked row is
      closed at `now`, the session fields are cleared, the refresh moves the
      date to today, and a new lock screen is up. */
  function Halt(app: App, now: int): (r: App)
    ensures r.db == CloseCurrent(app.db, app.win.currentId, Iso(now))
    ensures r.win == Window(false, None, None, DayOf(now))
    ensures r.lock == Some(Kiosk.Fresh)
  {
    var halted := app.(db := CloseCurrent(app.db, app.win.currentId, Iso(now)),
                       win := app.win.(running := false, currentId := None, sessionStart := None));
    UpdateTimer(halted, now).(lock := Some(Kiosk.Fresh))
  }

  /** Halting leaves a well-formed database and nothing running. */
  lemma HaltKeepsInv(app: App, now: int)
    requires Inv(app)
    ensures Inv(Halt(app, now))
  {
    assert Valid(CloseCurrent(app.db, app.win.currentId, Iso(now)));
  }

  /** The row a stopped session leaves behind, and that no other row moves. */
  lemma OnStopCloses(app: App, now: int, id: int, t0: int)
    requires app.win.running && Inv(app)
    requires app.win.currentId == Some(id) && app.win.sessionStart == Some(t0)
    ensures var r := OnStop(app, now);
      && Find(r.db.sessions, id) == Some(Session(id, Iso(t0), Some(Iso(now)), Some(TruncSeconds(now - t0))))
      && (forall x :: x != id ==> Find(r.db.sessions, x) == Find(app.db.sessions, x))
      && |r.db.sessions| == |app.db.sessions|
  {
    RunningHasId(app);
    CloseOpenRow(app.db, id, t0, now);
    EndSessionFinds(app.db, id, Iso(now));
    assert OnStop(app, now).db == EndSession(app.db, id, Iso(now));
  }

  /** The label equals the day total that stopping now would store: the
      running session's whole seconds are exactly what closing it adds. */
  lemma LabelIsStopTotal(app: App, now: int, id: int, t0: int)
    requires Inv(app) && app.win.running && DayOf(now) == app.win.currentDate
    requires app.win.currentId == Some(id) && app.win.sessionStart == Some(t0)
    ensures DisplayedTotal(app, now) == TotalSecondsForDate(OnStop(app, now).db.sessions, DayOf(now))
  {
    RunningHasId(app);
    assert OnStop(app, now).db == EndSession(app.db, id, Iso(now));
    EndSessionTotalOnEndDay(app.db, id, t0, now);
  }

  /** Stopping twice is stopping once. */
  lemma OnStopIdempotent(app: App, now: int)
    ensures OnStop(OnStop(app, now), now) == OnStop(app, now)
  {
  }

  /** The lock screen's button: `_unlock` marks it unlocked and closes it,
      then calls back `on_start`. Without a lock screen up there is no button. */
  function UnlockKiosk(app: App, now: int): (r: App)
    ensures app.lock.None? ==> r == app
    ensures Locked(app) ==> r.win.running && !Locked(r)
    ensures Locked(app) && !app.win.running && DayOf(now) == app.win.currentDate ==>
      && r.db.sessions == app.db.sessions + [Session(app.db.nextId, Iso(now), None, None)]
      && r.win.currentId == Some(app.db.nextId)
      && r.win.sessionStart == Some(now)
  {
    match app.lock
    case None => app
    case Some(k) =>
      if k.shown then OnStart(app.(lock := Some(Kiosk.Unlock(k))), now) else app
  }

  /** Unlocking keeps the invariant: the session it starts is tracked. */
  lemma UnlockKioskKeepsInv(app: App, now: int)
    requires Inv(app)
    ensures Inv(UnlockKiosk(app, now))
  {
    if app.lock.Some? && app.lock.value.shown {
      OnStartKeepsInv(app.(lock := Some(Kiosk.Unlock(app.lock.value))), now);
    }
  }

  /** Under the lock screen nothing runs, so the button's `on_start`
      opens a row at `now` and refreshes. */
  lemma UnlockIsBegin(app: App, now: int)
    requires Inv(app) && Locked(app)
    ensures var a1 := app.(lock := Some(Kiosk.Unlock(app.lock.value)));
      && Inv(a1) && !a1.win.running && a1.win.currentDate == app.win.currentDate && a1.db == app.db
      && UnlockKiosk(app, now) == UpdateTimer(Begin(a1, now), now)
  {
  }

  /** What reaches the program while it runs. The one-second timer only
      ticks while a session runs (started in `on_start`, stopped in
      `on_stop`); `CloseLock` is any attempt to close the lock screen. */
  datatype Event = Tick(now: int) | Stop(now: int) | Unlock(now: int) | CloseLock

  function Step(app: App, e: Event): (r: App)
    ensures Inv(app) && Locked(app) && !e.Unlock? ==> Locked(r) && r.db == app.db && !r.win.running
  {
    match e
    case Tick(now) => if app.win.running then UpdateTimer(app, now) else app
    case Stop(now) => OnStop(app, now)
    case Unlock(now) => UnlockKiosk(app, now)
    case CloseLock =>
      match app.lock
      case None => app
      case Some(k) => app.(lock := Some(Kiosk.RequestClose(k)))
  }

  /** Every event keeps the invariant. */
  lemma StepKeepsInv(app: App, e: Event)
    requires Inv(app)
    ensures Inv(Step(app, e))
  {
    match e
    case Tick(now) => if app.win.running { UpdateTimerKeepsInv(app, now); }
    case Stop(now) => OnStopKeepsInv(app, now);
    case Unlock(now) => UnlockKioskKeepsInv(app, now);
    case CloseLock =>
  }

  function Run(app: App, events: seq<Event>): App
    decreases |events|
  {
    if |events| == 0 then app else Run(Step(app, events[0]), events[1..])
  }

  /** The invariant survives every sequence of events. */
  lemma {:induction false} RunKeepsInv(app: App, events: seq<Event>)
    requires Inv(app)
    ensures Inv(Run(app, events))
    decreases |events|
  {
    if |events| > 0 {
      StepKeepsInv(app, events[0]);
      RunKeepsInv(Step(app, events[0]), events[1..]);
    }
  }

  /** Once locked, no sequence of ticks, stops and close attempts gets past
      the lock screen: it stays up, nothing runs, and no row is written. */
  lemma {:induction false} LockHoldsWithoutUnlock(app: App, events: seq<Event>)
    requires Inv(app) && Locked(app)
    requires forall i :: 0 <= i < |events| ==> !events[i].Unlock?
    ensures var r := Run(app, events); Locked(r) && !r.win.running && r.db == app.db
    decreases |events|
  {
    if |events| > 0 {
      StepKeepsInv(app, events[0]);
      LockHoldsWithoutUnlock(Step(app, events[0]), events[1..]);
    }
  }

  datatype PinPrompt = PinPrompt(stored: bool, db: Db)

  /** `_prompt_set_pin`: store the PIN only when the first entry was
      confirmed and non-empty and the second was confirmed and equal. */
  function PromptSetPin(db: Db, first: Dialog, second: Dialog, hash: string -> string): (r: PinPrompt)
    ensures r.stored <==> first.ok && first.text != "" && second.ok && second.text == first.text
    ensures r.stored ==> GetSetting(r.db, PinKey) == Some(hash(first.text))
    ensures !r.stored ==> r.db == db
    ensures r.db.sessions == db.sessions && r.db.nextId == db.nextId
  {
    if !first.ok || first.text == "" then PinPrompt(false, db)
    else if !second.ok || first.text != second.text then PinPrompt(false, db)
    else PinPrompt(true, SetPin(db, first.text, hash))
  }

  /** A PIN the prompt stored is accepted by the lock screen afterwards. */
  lemma PromptedPinVerifies(db: Db, first: Dialog, second: Dialog, hash: string -> string)
    requires hash(first.text) != ""
    ensures var r := PromptSetPin(db, first, second, hash);
      r.stored ==> VerifyPin(r.db, first.text, hash)
  {
  }

  /** `MainWindow.__init__`. The window's date is read first (line 30, day
      `today`); the latest open row is adopted when its start can be read (a
      failed read still leaves its id in `current_session_id`); a PIN is
      asked for when none is set; then a session is started unless one was
      resumed, and the display is refreshed at `now`, read after the dialog.
      Launched and refreshed on the same day, a resumed row is kept as it is
      and otherwise one row opens at `now`; Timeline covers a launch whose
      dialog is answered on a later day. */
  function Startup(db: Db, today: int, now: int, first: Dialog, second: Dialog, hash: string -> string): (r: App)
    ensures r.win.running && r.lock.None? && r.win.currentDate == DayOf(now)
    ensures Valid(db) ==> Inv(r)
    ensures DayOf(now) == today ==>
      match OpenSession(db.sessions)
      case Some(s) =>
        s.start.Iso? ==>
          && r.win.currentId == Some(s.id)
          && r.win.sessionStart == Some(s.start.micros)
          && r.db.sessions == db.sessions
      case None => true
    ensures DayOf(now) == today && (OpenSession(db.sessions).None? || OpenSession(db.sessions).value.start.Malformed?) ==>
      && r.db.sessions == db.sessions + [Session(db.nextId, Iso(now), None, None)]
      && r.win.currentId == Some(db.nextId)
      && r.win.sessionStart == Some(now)
  {
    LaunchFacts(db, today, now, first, second, hash);
    Launch(db, today, now, first, second, hash)
  }

  /** Lines 62-66 and 67-78: a launch changes the settings only through the
      PIN prompt, which runs only when no PIN is stored. */
  lemma StartupSettings(db: Db, today: int, now: int, first: Dialog, second: Dialog, hash: string -> string)
    ensures var r := Startup(db, today, now, first, second, hash);
      && (GetSetting(db, PinKey).Some? ==> r.db.settings == db.settings)
      && (GetSetting(db, PinKey).None? ==> r.db.settings == PromptSetPin(db, first, second, hash).db.settings)
  {
    LaunchFacts(db, today, now, first, second, hash);
  }

  /** Lines 27-40: the window fields after looking for a session to resume:
      running exactly when an open row exists whose start can be read, and
      then tracking that row; an unreadable start leaves only its id. */
  function Resume(ss: seq<Session>, today: int): (w: Window)
    ensures w.currentDate == today
    ensures w.running <==> OpenSession(ss).Some? && OpenSession(ss).value.start.Iso?
    ensures w.currentId == if OpenSession(ss).Some? then Some(OpenSession(ss).value.id) else None
    ensures w.running ==> w.sessionStart == Some(OpenSession(ss).value.start.micros)
  {
    var w0 := Window(false, None, None, today);
    match OpenSession(ss)
    case None => w0
    case Some(s) =>
      match Parse(s.start)
      case Some(t) => w0.(currentId := Some(s.id), sessionStart := Some(t), running := true)
      case None => w0.(currentId := Some(s.id))
  }

  /** The launch state before the first session event: the resumed window
      fields and the database after the PIN prompt. */
  function Adopted(db: Db, today: int, first: Dialog, second: Dialog, hash: string -> string): App {
    var db1 := if GetSetting(db, PinKey).None? then PromptSetPin(db, first, second, hash).db else db;
    App(Resume(db.sessions, today), db1, None)
  }

  /** Lines 67-78: the PIN prompt when none is set, then start unless
      resumed; either way the window ends up running with today's date. */
  function Launch(db: Db, today: int, now: int, first: Dialog, second: Dialog, hash: string -> string): (r: App)
    ensures r.win.running && r.lock.None? && r.win.currentDate == DayOf(now)
  {
    var app := Adopted(db, today, first, second, hash);
    if app.win.running then UpdateTimer(app, now) else OnStart(app, now)
  }

  /** A launch is one refresh at `now`, after opening a row unless one was resumed. */
  lemma StartupIsRefresh(db: Db, today: int, now: int, first: Dialog, second: Dialog, hash: string -> string)
    ensures var app := Adopted(db, today, first, second, hash);
      Startup(db, today, now, first, second, hash) == UpdateTimer(if app.win.running then app else Begin(app, now), now)
  {
  }

  /** With no open row to resume, the launch state `app` is a stopped window
      on the launch day over the database as the PIN prompt left it, and the
      launch opens a row at `now` and refreshes. */
  lemma StartupBegins(db: Db, today: int, now: int, first: Dialog, second: Dialog, hash: string -> string)
    returns (app: App)
    requires Valid(db) && OpenSession(db.sessions).None?
    ensures Inv(app) && !app.win.running && app.win.currentDate == today
    ensures app.db.sessions == db.sessions && app.db.nextId == db.nextId
    ensures Startup(db, today, now, first, second, hash) == UpdateTimer(Begin(app, now), now)
  {
    app := Adopted(db, today, first, second, hash);
    StartupIsRefresh(db, today, now, first, second, hash);
  }

  lemma LaunchFacts(db: Db, today: int, now: int, first: Dialog, second: Dialog, hash: string -> string)
    ensures var r := Launch(db, today, now, first, second, hash);
      && (Valid(db) ==> Inv(r))
      && (GetSetting(db, PinKey).Some? ==> r.db.settings == db.settings)
      && (GetSetting(db, PinKey).None? ==> r.db.settings == PromptSetPin(db, first, second, hash).db.settings)
      && (DayOf(now) == today ==>
          match OpenSession(db.sessions)
          case Some(s) =>
            s.start.Iso? ==>
              && r.win.currentId == Some(s.id)
              && r.win.sessionStart == Some(s.start.micros)
              && r.db.sessions == db.sessions
          case None => true)
      && (DayOf(now) == today && (OpenSession(db.sessions).None? || OpenSession(db.sessions).value.start.Malformed?) ==>
          && r.db.sessions == db.sessions + [Session(db.nextId, Iso(now), None, None)]
          && r.win.currentId == Some(db.nextId)
          && r.win.sessionStart == Some(now))
  {
    var app := Adopted(db, today, first, second, hash);
    assert app.db.sessions == db.sessions && app.db.nextId == db.nextId;
    var r := Launch(db, today, now, first, second, hash);
    if app.win.running {
      assert r == UpdateTimer(app, now);
      if Valid(db) {
        ResumeKeepsInv(db, app.db, app.win);
        UpdateTimerKeepsInv(app, now);
      }
    } else {
      assert r == OnStart(app, now);
      if Valid(db) {
        OnStartKeepsInv(app, now);
      }
    }
  }

  lemma ResumeKeepsInv(db: Db, db1: Db, w: Window)
    requires Valid(db) && db1.sessions == db.sessions && db1.nextId == db.nextId
    requires OpenSession(db.sessions).Some? && w.running
    requires w.currentId == Some(OpenSession(db.sessions).value.id)
    requires w.sessionStart.Some? && Iso(w.sessionStart.value) == OpenSession(db.sessions).value.start
    ensures Inv(App(w, db1, None))
  {
    var s := OpenSession(db.sessions).value;
    var k :| 0 <= k < |db.sessions| && db.sessions[k] == s;
    FindRow(db.sessions, k);
  }

  datatype Exit = Exit(accepted: bool, db: Db)

  /** `closeEvent` of the main window: with a PIN set, quitting needs a
      confirmed dialog whose text verifies; without one it always proceeds.
      A refused quit writes nothing; an accepted one closes the running
      session at `now`. */
  function Shutdown(app: App, dialog: Dialog, now: int, hash: string -> string): (r: Exit)
    ensures GetSetting(app.db, PinKey).None? ==> r.accepted
    ensures GetSetting(app.db, PinKey).Some? ==> (r.accepted <==> dialog.ok && VerifyPin(app.db, dialog.text, hash))
    ensures !r.accepted ==> r.db == app.db
    ensures !app.win.running ==> r.db == app.db
  {
    var pinExists := GetSetting(app.db, PinKey).Some?;
    if pinExists && (!dialog.ok || !VerifyPin(app.db, dialog.text, hash)) then Exit(false, app.db)
    else if app.win.running && HasId(app.win) then Exit(true, EndSession(app.db, app.win.currentId.value, Iso(now)))
    else Exit(true, app.db)
  }

  /** An accepted quit leaves the running session closed at `now`. */
  lemma ShutdownCloses(app: App, dialog: Dialog, now: int, hash: string -> string, id: int, t0: int)
    requires app.win.running && Inv(app)
    requires app.win.currentId == Some(id) && app.win.sessionStart == Some(t0)
    ensures var r := Shutdown(app, dialog, now, hash);
      r.accepted ==> Find(r.db.sessions, id) == Some(Session(id, Iso(t0), Some(Iso(now)), Some(TruncSeconds(now - t0))))
  {
    RunningHasId(app);
    CloseOpenRow(app.db, id, t0, now);
    var r := Shutdown(app, dialog, now, hash);
    if r.accepted {
      assert r.db == EndSession(app.db, id, Iso(now));
    }
  }

  /** A digest stored as the empty string counts as a PIN being set, yet
      no entry verifies against it: the window can then never be closed. */
  lemma EmptyDigestBlocksShutdown(app: App, dialog: Dialog, now: int, hash: string -> string)
    requires GetSetting(app.db, PinKey) == Some("")
    ensures !Shutdown(app, dialog, now, hash).accepted
  {
  }
}
