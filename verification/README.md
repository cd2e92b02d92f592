# TimeLimiter: session ledger and enforcement, in Dafny

TimeLimiter is a desktop program that limits daily computer use. The
model covers two parts of it.

- **The session ledger** (`src/db.py`, class `Database`). It is a table of
  usage sessions: id, start stamp, optional end stamp and optional
  duration in whole seconds. It supports opening a session, closing one,
  finding the open session, the day total, the day's list of sessions,
  and a key/value settings table. The parent's PIN is kept in that table
  as a one-way digest.
- **The controller** (`src/main.py`). `MainWindow` resumes an open session
  at launch and starts and stops sessions. On the first tick of a new day
  it splits the running session at midnight. It shows the day total as
  `hh:mm:ss`, and it refuses to quit without the PIN. `KioskWindow` is the
  lock screen put up on stop; it cannot be closed until it is unlocked.

The model is functional. The database is a `Ledger.Db` value: the rows in
insertion order, the AUTOINCREMENT counter and the settings map. Each
handler is a pure function from the program state (`Controller.App`) and
what the outside world supplies to the new state. The outside world
supplies the clock reading `now` and what was typed into a dialog.

Modules:

- `Clock`: timestamps and calendar days.
- `Ledger`: the sessions table and its queries.
- `Settings`: the settings table and the PIN.
- `Display`: the `hh:mm:ss` text, with a parser as its partner.
- `Kiosk`: the lock screen.
- `Controller`: the window's handlers.
- `Tracking`: the open rows are the row the running window tracks.
- `Timeline`: what the handlers do to the day totals over time.

How the source is represented:

- **Timestamps.** A stamp is either an ISO 8601 text that can be read, or
  any other text. A readable stamp is represented by its instant in local
  microseconds, which is Python's `datetime` resolution. Anything else is
  `Malformed`.
- **Days and midnights.** Calendar day `d` starts at
  `d * 86_400_000_000`.
- **Whole seconds.** `int(td.total_seconds())` truncates toward zero and is
  written out explicitly, because a duration can be negative.
- **PIN digest.** SHA-256 is a parameter `hash: string -> string`.
- **Launch clock.** `MainWindow.__init__` reads the date before the PIN
  dialog (line 30) and the clock again after it. The model takes the first
  reading as the day `today` and the later ones as the instant `now`.

The day total (`src/db.py:67-78`) counts the whole duration of every row
whose start date or end date is the day; a session is never cut at
midnight. A session from 23:00 to 01:00 therefore counts two hours toward
each of the two days (`Timeline.MidnightCrossingCountsTwice`). A row closed
by the midnight split counts in full toward the new day as well.

Other behaviour of the code that the model reproduces:

- **Negative durations.** Durations are never clamped.
- **Resume before midnight.** A session resumed at launch is adopted as it
  is, so the label counts all of its time toward today
  (`Timeline.ResumeCountsWholeSession`).
- **PIN dialog across midnight.** When the PIN dialog is answered on a
  later day than the launch, the first refresh splits the session at that
  day's midnight (`Timeline.ResumeAcrossMidnight`,
  `Timeline.StartAcrossMidnight`).
- **One open row.** While the program runs, the only open row is the one
  the window tracks (`Tracking.RunKeepsOnlyTracked`). A launch that finds an
  open row whose start cannot be read keeps its id but is not running, so
  it opens a second row and both stay open
  (`Tracking.UnreadableStartStaysOpen`, `src/main.py:39-40` and `72-73`).
- **Unlocking on a later day.**
  - The tick timer is stopped behind the lock screen, so the window still
    holds the day of the stop.
  - Unlocking on a later day opens a row at `now` and immediately closes it
    at that day's earlier midnight. That leaves a row with zero or negative
    duration, plus a continuation from midnight.
  - The label is unaffected, because the two rows cancel
    (`Timeline.UnlockOnLaterDay`, `Timeline.UnlockOnLaterDayTotal`).
- **Empty stored digest.** An empty digest counts as a PIN being set, yet
  nothing verifies against it, so the window can never be closed
  (`Controller.EmptyDigestBlocksShutdown`).

## Model

| member | source | states |
|---|---|---|
| Clock.DayOf | src/main.py:109-112 | The day of an instant is the one whose midnight is at or before it and whose next midnight is after it. |
| Clock.DayOfMidnight | src/main.py:112 | A day's midnight lies in that same day. |
| Clock.StampDay | src/db.py:72-73 | `date(ts)` has a day exactly when the stamp can be read, and that day brackets the stamp's instant. |
| Clock.TruncSeconds | src/db.py:45 | Whole seconds truncated toward zero, for both signs of the delta. |
| Clock.TruncSecondsNegate | src/main.py:120 | Truncating the reversed delta gives the negated whole seconds. |
| Clock.Elapsed | src/db.py:41-47 | A duration exists exactly when both stamps can be read, and it is the truncated whole seconds from start to end. |
| Clock.NotBeforeTotalPreorder | src/db.py:83 | The descending start order used by the queries is reflexive, total and transitive. |
| Ledger.Find | src/db.py:38-39 | The lookup returns a row of the table with the asked id, and returns nothing exactly when no row has that id. |
| Ledger.FindRow | src/db.py:38-39 | With increasing ids, looking up a stored row's id finds that very row. |
| Ledger.FindAppend | src/db.py:38-39 | A lookup in a concatenation tries the first part, then the second. |
| Ledger.StartSession | src/db.py:30-34 | Appends exactly one open row under the counter's id. Earlier rows and the settings are unchanged. The id returned is above every stored id, and a well-formed table stays well-formed. |
| Ledger.StartSessionFind | src/db.py:30-34 | After the insert, the new id finds the new row and every other id finds what it found before. |
| Ledger.Close | src/db.py:48-51 | The UPDATE changes the end and duration of exactly the rows with the id, and keeps the length. |
| Ledger.FindClose | src/db.py:48-51 | After the UPDATE, a lookup finds the updated form of what it found before. |
| Ledger.EndSession | src/db.py:36-51 | Closing keeps the length, the settings, the counter and well-formedness. A missing id leaves the database unchanged. |
| Ledger.EndSessionRows | src/db.py:36-51 | Row by row: rows with another id are unchanged. In a well-formed table the row with the id gets the end stamp, and a duration only when both stamps can be read. |
| Ledger.EndSessionFinds | src/db.py:36-51 | After closing, the id finds its row closed, and every other id finds what it found before. |
| Ledger.OpenAfterEnd | src/db.py:48-51 | After closing, every row still open was open before and has another id. |
| Ledger.CloseOpenRow | src/db.py:41-51 | An open row closed at `end` is found with that end and the truncated whole seconds since its start. |
| Ledger.OpenSession | src/db.py:80-86 | Returns an open row of the table whose start is latest among open rows, or nothing exactly when every row is closed. |
| Ledger.TotalSecondsForDate | src/db.py:67-78 | The total is 0 when every matching row has a NULL duration. It is non-negative when every matching duration is. |
| Ledger.Matching | src/db.py:72-73 | Keeps exactly the rows whose start day or end day is `d`, with their multiplicities. |
| Ledger.TotalIsSumOfMatching | src/db.py:67-78 | The day total is the sum of non-NULL durations over the matching rows, each row counted once. |
| Ledger.TotalAppend | src/db.py:67-78 | The day total of a concatenation is the sum of the day totals of its parts. |
| Ledger.StartSessionKeepsTotals | src/db.py:30-34 | Opening a session changes no day's total, because its duration is NULL. |
| Ledger.TotalClose | src/db.py:48-51 | The UPDATE changes a day total by the new contribution minus the old contribution of the updated row. |
| Ledger.EndSessionTotal | src/db.py:36-51 | Closing an open row adds its new duration to each day its start or new end falls on. |
| Ledger.EndSessionTotalOnEndDay | src/db.py:36-51 | Closing an open row at `end` raises the total of the day of `end` by the whole seconds since the row started. |
| Ledger.EndLastRow | src/db.py:36-51 | Closing the newest row replaces just that row by its closed form. |
| Ledger.OpenCloseReopen | src/main.py:112-114 | Opening at `t`, closing at `m` and reopening at `m` appends exactly the closed row and its open continuation. |
| Ledger.OpenCloseReopenTotal | src/db.py:67-78 | Those two rows change the total of the day of `t` by the signed whole seconds from `t` to `m`. |
| Ledger.SplitDayTotal | src/main.py:112-114 | The midnight split adds the closed row's seconds to its start day and to the new day (once if they are the same day), and to no other day. |
| Ledger.SplitFindsOld | src/main.py:113-114 | After the split, the old id finds its row closed at midnight. |
| Ledger.SplitFindsNew | src/main.py:114 | After the split, the counter's id finds the continuation starting at midnight, and it found nothing before. |
| Ledger.Insert | src/db.py:61 | Inserting into a start-descending sequence keeps it sorted and adds exactly that row. |
| Ledger.SortByStartDesc | src/db.py:61 | The result is sorted by start, latest first, and is a permutation of the input. |
| Ledger.SessionsForDate | src/db.py:54-65 | Exactly the rows on day `d`, each as often as it is stored, latest start first. |
| Settings.GetSetting | src/db.py:94-98 | A key reads as absent exactly when it was never set, and otherwise as its stored value. |
| Settings.SetSetting | src/db.py:89-92 | The key reads back as the value. Every other key reads as before, and the sessions are untouched. |
| Settings.EmptyHasNoSettings | src/db.py:94-98 | In a fresh database every key reads as absent. |
| Settings.SetPin | src/db.py:100-102 | The PIN key reads back as the digest of the PIN. Every other key is unchanged. |
| Settings.VerifyPin | src/db.py:104-108 | Fails when no digest or an empty digest is stored. With a non-empty digest stored, succeeds exactly when the digest of the entry equals it. |
| Settings.SetPinThenVerify | src/db.py:100-108 | After setting `p`, an entry verifies exactly when its digest equals the digest of `p`, and `p` itself verifies. |
| Display.Split | src/main.py:121-123 | Hours, minutes and seconds recombine to the total. Minutes and seconds lie in 0..59, and the hours have the total's sign. |
| Display.Digits | src/main.py:124 | The decimal text is non-empty, all digits, and one character long exactly below 10. |
| Display.Pad2 | src/main.py:124 | `02d` formatting gives at least two characters, exactly two for 0..99, and a leading minus exactly for a negative value. |
| Display.Hms | src/main.py:121-124 | The text has at least eight characters with colons third- and sixth-last, and starts with a minus exactly for a negative total. |
| Display.FormatDuration | src/main.py:136-141 | The in-progress marker appears exactly for a NULL duration. |
| Display.Label | src/main.py:124 | The label starts with the fixed prefix, followed by at least eight characters. |
| Display.DigitsRoundTrip | src/main.py:124 | The decimal digits read back as the number. |
| Display.Pad2RoundTrip | src/main.py:124 | A padded field reads back as its value, signed or not. |
| Display.HmsRoundTrip | src/main.py:121-124 | The `hh:mm:ss` text of any total reads back as that total. |
| Display.FormatDurationInjective | src/main.py:136-141 | Two durations render alike only when they are equal. The in-progress marker is never a duration. |
| Display.LabelShowsTotal | src/main.py:124 | The label is the prefix followed by text that reads back as the total. |
| Kiosk.RequestClose | src/main.py:239-243 | A close attempt removes the lock screen exactly when it was unlocked. |
| Kiosk.Unlock | src/main.py:229-232 | After `_unlock` the screen is unlocked and closed. |
| Controller.RunningHasId | src/main.py:111 | A running window's id is truthy, because ids start at 1. |
| Controller.Rollover | src/main.py:112-116 | The tracked row is closed at midnight and a continuation from midnight is appended under the counter's id. The window tracks it, and the settings and lock screen are kept. |
| Controller.DisplayedTotal | src/main.py:118-120 | A running window whose session started no later than `now` shows at least the stored day total. |
| Controller.LabelIsStopTotal | src/main.py:118-120 | On the day of `now`, the running label equals the day total that stopping at `now` would store. |
| Controller.UpdateTimer | src/main.py:108-117 | The date becomes today, and the running flag, lock and settings are kept. On the same day nothing changes. When not running, only the date changes. |
| Controller.UpdateTimerKeepsInv | src/main.py:108-117 | The tick keeps the invariant: a running window tracks an open row that started at its session start. |
| Controller.Begin | src/main.py:83-87 | Appends one open row at `now` under the counter's id, and the window runs, tracking that id and start. |
| Controller.OnStart | src/main.py:80-90 | No-op when running. Otherwise the window runs afterwards, and on the same day it appends exactly one open row at `now` and tracks its id and start. |
| Controller.OnStartKeepsInv | src/main.py:80-90 | Starting from an unlocked window keeps the invariant. |
| Controller.OnStartIdempotent | src/main.py:81-82 | Starting twice is starting once. |
| Controller.Halt | src/main.py:95-106 | The tracked row is closed at `now`, the session fields are cleared, the date moves to today and a fresh lock screen is up. |
| Controller.HaltKeepsInv | src/main.py:95-106 | Halting keeps the invariant. |
| Controller.OnStop | src/main.py:92-106 | No-op when not running. Otherwise the window stops, the session fields are cleared and a lock screen is up. |
| Controller.OnStopKeepsInv | src/main.py:92-106 | Stopping keeps the invariant. |
| Controller.OnStopCloses | src/main.py:95-96 | Stopping closes the tracked row at `now` with its whole seconds. No other row changes, and the table keeps its length. |
| Controller.OnStopIdempotent | src/main.py:93-94 | Stopping twice is stopping once. |
| Controller.UnlockKiosk | src/main.py:229-234 | Without a lock screen nothing happens. Unlocking a locked screen removes it and leaves the window running; on the window's day it appends exactly one open row at `now` and tracks it. |
| Controller.UnlockKioskKeepsInv | src/main.py:229-234 | Unlocking keeps the invariant. |
| Controller.Step | src/main.py:236-243 | Behind a locked screen, every event except the unlock button leaves the screen up, nothing running and the database unchanged. |
| Controller.StepKeepsInv | src/main.py:80-117 | Every event keeps the invariant. |
| Controller.RunKeepsInv | src/main.py:80-117 | The invariant holds after any sequence of events. |
| Controller.LockHoldsWithoutUnlock | src/main.py:239-243 | Once locked, no sequence of ticks, stops and close attempts removes the lock screen, starts a session or writes a row. |
| Controller.PromptSetPin | src/main.py:176-186 | Stores a PIN exactly when both entries were confirmed, the first is non-empty and the second is equal, and then the PIN key reads as its digest. Otherwise nothing is written. The sessions are never touched. |
| Controller.PromptedPinVerifies | src/main.py:184 | A PIN the prompt stored verifies afterwards, given a non-empty digest. |
| Controller.Startup | src/main.py:26-78 | The window runs with the date of `now`, with no lock screen, and the invariant holds. Launched and refreshed on the same day, an open row with a readable start is adopted with its id and start and no row is written; otherwise exactly one open row is appended at `now` and tracked. |
| Controller.StartupSettings | src/main.py:67-69 | A launch changes the settings only when no PIN is stored, and then exactly as the PIN prompt does. |
| Controller.Resume | src/main.py:27-40 | The window runs exactly when an open row with a readable start exists, and then tracks its id and start; an unreadable start leaves only its id. |
| Controller.Launch | src/main.py:67-78 | Whether resumed or started, the window runs with the date of `now` and no lock screen. |
| Controller.StartupIsRefresh | src/main.py:72-78 | A launch is one refresh at `now`, preceded by opening a row unless a session was resumed. |
| Controller.Shutdown | src/main.py:160-174 | With a PIN set, quitting is accepted exactly when the dialog is confirmed and the PIN verifies. Without one it is always accepted. A refused quit writes nothing. |
| Controller.ShutdownCloses | src/main.py:171-174 | An accepted quit closes the running session at `now` with its whole seconds. |
| Controller.EmptyDigestBlocksShutdown | src/main.py:162-170 | With an empty digest stored, quitting is never accepted. |
| Tracking.HaltKeepsOnlyTracked | src/main.py:95-99 | Stopping a running window whose only open row is the tracked one leaves no row open. |
| Tracking.UpdateTimerKeepsOnlyTracked | src/main.py:108-117 | The midnight split leaves open only the continuation, which the window tracks. |
| Tracking.OnStartKeepsOnlyTracked | src/main.py:80-90 | Starting from a stopped window opens the only open row and tracks it. |
| Tracking.StepKeepsOnlyTracked | src/main.py:80-117 | Every event keeps every open row tracked by the running window. |
| Tracking.RunKeepsOnlyTracked | src/main.py:80-117 | No sequence of events leaves an untracked row open. |
| Tracking.RunningIsOpenSession | src/db.py:80-86 | While a session runs, `get_open_session` returns exactly the tracked row with its start. |
| Tracking.RelaunchResumes | src/main.py:32-40 | A same-day relaunch over a running program's database resumes the same row and start, and writes no row. |
| Tracking.StartupOnlyTracked | src/main.py:26-78 | A launch over a database whose open rows share the latest one's readable start and id leaves only the tracked row open. |
| Tracking.UnreadableStartStaysOpen | src/main.py:34-40 | When the latest open row's start cannot be read, a same-day launch leaves that row open and untracked beside the new one. |
| Timeline.RolloverClosesAtMidnight | src/main.py:108-113 | On a new day, the running row is closed at that day's midnight with the whole seconds it ran. |
| Timeline.RolloverContinuesAtMidnight | src/main.py:114-117 | The continuation has a fresh id and starts at that same midnight. The window tracks it and holds the new date. |
| Timeline.RolloverDayTotals | src/main.py:108-118 | After the split, the closed row's seconds are added to its start day and to the new day, and to no other day. |
| Timeline.BeginOnLaterDay | src/main.py:108-116 | Opening a row in a window whose date is an earlier day and refreshing appends a row from `now` back to midnight and its continuation from midnight, which the window tracks. |
| Timeline.UnlockOnLaterDay | src/main.py:80-90 | Unlocking on a later day appends a row from `now` back to midnight and its continuation from midnight. |
| Timeline.CancellingRows | src/main.py:118-120 | With those two rows, the label shows the day's total without either of them. |
| Timeline.UnlockOnLaterDayTotal | src/main.py:118-124 | After that unlock the label shows exactly the day's stored total. |
| Timeline.ResumeCountsWholeSession | src/main.py:32-40 | A resumed session's label adds all its seconds since its start, including those before today's midnight. |
| Timeline.ResumeAcrossMidnight | src/main.py:30-78 | With the PIN dialog answered on a later day, the resumed row is closed at that day's midnight and its continuation is tracked. |
| Timeline.StartAcrossMidnight | src/main.py:68-78 | With nothing to resume and the PIN dialog answered on a later day, the launch leaves a row from `now` back to midnight and its continuation, which is tracked. |
| Timeline.MidnightCrossingCountsTwice | src/db.py:72-73 | A session from 23:00 to 01:00 adds 7200 seconds to each of its two days and nothing to the next. |

## Left out

- **Qt.** Widgets, the table rendering of `refresh_logs`, `_format_ts` and
  the stay-on-top timer of the lock screen are not modelled. The
  one-second `QTimer` is an event that arrives only while running: it is
  started in `on_start` and stopped in `on_stop`.
- **SQLite.** Connections, cursors and commits are not modelled. The tables
  are values, and a SQL failure is not modelled.
- **ISO 8601.** Parsing internals, time zones, daylight-saving shifts and
  the `datetime` year range are not modelled. A stamp either denotes a
  local instant or is unreadable.
- **`total_seconds()`.** Its floating-point rounding is not modelled. It is
  taken as exact microseconds divided by 10^6.
- **SHA-256.** The hash is a parameter of the model.
- Ledger.OpenSession: `ORDER BY start_ts DESC` compares texts. For the stamps
  the program writes, text order is time order. The model orders readable
  stamps by instant and puts unreadable text below them. Among equal
  starts, the contract does not say which row is returned.
- Ledger.SessionsForDate: the order among rows with equal starts is not
  specified.
- Controller.UpdateTimer: `date.today()` (line 109) and `datetime.now()`
  (line 120) are two clock readings; the model takes both from one reading
  `now`, so a tick microseconds before midnight is not split between days.
- Controller.Startup: the readings after the PIN dialog (`on_start` at line
  83, its refresh at line 90 and the refresh at line 78) are taken as one
  reading `now`. With one reading the second refresh changes nothing, so
  it is not repeated.
- **`generate_icon.py`.** The icon script is drawing and file output only.
