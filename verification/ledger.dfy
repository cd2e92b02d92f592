/**
 * The session ledger of src/db.py: the `sessions` table and the queries the
 * window runs against it. The table is a sequence of rows in insertion
 * (rowid) order; the AUTOINCREMENT counter is `nextId`.
 */
module Ledger {
  import opened Optional
  import opened Clock

  /** One row of `sessions`: an open session has no end and no duration. */
  datatype Session = Session(id: int, start: Stamp, end: Option<Stamp>, duration: Option<int>)

  /** The database file: the sessions table with its AUTOINCREMENT counter,
      and the key/value `settings` table. */
  datatype Db = Db(sessions: seq<Session>, nextId: int, settings: map<string, string>)

  /** A freshly created database file. */
  const Empty: Db := Db([], 1, map[])

  /** Ids increase with insertion order and stay below the counter (AUTOINCREMENT
      never reuses an id and starts at 1); an open row has a NULL duration. */
  predicate Valid(db: Db) {
    && db.nextId >= 1
    && (forall i :: 0 <= i < |db.sessions| ==> 1 <= db.sessions[i].id < db.nextId)
    && IdsIncreasing(db.sessions)
    && (forall i :: 0 <= i < |db.sessions| && db.sessions[i].end.None? ==> db.sessions[i].duration.None?)
  }

  predicate IdsIncreasing(ss: seq<Session>) {
    forall i, j :: 0 <= i < j < |ss| ==> ss[i].id < ss[j].id
  }

  /** `SELECT ... WHERE id=?` followed by `fetchone()`: the first row with that id. */
  function Find(ss: seq<Session>, id: int): (r: Option<Session>)
    ensures r.Some? ==> r.value in ss && r.value.id == id
    ensures r.None? <==> forall s | s in ss :: s.id != id
  {
    if |ss| == 0 then None
    else if ss[0].id == id then Some(ss[0])
    else Find(ss[1..], id)
  }

  /** With distinct ids, looking up a row's id finds that very row. */
  lemma {:induction false} FindRow(ss: seq<Session>, i: int)
    requires IdsIncreasing(ss)
    requires 0 <= i < |ss|
    ensures Find(ss, ss[i].id) == Some(ss[i])
  {
    if i > 0 {
      assert ss[0].id < ss[i].id;
      assert ss[1..][i - 1] == ss[i];
      FindRow(ss[1..], i - 1);
    }
  }

  lemma {:induction false} FindAppend(a: seq<Session>, b: seq<Session>, id: int)
    ensures Find(a + b, id) == if Find(a, id).Some? then Find(a, id) else Find(b, id)
  {
    if |a| > 0 {
      assert (a + b)[1..] == a[1..] + b;
      FindAppend(a[1..], b, id);
    } else {
      assert a + b == b;
    }
  }

  datatype Inserted = Inserted(db: Db, id: int)

  /** `start_session`: append an open row stamped `start` under the next
      AUTOINCREMENT id, above every id in the table, and return that id. */
  function StartSession(db: Db, start: Stamp): (r: Inserted)
    ensures r.db.settings == db.settings
    ensures r.db.sessions == db.sessions + [Session(r.id, start, None, None)]
    ensures r.id == db.nextId && r.db.nextId == db.nextId + 1
    ensures Valid(db) ==> Valid(r.db) && forall s | s in db.sessions :: s.id < r.id
  {
    var row := Session(db.nextId, start, None, None);
    StartSessionValid(db, row);
    Inserted(Db(db.sessions + [row], db.nextId + 1, db.settings), db.nextId)
  }

  /** Lookups after `start_session`: the new id finds the new row, every
      other id finds what it found before. */
  lemma StartSessionFind(db: Db, start: Stamp)
    ensures var r := StartSession(db, start);
      && (Valid(db) ==> Find(r.db.sessions, r.id) == Some(Session(r.id, start, None, None)))
      && forall id :: id != r.id ==> Find(r.db.sessions, id) == Find(db.sessions, id)
  {
    var r := StartSession(db, start);
    FindAppendAll(db.sessions, Session(r.id, start, None, None));
  }

  lemma StartSessionValid(db: Db, row: Session)
    requires row.id == db.nextId && row.end.None? && row.duration.None?
    ensures Valid(db) ==> Valid(Db(db.sessions + [row], db.nextId + 1, db.settings))
    ensures Valid(db) ==> forall s | s in db.sessions :: s.id < row.id
  {
    if Valid(db) {
      var ss := db.sessions + [row];
      assert forall i :: 0 <= i < |db.sessions| ==> ss[i] == db.sessions[i];
      assert forall i :: 0 <= i < |ss| ==> 1 <= ss[i].id < db.nextId + 1;
      assert IdsIncreasing(ss);
    }
  }

  lemma FindAppendAll(ss: seq<Session>, row: Session)
    ensures forall id :: Find(ss + [row], id) == if Find(ss, id).Some? then Find(ss, id) else Find([row], id)
  {
    forall id
      ensures Find(ss + [row], id) == if Find(ss, id).Some? then Find(ss, id) else Find([row], id)
    {
      FindAppend(ss, [row], id);
    }
  }

  /** The UPDATE of `end_session`: every row with the id gets the end stamp and duration. */
  function Close(ss: seq<Session>, id: int, end: Stamp, duration: Option<int>): (r: seq<Session>)
    ensures |r| == |ss|
    ensures forall i :: 0 <= i < |ss| ==>
      r[i] == if ss[i].id == id then ss[i].(end := Some(end), duration := duration) else ss[i]
  {
    if |ss| == 0 then []
    else
      [if ss[0].id == id then ss[0].(end := Some(end), duration := duration) else ss[0]]
      + Close(ss[1..], id, end, duration)
  }

  /** A row as `end_session` leaves it: its end stamped, and its duration
      the whole seconds since its start when both stamps can be read. */
  function Closed(s: Session, end: Stamp): Session {
    s.(end := Some(end), duration := Elapsed(s.start, end))
  }

  /** Looking a row up after the UPDATE finds the updated form of what it found before. */
  lemma {:induction false} FindClose(ss: seq<Session>, id: int, end: Stamp, duration: Option<int>, x: int)
    ensures Find(Close(ss, id, end, duration), x) ==
      if x != id then Find(ss, x)
      else match Find(ss, x)
        case None => None
        case Some(s) => Some(s.(end := Some(end), duration := duration))
  {
    if |ss| > 0 {
      var c := Close(ss, id, end, duration);
      assert c[1..] == Close(ss[1..], id, end, duration);
      FindClose(ss[1..], id, end, duration, x);
    }
  }

  /** `end_session`: stamp the row's end and, when both stamps can be read,
      its duration in whole seconds (never clamped, so possibly negative);
      a missing id changes nothing. */
  function EndSession(db: Db, id: int, end: Stamp): (r: Db)
    ensures r.settings == db.settings && r.nextId == db.nextId
    ensures |r.sessions| == |db.sessions|
    ensures Valid(db) ==> Valid(r)
    ensures Find(db.sessions, id).None? ==> r == db
  {
    EndSessionFind(db.sessions, id, end);
    EndSessionValid(db, id, end);
    db.(sessions := Close(db.sessions, id, end, EndDuration(db.sessions, id, end)))
  }

  /** Row by row, `end_session` closes the rows with the id, each as Closed
      describes when ids are distinct, and leaves every other row as it was. */
  lemma EndSessionRows(db: Db, id: int, end: Stamp)
    ensures var r := EndSession(db, id, end);
      && (forall i :: 0 <= i < |db.sessions| && db.sessions[i].id != id ==> r.sessions[i] == db.sessions[i])
      && (Valid(db) ==> forall i :: 0 <= i < |db.sessions| && db.sessions[i].id == id ==>
            r.sessions[i] == Closed(db.sessions[i], end))
  {
    if Valid(db) {
      EndSessionClosesRows(db, id, end);
    }
  }

  /** The duration `end_session` computes from the first row with the id. */
  function EndDuration(ss: seq<Session>, id: int, end: Stamp): Option<int> {
    match Find(ss, id)
    case Some(s) => Elapsed(s.start, end)
    case None => None
  }

  lemma EndSessionFind(ss: seq<Session>, id: int, end: Stamp)
    ensures var c := Close(ss, id, end, EndDuration(ss, id, end));
      && (Find(ss, id).Some? ==> Find(c, id) == Some(Closed(Find(ss, id).value, end)))
      && (forall x :: x != id ==> Find(c, x) == Find(ss, x))
      && (Find(ss, id).None? ==> c == ss)
  {
    var duration := EndDuration(ss, id, end);
    var c := Close(ss, id, end, duration);
    forall x {
      FindClose(ss, id, end, duration, x);
    }
    if Find(ss, id).None? {
      assert forall i :: 0 <= i < |ss| ==> ss[i] in ss;
    }
  }

  lemma EndSessionValid(db: Db, id: int, end: Stamp)
    ensures Valid(db) ==> Valid(db.(sessions := Close(db.sessions, id, end, EndDuration(db.sessions, id, end))))
  {
    var c := Close(db.sessions, id, end, EndDuration(db.sessions, id, end));
    assert forall i :: 0 <= i < |c| ==> c[i].id == db.sessions[i].id;
  }

  lemma EndSessionClosesRows(db: Db, id: int, end: Stamp)
    requires Valid(db)
    ensures var c := Close(db.sessions, id, end, EndDuration(db.sessions, id, end));
      forall i :: 0 <= i < |db.sessions| && db.sessions[i].id == id ==> c[i] == Closed(db.sessions[i], end)
  {
    forall i | 0 <= i < |db.sessions| && db.sessions[i].id == id {
      FindRow(db.sessions, i);
    }
  }

  /** Lookups after `end_session`: the id finds its row closed, every
      other id finds what it found before. */
  lemma EndSessionFinds(db: Db, id: int, end: Stamp)
    ensures var r := EndSession(db, id, end);
      && (Find(db.sessions, id).Some? ==> Find(r.sessions, id) == Some(Closed(Find(db.sessions, id).value, end)))
      && forall x :: x != id ==> Find(r.sessions, x) == Find(db.sessions, x)
  {
    EndSessionFind(db.sessions, id, end);
  }

  /** After `end_session`, a row still open was open before and has another id. */
  lemma OpenAfterEnd(db: Db, id: int, end: Stamp)
    requires Valid(db)
    ensures forall s | s in EndSession(db, id, end).sessions && s.end.None? :: s in db.sessions && s.id != id
  {
    var r := EndSession(db, id, end);
    EndSessionRows(db, id, end);
    forall s | s in r.sessions && s.end.None?
      ensures s in db.sessions && s.id != id
    {
      var i :| 0 <= i < |r.sessions| && r.sessions[i] == s;
      assert db.sessions[i].id != id;
    }
  }

  /** An open row closed at `end` carries the whole seconds since its start. */
  lemma ClosedOpenRow(id: int, t0: int, end: int)
    ensures Closed(Session(id, Iso(t0), None, None), Iso(end))
         == Session(id, Iso(t0), Some(Iso(end)), Some(TruncSeconds(end - t0)))
  {
  }

  /** Closing an open row at `end` makes its id find it with the whole
      seconds since its start. */
  lemma CloseOpenRow(db: Db, id: int, t0: int, end: int)
    requires Valid(db)
    requires Find(db.sessions, id) == Some(Session(id, Iso(t0), None, None))
    ensures Find(EndSession(db, id, Iso(end)).sessions, id)
      == Some(Session(id, Iso(t0), Some(Iso(end)), Some(TruncSeconds(end - t0))))
  {
    ClosedOpenRow(id, t0, end);
    EndSessionFinds(db, id, Iso(end));
  }

  /** `get_open_session`: an open row whose start is latest under
      `ORDER BY start_ts DESC`, or None when every row is closed. */
  function OpenSession(ss: seq<Session>): (r: Option<Session>)
    ensures r.Some? ==> r.value in ss && r.value.end.None?
    ensures r.Some? ==> forall s | s in ss && s.end.None? :: NotBefore(r.value.start, s.start)
    ensures r.None? <==> forall s | s in ss :: s.end.Some?
  {
    if |ss| == 0 then None
    else
      var rest := OpenSession(ss[1..]);
      assert forall s | s in ss :: s == ss[0] || s in ss[1..];
      if ss[0].end.Some? then rest
      else if rest.Some? && NotBefore(rest.value.start, ss[0].start) then rest
      else
        assert forall s | s in ss[1..] && s.end.None? :: NotBefore(ss[0].start, s.start) by {
          forall s | s in ss[1..] && s.end.None? {
            NotBeforeTotalPreorder(ss[0].start, rest.value.start, s.start);
          }
        }
        Some(ss[0])
  }

  /** The WHERE clause `date(start_ts)=d OR date(end_ts)=d`. */
  predicate OnDay(s: Session, d: int) {
    StampDay(s.start) == Some(d) || (s.end.Some? && StampDay(s.end.value) == Some(d))
  }

  /** What one row adds to `SUM(duration_seconds)` for day `d`; NULL adds nothing. */
  function Contribution(s: Session, d: int): int {
    if OnDay(s, d) then s.duration.GetOr(0) else 0
  }

  /** `get_total_seconds_for_date`: `int(SUM(duration_seconds) or 0)` over the rows on day `d`. */
  function TotalSecondsForDate(ss: seq<Session>, d: int): (r: int)
    ensures (forall s | s in ss && OnDay(s, d) :: s.duration.None?) ==> r == 0
    ensures (forall s | s in ss && OnDay(s, d) :: s.duration.GetOr(0) >= 0) ==> r >= 0
  {
    if |ss| == 0 then 0
    else
      assert forall s | s in ss[1..] :: s in ss;
      Contribution(ss[0], d) + TotalSecondsForDate(ss[1..], d)
  }

  /** The rows on day `d`, in table order. */
  function Matching(ss: seq<Session>, d: int): (r: seq<Session>)
    ensures forall s :: multiset(r)[s] == if OnDay(s, d) then multiset(ss)[s] else 0
    ensures forall s | s in r :: OnDay(s, d)
  {
    if |ss| == 0 then []
    else
      assert ss == [ss[0]] + ss[1..];
      (if OnDay(ss[0], d) then [ss[0]] else []) + Matching(ss[1..], d)
  }

  /** Sum of the non-NULL durations of some rows. */
  function SumDurations(ss: seq<Session>): int {
    if |ss| == 0 then 0 else ss[0].duration.GetOr(0) + SumDurations(ss[1..])
  }

  /** The day total is the plain sum over the rows on that day: a row whose
      start and end both fall on `d` counts once, not twice. */
  lemma {:induction false} TotalIsSumOfMatching(ss: seq<Session>, d: int)
    ensures TotalSecondsForDate(ss, d) == SumDurations(Matching(ss, d))
  {
    if |ss| > 0 {
      TotalIsSumOfMatching(ss[1..], d);
      if OnDay(ss[0], d) {
        var m := Matching(ss[1..], d);
        assert ([ss[0]] + m)[1..] == m;
      } else {
        assert [] + Matching(ss[1..], d) == Matching(ss[1..], d);
      }
    }
  }

  /** The day total distributes over concatenated tables. */
  lemma {:induction false} TotalAppend(a: seq<Session>, b: seq<Session>, d: int)
    ensures TotalSecondsForDate(a + b, d) == TotalSecondsForDate(a, d) + TotalSecondsForDate(b, d)
  {
    if |a| == 0 {
      assert a + b == b;
    } else {
      assert (a + b)[1..] == a[1..] + b;
      TotalAppend(a[1..], b, d);
    }
  }

  /** Opening a session never moves any day's total: its duration is NULL. */
  lemma StartSessionKeepsTotals(db: Db, start: Stamp, d: int)
    ensures TotalSecondsForDate(StartSession(db, start).db.sessions, d) == TotalSecondsForDate(db.sessions, d)
  {
    var r := StartSession(db, start);
    assert r.db.sessions == db.sessions + [Session(r.id, start, None, None)];
    TotalAppend(db.sessions, [Session(r.id, start, None, None)], d);
    assert TotalSecondsForDate([Session(r.id, start, None, None)], d) == 0;
  }

  lemma {:induction false} TotalClose(ss: seq<Session>, id: int, end: Stamp, duration: Option<int>, d: int)
    requires IdsIncreasing(ss)
    ensures TotalSecondsForDate(Close(ss, id, end, duration), d) == TotalSecondsForDate(ss, d) +
      match Find(ss, id)
      case None => 0
      case Some(s) => Contribution(s.(end := Some(end), duration := duration), d) - Contribution(s, d)
  {
    if |ss| > 0 {
      var c := Close(ss, id, end, duration);
      assert c[1..] == Close(ss[1..], id, end, duration);
      assert IdsIncreasing(ss[1..]);
      if ss[0].id == id {
        HeadIdUnique(ss);
        CloseAbsent(ss[1..], id, end, duration);
      } else {
        TotalClose(ss[1..], id, end, duration, d);
      }
    }
  }

  /** With increasing ids the first row's id occurs nowhere after it. */
  lemma HeadIdUnique(ss: seq<Session>)
    requires IdsIncreasing(ss) && |ss| > 0
    ensures forall s | s in ss[1..] :: s.id != ss[0].id
  {
    forall s | s in ss[1..] ensures s.id != ss[0].id {
      var k :| 0 <= k < |ss[1..]| && ss[1..][k] == s;
      assert ss[k + 1] == s;
    }
  }

  /** The UPDATE changes nothing when no row has the id. */
  lemma CloseAbsent(ss: seq<Session>, id: int, end: Stamp, duration: Option<int>)
    requires forall s | s in ss :: s.id != id
    ensures Close(ss, id, end, duration) == ss
  {
    var c := Close(ss, id, end, duration);
    forall i | 0 <= i < |ss| ensures c[i] == ss[i] {
      assert ss[i] in ss;
    }
  }

  /** Closing an open row adds its new duration to every day its start or
      (new) end falls on, and leaves every other day's total alone. */
  lemma EndSessionTotal(db: Db, id: int, end: Stamp, d: int)
    requires Valid(db)
    requires Find(db.sessions, id).Some? && Find(db.sessions, id).value.end.None?
    ensures var s := Find(db.sessions, id).value;
      TotalSecondsForDate(EndSession(db, id, end).sessions, d)
      == TotalSecondsForDate(db.sessions, d) + Contribution(Closed(s, end), d)
  {
    var s := Find(db.sessions, id).value;
    var k :| 0 <= k < |db.sessions| && db.sessions[k] == s;
    assert s.duration.None?;
    assert Contribution(s, d) == 0;
    TotalClose(db.sessions, id, end, Elapsed(s.start, end), d);
  }

  /** Closing an open row at `end` adds its whole seconds to the total of
      the day of `end`. */
  lemma EndSessionTotalOnEndDay(db: Db, id: int, t0: int, end: int)
    requires Valid(db)
    requires Find(db.sessions, id) == Some(Session(id, Iso(t0), None, None))
    ensures TotalSecondsForDate(EndSession(db, id, Iso(end)).sessions, DayOf(end))
      == TotalSecondsForDate(db.sessions, DayOf(end)) + TruncSeconds(end - t0)
  {
    ClosedOpenRow(id, t0, end);
    EndSessionTotal(db, id, Iso(end), DayOf(end));
  }

  /** Closing the newest row leaves every earlier row as it was. */
  lemma EndLastRow(db: Db, end: Stamp)
    requires Valid(db) && |db.sessions| > 0
    ensures var k := |db.sessions| - 1;
      EndSession(db, db.sessions[k].id, end).sessions == db.sessions[..k] + [Closed(db.sessions[k], end)]
  {
    var ss := db.sessions;
    var k := |ss| - 1;
    var last := ss[k];
    FindRow(ss, k);
    assert EndSession(db, last.id, end).sessions == Close(ss, last.id, end, Elapsed(last.start, end));
    CloseLast(ss, end, Elapsed(last.start, end));
  }

  /** With increasing ids the UPDATE of the newest row's id touches only that row. */
  lemma CloseLast(ss: seq<Session>, end: Stamp, duration: Option<int>)
    requires IdsIncreasing(ss) && |ss| > 0
    ensures var k := |ss| - 1;
      Close(ss, ss[k].id, end, duration) == ss[..k] + [ss[k].(end := Some(end), duration := duration)]
  {
    var k := |ss| - 1;
    var c := Close(ss, ss[k].id, end, duration);
    var want := ss[..k] + [ss[k].(end := Some(end), duration := duration)];
    forall i | 0 <= i < |c| ensures c[i] == want[i] {
      if i < k {
        assert ss[i].id < ss[k].id;
      }
    }
  }

  /** Opening a row at `t`, closing it at `m` and opening its continuation
      at `m` appends exactly those two rows. */
  lemma OpenCloseReopen(db: Db, t: int, m: int)
    requires Valid(db)
    ensures var b := StartSession(db, Iso(t));
      var ins := StartSession(EndSession(b.db, b.id, Iso(m)), Iso(m));
      && ins.id == db.nextId + 1
      && ins.db.sessions == db.sessions
           + [Session(db.nextId, Iso(t), Some(Iso(m)), Some(TruncSeconds(m - t))), Session(db.nextId + 1, Iso(m), None, None)]
  {
    var b := StartSession(db, Iso(t));
    var closed := EndSession(b.db, b.id, Iso(m));
    StartThenEnd(db, t, m);
    AppendedRow(closed, Iso(m));
  }

  lemma StartThenEnd(db: Db, t: int, m: int)
    requires Valid(db)
    ensures var b := StartSession(db, Iso(t));
      var closed := EndSession(b.db, b.id, Iso(m));
      && closed.nextId == db.nextId + 1 && Valid(closed)
      && closed.sessions == db.sessions + [Session(db.nextId, Iso(t), Some(Iso(m)), Some(TruncSeconds(m - t)))]
  {
    ClosedOpenRow(db.nextId, t, m);
    var b := StartSession(db, Iso(t));
    EndLastRow(b.db, Iso(m));
    assert b.db.sessions[..|db.sessions|] == db.sessions;
  }

  /** `start_session` appends exactly its row. */
  lemma AppendedRow(db: Db, start: Stamp)
    ensures var ins := StartSession(db, start);
      ins.db.sessions == db.sessions + [Session(db.nextId, start, None, None)] && ins.id == db.nextId
  {
    var ins := StartSession(db, start);
    assert ins.db.sessions == ins.db.sessions[..|db.sessions|] + [ins.db.sessions[|db.sessions|]];
  }

  /** The two rows of OpenCloseReopen change the total of the day of `t`
      by the (signed) whole seconds from `t` to `m`. */
  lemma OpenCloseReopenTotal(ss: seq<Session>, n: int, t: int, m: int)
    ensures TotalSecondsForDate(ss + [Session(n, Iso(t), Some(Iso(m)), Some(TruncSeconds(m - t))), Session(n + 1, Iso(m), None, None)], DayOf(t))
      == TotalSecondsForDate(ss, DayOf(t)) + TruncSeconds(m - t)
  {
    var a := Session(n, Iso(t), Some(Iso(m)), Some(TruncSeconds(m - t)));
    var c := Session(n + 1, Iso(m), None, None);
    TotalAppend(ss, [a, c], DayOf(t));
    assert [a, c][1..] == [c];
    assert [c][1..] == [];
  }

  /** Closing a row that starts at `t0` at instant `m`, then opening a row at
      `m`, adds the closed row's whole seconds to the day of `t0` and to the
      day of `m` (once when they are the same day), and nothing elsewhere. */
  lemma SplitDayTotal(db: Db, id: int, t0: int, m: int, d: int)
    requires Valid(db)
    requires Find(db.sessions, id) == Some(Session(id, Iso(t0), None, None))
    ensures TotalSecondsForDate(StartSession(EndSession(db, id, Iso(m)), Iso(m)).db.sessions, d)
      == TotalSecondsForDate(db.sessions, d)
         + (if d == DayOf(t0) || d == DayOf(m) then TruncSeconds(m - t0) else 0)
  {
    var s := Session(id, Iso(t0), None, None);
    var c := Session(id, Iso(t0), Some(Iso(m)), Some(TruncSeconds(m - t0)));
    assert Closed(s, Iso(m)) == c;
    assert Contribution(c, d) == if d == DayOf(t0) || d == DayOf(m) then TruncSeconds(m - t0) else 0;
    var closed := EndSession(db, id, Iso(m));
    EndSessionTotal(db, id, Iso(m), d);
    StartSessionKeepsTotals(closed, Iso(m), d);
  }

  /** Every id the table holds is below the AUTOINCREMENT counter. */
  lemma FoundBelowNext(db: Db, id: int)
    requires Valid(db) && Find(db.sessions, id).Some?
    ensures id < db.nextId
  {
    var s := Find(db.sessions, id).value;
    assert s in db.sessions;
  }

  /** After the midnight split the old id finds its row closed at `m`. */
  lemma SplitFindsOld(db: Db, id: int, t0: int, m: int)
    requires Valid(db)
    requires Find(db.sessions, id) == Some(Session(id, Iso(t0), None, None))
    ensures Find(StartSession(EndSession(db, id, Iso(m)), Iso(m)).db.sessions, id)
      == Some(Session(id, Iso(t0), Some(Iso(m)), Some(TruncSeconds(m - t0))))
  {
    ClosedOpenRow(id, t0, m);
    FoundBelowNext(db, id);
    var closed := EndSession(db, id, Iso(m));
    EndSessionFinds(db, id, Iso(m));
    StartSessionFind(closed, Iso(m));
  }

  /** After the midnight split the next id finds the continuing row, and found nothing before. */
  lemma SplitFindsNew(db: Db, id: int, m: int)
    requires Valid(db)
    ensures Find(StartSession(EndSession(db, id, Iso(m)), Iso(m)).db.sessions, db.nextId)
      == Some(Session(db.nextId, Iso(m), None, None))
    ensures Find(db.sessions, db.nextId).None?
  {
    StartSessionFind(EndSession(db, id, Iso(m)), Iso(m));
    assert forall x | x in db.sessions :: x.id < db.nextId;
  }

  /** Rows sorted by start, latest first (`ORDER BY start_ts DESC`). */
  predicate SortedByStartDesc(ss: seq<Session>) {
    forall i, j :: 0 <= i < j < |ss| ==> NotBefore(ss[i].start, ss[j].start)
  }

  function Insert(x: Session, ss: seq<Session>): (r: seq<Session>)
    requires SortedByStartDesc(ss)
    ensures SortedByStartDesc(r)
    ensures multiset(r) == multiset(ss) + multiset{x}
  {
    if |ss| == 0 then [x]
    else if NotBefore(x.start, ss[0].start) then
      AheadOfHead(x, ss);
      ConsSorted(x, ss);
      [x] + ss
    else
      var tail := Insert(x, ss[1..]);
      HeadAheadOfInsert(x, ss, tail);
      ConsSorted(ss[0], tail);
      assert ss == [ss[0]] + ss[1..];
      [ss[0]] + tail
  }

  /** A row not before any row of a sorted sequence can head it. */
  lemma ConsSorted(h: Session, t: seq<Session>)
    requires SortedByStartDesc(t)
    requires forall y | y in t :: NotBefore(h.start, y.start)
    ensures SortedByStartDesc([h] + t)
  {
    var r := [h] + t;
    forall i, j | 0 <= i < j < |r| ensures NotBefore(r[i].start, r[j].start) {
      assert r[j] == t[j - 1];
      if i == 0 {
        assert r[j] in t;
      } else {
        assert r[i] == t[i - 1];
      }
    }
  }

  /** What is not before the head of a sorted sequence is not before any of it. */
  lemma AheadOfHead(x: Session, ss: seq<Session>)
    requires SortedByStartDesc(ss) && |ss| > 0 && NotBefore(x.start, ss[0].start)
    ensures forall y | y in ss :: NotBefore(x.start, y.start)
  {
    forall y | y in ss ensures NotBefore(x.start, y.start) {
      var k :| 0 <= k < |ss| && ss[k] == y;
      NotBeforeTotalPreorder(x.start, ss[0].start, ss[k].start);
    }
  }

  /** When `x` goes behind the head, the head stays ahead of all the rest. */
  lemma HeadAheadOfInsert(x: Session, ss: seq<Session>, tail: seq<Session>)
    requires SortedByStartDesc(ss) && |ss| > 0 && !NotBefore(x.start, ss[0].start)
    requires multiset(tail) == multiset(ss[1..]) + multiset{x}
    ensures forall y | y in tail :: NotBefore(ss[0].start, y.start)
  {
    forall y | y in tail ensures NotBefore(ss[0].start, y.start) {
      assert y in multiset(tail);
      if y != x {
        assert y in multiset(ss[1..]);
        var k :| 0 <= k < |ss[1..]| && ss[1..][k] == y;
        assert ss[k + 1] == y;
      } else {
        NotBeforeTotalPreorder(x.start, ss[0].start, x.start);
      }
    }
  }

  function SortByStartDesc(ss: seq<Session>): (r: seq<Session>)
    ensures SortedByStartDesc(r)
    ensures multiset(r) == multiset(ss)
  {
    if |ss| == 0 then []
    else
      assert ss == [ss[0]] + ss[1..];
      Insert(ss[0], SortByStartDesc(ss[1..]))
  }

  /** `get_sessions_for_date`: exactly the rows on day `d`, each as often as
      it is stored, latest start first. */
  function SessionsForDate(ss: seq<Session>, d: int): (r: seq<Session>)
    ensures SortedByStartDesc(r)
    ensures forall s :: multiset(r)[s] == if OnDay(s, d) then multiset(ss)[s] else 0
  {
    SortByStartDesc(Matching(ss, d))
  }
}
