/**
 * Local wall-clock timestamps as the session ledger stores them.
 *
 * A stored timestamp is ISO 8601 text. Text that `datetime.fromisoformat`
 * (and SQLite's `date()`) can read is modelled by the instant it denotes,
 * in microseconds since a fixed local epoch (datetime's resolution); any
 * other text is kept verbatim and has neither an instant nor a date.
 */
module Clock {
  import opened Optional

  // A second is 1_000_000 microseconds and a day 86_400 seconds, that is
  // 86_400_000_000 microseconds. The numbers are written out where they are
  // used so that the solver sees linear arithmetic.

  datatype Stamp = Iso(micros: int) | Malformed(text: string)

  /** `datetime.fromisoformat`: the instant, or None where it raises. */
  function Parse(s: Stamp): Option<int> {
    match s
    case Iso(t) => Some(t)
    case Malformed(_) => None
  }

  /** Local midnight starting calendar day `d` (`datetime.combine(d, time.min)`). */
  function Midnight(d: int): int {
    d * 86_400_000_000
  }

  /** The calendar day holding instant `t`: the day whose midnights bracket it. */
  function DayOf(t: int): (d: int)
    ensures Midnight(d) <= t < Midnight(d + 1)
  {
    t / 86_400_000_000
  }

  lemma DayOfMidnight(d: int)
    ensures DayOf(Midnight(d)) == d
  {
    var d' := DayOf(Midnight(d));
    assert Midnight(d') <= Midnight(d) < Midnight(d' + 1);
  }

  /** SQLite's `date(ts)`: the day of a readable stamp, NULL otherwise. */
  function StampDay(s: Stamp): (r: Option<int>)
    ensures r.Some? <==> Parse(s).Some?
    ensures r.Some? ==> Midnight(r.value) <= Parse(s).value < Midnight(r.value + 1)
  {
    match s
    case Iso(t) => Some(DayOf(t))
    case Malformed(_) => None
  }

  /** `int(delta.total_seconds())` for a delta of `delta` microseconds:
      whole seconds, truncated toward zero. */
  function TruncSeconds(delta: int): (r: int)
    ensures delta >= 0 ==> 0 <= r && r * 1_000_000 <= delta < (r + 1) * 1_000_000
    ensures delta < 0 ==> r <= 0 && (r - 1) * 1_000_000 < delta <= r * 1_000_000
  {
    if delta >= 0 then delta / 1_000_000 else -((-delta) / 1_000_000)
  }

  /** Truncation toward zero is symmetric about zero: the whole seconds
      from `a` to `b` are those from `b` to `a`, negated. */
  lemma TruncSecondsNegate(a: int, b: int)
    ensures TruncSeconds(b - a) == -TruncSeconds(a - b)
  {
  }

  /** Whole seconds from `start` to `end`, or None when either stamp cannot be read. */
  function Elapsed(start: Stamp, end: Stamp): (r: Option<int>)
    ensures r.Some? <==> start.Iso? && end.Iso?
    ensures r.Some? ==> r.value == TruncSeconds(end.micros - start.micros)
  {
    match (Parse(start), Parse(end))
    case (Some(a), Some(b)) => Some(TruncSeconds(b - a))
    case _ => None
  }

  /** `a` sorts at or above `b` under `ORDER BY ts DESC`: readable stamps by
      instant, unreadable text below every readable stamp and tied among itself. */
  predicate NotBefore(a: Stamp, b: Stamp) {
    match (a, b)
    case (Iso(x), Iso(y)) => x >= y
    case (Iso(_), Malformed(_)) => true
    case (Malformed(_), Iso(_)) => false
    case (Malformed(_), Malformed(_)) => true
  }

  /** NotBefore is a total preorder, so a descending order by it exists. */
  lemma NotBeforeTotalPreorder(a: Stamp, b: Stamp, c: Stamp)
    ensures NotBefore(a, a)
    ensures NotBefore(a, b) || NotBefore(b, a)
    ensures NotBefore(a, b) && NotBefore(b, c) ==> NotBefore(a, c)
  {
  }
}
