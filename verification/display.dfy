/**
 * The text the window shows for a number of seconds: `hh:mm:ss` built from
 * Python's floor division (`_format_duration` and the "today" label), and
 * a marker for a session still in progress. Parsing the text back is the
 * partner that shows the rendering loses nothing.
 */
module Display {
  import opened Optional

  /** Shown instead of a duration for a row whose duration is NULL. */
  const InProgress: string := "진행 중"

  /** Precedes the day total on the window's label ("used today: "). */
  const TodayPrefix: string := "오늘 사용: "

  datatype Parts = Parts(hours: int, minutes: int, seconds: int)

  /** `t // 3600`, `(t % 3600) // 60`, `t % 60`: Python's floor division,
      which Dafny's Euclidean division matches for a positive divisor. */
  function Split(total: int): (p: Parts)
    ensures p.hours * 3600 + p.minutes * 60 + p.seconds == total
    ensures 0 <= p.minutes < 60 && 0 <= p.seconds < 60
    ensures total >= 0 <==> p.hours >= 0
  {
    Parts(total / 3600, (total % 3600) / 60, total % 60)
  }

  predicate IsDigit(c: char) {
    '0' <= c <= '9'
  }

  predicate AllDigits(s: string) {
    forall i :: 0 <= i < |s| ==> IsDigit(s[i])
  }

  function DigitChar(n: int): (c: char)
    requires 0 <= n < 10
    ensures IsDigit(c)
  {
    (n + '0' as int) as char
  }

  /** Decimal digits of `n`, most significant first, no leading zero. */
  function Digits(n: nat): (s: string)
    ensures |s| >= 1 && AllDigits(s)
    ensures n < 10 <==> |s| == 1
    ensures 10 <= n < 100 ==> |s| == 2
  {
    if n < 10 then [DigitChar(n)] else Digits(n / 10) + [DigitChar(n % 10)]
  }

  /** `format(n, '02d')`: at least two characters, zero-padded after any sign. */
  function Pad2(n: int): (s: string)
    ensures |s| >= 2
    ensures 0 <= n < 100 ==> |s| == 2
    ensures s[0] == '-' <==> n < 0
  {
    if n < 0 then "-" + Digits(-n)
    else if n < 10 then "0" + Digits(n)
    else Digits(n)
  }

  /** `f"{h:02d}:{m:02d}:{s:02d}"` of the split of `total`: colons before
      the two-wide minute and second fields, and a leading minus exactly
      for a negative total. */
  function Hms(total: int): (s: string)
    ensures |s| >= 8 && s[|s| - 6] == ':' && s[|s| - 3] == ':'
    ensures s[0] == '-' <==> total < 0
  {
    var p := Split(total);
    var h := Pad2(p.hours);
    HmsLayout(h, Pad2(p.minutes), Pad2(p.seconds));
    h + ":" + Pad2(p.minutes) + ":" + Pad2(p.seconds)
  }

  /** `_format_duration`: the marker for NULL, otherwise `hh:mm:ss`. */
  function FormatDuration(seconds: Option<int>): (s: string)
    ensures s == InProgress <==> seconds.None?
  {
    match seconds
    case None => InProgress
    case Some(t) => Hms(t)
  }

  /** The label text for a day total: the prefix, then the `hh:mm:ss` text. */
  function Label(total: int): (s: string)
    ensures |s| >= |TodayPrefix| + 8 && s[..|TodayPrefix|] == TodayPrefix
  {
    TodayPrefix + Hms(total)
  }

  function DigitsValue(s: string): nat
    requires AllDigits(s)
  {
    if |s| == 0 then 0 else DigitsValue(s[..|s| - 1]) * 10 + (s[|s| - 1] as int - '0' as int)
  }

  function ParseNat(s: string): Option<nat> {
    if |s| > 0 && AllDigits(s) then Some(DigitsValue(s)) else None
  }

  function ParseInt(s: string): Option<int> {
    if |s| > 0 && s[0] == '-' then
      match ParseNat(s[1..])
      case Some(n) => Some(-(n as int))
      case None => None
    else ParseNat(s)
  }

  /** Reads `h:mm:ss` back, the hour field possibly signed and of any width. */
  function ParseHms(s: string): Option<int> {
    if |s| < 8 || s[|s| - 6] != ':' || s[|s| - 3] != ':' then None
    else
      match (ParseInt(s[..|s| - 6]), ParseNat(s[|s| - 5..|s| - 3]), ParseNat(s[|s| - 2..]))
      case (Some(h), Some(m), Some(sec)) => Some(h * 3600 + m * 60 + sec)
      case _ => None
  }

  lemma {:induction false} DigitsRoundTrip(n: nat)
    ensures DigitsValue(Digits(n)) == n
  {
    var s := Digits(n);
    if n >= 10 {
      assert s[..|s| - 1] == Digits(n / 10);
      DigitsRoundTrip(n / 10);
    }
  }

  lemma Pad2RoundTrip(n: int)
    ensures ParseInt(Pad2(n)) == Some(n)
    ensures n >= 0 ==> ParseNat(Pad2(n)) == Some(n)
  {
    var s := Pad2(n);
    if n < 0 {
      assert s[1..] == Digits(-n);
      DigitsRoundTrip(-n);
    } else if n < 10 {
      assert s[..1] == "0";
      assert DigitsValue(s[..1]) == 0;
    } else {
      DigitsRoundTrip(n);
    }
  }

  /** Where the fields of `h:mm:ss` sit when the minute and second fields are two wide. */
  lemma HmsLayout(h: string, m: string, sec: string)
    requires |h| >= 2 && |m| == 2 && |sec| == 2
    ensures var s := h + ":" + m + ":" + sec;
      && |s| >= 8 && s[|s| - 6] == ':' && s[|s| - 3] == ':'
      && s[..|s| - 6] == h && s[|s| - 5..|s| - 3] == m && s[|s| - 2..] == sec
  {
  }

  /** Every rendered total reads back as that total, signs included: the
      label never shows two different totals the same way. */
  lemma HmsRoundTrip(total: int)
    ensures ParseHms(Hms(total)) == Some(total)
  {
    var p := Split(total);
    var h, m, sec := Pad2(p.hours), Pad2(p.minutes), Pad2(p.seconds);
    assert Hms(total) == h + ":" + m + ":" + sec;
    Pad2RoundTrip(p.hours);
    Pad2RoundTrip(p.minutes);
    Pad2RoundTrip(p.seconds);
    HmsFields(h, m, sec, p.hours, p.minutes, p.seconds);
  }

  /** Three fields laid out by Hms read back as their values. */
  lemma HmsFields(h: string, m: string, sec: string, hours: int, minutes: nat, seconds: nat)
    requires |h| >= 2 && |m| == 2 && |sec| == 2
    requires ParseInt(h) == Some(hours) && ParseNat(m) == Some(minutes) && ParseNat(sec) == Some(seconds)
    ensures ParseHms(h + ":" + m + ":" + sec) == Some(hours * 3600 + minutes * 60 + seconds)
  {
    HmsLayout(h, m, sec);
  }

  /** The in-progress marker is never confused with a duration, and two
      different durations are never shown alike. */
  lemma FormatDurationInjective(a: Option<int>, b: Option<int>)
    ensures FormatDuration(a) == FormatDuration(b) ==> a == b
  {
    assert ParseHms(InProgress) == None;
    if a.Some? {
      HmsRoundTrip(a.value);
    }
    if b.Some? {
      HmsRoundTrip(b.value);
    }
  }

  /** The window's label is the prefix followed by text that reads back as
      exactly the total it was given. */
  lemma LabelShowsTotal(total: int)
    ensures var l := Label(total);
      && l[..|TodayPrefix|] == TodayPrefix
      && ParseHms(l[|TodayPrefix|..]) == Some(total)
  {
    var l := Label(total);
    assert l[|TodayPrefix|..] == Hms(total);
    HmsRoundTrip(total);
  }
}
