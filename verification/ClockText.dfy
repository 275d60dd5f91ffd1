/**
  Clock readings as text: the venue service's validator, Go's layout parser "15:04" used by the
  reservation service, and the formatter that writes what they read.
 */
module ClockText {
  import opened Common
  import opened Time

  datatype TimeError =
    | NoMatch | WrongParts | BadHours | BadMinutes | HoursOutOfRange | MinutesOutOfRange

  datatype Clock = Clock(hour: nat, minute: nat)

  const INT_LIMIT: int := 0x8000_0000_0000_0000

  predicate IsDigit(c: char) {
    '0' <= c <= '9'
  }

  function DigitValue(c: char): nat
    requires IsDigit(c)
  {
    c as int - '0' as int
  }

  function DigitChar(d: nat): char
    requires d < 10
  {
    ('0' as int + d) as char
  }

  // ----- The venue service: pattern, split, and integer conversion -----

  /** `[0-1]?[0-9]|2[0-3]` */
  predicate HourPattern(h: string) {
    || (|h| == 1 && IsDigit(h[0]))
    || (|h| == 2 && '0' <= h[0] <= '1' && IsDigit(h[1]))
    || (|h| == 2 && h[0] == '2' && '0' <= h[1] <= '3')
  }

  /** `[0-5][0-9]` */
  predicate MinutePattern(m: string) {
    |m| == 2 && '0' <= m[0] <= '5' && IsDigit(m[1])
  }

  /** The whole text is an hour, a colon and a minute. */
  predicate MatchesTime(s: string) {
    exists k :: 0 <= k < |s| && s[k] == ':' && HourPattern(s[..k]) && MinutePattern(s[k + 1..])
  }

  /** All the parts of `s` between colons. */
  function SplitAtColons(s: string): (parts: seq<string>)
    ensures |parts| > 0
  {
    if s == "" then [""]
    else
      var rest := SplitAtColons(s[1..]);
      if s[0] == ':' then [""] + rest else [[s[0]] + rest[0]] + rest[1..]
  }

  /** The decimal value of a non-empty digit string. */
  function Decimal(s: string): Option<nat> {
    if s == "" || !IsDigit(s[|s| - 1]) then None
    else if |s| == 1 then Some(DigitValue(s[0]))
    else match Decimal(s[..|s| - 1])
      case None => None
      case Some(n) => Some(10 * n + DigitValue(s[|s| - 1]))
  }

  /** Signed decimal conversion into a 64-bit integer. */
  function Atoi(s: string): Option<int> {
    var signed := s != "" && (s[0] == '+' || s[0] == '-');
    match Decimal(if signed then s[1..] else s)
    case None => None
    case Some(magnitude) =>
      var n: int := magnitude;
      var v := if signed && s[0] == '-' then -n else n;
      if -INT_LIMIT <= v < INT_LIMIT then Some(v) else None
  }

  /** The venue service's validator; `today` is the date it puts on the reading. */
  function ValidateTime(s: string, today: int): Result<Instant, TimeError> {
    if !MatchesTime(s) then Err(NoMatch)
    else
      var parts := SplitAtColons(s);
      if |parts| != 2 then Err(WrongParts)
      else match Atoi(parts[0])
        case None => Err(BadHours)
        case Some(hours) =>
          match Atoi(parts[1])
          case None => Err(BadMinutes)
          case Some(minutes) =>
            if hours < 0 || hours > 23 then Err(HoursOutOfRange)
            else if minutes < 0 || minutes > 59 then Err(MinutesOutOfRange)
            else Ok(At(today, hours, minutes))
  }

  /** Whether the first reading is earlier; an error when either does not validate. */
  function CompareTimes(s: string, t: string, today: int): Result<bool, TimeError> {
    match ValidateTime(s, today)
    case Err(e) => Err(e)
    case Ok(start) =>
      match ValidateTime(t, today)
      case Err(e) => Err(e)
      case Ok(end) => Ok(start < end)
  }

  // ----- Go's parser for the layout "15:04" -----

  /** Reads one or two digits (exactly two when `fixed`); returns the number and the rest. */
  function GetNum(s: string, fixed: bool): (r: Option<(nat, string)>)
    ensures r.Some? ==> r.value.0 < 100 && |r.value.1| < |s|
  {
    if |s| < 1 || !IsDigit(s[0]) then None
    else if |s| < 2 || !IsDigit(s[1]) then
      if fixed then None else Some((DigitValue(s[0]), s[1..]))
    else Some((10 * DigitValue(s[0]) + DigitValue(s[1]), s[2..]))
  }

  function ParseClock(s: string): Option<Clock> {
    match GetNum(s, false)
    case None => None
    case Some((hour, afterHour)) =>
      if hour >= 24 || afterHour == "" || afterHour[0] != ':' then None
      else match GetNum(afterHour[1..], true)
        case None => None
        case Some((minute, rest)) =>
          if minute >= 60 || rest != "" then None else Some(Clock(hour, minute))
  }

  /** Go's formatter for the layout "15:04". */
  function FormatClock(t: Instant): string
  {
    var h, m := HourOf(t), MinuteOf(t);
    assert h < 24 && m < 60;
    TwoDigits(h) + ":" + TwoDigits(m)
  }

  /** A number below 100 as two digits. */
  function TwoDigits(n: nat): (s: string)
    requires n < 100
    ensures |s| == 2
  {
    [DigitChar(n / 10), DigitChar(n % 10)]
  }

  /** Two digits are the digits of the number they denote; a single digit gains a leading zero. */
  lemma DigitsOfReading(s: string)
    requires 1 <= |s| <= 2 && forall i :: 0 <= i < |s| ==> IsDigit(s[i])
    ensures var n := if |s| == 1 then DigitValue(s[0]) else 10 * DigitValue(s[0]) + DigitValue(s[1]);
            TwoDigits(n) == if |s| == 1 then "0" + s else s
  {
  }

  // ----- The two parsers accept the same texts and read the same clock -----

  /** The split and both conversions succeed on every text that matches the pattern. */
  lemma SplitOfMatch(s: string, k: nat)
    requires k < |s| && s[k] == ':' && HourPattern(s[..k]) && MinutePattern(s[k + 1..])
    ensures SplitAtColons(s) == [s[..k], s[k + 1..]]
  {
    NoColons(s[k + 1..]);
    assert s[k..] == [':'] + s[k + 1..];
    assert s[k..][1..] == s[k + 1..];
    assert SplitAtColons(s[k..]) == ["", s[k + 1..]];
    PrefixWithoutColons(s, k);
  }

  lemma {:induction false} NoColons(s: string)
    requires forall i :: 0 <= i < |s| ==> s[i] != ':'
    ensures SplitAtColons(s) == [s]
  {
    if s != "" {
      NoColons(s[1..]);
      assert [s[0]] + s[1..] == s;
    }
  }

  lemma {:induction false} PrefixWithoutColons(s: string, k: nat)
    requires k < |s| && s[k] == ':'
    requires forall i :: 0 <= i < k ==> s[i] != ':'
    ensures SplitAtColons(s) == [s[..k]] + SplitAtColons(s[k + 1..])
  {
    if k == 0 {
      assert s[..0] == "";
    } else {
      PrefixWithoutColons(s[1..], k - 1);
      assert s[1..][..k - 1] == s[1..k];
      assert s[1..][k..] == s[k + 1..];
      assert [s[0]] + s[1..k] == s[..k];
    }
  }

  lemma SmallDecimals(s: string)
    requires 1 <= |s| <= 2 && forall i :: 0 <= i < |s| ==> IsDigit(s[i])
    ensures Atoi(s) == Some(if |s| == 1 then DigitValue(s[0]) else 10 * DigitValue(s[0]) + DigitValue(s[1]))
  {
    if |s| == 2 {
      assert s[..1] == [s[0]];
      assert Decimal(s[..1]) == Some(DigitValue(s[0]));
    }
  }

  /**
    The validator accepts exactly the texts that match the pattern, so its later error branches
    are dead, and it reads the same clock as Go's parser, which accepts exactly the same texts.
   */
  lemma ParsersAgree(s: string, today: int)
    ensures ValidateTime(s, today).Ok? <==> MatchesTime(s)
    ensures ValidateTime(s, today).Err? ==> ValidateTime(s, today) == Err(NoMatch)
    ensures ValidateTime(s, today).Ok? <==> ParseClock(s).Some?
    ensures ParseClock(s).Some? ==>
              var c := ParseClock(s).value;
              c.hour < 24 && c.minute < 60 && ValidateTime(s, today) == Ok(At(today, c.hour, c.minute))
  {
    if MatchesTime(s) {
      MatchIsParsed(s, today);
    } else if ParseClock(s).Some? {
      ParsedMatches(s);
    }
  }

  lemma MatchIsParsed(s: string, today: int)
    requires MatchesTime(s)
    ensures ParseClock(s).Some?
    ensures var c := ParseClock(s).value;
            c.hour < 24 && c.minute < 60 && ValidateTime(s, today) == Ok(At(today, c.hour, c.minute))
  {
    var k :| 0 <= k < |s| && s[k] == ':' && HourPattern(s[..k]) && MinutePattern(s[k + 1..]);
    var h, m := s[..k], s[k + 1..];
    SplitOfMatch(s, k);
    SmallDecimals(h);
    SmallDecimals(m);
    assert h[0] == s[0] && (k == 2 ==> h[1] == s[1]);
    assert GetNum(s, false) == Some((Atoi(h).value, s[k..]));
    assert s[k..][1..] == m;
    assert m[2..] == "";
    assert GetNum(m, true) == Some((Atoi(m).value, ""));
  }

  lemma ParsedMatches(s: string)
    requires ParseClock(s).Some?
    ensures MatchesTime(s)
  {
    var k := |s| - |GetNum(s, false).value.1|;
    assert s[k..] == GetNum(s, false).value.1;
    assert s[k] == ':';
    assert s[k..][1..] == s[k + 1..];
    assert GetNum(s[k + 1..], true).Some?;
    assert HourPattern(s[..k]);
    assert MinutePattern(s[k + 1..]);
  }

  /** What the formatter writes, both parsers read back to the minute. */
  lemma FormatThenParse(t: Instant, today: int)
    ensures ParseClock(FormatClock(t)) == Some(Clock(HourOf(t), MinuteOf(t)))
    ensures ValidateTime(FormatClock(t), today) == Ok(At(today, HourOf(t), MinuteOf(t)))
  {
    var h, m, s := HourOf(t), MinuteOf(t), FormatClock(t);
    assert GetNum(s, false) == Some((h, s[2..]));
    assert GetNum(s[2..][1..], true) == Some((m, s[2..][1..][2..]));
    ParsersAgree(s, today);
  }

  // ----- What a text shows -----

  function Digit(d: nat): char
    requires d < 10
  {
    "0123456789"[d]
  }

  /** The text is the hour in one or two digits, a colon, and the minute in two. */
  predicate Shows(s: string, c: Clock) {
    && c.hour < 24 && c.minute < 60
    && var ending := [':', Digit(c.minute / 10), Digit(c.minute % 10)];
    s == [Digit(c.hour / 10), Digit(c.hour % 10)] + ending || (c.hour < 10 && s == [Digit(c.hour)] + ending)
  }

  ghost predicate Readable(s: string) {
    exists c :: Shows(s, c)
  }

  /** The instant at which the clock shows `c` on the day that begins at `midnight`. */
  function OnClock(midnight: Instant, c: Clock): Instant {
    midnight + c.hour * 3_600_000_000_000 + c.minute * 60_000_000_000
  }

  lemma DigitsAreDigits(d: nat)
    requires d < 10
    ensures Digit(d) == DigitChar(d) && IsDigit(Digit(d)) && DigitValue(Digit(d)) == d
  {
  }

  lemma DigitsShow(ch: char)
    requires IsDigit(ch)
    ensures ch == Digit(DigitValue(ch))
  {
  }

  lemma ShownIsRead(s: string, c: Clock)
    requires Shows(s, c)
    ensures ParseClock(s) == Some(c)
  {
    DigitsAreDigits(c.hour / 10);
    DigitsAreDigits(c.hour % 10);
    DigitsAreDigits(c.minute / 10);
    DigitsAreDigits(c.minute % 10);
    var k := |s| - 3;
    var m := s[k..][1..];
    assert |m| == 2 && m[0] == s[k + 1] && m[1] == s[k + 2];
    assert GetNum(s, false) == Some((c.hour, s[k..]));
    assert GetNum(m, true) == Some((c.minute, m[2..]));
  }

  predicate IsNumber(s: string) {
    1 <= |s| <= 2 && forall i :: 0 <= i < |s| ==> IsDigit(s[i])
  }

  function NumberOf(s: string): (n: nat)
    requires IsNumber(s)
    ensures n < if |s| == 1 then 10 else 100
  {
    if |s| == 1 then DigitValue(s[0]) else 10 * DigitValue(s[0]) + DigitValue(s[1])
  }

  lemma NumberInDigits(s: string)
    requires IsNumber(s)
    ensures var n := NumberOf(s);
            s == if |s| == 1 then [Digit(n)] else [Digit(n / 10), Digit(n % 10)]
  {
    DigitsShow(s[0]);
    DigitsShow(s[|s| - 1]);
    hide Digit;
    if |s| == 2 {
      DivideByTen(DigitValue(s[0]), DigitValue(s[1]));
    }
  }

  lemma DivideByTen(d: nat, e: nat)
    requires e < 10
    ensures (10 * d + e) / 10 == d && (10 * d + e) % 10 == e
  {
  }

  lemma PartsOfReading(s: string) returns (h: string, m: string)
    requires ParseClock(s).Some?
    ensures s == h + [':'] + m && IsNumber(h) && IsNumber(m) && |m| == 2
    ensures ParseClock(s) == Some(Clock(NumberOf(h), NumberOf(m))) && NumberOf(h) < 24 && NumberOf(m) < 60
  {
    var rest := GetNum(s, false).value.1;
    var k := |s| - |rest|;
    h, m := s[..k], rest[1..];
    assert rest == s[k..] && rest == [':'] + m;
    assert h[0] == s[0] && (k == 2 ==> h[1] == s[1]);
  }

  lemma ReadIsShown(s: string)
    requires ParseClock(s).Some?
    ensures Shows(s, ParseClock(s).value)
  {
    hide *;
    var h, m := PartsOfReading(s);
    NumberInDigits(h);
    NumberInDigits(m);
    PartsShow(h, m, NumberOf(h), NumberOf(m));
  }

  lemma PartsShow(h: string, m: string, hour: nat, minute: nat)
    requires hour < 24 && minute < 60 && |m| == 2 && m == [Digit(minute / 10), Digit(minute % 10)]
    requires 1 <= |h| <= 2 && (|h| == 1 ==> hour < 10)
    requires h == if |h| == 1 then [Digit(hour)] else [Digit(hour / 10), Digit(hour % 10)]
    ensures Shows(h + [':'] + m, Clock(hour, minute))
  {
    hide Digit;
    assert [':'] + m == [':', m[0], m[1]];
    assert h + [':'] + m == h + [':', m[0], m[1]];
  }

  /** The parser reads exactly the clock that the text shows, and the validator puts it on the date. */
  lemma ReadingIsShown(s: string, today: int, c: Clock)
    ensures ParseClock(s) == Some(c) <==> Shows(s, c)
    ensures MatchesTime(s) <==> Readable(s)
    ensures ValidateTime(s, today).Ok? <==> Readable(s)
    ensures Shows(s, c) ==> ValidateTime(s, today) == Ok(OnClock(today * 86_400_000_000_000, c))
  {
    ParsersAgree(s, today);
    if ParseClock(s).Some? {
      ReadIsShown(s);
    }
    forall c' | Shows(s, c')
      ensures ParseClock(s) == Some(c')
    {
      ShownIsRead(s, c');
    }
  }

  /** At this instant the clock shows `c`, whatever the seconds. */
  ghost predicate ShownAt(t: Instant, c: Clock) {
    && c.hour < 24 && c.minute < 60
    && exists midnight, weekday ::
         BeginsDay(midnight, weekday, t) && OnClock(midnight, c) <= t < OnClock(midnight, c) + 60_000_000_000
  }

  /** The formatter shows the time of day to the minute, with two digits for the hour. */
  lemma FormatShows(t: Instant, c: Clock)
    requires ShownAt(t, c)
    ensures Shows(FormatClock(t), c) && |FormatClock(t)| == 5
  {
    var midnight, weekday :| BeginsDay(midnight, weekday, t)
                             && OnClock(midnight, c) <= t < OnClock(midnight, c) + 60_000_000_000;
    FieldsOnClock(t, midnight, weekday, c);
    hide HourOf, MinuteOf, Digit;
    DigitsAreDigits(c.hour / 10);
    DigitsAreDigits(c.hour % 10);
    DigitsAreDigits(c.minute / 10);
    DigitsAreDigits(c.minute % 10);
  }

  /** Every instant is shown, and what `OnClock` gives is shown as itself. */
  lemma ClockIsShownAt(midnight: Instant, weekday: nat, t: Instant, c: Clock)
    requires BeginsDay(midnight, weekday, t) && c.hour < 24 && c.minute < 60
    ensures ShownAt(OnClock(midnight, c), c)
  {
    assert BeginsDay(midnight, weekday, OnClock(midnight, c));
  }

  lemma FieldsOnClock(t: Instant, midnight: Instant, weekday: nat, c: Clock)
    requires BeginsDay(midnight, weekday, t) && c.hour < 24 && c.minute < 60
    requires OnClock(midnight, c) <= t < OnClock(midnight, c) + 60_000_000_000
    ensures HourOf(t) == c.hour && MinuteOf(t) == c.minute
  {
    DayBeginsOnce(midnight, weekday, t);
    var d, inHour := DayOf(t), t - OnClock(midnight, c) + c.minute * MINUTE;
    assert t == d * DAY + (c.hour * HOUR + inHour);
    assert t == (d * 24 + c.hour) * HOUR + inHour;
    hide OnClock, BeginsDay, DayOf;
    WithinDay(d, c.hour * HOUR + inHour);
    WithinHour(c.hour, inHour);
    WithinHour(d * 24 + c.hour, inHour);
    WithinMinute(c.minute, inHour - c.minute * MINUTE);
  }

  lemma WithinDay(d: int, rest: int)
    requires 0 <= rest < DAY
    ensures (d * DAY + rest) % DAY == rest
  {
  }

  lemma WithinHour(h: int, rest: int)
    requires 0 <= rest < HOUR
    ensures (h * HOUR + rest) / HOUR == h && (h * HOUR + rest) % HOUR == rest
  {
  }

  lemma WithinMinute(m: int, rest: int)
    requires 0 <= rest < MINUTE
    ensures (m * MINUTE + rest) / MINUTE == m
  {
  }

  /** Comparison looks at the clock alone: the date both readings are put on does not matter. */
  lemma CompareTimesIsClockOrder(s: string, t: string, today: int)
    ensures CompareTimes(s, t, today).Ok? <==> MatchesTime(s) && MatchesTime(t)
    ensures CompareTimes(s, t, today).Ok? ==>
              && ParseClock(s).Some? && ParseClock(t).Some?
              && var a, b := ParseClock(s).value, ParseClock(t).value;
              CompareTimes(s, t, today).value <==> a.hour < b.hour || (a.hour == b.hour && a.minute < b.minute)
  {
    ParsersAgree(s, today);
    ParsersAgree(t, today);
  }
}
