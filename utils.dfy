/**
 * The cooldown evaluator of lib/utils.ts, `checkInteractionTime`.
 *
 * Instants are integer milliseconds since the epoch and are passed in: the
 * source reads the current time with `new Date()` and parses the last claim
 * time from a string. The test `diff / (1000 * 60 * 60) >= 24` on doubles is
 * the integer test `diff >= DayMs`: for an integer `diff` below `DayMs` the
 * quotient is at least 1/3600000 below 24 and cannot round up to it.
 * The remaining time is never negative, so `Math.floor` and `%` agree with
 * Dafny's `/` and `%` wherever they are applied.
 */
module Utils {
  import opened Wrappers
  import opened JsText

  const DayMs: nat := 24 * 60 * 60 * 1000

  /** What `checkInteractionTime` returns. */
  datatype Interaction = Interaction(has24HoursPassed: bool, formattedTime: string)

  /** A duration split into clock fields; `hours` is not bounded by 24. */
  datatype Clock = Clock(hours: nat, minutes: nat, seconds: nat)

  function TotalSeconds(c: Clock): nat {
    c.hours * 3600 + c.minutes * 60 + c.seconds
  }

  /** `timeUntil24HoursInMilliseconds`: zero once a day has passed, else what is left of it. */
  function RemainingMs(last: int, now: int): (r: nat)
    ensures r == 0 <==> now - last >= DayMs
  {
    if now - last >= DayMs then 0 else DayMs - (now - last)
  }

  /** The remaining time in whole seconds, truncated. */
  function RemainingSeconds(last: int, now: int): (s: nat)
    ensures s * 1000 <= RemainingMs(last, now) < (s + 1) * 1000
  {
    RemainingMs(last, now) / 1000
  }

  /** The hour/minute/second decomposition of lines 9 to 14: hours are not taken modulo 24. */
  function Decompose(total: nat): (c: Clock)
    ensures c.minutes < 60 && c.seconds < 60
    ensures TotalSeconds(c) == total
  {
    var minutes := total / 60;
    var hours := minutes / 60;
    assert total == minutes * 60 + total % 60;
    assert minutes == hours * 60 + minutes % 60;
    Clock(hours, minutes % 60, total % 60)
  }

  /** A clock with in-range minutes and seconds is the decomposition of its own total. */
  lemma DecomposeUnique(c: Clock)
    requires c.minutes < 60 && c.seconds < 60
    ensures Decompose(TotalSeconds(c)) == c
  {
    var t := TotalSeconds(c);
    var d := Decompose(t);
    var m := c.hours * 60 + c.minutes;
    assert t == m * 60 + c.seconds;
    DivModUnique60(t, m, c.seconds);
    DivModUnique60(m, c.hours, c.minutes);
  }

  lemma DivModUnique60(a: nat, q: nat, r: nat)
    requires r < 60 && a == q * 60 + r
    ensures a / 60 == q && a % 60 == r
  {
  }

  /** One field of the rendered time: at least two digits, zero-padded. */
  function Field(n: nat): (f: string)
    ensures 2 <= |f| && (|f| == 2 <==> n < 100)
  {
    PadStart(ToDecimal(n), 2, '0')
  }

  /** A field parses back to its number. */
  lemma FieldParses(n: nat)
    ensures AllDigits(Field(n)) && ParseDecimal(Field(n)) == n
  {
    ParsePadded(n, 2);
  }

  /** The `[hours, minutes, seconds].map(padStart).join(':')` rendering of lines 16 to 20. */
  function FormatClock(c: Clock): string {
    Join([Field(c.hours), Field(c.minutes), Field(c.seconds)], ':')
  }

  lemma FormatFields(c: Clock)
    ensures FormatClock(c) == Field(c.hours) + [':'] + Field(c.minutes) + [':'] + Field(c.seconds)
  {
    JoinThree(Field(c.hours), Field(c.minutes), Field(c.seconds), ':');
  }

  /** Reading a rendered time back: split on ':' and parse each of the three fields. */
  function ParseClock(s: string): Option<Clock> {
    var parts := Split(s, ':');
    if |parts| == 3 && AllDigits(parts[0]) && AllDigits(parts[1]) && AllDigits(parts[2])
    then Some(Clock(ParseDecimal(parts[0]), ParseDecimal(parts[1]), ParseDecimal(parts[2])))
    else None
  }

  /** Splitting the rendering on ':' gives the three fields back. */
  lemma FormatSplits(c: Clock)
    ensures Split(FormatClock(c), ':') == [Field(c.hours), Field(c.minutes), Field(c.seconds)]
  {
    var parts := [Field(c.hours), Field(c.minutes), Field(c.seconds)];
    FieldHasNoColon(c.hours);
    FieldHasNoColon(c.minutes);
    FieldHasNoColon(c.seconds);
    SplitJoin(parts, ':');
  }

  lemma FieldHasNoColon(n: nat)
    ensures ':' !in Field(n)
  {
    FieldParses(n);
    NoSepInDigits(Field(n), ':');
  }

  /** The rendering loses nothing: splitting and parsing gives every field back. */
  lemma FormatRoundTrip(c: Clock)
    ensures ParseClock(FormatClock(c)) == Some(c)
  {
    FormatSplits(c);
    FieldParses(c.hours);
    FieldParses(c.minutes);
    FieldParses(c.seconds);
  }

  /** Every field is at least two characters, so the whole is at least eight. */
  lemma FormatLength(c: Clock)
    ensures |FormatClock(c)| == |Field(c.hours)| + |Field(c.minutes)| + |Field(c.seconds)| + 2
    ensures |FormatClock(c)| >= 8
    ensures |FormatClock(c)| == 8 <==> c.hours < 100 && c.minutes < 100 && c.seconds < 100
  {
    FormatFields(c);
  }

  /** `checkInteractionTime(last)` evaluated at the instant `now`. */
  function CheckInteractionTime(last: int, now: int): (r: Interaction)
    ensures r.has24HoursPassed <==> now - last >= DayMs
  {
    var diff := now - last;
    var has24HoursPassed := diff >= DayMs;
    var c := Decompose(RemainingSeconds(last, now));
    Interaction(has24HoursPassed, FormatClock(c))
  }

  /**
   * The source's test on doubles, `diff / (1000 * 60 * 60) >= 24`, read over
   * the reals, is the integer test that `CheckInteractionTime` makes.
   */
  lemma HoursTestIsIntegerTest(diff: int)
    ensures (diff as real) / 3_600_000.0 >= 24.0 <==> diff >= DayMs
  {
  }

  /**
   * The rendered time reads back as hours, minutes below 60 and seconds below
   * 60 that add up to the whole seconds still to wait.
   */
  lemma FormattedTimeReadsBack(last: int, now: int)
    ensures ParseClock(CheckInteractionTime(last, now).formattedTime).Some?
    ensures var c := ParseClock(CheckInteractionTime(last, now).formattedTime).value;
      c.minutes < 60 && c.seconds < 60 && TotalSeconds(c) == RemainingSeconds(last, now)
  {
    FormatRoundTrip(Decompose(RemainingSeconds(last, now)));
  }

  /** Once a day has passed nothing remains and the rendering is all zeros. */
  lemma PassedShowsZero(last: int, now: int)
    requires now - last >= DayMs
    ensures CheckInteractionTime(last, now).has24HoursPassed
    ensures RemainingSeconds(last, now) == 0
    ensures CheckInteractionTime(last, now).formattedTime == "00:00:00"
  {
    RendersZero(RemainingSeconds(last, now));
  }

  /**
   * Within the day after the last claim: not passed, what remains is the rest
   * of the day, between one millisecond and a full day, cut to whole seconds.
   */
  lemma WithinWindow(last: int, now: int)
    requires 0 <= now - last < DayMs
    ensures !CheckInteractionTime(last, now).has24HoursPassed
    ensures RemainingMs(last, now) == DayMs - (now - last)
    ensures 0 < RemainingMs(last, now) <= DayMs
    ensures RemainingSeconds(last, now) == (DayMs - (now - last)) / 1000
    ensures RemainingSeconds(last, now) <= 86400
  {
  }

  /**
   * A last claim after `now` is not clamped: the time still to wait is more
   * than a full day and the hours field shows 24 or more.
   */
  lemma FutureClaimNotClamped(last: int, now: int)
    requires last > now
    ensures !CheckInteractionTime(last, now).has24HoursPassed
    ensures RemainingMs(last, now) > DayMs
    ensures RemainingSeconds(last, now) >= 86400
    ensures Decompose(RemainingSeconds(last, now)).hours >= 24
  {
  }

  /** As `now` advances, the whole seconds still to wait never grow. */
  lemma RemainingNonIncreasing(last: int, now1: int, now2: int)
    requires now1 <= now2
    ensures RemainingMs(last, now2) <= RemainingMs(last, now1)
    ensures RemainingSeconds(last, now2) <= RemainingSeconds(last, now1)
  {
  }

  /**
   * For a fixed last claim the verdict flips from "not passed" to "passed"
   * once, between `last + DayMs - 1` and `last + DayMs`, and never flips back.
   */
  lemma PassedFlipsOnce(last: int, now1: int, now2: int)
    requires now1 <= now2
    ensures CheckInteractionTime(last, now1).has24HoursPassed ==> CheckInteractionTime(last, now2).has24HoursPassed
    ensures !CheckInteractionTime(last, last + DayMs - 1).has24HoursPassed
    ensures CheckInteractionTime(last, last + DayMs).has24HoursPassed
  {
  }

  /** Below 100 a field is its tens digit then its units digit. */
  lemma FieldOf(n: nat, tens: nat, units: nat)
    requires tens < 10 && units < 10 && n == 10 * tens + units
    ensures Field(n) == [DigitChar(tens), DigitChar(units)]
  {
    if tens == 0 {
      OneDigit(n);
      PadOne(DigitChar(n), '0');
    } else {
      TwoDigits(n, tens, units);
      PadTwo(DigitChar(tens), DigitChar(units), '0');
    }
  }

  /** A clock whose fields are below 100 renders as eight characters, two digits per field. */
  lemma ClockDigits(c: Clock, h1: nat, h0: nat, m1: nat, m0: nat, s1: nat, s0: nat)
    requires h1 < 10 && h0 < 10 && m1 < 10 && m0 < 10 && s1 < 10 && s0 < 10
    requires c.hours == 10 * h1 + h0 && c.minutes == 10 * m1 + m0 && c.seconds == 10 * s1 + s0
    ensures FormatClock(c) == [DigitChar(h1), DigitChar(h0), ':', DigitChar(m1), DigitChar(m0), ':', DigitChar(s1), DigitChar(s0)]
  {
    FormatFields(c);
    FieldOf(c.hours, h1, h0);
    FieldOf(c.minutes, m1, m0);
    FieldOf(c.seconds, s1, s0);
    ThreePairs(DigitChar(h1), DigitChar(h0), DigitChar(m1), DigitChar(m0), DigitChar(s1), DigitChar(s0), ':');
  }

  lemma ThreePairs(a: char, b: char, c: char, d: char, e: char, f: char, sep: char)
    ensures [a, b] + [sep] + [c, d] + [sep] + [e, f] == [a, b, sep, c, d, sep, e, f]
  {
  }

  /** 3661 seconds still to wait render as one hour, one minute and one second. */
  lemma RendersHourMinuteSecond(t: nat)
    requires t == 3661
    ensures FormatClock(Decompose(t)) == "01:01:01"
  {
    var c := Decompose(t);
    assert c.hours == 1 && c.minutes == 1 && c.seconds == 1 by {
      DecomposeUnique(Clock(1, 1, 1));
    }
    ClockDigits(c, 0, 1, 0, 1, 0, 1);
    DigitChars();
  }

  /** 59 seconds still to wait render with zero hours and zero minutes. */
  lemma RendersSecondsOnly(t: nat)
    requires t == 59
    ensures FormatClock(Decompose(t)) == "00:00:59"
  {
    DecomposeUnique(Clock(0, 0, t));
    SecondsRender(Decompose(t));
  }

  lemma SecondsRender(c: Clock)
    requires c.hours == 0 && c.minutes == 0 && c.seconds == 59
    ensures FormatClock(c) == "00:00:59"
  {
    ClockDigits(c, 0, 0, 0, 0, 5, 9);
    DigitChars();
  }

  /** Nothing left to wait renders as all zeros. */
  lemma RendersZero(t: nat)
    requires t == 0
    ensures FormatClock(Decompose(t)) == "00:00:00"
  {
    DecomposeUnique(Clock(0, 0, t));
    ZerosRender(Decompose(t));
  }

  lemma ZerosRender(c: Clock)
    requires c.hours == 0 && c.minutes == 0 && c.seconds == 0
    ensures FormatClock(c) == "00:00:00"
  {
    ClockDigits(c, 0, 0, 0, 0, 0, 0);
    DigitChars();
  }

  lemma DigitChars()
    ensures DigitChar(0) == '0' && DigitChar(1) == '1' && DigitChar(5) == '5' && DigitChar(9) == '9'
  {
  }

  /** Within the window the rendering is exactly eight characters: hours stay below 100. */
  lemma WindowFormatLength(last: int, now: int)
    requires now - last >= 0
    ensures |CheckInteractionTime(last, now).formattedTime| == 8
  {
    var c := Decompose(RemainingSeconds(last, now));
    assert c.hours <= 24;
    FormatLength(c);
  }
}
