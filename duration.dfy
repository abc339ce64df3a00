/**
 * `sec2hms`: a number of seconds rendered as `HH:MM:SS` through `gmtime`, so only the
 * time of day survives and whole days are lost.
 */
module Duration {
  import opened Wrappers

  const SecondsPerDay: nat := 86400

  /** The hour, minute and second fields of a `struct_time`. */
  datatype Clock = Clock(hours: nat, minutes: nat, seconds: nat)

  predicate ValidClock(c: Clock) {
    c.hours < 24 && c.minutes < 60 && c.seconds < 60
  }

  function ClockSeconds(c: Clock): nat {
    c.hours * 3600 + c.minutes * 60 + c.seconds
  }

  /** The time of day that `gmtime(sec)` reports. */
  function TimeOfDay(sec: nat): (c: Clock)
    ensures ValidClock(c)
    ensures ClockSeconds(c) == sec % SecondsPerDay
  {
    var t := sec % SecondsPerDay;
    Clock(t / 3600, t % 3600 / 60, t % 60)
  }

  /** A valid clock reading is determined by the number of seconds it stands for. */
  lemma ClockSecondsInjective(c: Clock, d: Clock)
    requires ValidClock(c) && ValidClock(d)
    requires ClockSeconds(c) == ClockSeconds(d)
    ensures c == d
  {
    assert c.minutes * 60 + c.seconds < 3600;
    assert d.minutes * 60 + d.seconds < 3600;
  }

  /** TimeOfDay is the only valid reading whose seconds are `sec` modulo one day. */
  lemma TimeOfDayUnique(sec: nat, c: Clock)
    requires ValidClock(c) && ClockSeconds(c) == sec % SecondsPerDay
    ensures c == TimeOfDay(sec)
  {
    ClockSecondsInjective(c, TimeOfDay(sec));
  }

  predicate IsDigit(ch: char) {
    '0' <= ch <= '9'
  }

  function DigitValue(ch: char): nat
    requires IsDigit(ch)
  {
    ch as int - '0' as int
  }

  /** `%02d`: the two decimal digits of `n`, with a leading zero below ten. */
  function TwoDigits(n: nat): (s: string)
    requires n < 100
    ensures |s| == 2 && IsDigit(s[0]) && IsDigit(s[1])
    ensures DigitValue(s[0]) * 10 + DigitValue(s[1]) == n
  {
    [('0' as int + n / 10) as char, ('0' as int + n % 10) as char]
  }

  /** `strftime('%H:%M:%S', gmtime(sec))` for whole, non-negative seconds. */
  function Sec2Hms(sec: nat): (r: string)
    ensures |r| == 8 && r[2] == ':' && r[5] == ':'
    ensures ParseHms(r) == Some(TimeOfDay(sec))
  {
    var c := TimeOfDay(sec);
    TwoDigits(c.hours) + ":" + TwoDigits(c.minutes) + ":" + TwoDigits(c.seconds)
  }

  /** Reads `HH:MM:SS` back into its fields; None for any other shape or out-of-range field. */
  function ParseHms(s: string): (r: Option<Clock>)
    ensures r.Some? ==> ValidClock(r.value)
  {
    if |s| == 8 && s[2] == ':' && s[5] == ':'
       && IsDigit(s[0]) && IsDigit(s[1]) && IsDigit(s[3])
       && IsDigit(s[4]) && IsDigit(s[6]) && IsDigit(s[7])
    then
      var c := Clock(DigitValue(s[0]) * 10 + DigitValue(s[1]),
                     DigitValue(s[3]) * 10 + DigitValue(s[4]),
                     DigitValue(s[6]) * 10 + DigitValue(s[7]));
      if ValidClock(c) then Some(c) else None
    else None
  }

  /** Two durations print the same exactly when they agree modulo one day. */
  lemma Sec2HmsSameIff(a: nat, b: nat)
    ensures Sec2Hms(a) == Sec2Hms(b) <==> a % SecondsPerDay == b % SecondsPerDay
  {
    if Sec2Hms(a) == Sec2Hms(b) {
      assert TimeOfDay(a) == TimeOfDay(b) by {
        assert Some(TimeOfDay(a)) == ParseHms(Sec2Hms(a)) == ParseHms(Sec2Hms(b)) == Some(TimeOfDay(b));
      }
    }
    if a % SecondsPerDay == b % SecondsPerDay {
      TimeOfDayUnique(b, TimeOfDay(a));
    }
  }

  lemma {:induction false} ModDayShift(sec: nat, days: nat)
    ensures (sec + days * SecondsPerDay) % SecondsPerDay == sec % SecondsPerDay
  {
    if days > 0 {
      ModDayShift(sec, days - 1);
      assert sec + days * SecondsPerDay == (sec + (days - 1) * SecondsPerDay) + SecondsPerDay;
    }
  }

  /** Adding whole days does not change the printed duration: the 24-hour wrap. */
  lemma Sec2HmsWrapsDaily(sec: nat, days: nat)
    ensures Sec2Hms(sec + days * SecondsPerDay) == Sec2Hms(sec)
  {
    ModDayShift(sec, days);
    Sec2HmsSameIff(sec + days * SecondsPerDay, sec);
  }
}
