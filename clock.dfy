/** A clock without dates: minutes since midnight, always in [0, 1440). */
module Clock {
  import opened Ascii

  const HoursInDay := 24
  const MinutesInHour := 60
  const MinutesInDay := MinutesInHour * HoursInDay

  /** `internal::Clock`; derived equality compares the normalised minutes. */
  datatype Clock = Clock(minutes: nat)

  predicate Valid(c: Clock) {
    c.minutes < MinutesInDay
  }

  /**
   * `Clock::_new`: the u16 sum `hours * 60 + minutes` reduced mod 1440.
   * The requires is the absence of u16 overflow, which every caller must
   * guarantee.
   */
  function NewRaw(hours: nat, minutes: nat): (c: Clock)
    requires hours * MinutesInHour + minutes < 0x1_0000
    ensures Valid(c)
  {
    Clock((hours * MinutesInHour + minutes) % MinutesInDay)
  }

  /** `Clock::new(hours, minutes)`: both are reduced with `rem_euclid` first. */
  function New(hours: int, minutes: int): (c: Clock)
    ensures Valid(c)
    ensures c.minutes == (hours * MinutesInHour + minutes) % MinutesInDay
  {
    var h := hours % HoursInDay;
    var m := minutes % MinutesInDay;
    assert h * MinutesInHour + m < 2880;
    ModCombine(hours, minutes);
    NewRaw(h, m)
  }

  lemma ModCombine(hours: int, minutes: int)
    ensures ((hours % 24) * 60 + minutes % 1440) % 1440 == (hours * 60 + minutes) % 1440
  {
    var a := hours / 24;
    var b := minutes / 1440;
    assert hours == 24 * a + hours % 24;
    assert minutes == 1440 * b + minutes % 1440;
    assert hours * 60 + minutes == (hours % 24) * 60 + minutes % 1440 + 1440 * (a + b);
    ModShift((hours % 24) * 60 + minutes % 1440, a + b);
  }

  lemma ModShift(x: int, k: int)
    ensures (x + 1440 * k) % 1440 == x % 1440
  {
  }

  /** `add_minutes`: a new clock; the receiver, a value, is unchanged. */
  function AddMinutes(c: Clock, minutes: int): (r: Clock)
    requires Valid(c)
    ensures Valid(r)
    ensures r.minutes == (c.minutes + minutes) % MinutesInDay
  {
    var m := minutes % MinutesInDay;
    assert c.minutes + m < 2880;
    ModCombine(0, c.minutes + minutes);
    ModShift(c.minutes + m, minutes / MinutesInDay);
    NewRaw(0, c.minutes + m)
  }

  function DisplayHours(c: Clock): (h: nat)
    requires Valid(c)
    ensures h < HoursInDay
  {
    c.minutes / MinutesInHour
  }

  function DisplayMinutes(c: Clock): (m: nat)
    requires Valid(c)
    ensures m < MinutesInHour
  {
    c.minutes % MinutesInHour
  }

  /** The displayed hours and minutes denote the stored minute of the day. */
  lemma DisplayDenotes(c: Clock)
    requires Valid(c)
    ensures DisplayHours(c) * MinutesInHour + DisplayMinutes(c) == c.minutes
  {
  }

  /** `{:02}`: two decimal digits, zero-padded. */
  function TwoDigits(n: nat): (s: string)
    requires n < 100
    ensures |s| == 2 && IsDigit(s[0]) && IsDigit(s[1])
    ensures DigitValue(s[0]) * 10 + DigitValue(s[1]) == n
  {
    [DigitChar(n / 10), DigitChar(n % 10)]
  }

  /** `Display for Clock`: "HH:MM". */
  function Display(c: Clock): (s: string)
    requires Valid(c)
    ensures |s| == 5 && s[2] == ':'
  {
    TwoDigits(DisplayHours(c)) + ":" + TwoDigits(DisplayMinutes(c))
  }

  /** Reads "HH:MM" back into a minute of the day. */
  function ParseDisplay(s: string): nat
    requires |s| == 5 && IsDigit(s[0]) && IsDigit(s[1]) && IsDigit(s[3]) && IsDigit(s[4])
  {
    (DigitValue(s[0]) * 10 + DigitValue(s[1])) * 60 + DigitValue(s[3]) * 10 + DigitValue(s[4])
  }

  /** The display is zero-padded "HH:MM" and reading it back gives the clock. */
  lemma DisplayRoundTrip(c: Clock)
    requires Valid(c)
    ensures var s := Display(c);
      && IsDigit(s[0]) && IsDigit(s[1]) && IsDigit(s[3]) && IsDigit(s[4])
      && ParseDisplay(s) == c.minutes
  {
    var h, m := TwoDigits(DisplayHours(c)), TwoDigits(DisplayMinutes(c));
    assert Display(c) == h + ":" + m;
    assert Display(c)[3] == m[0] && Display(c)[4] == m[1];
  }

  /** Two clocks are equal exactly when their minute counts agree mod 1440, so `new(24, 0) == new(0, 0)`. */
  lemma NewEquality(h1: int, m1: int, h2: int, m2: int)
    ensures New(h1, m1) == New(h2, m2) <==> (h1 * 60 + m1) % 1440 == (h2 * 60 + m2) % 1440
  {
  }
}
