/** The slot generator and the lead-time rule: `generate_slots` and `lead_time_ok`,
    with times as minutes after midnight and dates as proleptic Gregorian ordinals. */
module Schedule {
  import opened Wrappers
  import opened Text
  import opened Numbers

  const MINUTES_PER_DAY := 1440
  /** `datetime` has microsecond resolution. */
  const MICROS_PER_MINUTE := 60_000_000

  /** The work-schedule settings: WORK_DAYS, DAY_START, DAY_END, SLOT_MINUTES and
      MIN_LEAD_TIME_MINUTES. */
  datatype Settings = Settings(workDays: set<int>, dayStart: nat, dayEnd: nat, slotMinutes: int, minLeadMinutes: int) {
    /** DAY_START and DAY_END are times of day, and a slot must have a positive length
        or the slot loop never ends. */
    predicate Valid() {
      dayStart < MINUTES_PER_DAY && dayEnd < MINUTES_PER_DAY && slotMinutes > 0
    }

    /** The values of SETTINGS, field by field. */
    predicate IsShipped() {
      && workDays == {0, 1, 2, 3, 4, 5} && dayStart == 540 && dayEnd == 1080
      && slotMinutes == 60 && minLeadMinutes == 60
    }
  }

  /** The settings the app ships with: Monday to Saturday, 09:00 to 18:00, one-hour
      slots, one hour of lead time. */
  const SETTINGS := Settings({0, 1, 2, 3, 4, 5}, 9 * 60, 18 * 60, 60, 60)

  /** SETTINGS has the shipped values and is well formed. */
  lemma ShippedSettings()
    ensures SETTINGS.IsShipped() && SETTINGS.Valid()
  {
  }

  /** `date.weekday()` (Monday is 0) of the date whose `toordinal()` is `day`;
      ordinal 1, 1 January of year 1, is a Monday. */
  function Weekday(day: int): (w: int)
    ensures 0 <= w < 7
  {
    (day + 6) % 7
  }

  /** The naive `datetime.combine(day, time)` for a time `minute` minutes after midnight,
      counted in microseconds. */
  function Instant(day: int, minute: int): int {
    (day * MINUTES_PER_DAY + minute) * MICROS_PER_MINUTE
  }

  /** `%02d`. */
  function TwoDigits(n: nat): string
    requires n < 100
  {
    [DigitChar(n / 10), DigitChar(n % 10)]
  }

  /** Two digits worth `n`. */
  lemma TwoDigitsValue(n: nat)
    requires n < 100
    ensures var s := TwoDigits(n); |s| == 2 && AllDigits(s) && DigitsValue(s) == n
  {
    var s := TwoDigits(n);
    DigitCharValue(n / 10);
    DigitCharValue(n % 10);
    assert s[..1] == [DigitChar(n / 10)] && s[..1][..0] == [];
    assert DigitsValue(s[..1]) == n / 10;
  }

  /** `t.strftime("%H:%M")` for the time of day `minute` minutes after a midnight. */
  function Label(minute: nat): string {
    ClockText(HourOf(minute), MinuteOf(minute))
  }

  /** The hour a clock shows `minute` minutes after a midnight: it wraps to 0 after 23. */
  function HourOf(minute: nat): (h: nat)
    ensures h < 24
  {
    if minute < 60 then 0 else (HourOf(minute - 60) + 1) % 24
  }

  /** The minute past the hour `minute` minutes after a midnight. */
  function MinuteOf(minute: nat): (m: nat)
    ensures m < 60
  {
    if minute < 60 then minute else MinuteOf(minute - 60)
  }

  /** `%02d:%02d`. */
  function ClockText(h: nat, m: nat): string
    requires h < 100 && m < 100
  {
    TwoDigits(h) + ":" + TwoDigits(m)
  }

  /** The parse inside `lead_time_ok`: `hh, mm = s.split(":")`, then
      `time(int(hh), int(mm))`; every exception this can raise gives None. */
  function ParseClock(s: string): (r: Option<nat>)
    ensures r.Some? ==> r.value < MINUTES_PER_DAY
  {
    ClockOfParts(Split(s, ':'))
  }

  /** Unpacking into `hh, mm` needs exactly two parts; `time(hh, mm)` needs an hour
      below 24 and a minute below 60. */
  function ClockOfParts(parts: seq<string>): (r: Option<nat>)
    ensures r.Some? ==> r.value < MINUTES_PER_DAY
  {
    if |parts| != 2 then None
    else
      var hh, mm := ParseInt(parts[0]), ParseInt(parts[1]);
      if hh.Some? && mm.Some? && 0 <= hh.value < 24 && 0 <= mm.value < 60 then Some(hh.value * 60 + mm.value)
      else None
  }

  /** `lead_time_ok(day, text)` with the clock reading `now` (microseconds, on the
      scale of Instant): text that does not parse is always acceptable. */
  function LeadTimeOk(settings: Settings, day: int, timeText: string, now: int): bool {
    match ParseClock(timeText)
    case None => true
    case Some(m) => Instant(day, m) >= now + settings.minLeadMinutes * MICROS_PER_MINUTE
  }

  /** The slot starts the loop of `generate_slots` emits once `dt` has reached `t`. */
  function StartsFrom(settings: Settings, t: nat): seq<nat>
    requires settings.Valid()
    decreases settings.dayEnd - t
  {
    if t + settings.slotMinutes <= settings.dayEnd then [t] + StartsFrom(settings, t + settings.slotMinutes)
    else []
  }

  /** The slot starts of a day with the given weekday. */
  function SlotStarts(settings: Settings, weekday: int): seq<nat>
    requires settings.Valid()
  {
    if weekday in settings.workDays then StartsFrom(settings, settings.dayStart) else []
  }

  function LabelsOf(ts: seq<nat>): (labels: seq<string>)
    ensures |labels| == |ts|
  {
    if ts == [] then [] else [Label(ts[0])] + LabelsOf(ts[1..])
  }

  lemma {:induction false} LabelsOfAt(ts: seq<nat>, i: nat)
    requires i < |ts|
    ensures LabelsOf(ts)[i] == Label(ts[i])
  {
    if i > 0 {
      LabelsOfAt(ts[1..], i - 1);
    }
  }

  /** `generate_slots(day)` for a day with the given weekday. */
  function SlotLabels(settings: Settings, weekday: int): seq<string>
    requires settings.Valid()
  {
    LabelsOf(SlotStarts(settings, weekday))
  }

  /** `generate_slots(for_day)`: steps from DAY_START by SLOT_MINUTES and emits the label
      of every start whose slot ends by DAY_END. */
  method GenerateSlots(settings: Settings, day: int) returns (slots: seq<string>)
    requires settings.Valid()
    ensures slots == SlotLabels(settings, Weekday(day))
  {
    if Weekday(day) !in settings.workDays {
      return [];
    }
    slots := [];
    var dt: nat := settings.dayStart;
    var endDt := settings.dayEnd;
    while dt + settings.slotMinutes <= endDt
      invariant slots + LabelsOf(StartsFrom(settings, dt)) == SlotLabels(settings, Weekday(day))
      decreases endDt - dt
    {
      StepLabels(settings, slots, dt);
      slots := slots + [Label(dt)];
      dt := dt + settings.slotMinutes;
    }
    assert slots + [] == slots;
  }

  /** One turn of the loop in GenerateSlots moves one label from the pending part to the output. */
  lemma StepLabels(settings: Settings, slots: seq<string>, dt: nat)
    requires settings.Valid() && dt + settings.slotMinutes <= settings.dayEnd
    ensures slots + LabelsOf(StartsFrom(settings, dt)) ==
      (slots + [Label(dt)]) + LabelsOf(StartsFrom(settings, dt + settings.slotMinutes))
  {
    var rest := StartsFrom(settings, dt + settings.slotMinutes);
    assert ([dt] + rest)[1..] == rest;
  }

  /** The loop's output from `t` on: evenly spaced from `t`, every slot ends by DAY_END,
      and the step after the last one would not. */
  lemma {:induction false} StartsFromShape(settings: Settings, t: nat)
    requires settings.Valid()
    ensures var s := StartsFrom(settings, t);
      && (forall i :: 0 <= i < |s| ==> s[i] == t + i * settings.slotMinutes)
      && (forall i :: 0 <= i < |s| ==> s[i] + settings.slotMinutes <= settings.dayEnd)
      && t + |s| * settings.slotMinutes + settings.slotMinutes > settings.dayEnd
    decreases settings.dayEnd - t
  {
    var step := settings.slotMinutes;
    if t + step <= settings.dayEnd {
      var rest := StartsFrom(settings, t + step);
      StartsFromShape(settings, t + step);
      var s := [t] + rest;
      forall i | 1 <= i < |s| ensures s[i] == t + i * step {
        assert s[i] == rest[i - 1] == t + step + (i - 1) * step;
      }
      assert (t + step) + |rest| * step == t + |s| * step;
    }
  }

  /** The slots of a day: none on a day off; otherwise they start at DAY_START, are
      SLOT_MINUTES apart, every one ends by DAY_END, and one more would not. */
  lemma SlotStartsSpec(settings: Settings, weekday: int)
    requires settings.Valid()
    ensures var s := SlotStarts(settings, weekday);
      && (weekday !in settings.workDays ==> s == [])
      && (weekday in settings.workDays ==>
           && (|s| > 0 ==> s[0] == settings.dayStart)
           && (forall i :: 0 <= i < |s| - 1 ==> s[i + 1] == s[i] + settings.slotMinutes)
           && (forall i :: 0 <= i < |s| ==> settings.dayStart <= s[i] && s[i] + settings.slotMinutes <= settings.dayEnd)
           && settings.dayStart + |s| * settings.slotMinutes + settings.slotMinutes > settings.dayEnd)
  {
    if weekday in settings.workDays {
      StartsFromShape(settings, settings.dayStart);
      var s := SlotStarts(settings, weekday);
      forall i | 0 <= i < |s| - 1 ensures s[i + 1] == s[i] + settings.slotMinutes {
        assert (i + 1) * settings.slotMinutes == i * settings.slotMinutes + settings.slotMinutes;
      }
    }
  }

  /** A work day has (DAY_END - DAY_START) / SLOT_MINUTES slots: a trailing partial
      slot is dropped. */
  lemma SlotCount(settings: Settings, weekday: int)
    requires settings.Valid() && weekday in settings.workDays
    ensures |SlotStarts(settings, weekday)| ==
      if settings.dayEnd < settings.dayStart then 0
      else (settings.dayEnd - settings.dayStart) / settings.slotMinutes
  {
    var s := StartsFrom(settings, settings.dayStart);
    assert SlotStarts(settings, weekday) == s;
    var k, step, span := |s|, settings.slotMinutes, settings.dayEnd - settings.dayStart;
    StartsFromShape(settings, settings.dayStart);
    assert span < k * step + step;
    if k > 0 {
      assert s[k - 1] + step <= settings.dayEnd;
      assert s[k - 1] == settings.dayStart + (k - 1) * step;
      assert (k - 1) * step + step == k * step;
      assert (k + 1) * step == k * step + step;
      DivBetween(span, step, k);
    } else if span >= 0 {
      DivBetween(span, step, 0);
    }
  }

  lemma DivBetween(a: int, b: int, k: nat)
    requires b > 0 && k * b <= a < (k + 1) * b
    ensures a / b == k
  {
    var q := a / b;
    if q < k {
      MulMonotone(q + 1, k, b);
      assert false;
    } else if q > k {
      MulMonotone(k + 1, q, b);
      assert false;
    }
  }

  lemma MulMonotone(x: int, y: int, b: nat)
    requires x <= y
    ensures x * b <= y * b
  {
    assert y * b - x * b == (y - x) * b;
  }

  /** With the shipped settings a work day offers exactly 09:00, 10:00, ..., 17:00
      and Sunday offers nothing. */
  lemma ShippedSlots(settings: Settings, weekday: int)
    requires settings.IsShipped() && 0 <= weekday < 7
    ensures SlotLabels(settings, weekday) ==
      if weekday == 6 then []
      else ["09:00", "10:00", "11:00", "12:00", "13:00", "14:00", "15:00", "16:00", "17:00"]
  {
    if weekday != 6 {
      ShippedWorkDay(settings, weekday);
      ShippedTexts();
    }
  }

  /** A shipped work day has nine slots, on the hour from 9 to 17. */
  lemma ShippedWorkDay(settings: Settings, weekday: int)
    requires settings.IsShipped() && 0 <= weekday < 6
    ensures SlotLabels(settings, weekday) ==
      [ClockText(9, 0), ClockText(10, 0), ClockText(11, 0), ClockText(12, 0), ClockText(13, 0),
       ClockText(14, 0), ClockText(15, 0), ClockText(16, 0), ClockText(17, 0)]
  {
    var s := SlotStarts(settings, weekday);
    SlotCount(settings, weekday);
    StartsFromShape(settings, settings.dayStart);
    forall i | 0 <= i < |s| ensures LabelsOf(s)[i] == ClockText(9 + i, 0) {
      LabelsOfAt(s, i);
      assert s[i] == (9 + i) * 60;
      WholeHour(9 + i);
    }
  }

  lemma ShippedTexts()
    ensures [ClockText(9, 0), ClockText(10, 0), ClockText(11, 0), ClockText(12, 0), ClockText(13, 0),
             ClockText(14, 0), ClockText(15, 0), ClockText(16, 0), ClockText(17, 0)] ==
      ["09:00", "10:00", "11:00", "12:00", "13:00", "14:00", "15:00", "16:00", "17:00"]
  {
    assert ClockText(9, 0) == "09:00" && ClockText(10, 0) == "10:00" && ClockText(11, 0) == "11:00";
    assert ClockText(12, 0) == "12:00" && ClockText(13, 0) == "13:00" && ClockText(14, 0) == "14:00";
    assert ClockText(15, 0) == "15:00" && ClockText(16, 0) == "16:00" && ClockText(17, 0) == "17:00";
  }

  /** `h` whole hours after midnight the clock shows `h:00`. */
  lemma {:induction false} WholeHour(h: nat)
    requires h < 24
    ensures HourOf(h * 60) == h && MinuteOf(h * 60) == 0
  {
    if h > 0 {
      WholeHour(h - 1);
      assert h * 60 - 60 == (h - 1) * 60;
    }
  }

  /** The hour and minute a clock shows give back the minute of the day. */
  lemma {:induction false} ClockReading(minute: nat)
    ensures HourOf(minute) * 60 + MinuteOf(minute) == minute % MINUTES_PER_DAY
  {
    if minute >= 60 {
      var earlier := minute - 60;
      ClockReading(earlier);
      var h, m := HourOf(earlier), MinuteOf(earlier);
      var q := earlier / MINUTES_PER_DAY;
      if h < 23 {
        ModUnique(minute, q, h * 60 + m + 60);
      } else {
        ModUnique(minute, q + 1, m);
      }
    }
  }

  lemma ModUnique(a: int, q: int, r: int)
    requires a == q * MINUTES_PER_DAY + r && 0 <= r < MINUTES_PER_DAY
    ensures a % MINUTES_PER_DAY == r
  {
  }

  /** Parsing a label gives back its time of day. */
  lemma LabelRoundTrip(minute: nat)
    ensures ParseClock(Label(minute)) == Some(minute % MINUTES_PER_DAY)
  {
    ClockTextRoundTrip(HourOf(minute), MinuteOf(minute));
    ClockReading(minute);
  }

  lemma ClockTextRoundTrip(h: nat, m: nat)
    requires h < 24 && m < 60
    ensures ParseClock(ClockText(h, m)) == Some(h * 60 + m)
  {
    var hs, ms := TwoDigits(h), TwoDigits(m);
    TwoDigitsValue(h);
    TwoDigitsValue(m);
    ParseDigits(hs);
    ParseDigits(ms);
    SplitAtColon(hs, ms);
    ParseClockOfParts(hs + ":" + ms, hs, ms, h, m);
  }

  /** Text that splits into `hh` and `mm` parses to the clock time of the two numbers. */
  lemma ParseClockOfParts(text: string, hs: string, ms: string, h: nat, m: nat)
    requires Split(text, ':') == [hs, ms]
    requires ParseInt(hs) == Some(h) && ParseInt(ms) == Some(m) && h < 24 && m < 60
    ensures ParseClock(text) == Some(h * 60 + m)
  {
    ClockOfTwoParts(hs, ms, h, m);
  }

  lemma ClockOfTwoParts(hs: string, ms: string, h: nat, m: nat)
    requires ParseInt(hs) == Some(h) && ParseInt(ms) == Some(m) && h < 24 && m < 60
    ensures ClockOfParts([hs, ms]) == Some(h * 60 + m)
  {
  }

  lemma SplitAtColon(hs: string, ms: string)
    requires ':' !in hs && ':' !in ms
    ensures Split(hs + ":" + ms, ':') == [hs, ms]
  {
    assert hs + ":" + ms == Join([hs, ms], [':']);
    SplitJoin([hs, ms], ':');
  }

  /** Different times of day get different labels. */
  lemma LabelInjective(a: nat, b: nat)
    requires a < MINUTES_PER_DAY && b < MINUTES_PER_DAY && Label(a) == Label(b)
    ensures a == b
  {
    LabelRoundTrip(a);
    LabelRoundTrip(b);
    ModSmall(a);
    ModSmall(b);
  }

  lemma ModSmall(a: nat)
    requires a < MINUTES_PER_DAY
    ensures a % MINUTES_PER_DAY == a
  {
  }

  /** On a generated label the lead-time rule is the comparison with now + MIN_LEAD_TIME_MINUTES. */
  lemma LeadTimeOfLabel(settings: Settings, day: int, minute: nat, now: int)
    requires minute < MINUTES_PER_DAY
    ensures LeadTimeOk(settings, day, Label(minute), now) <==>
      Instant(day, minute) >= now + settings.minLeadMinutes * MICROS_PER_MINUTE
  {
    LabelRoundTrip(minute);
    ModSmall(minute);
  }

  /** A time text that does not hold exactly one colon cannot be unpacked into
      `hh, mm`, so it is waved through. */
  lemma LeadTimeColonCount(settings: Settings, day: int, timeText: string, now: int)
    requires multiset(timeText)[':'] != 1
    ensures LeadTimeOk(settings, day, timeText, now)
  {
    SplitCount(timeText, ':');
  }

  /** A text `hh:mm` whose hour is not an integer in 0..23, or whose minute is not
      an integer in 0..59, makes `int()` or `time()` raise, so it is waved through. */
  lemma LeadTimeMalformed(settings: Settings, day: int, hs: string, ms: string, now: int)
    requires ':' !in hs && ':' !in ms
    requires !(ParseInt(hs).Some? && 0 <= ParseInt(hs).value < 24 && ParseInt(ms).Some? && 0 <= ParseInt(ms).value < 60)
    ensures LeadTimeOk(settings, day, hs + ":" + ms, now)
  {
    SplitAtColon(hs, ms);
  }

  /** A text `hh:mm` with an hour in 0..23 and a minute in 0..59 is held to the
      lead time: it passes iff that time of the day is at least the lead time after now. */
  lemma LeadTimeWellFormed(settings: Settings, day: int, hs: string, ms: string, now: int)
    requires ':' !in hs && ':' !in ms
    requires ParseInt(hs).Some? && 0 <= ParseInt(hs).value < 24 && ParseInt(ms).Some? && 0 <= ParseInt(ms).value < 60
    ensures LeadTimeOk(settings, day, hs + ":" + ms, now) <==>
      Instant(day, ParseInt(hs).value * 60 + ParseInt(ms).value) >= now + settings.minLeadMinutes * MICROS_PER_MINUTE
  {
    SplitAtColon(hs, ms);
  }

  /** "\x1c9:00" is waved through: `int()` raises on the separator that `strip()`
      would have removed, so it is never held to the lead time. */
  lemma LeadTimeSeparatorPadded(settings: Settings, day: int, now: int)
    ensures LeadTimeOk(settings, day, [28 as char, '9'] + ":" + "00", now)
  {
    ParseIntKeepsSeparator();
    LeadTimeMalformed(settings, day, [28 as char, '9'], "00", now);
  }
}
