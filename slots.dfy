/** The half-hour grid of the day and week views (components/TimeSlotCalendar.tsx
    and components/DayView.tsx hold identical copies): the 48 slot labels,
    flooring a start time to its slot, and the 12-hour display text. */
module Slots {

  import opened Wrappers
  import opened Text
  import opened Calendar

  const SlotCount: nat := 48

  /** The `HH:MM` text of an hour and a minute below one hundred: two
      digits, a colon, two digits. */
  function TimeText(h: nat, m: nat): string
    requires h < 100 && m < 100
  {
    [DigitChar(h / 10), DigitChar(h % 10), ':', DigitChar(m / 10), DigitChar(m % 10)]
  }

  /** It is what the source writes: both numbers padded to two digits,
      joined by a colon. */
  lemma TimeTextPadded(h: nat, m: nat)
    requires h < 100 && m < 100
    ensures TimeText(h, m) == Pad2(h) + ":" + Pad2(m)
  {
    Pad2Digits(h);
    Pad2Digits(m);
  }

  /** The label of slot `i`: hour `i / 2`, minute 0 or 30. */
  function SlotLabel(i: nat): string
    requires i < SlotCount
  {
    TimeText(i / 2, (i % 2) * 30)
  }

  /** The time of day a text `HH:MM` names, in minutes. */
  function LabelMinutes(text: string): int
    requires |text| == 5 && AllDigits(text[..2]) && AllDigits(text[3..])
  {
    60 * DigitsValue(text[..2]) + DigitsValue(text[3..])
  }

  /** The parts of an `HH:MM` text, and the minute of the day it names. */
  lemma TimeTextParts(h: nat, m: nat)
    requires h < 100 && m < 100
    ensures var l := TimeText(h, m);
      && |l| == 5 && l[..2] == Pad2(h) && l[2] == ':' && l[3..] == Pad2(m)
      && AllDigits(l[..2]) && AllDigits(l[3..]) && LabelMinutes(l) == 60 * h + m
  {
    TimeTextPadded(h, m);
    Pad2RoundTrip(h);
    Pad2RoundTrip(m);
    var l := TimeText(h, m);
    assert l[..2] == Pad2(h);
    assert l[3..] == Pad2(m);
  }

  lemma TwoDigitLess(x: nat, y: nat)
    requires x < y < 100
    ensures x / 10 < y / 10 || (x / 10 == y / 10 && x % 10 < y % 10)
  {
  }

  lemma DigitCharLess(x: nat, y: nat)
    requires x < y < 10
    ensures DigitChar(x) < DigitChar(y)
  {
  }

  /** An earlier time of day has the smaller `HH:MM` text. */
  lemma TimeTextLess(h1: nat, m1: nat, h2: nat, m2: nat)
    requires h1 < 100 && m1 < 100 && h2 < 100 && m2 < 100
    requires h1 < h2 || (h1 == h2 && m1 < m2)
    ensures LexLess(TimeText(h1, m1), TimeText(h2, m2))
  {
    var a, b := TimeText(h1, m1), TimeText(h2, m2);
    if h1 < h2 {
      TwoDigitLess(h1, h2);
      if h1 / 10 < h2 / 10 {
        DigitCharLess(h1 / 10, h2 / 10);
        LexLessAt(a, b, 0);
      } else {
        DigitCharLess(h1 % 10, h2 % 10);
        assert a[..1] == b[..1];
        LexLessAt(a, b, 1);
      }
    } else {
      TwoDigitLess(m1, m2);
      if m1 / 10 < m2 / 10 {
        DigitCharLess(m1 / 10, m2 / 10);
        assert a[..3] == b[..3];
        LexLessAt(a, b, 3);
      } else {
        DigitCharLess(m1 % 10, m2 % 10);
        assert a[..4] == b[..4];
        LexLessAt(a, b, 4);
      }
    }
  }

  /** Slot `2 * h + q` is hour `h`, half `q`. */
  lemma SlotParts(h: nat, q: nat)
    requires q < 2
    ensures (2 * h + q) / 2 == h && (2 * h + q) % 2 == q
  {
  }

  /** The slot of hour `h` and minute `m` is `2 * h + m / 30`, and its label
      is the hour with the minutes floored to 0 or 30. */
  lemma SlotOfTime(h: nat, m: nat)
    requires h < 24 && m < 60
    ensures 2 * h + m / 30 < SlotCount
    ensures SlotLabel(2 * h + m / 30) == TimeText(h, (m / 30) * 30)
  {
    var q := m / 30;
    assert q < 2;
    SlotParts(h, q);
  }

  /** Slot `i` starts `30 * i` minutes into the day: the labels go up in
      half-hour steps. */
  lemma SlotLabelMinutes(i: nat)
    requires i < SlotCount
    ensures var l := SlotLabel(i);
      |l| == 5 && AllDigits(l[..2]) && AllDigits(l[3..]) && LabelMinutes(l) == 30 * i
  {
    var h, r := i / 2, i % 2;
    TimeTextParts(h, r * 30);
    assert i == 2 * h + r;
  }

  /** The label list `generateTimeSlots` produces. */
  function AllSlots(): (slots: seq<string>)
    ensures |slots| == SlotCount
  {
    seq(SlotCount, i requires 0 <= i < SlotCount => SlotLabel(i))
  }

  /** The label pushed for `hour` and `minute` extends the list by one slot. */
  lemma SlotStep(hour: nat, minute: nat)
    requires hour < 24 && (minute == 0 || minute == 30)
    ensures 2 * hour + minute / 30 < SlotCount
    ensures var k := 2 * hour + minute / 30;
      AllSlots()[..k + 1] == AllSlots()[..k] + [Pad2(hour) + ":" + Pad2(minute)]
  {
    var k := 2 * hour + minute / 30;
    TimeTextPadded(hour, minute);
    SlotOfTime(hour, minute);
    assert (minute / 30) * 30 == minute;
    assert AllSlots()[k] == Pad2(hour) + ":" + Pad2(minute);
    assert AllSlots()[..k + 1] == AllSlots()[..k] + [AllSlots()[k]];
  }

  /** `generateTimeSlots`: for each hour 0..23, for minute 0 and 30, push
      `HH:MM`. */
  method GenerateTimeSlots() returns (slots: seq<string>)
    ensures slots == AllSlots()
  {
    slots := [];
    var hour := 0;
    while hour < 24
      invariant 0 <= hour <= 24
      invariant slots == AllSlots()[..2 * hour]
    {
      var minute := 0;
      while minute < 60
        invariant minute == 0 || minute == 30 || minute == 60
        invariant slots == AllSlots()[..2 * hour + minute / 30]
      {
        var time := Pad2(hour) + ":" + Pad2(minute);
        SlotStep(hour, minute);
        slots := slots + [time];
        minute := minute + 30;
      }
      hour := hour + 1;
    }
    assert AllSlots()[..48] == AllSlots();
  }

  /** The slot list runs from `00:00` to `23:30`, and its labels are
      strictly increasing as strings, hence pairwise distinct. */
  lemma SlotsOrdered()
    ensures AllSlots()[0] == "00:00" && AllSlots()[SlotCount - 1] == "23:30"
    ensures forall i, j :: 0 <= i < j < SlotCount ==> LexLess(AllSlots()[i], AllSlots()[j])
  {
    assert AllSlots()[0] == TimeText(0, 0);
    assert AllSlots()[SlotCount - 1] == TimeText(23, 30);
    forall i, j | 0 <= i < j < SlotCount ensures LexLess(AllSlots()[i], AllSlots()[j]) {
      SlotLabelLess(i, j);
    }
  }

  lemma SlotLabelLess(i: nat, j: nat)
    requires i < j < SlotCount
    ensures LexLess(SlotLabel(i), SlotLabel(j))
  {
    var h1, r1, h2, r2 := i / 2, i % 2, j / 2, j % 2;
    assert i == 2 * h1 + r1 && j == 2 * h2 + r2;
    TimeTextLess(h1, r1 * 30, h2, r2 * 30);
  }

  /** The slot a time of day falls in: two per hour. */
  function SlotIndex(t: Instant): (i: nat)
    ensures i < SlotCount
  {
    2 * t.hour + t.minute / 30
  }

  /** `roundToTimeSlot`: keep the hour, floor the minutes to 0 or 30. */
  function RoundToTimeSlot(t: Instant): (text: string)
    ensures text == SlotLabel(SlotIndex(t))
  {
    var roundedMinutes := (t.minute / 30) * 30;
    TimeTextPadded(t.hour, roundedMinutes);
    SlotOfTime(t.hour, t.minute);
    Pad2(t.hour) + ":" + Pad2(roundedMinutes)
  }

  /** The rounded text is one of the 48 labels: the one at the time's slot. */
  lemma RoundInSlots(t: Instant)
    ensures AllSlots()[SlotIndex(t)] == RoundToTimeSlot(t) && RoundToTimeSlot(t) in AllSlots()
  {
  }

  /** The slot of a time starts at most 29 minutes before it: minutes 0-29
      go to `HH:00`, 30-59 to `HH:30`. */
  lemma RoundFloors(t: Instant)
    ensures var l := RoundToTimeSlot(t);
      |l| == 5 && AllDigits(l[..2]) && AllDigits(l[3..])
      && LabelMinutes(l) <= MinuteOfDay(t) < LabelMinutes(l) + 30
    ensures RoundToTimeSlot(t)[..2] == Pad2(t.hour)
    ensures RoundToTimeSlot(t)[3..] == (if t.minute < 30 then "00" else "30")
  {
    var q := t.minute / 30;
    SlotOfTime(t.hour, t.minute);
    TimeTextParts(t.hour, q * 30);
    if t.minute < 30 {
      assert q * 30 == 0;
      Pad2Digits(0);
    } else {
      assert q * 30 == 30;
      Pad2Digits(30);
    }
  }

  lemma HalfHourMonotone(h1: nat, m1: nat, h2: nat, m2: nat)
    requires m1 < 60 && m2 < 60 && h1 * 60 + m1 <= h2 * 60 + m2
    ensures 2 * h1 + m1 / 30 <= 2 * h2 + m2 / 30
  {
    assert m1 / 30 < 2 && m2 / 30 < 2;
  }

  /** A later time of day never falls in an earlier slot. */
  lemma RoundMonotone(t1: Instant, t2: Instant)
    requires MinuteOfDay(t1) <= MinuteOfDay(t2)
    ensures SlotIndex(t1) <= SlotIndex(t2)
    ensures RoundToTimeSlot(t1) == RoundToTimeSlot(t2) || LexLess(RoundToTimeSlot(t1), RoundToTimeSlot(t2))
  {
    HalfHourMonotone(t1.hour, t1.minute, t2.hour, t2.minute);
    if SlotIndex(t1) < SlotIndex(t2) {
      SlotLabelLess(SlotIndex(t1), SlotIndex(t2));
    }
  }

  /** Every slot is reached: the rounding maps the minutes of a day onto
      all 48 labels, and a slot's own start time rounds to it. */
  lemma RoundOnto(d: Day, i: nat)
    requires i < SlotCount
    ensures RoundToTimeSlot(Instant(d, i / 2, (i % 2) * 30)) == SlotLabel(i)
  {
    var h, r := i / 2, i % 2;
    assert i == 2 * h + r;
    assert SlotIndex(Instant(d, h, r * 30)) == i;
  }

  /** Two times round to the same label exactly when they lie in the same
      half hour. */
  lemma RoundSameSlot(t1: Instant, t2: Instant)
    ensures RoundToTimeSlot(t1) == RoundToTimeSlot(t2) <==> SlotIndex(t1) == SlotIndex(t2)
  {
    if SlotIndex(t1) < SlotIndex(t2) {
      SlotLabelLess(SlotIndex(t1), SlotIndex(t2));
      LexLessIrreflexive(RoundToTimeSlot(t1));
    } else if SlotIndex(t2) < SlotIndex(t1) {
      SlotLabelLess(SlotIndex(t2), SlotIndex(t1));
      LexLessIrreflexive(RoundToTimeSlot(t2));
    }
  }

  /** `hour % 12 || 12`: the 12-hour clock hour. */
  function DisplayHour(hour: nat): (h: nat)
    ensures 1 <= h <= 12
  {
    if hour % 12 == 0 then 12 else hour % 12
  }

  /** `formatTime`: split at `:`, read the hour with `parseInt`, and write
      `h:MM AM` or `h:MM PM`. An unreadable hour is `NaN`, which shows as
      `12` with `AM`; a missing minute part shows as `undefined`. */
  function FormatTime(time: string): (r: string)
    ensures |r| >= 3 && (r[|r| - 3..] == " AM" || r[|r| - 3..] == " PM")
  {
    var parts := Split(time, ':');
    var minutes := if |parts| > 1 then parts[1] else "undefined";
    match ParseIntPrefix(parts[0])
    case None => "12:" + minutes + " AM"
    case Some(hour) =>
      var ampm := if hour >= 12 then "PM" else "AM";
      Decimal(DisplayHour(hour)) + ":" + minutes + " " + ampm
  }

  /** The display text of an `HH:MM` text: the 12-hour clock hour, the same
      minutes, and `PM` exactly from hour 12 on. */
  lemma FormatTimeText(h: nat, m: nat)
    requires h < 100 && m < 100
    ensures FormatTime(TimeText(h, m))
         == Decimal(DisplayHour(h)) + ":" + Pad2(m) + (if h >= 12 then " PM" else " AM")
  {
    var a, b := Pad2(h), Pad2(m);
    TimeTextPadded(h, m);
    Pad2RoundTrip(h);
    Pad2RoundTrip(m);
    assert forall k :: 0 <= k < |a| ==> a[k] != ':';
    assert forall k :: 0 <= k < |b| ==> b[k] != ':';
    SplitAt(a, ':', b);
    SplitNone(b, ':');
    assert TimeText(h, m) == a + [':'] + b;
    assert Split(TimeText(h, m), ':') == [a, b];
    ParsePad2(h);
  }

  /** The display text of slot `i`: 12-hour clock hour, the label's own
      minutes, and `PM` exactly from hour 12 on. */
  lemma FormatSlot(i: nat)
    requires i < SlotCount
    ensures FormatTime(SlotLabel(i))
         == Decimal(DisplayHour(i / 2)) + ":" + Pad2((i % 2) * 30) + (if i / 2 >= 12 then " PM" else " AM")
  {
    FormatTimeText(i / 2, (i % 2) * 30);
  }

  /** The caption of row `i` of the time column: whole-hour rows (even
      `index`) show `formatTime` of their label, half-hour rows show none.
      Task chips carry only the title, so this is the only place
      `formatTime` is shown. */
  function Caption(i: nat): Option<string>
    requires i < SlotCount
  {
    if i % 2 == 0 then Some(FormatTime(SlotLabel(i))) else None
  }

  /** Exactly the whole-hour rows are captioned, each with its hour on the
      12-hour clock, `:00`, and `PM` exactly from noon on. */
  lemma CaptionHours(i: nat)
    requires i < SlotCount
    ensures Caption(i).Some? <==> i % 2 == 0
    ensures i % 2 == 0 ==>
      Caption(i) == Some(Decimal(DisplayHour(i / 2)) + ":00" + (if i / 2 >= 12 then " PM" else " AM"))
  {
    if i % 2 == 0 {
      FormatSlot(i);
      var h := Decimal(DisplayHour(i / 2));
      var ampm := if i / 2 >= 12 then " PM" else " AM";
      assert Pad2((i % 2) * 30) == "00";
      assert h + ":" + "00" + ampm == h + ":00" + ampm;
    }
  }

  /** Row `2 * h`, the whole-hour row of hour `h`, is captioned with that hour. */
  lemma HourRowCaption(h: nat)
    requires h < 24
    ensures Caption(2 * h) == Some(Decimal(DisplayHour(h)) + ":00" + (if h >= 12 then " PM" else " AM"))
  {
    CaptionHours(2 * h);
    assert (2 * h) / 2 == h;
  }

  /** Row `2 * h + 1`, the half-hour row of hour `h`, has no caption. */
  lemma HalfHourRowBlank(h: nat)
    requires h < 24
    ensures Caption(2 * h + 1).None?
  {
    assert (2 * h + 1) % 2 == 1;
  }

  /** Hours 0 and 12 are written `12`, so their rows read `12:00 AM` and
      `12:00 PM`. */
  lemma TwelveCaption()
    ensures Decimal(DisplayHour(0)) + ":00" + " AM" == "12:00 AM"
    ensures Decimal(DisplayHour(12)) + ":00" + " PM" == "12:00 PM"
  {
    assert Decimal(12) == "12";
  }

  /** A task starting between midnight and 00:29 sits in row 0, captioned
      `12:00 AM`. */
  lemma FormatMidnight(t: Instant)
    requires t.hour == 0 && t.minute < 30
    ensures SlotIndex(t) == 0 && Caption(SlotIndex(t)) == Some("12:00 AM")
  {
    assert SlotIndex(t) == 0;
    HourRowCaption(0);
    TwelveCaption();
  }

  /** A task starting between noon and 12:29 sits in row 24, captioned
      `12:00 PM`. */
  lemma FormatNoon(t: Instant)
    requires t.hour == 12 && t.minute < 30
    ensures SlotIndex(t) == 24 && Caption(SlotIndex(t)) == Some("12:00 PM")
  {
    assert SlotIndex(t) == 24;
    HourRowCaption(12);
    TwelveCaption();
  }

  /** A task starting in the second half of an hour sits in the
      uncaptioned row just below its hour's row, so no caption names its
      start. */
  lemma FormatHalfHour(t: Instant)
    requires t.minute >= 30
    ensures SlotIndex(t) == 2 * t.hour + 1 && Caption(SlotIndex(t)).None?
  {
    var h: nat := t.hour;
    assert SlotIndex(t) == 2 * h + 1;
    HalfHourRowBlank(h);
  }
}
