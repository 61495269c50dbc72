/** The time slots offered for a day: the slots of `generate_slots` that are not taken
    and, when a lead time is set, not too soon. */
module Availability {
  import opened Seqs
  import opened Schedule
  import opened Store

  /** `[s for s in slots if not slot_taken(conn, day, s)]`, then, when
      MIN_LEAD_TIME_MINUTES > 0, `[s for s in free_slots if lead_time_ok(day, s)]`,
      with the clock reading `now`. */
  function FreeSlots(settings: Settings, rows: seq<Row>, day: int, now: int): seq<string>
    requires settings.Valid()
  {
    var free := Filter(s => !Taken(rows, day, s), SlotLabels(settings, Weekday(day)));
    if settings.minLeadMinutes > 0 then Filter(s => LeadTimeOk(settings, day, s, now), free) else free
  }

  /** The offered slots keep the order of the day's slots and only drop some of them. */
  lemma FreeSlotsSubsequence(settings: Settings, rows: seq<Row>, day: int, now: int)
    requires settings.Valid()
    ensures IsSubsequence(FreeSlots(settings, rows, day, now), SlotLabels(settings, Weekday(day)))
  {
    var slots := SlotLabels(settings, Weekday(day));
    var notTaken := s => !Taken(rows, day, s);
    var soonEnough := s => LeadTimeOk(settings, day, s, now);
    if settings.minLeadMinutes > 0 {
      var both := s => notTaken(s) && soonEnough(s);
      FilterFusion(notTaken, soonEnough, both, slots);
      FilterIsSubsequence(both, slots);
    } else {
      FilterIsSubsequence(notTaken, slots);
    }
  }

  /** A time is offered exactly when it is one of the day's slots, it is not taken, and,
      when a lead time is set, it passes the lead-time rule. */
  lemma FreeSlotsMembers(settings: Settings, rows: seq<Row>, day: int, now: int, s: string)
    requires settings.Valid()
    ensures s in FreeSlots(settings, rows, day, now) <==>
      && s in SlotLabels(settings, Weekday(day))
      && !Taken(rows, day, s)
      && (settings.minLeadMinutes > 0 ==> LeadTimeOk(settings, day, s, now))
  {
    var slots := SlotLabels(settings, Weekday(day));
    var free := Filter(s => !Taken(rows, day, s), slots);
    if s in slots && !Taken(rows, day, s) {
      var i :| 0 <= i < |slots| && slots[i] == s;
      assert s in free;
      if settings.minLeadMinutes > 0 && LeadTimeOk(settings, day, s, now) {
        var k :| 0 <= k < |free| && free[k] == s;
        assert s in FreeSlots(settings, rows, day, now);
      }
    }
    if s in FreeSlots(settings, rows, day, now) && settings.minLeadMinutes > 0 {
      var k :| 0 <= k < |FreeSlots(settings, rows, day, now)| && FreeSlots(settings, rows, day, now)[k] == s;
      assert s in free;
    }
  }

  /** The day's slot starting `minute` minutes after midnight is offered exactly when
      the loop of `generate_slots` reaches it, no live booking holds it, and, when a lead
      time is set, it starts at least that long after `now`. */
  lemma FreeSlotAt(settings: Settings, rows: seq<Row>, day: int, now: int, minute: nat)
    requires settings.Valid() && minute < MINUTES_PER_DAY
    ensures Label(minute) in FreeSlots(settings, rows, day, now) <==>
      && minute in SlotStarts(settings, Weekday(day))
      && !Taken(rows, day, Label(minute))
      && (settings.minLeadMinutes > 0 ==>
            Instant(day, minute) >= now + settings.minLeadMinutes * MICROS_PER_MINUTE)
  {
    FreeSlotsMembers(settings, rows, day, now, Label(minute));
    LeadTimeOfLabel(settings, day, minute, now);
    LabelIsSlot(settings, Weekday(day), minute);
  }

  /** A time's label is among the day's slots exactly when the time is a slot start. */
  lemma LabelIsSlot(settings: Settings, weekday: int, minute: nat)
    requires settings.Valid() && minute < MINUTES_PER_DAY
    ensures Label(minute) in SlotLabels(settings, weekday) <==> minute in SlotStarts(settings, weekday)
  {
    var starts := SlotStarts(settings, weekday);
    var labels := SlotLabels(settings, weekday);
    SlotStartsSpec(settings, weekday);
    if minute in starts {
      var i :| 0 <= i < |starts| && starts[i] == minute;
      LabelsOfAt(starts, i);
    }
    if Label(minute) in labels {
      var i :| 0 <= i < |labels| && labels[i] == Label(minute);
      LabelsOfAt(starts, i);
      LabelInjective(starts[i], minute);
    }
  }

  /** With the shipped settings, at 14:30 on a work day the 15:00 slot is no longer
      offered, since it is less than an hour away, while a free 16:00 slot still is. */
  lemma ShippedAfternoon(settings: Settings, rows: seq<Row>, day: int)
    requires settings.IsShipped() && Weekday(day) < 6 && !Taken(rows, day, Label(16 * 60))
    ensures Label(15 * 60) !in FreeSlots(settings, rows, day, Instant(day, 14 * 60 + 30))
    ensures Label(16 * 60) in FreeSlots(settings, rows, day, Instant(day, 14 * 60 + 30))
  {
    var now := Instant(day, 14 * 60 + 30);
    FreeSlotAt(settings, rows, day, now, 15 * 60);
    FreeSlotAt(settings, rows, day, now, 16 * 60);
    ShippedWorkDay(settings, Weekday(day));
    WholeHour(16);
    assert SlotLabels(settings, Weekday(day))[7] == Label(16 * 60);
    LabelIsSlot(settings, Weekday(day), 16 * 60);
  }
}
