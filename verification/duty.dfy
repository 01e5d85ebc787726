/** The duty report "chi tocca oggi" (`get_chi_tocca_oggi` in bot_cambi.py),
    with today's date and hour passed in instead of read from the clock.

    Entries come in a fixed order: this evening's squad (before 20:00, on a
    day that is neither a holiday nor a Saturday), tonight's squad (Friday
    scheme on Fridays, weekday-night scheme Monday to Thursday), then the
    weekend squad (on Saturdays, Sundays and holidays). A weekday holiday
    therefore gets both a night and a weekend entry, unless its night squad
    is named like the weekend placeholder.
 */
module Duty {
  import opened Wrappers
  import opened Dates
  import opened Holidays
  import opened Rotation

  datatype Slot = Evening | Night | WeekendOrHoliday

  datatype Entry = Entry(slot: Slot, squad: string)

  /** The evening shift starts at 20:00; later in the day it is no longer reported. */
  const EveningStartHour: int := 20

  /** The placeholder the code uses for "no separate night squad"; a night
      squad that happens to carry this name is dropped the same way. */
  const NoNightSquad: string := "Weekend"

  predicate EveningApplies(cal: seq<Holiday>, d: Date, hour: int)
    requires Valid(d)
  {
    hour < EveningStartHour && !IsHoliday(cal, d) && Weekday(d) != Saturday
  }

  predicate WeekendApplies(cal: seq<Holiday>, d: Date)
    requires Valid(d)
  {
    Weekday(d) == Saturday || Weekday(d) == Sunday || IsHoliday(cal, d)
  }

  /** Tonight's squad: the Friday scheme on Fridays, the weekday-night
      scheme Monday to Thursday, the placeholder at weekends. */
  function NightSquad(reg: Registry, d: Date): (r: Result<string, RotationError>)
    requires Valid(d)
    ensures Weekday(d) == 4 ==> r == Resolve(reg, FridayNightsName, d)
    ensures Weekday(d) <= 3 ==> r == Resolve(reg, WeekdayNightsName, d)
    ensures Weekday(d) >= 5 ==> r == Success(NoNightSquad)
  {
    var wd := Weekday(d);
    if wd == 4 then Resolve(reg, FridayNightsName, d)
    else if 0 <= wd <= 3 then Resolve(reg, WeekdayNightsName, d)
    else Success(NoNightSquad)
  }

  predicate HasSlot(entries: seq<Entry>, slot: Slot) {
    exists e :: e in entries && e.slot == slot
  }

  function SlotRank(s: Slot): int {
    match s
    case Evening => 0
    case Night => 1
    case WeekendOrHoliday => 2
  }

  /** The entry for one slot, present when its scheme applies. */
  function SlotEntry(slot: Slot, squad: Option<string>): (r: seq<Entry>)
    ensures |r| == (if squad.Some? then 1 else 0)
    ensures forall e :: e in r ==> e.slot == slot && squad == Some(e.squad)
    ensures squad.Some? ==> r[0] == Entry(slot, squad.value)
  {
    if squad.Some? then [Entry(slot, squad.value)] else []
  }

  /** The report's entries, one per scheme that applies, in slot order. */
  function Assemble(evening: Option<string>, night: Option<string>, weekend: Option<string>): (r: seq<Entry>)
    ensures |r| <= 3
    ensures forall i, j :: 0 <= i < j < |r| ==> SlotRank(r[i].slot) < SlotRank(r[j].slot)
  {
    var a, b, c := SlotEntry(Evening, evening), SlotEntry(Night, night), SlotEntry(WeekendOrHoliday, weekend);
    var r := a + b + c;
    assert forall i :: 0 <= i < |a| ==> r[i] == a[i];
    assert forall i :: |a| <= i < |a| + |b| ==> r[i] == b[i - |a|];
    assert forall i :: |a| + |b| <= i < |r| ==> r[i] == c[i - |a| - |b|];
    r
  }

  /** Which slots the assembled entries hold, and with which squads. */
  lemma AssembleContents(evening: Option<string>, night: Option<string>, weekend: Option<string>)
    ensures var r := Assemble(evening, night, weekend);
            && (HasSlot(r, Evening) <==> evening.Some?)
            && (HasSlot(r, Night) <==> night.Some?)
            && (HasSlot(r, WeekendOrHoliday) <==> weekend.Some?)
            && (forall e :: e in r && e.slot == Evening ==> evening == Some(e.squad))
            && (forall e :: e in r && e.slot == Night ==> night == Some(e.squad))
            && (forall e :: e in r && e.slot == WeekendOrHoliday ==> weekend == Some(e.squad))
  {
    var a, b, c := SlotEntry(Evening, evening), SlotEntry(Night, night), SlotEntry(WeekendOrHoliday, weekend);
    var r := Assemble(evening, night, weekend);
    assert r == a + b + c;
    assert forall e :: e in r <==> e in a || e in b || e in c;
    assert evening.Some? ==> a[0] in r;
    assert night.Some? ==> b[0] in r;
    assert weekend.Some? ==> c[0] in r;
  }

  /** The report for date `d` at `hour`. A resolution failure stops it,
      as the Python exception does. */
  function Report(reg: Registry, cal: seq<Holiday>, d: Date, hour: int): (r: Result<seq<Entry>, RotationError>)
    requires Valid(d) && 0 <= hour < 24
    ensures r.Success? ==> |r.value| <= 3
    ensures r.Success? ==> forall i, j :: 0 <= i < j < |r.value| ==> SlotRank(r.value[i].slot) < SlotRank(r.value[j].slot)
  {
    var evening := if EveningApplies(cal, d, hour) then Resolve(reg, EveningsName, d) else Success("");
    match evening
    case Failure(e) => Failure(e)
    case Success(eveningSquad) =>
      match NightSquad(reg, d)
      case Failure(e) => Failure(e)
      case Success(nightSquad) =>
        var weekend := if WeekendApplies(cal, d) then Resolve(reg, WeekendName, d) else Success("");
        match weekend
        case Failure(e) => Failure(e)
        case Success(weekendSquad) =>
          Success(Assemble(
            if EveningApplies(cal, d, hour) then Some(eveningSquad) else None,
            if nightSquad != NoNightSquad then Some(nightSquad) else None,
            if WeekendApplies(cal, d) then Some(weekendSquad) else None))
  }

  /** The arguments `Report` hands to `Assemble` on success. */
  lemma ReportAssembles(reg: Registry, cal: seq<Holiday>, d: Date, hour: int)
    requires Valid(d) && 0 <= hour < 24
    requires Report(reg, cal, d, hour).Success?
    ensures Resolve(reg, EveningsName, d).Success? || !EveningApplies(cal, d, hour)
    ensures NightSquad(reg, d).Success?
    ensures Resolve(reg, WeekendName, d).Success? || !WeekendApplies(cal, d)
    ensures Report(reg, cal, d, hour).value == Assemble(
              if EveningApplies(cal, d, hour) then Some(Resolve(reg, EveningsName, d).value) else None,
              if NightSquad(reg, d).value != NoNightSquad then Some(NightSquad(reg, d).value) else None,
              if WeekendApplies(cal, d) then Some(Resolve(reg, WeekendName, d).value) else None)
  {
  }

  /** Which entries a successful report holds. */
  lemma ReportSlots(reg: Registry, cal: seq<Holiday>, d: Date, hour: int)
    requires Valid(d) && 0 <= hour < 24
    requires Report(reg, cal, d, hour).Success?
    ensures var entries := Report(reg, cal, d, hour).value;
            && (HasSlot(entries, Evening) <==> EveningApplies(cal, d, hour))
            && (HasSlot(entries, Night) <==> Weekday(d) <= 4 && NightSquad(reg, d).value != NoNightSquad)
            && (HasSlot(entries, WeekendOrHoliday) <==> WeekendApplies(cal, d))
  {
    ReportAssembles(reg, cal, d, hour);
    AssembleContents(
      if EveningApplies(cal, d, hour) then Some(Resolve(reg, EveningsName, d).value) else None,
      if NightSquad(reg, d).value != NoNightSquad then Some(NightSquad(reg, d).value) else None,
      if WeekendApplies(cal, d) then Some(Resolve(reg, WeekendName, d).value) else None);
  }

  /** Each entry names the squad its scheme resolves to. */
  lemma ReportSquads(reg: Registry, cal: seq<Holiday>, d: Date, hour: int)
    requires Valid(d) && 0 <= hour < 24
    requires Report(reg, cal, d, hour).Success?
    ensures var entries := Report(reg, cal, d, hour).value;
            && (forall e :: e in entries && e.slot == Evening ==> Resolve(reg, EveningsName, d) == Success(e.squad))
            && (forall e :: e in entries && e.slot == Night ==> NightSquad(reg, d) == Success(e.squad))
            && (forall e :: e in entries && e.slot == WeekendOrHoliday ==> Resolve(reg, WeekendName, d) == Success(e.squad))
  {
    ReportAssembles(reg, cal, d, hour);
    AssembleContents(
      if EveningApplies(cal, d, hour) then Some(Resolve(reg, EveningsName, d).value) else None,
      if NightSquad(reg, d).value != NoNightSquad then Some(NightSquad(reg, d).value) else None,
      if WeekendApplies(cal, d) then Some(Resolve(reg, WeekendName, d).value) else None);
  }

  /** The report fails exactly when a scheme it needs cannot be resolved. */
  lemma ReportFailure(reg: Registry, cal: seq<Holiday>, d: Date, hour: int)
    requires Valid(d) && 0 <= hour < 24
    ensures Report(reg, cal, d, hour).Failure? <==>
              || (EveningApplies(cal, d, hour) && Resolve(reg, EveningsName, d).Failure?)
              || NightSquad(reg, d).Failure?
              || (WeekendApplies(cal, d) && Resolve(reg, WeekendName, d).Failure?)
  {
  }

  /** No night squad of the registry carries the placeholder name. */
  predicate NightNamesDistinct(reg: Registry, d: Date)
    requires Valid(d)
  {
    NightSquad(reg, d).Success? && Weekday(d) <= 4 ==> NightSquad(reg, d).value != NoNightSquad
  }

  /** Every day has someone on duty: a night squad Monday to Friday, the
      weekend squad on Saturday and Sunday. */
  lemma ReportNeverEmpty(reg: Registry, cal: seq<Holiday>, d: Date, hour: int)
    requires Valid(d) && 0 <= hour < 24
    requires Report(reg, cal, d, hour).Success?
    requires NightNamesDistinct(reg, d)
    ensures |Report(reg, cal, d, hour).value| >= 1
  {
    ReportSlots(reg, cal, d, hour);
    var entries := Report(reg, cal, d, hour).value;
    if Weekday(d) <= 4 {
      assert HasSlot(entries, Night);
    } else {
      assert HasSlot(entries, WeekendOrHoliday);
    }
  }

  /** A holiday on a working day keeps its night squad and adds the weekend
      squad; there is no evening entry. */
  lemma WeekdayHolidayReport(reg: Registry, cal: seq<Holiday>, d: Date, hour: int)
    requires Valid(d) && 0 <= hour < 24
    requires Weekday(d) <= 4 && IsHoliday(cal, d)
    requires Report(reg, cal, d, hour).Success?
    requires NightNamesDistinct(reg, d)
    ensures var entries := Report(reg, cal, d, hour).value;
            && !HasSlot(entries, Evening)
            && HasSlot(entries, Night)
            && HasSlot(entries, WeekendOrHoliday)
  {
    ReportSlots(reg, cal, d, hour);
  }

  /** A working Monday to Thursday that is no holiday: the evening squad
      while it is before 20:00, and the weekday-night squad. */
  lemma WorkingDayReport(reg: Registry, cal: seq<Holiday>, d: Date, hour: int)
    requires Valid(d) && 0 <= hour < 24
    requires Weekday(d) <= 3 && !IsHoliday(cal, d)
    requires Report(reg, cal, d, hour).Success?
    requires NightNamesDistinct(reg, d)
    ensures var entries := Report(reg, cal, d, hour).value;
            && (HasSlot(entries, Evening) <==> hour < EveningStartHour)
            && HasSlot(entries, Night)
            && !HasSlot(entries, WeekendOrHoliday)
            && forall e :: e in entries && e.slot == Night ==> Resolve(reg, WeekdayNightsName, d) == Success(e.squad)
  {
    ReportSlots(reg, cal, d, hour);
    ReportSquads(reg, cal, d, hour);
  }

  /** A weekday night squad named like the placeholder is dropped, so after
      20:00 on a working day from Monday to Friday the report can be empty
      ("Oggi non ci sono turni programmati"). */
  lemma ReportEmptyWhenNightNamedWeekend(reg: Registry, cal: seq<Holiday>, d: Date, hour: int)
    requires Valid(d) && EveningStartHour <= hour < 24
    requires Weekday(d) <= 4 && !IsHoliday(cal, d)
    requires NightSquad(reg, d) == Success(NoNightSquad)
    requires Report(reg, cal, d, hour).Success?
    ensures Report(reg, cal, d, hour).value == []
  {
    ReportSlots(reg, cal, d, hour);
  }

  /** Saturday and Sunday: only the weekend squad. */
  lemma WeekendDayReport(reg: Registry, cal: seq<Holiday>, d: Date, hour: int)
    requires Valid(d) && 0 <= hour < 24
    requires Weekday(d) >= Saturday
    requires Report(reg, cal, d, hour).Success?
    ensures var entries := Report(reg, cal, d, hour).value;
            && entries == [Entry(WeekendOrHoliday, Resolve(reg, WeekendName, d).value)]
  {
    ReportSlots(reg, cal, d, hour);
    ReportSquads(reg, cal, d, hour);
    var entries := Report(reg, cal, d, hour).value;
    assert !HasSlot(entries, Evening) && !HasSlot(entries, Night);
    assert HasSlot(entries, WeekendOrHoliday);
    var e :| e in entries && e.slot == WeekendOrHoliday;
    assert forall x :: x in entries ==> x.slot == WeekendOrHoliday;
    assert entries[0] == e;
  }
}
