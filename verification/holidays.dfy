/** The holiday predicate `e_festivo` of bot_cambi.py: a date is a holiday
    when the `festivita` table lists that exact date, or when it is a Sunday.
    The table's `ricorrente` flag is stored but never read, so an entry only
    ever covers the one year it names. */
module Holidays {
  import opened Wrappers
  import opened Dates

  /** A row of `festivita`. */
  datatype Holiday = Holiday(date: Date, name: string, recurring: bool)

  /** `SELECT 1 FROM festivita WHERE data = ?`: the first row with that date. */
  function FindHoliday(cal: seq<Holiday>, d: Date): (r: Option<Holiday>)
    ensures r.Some? ==> r.value in cal && r.value.date == d
    ensures r.None? ==> forall h :: h in cal ==> h.date != d
  {
    if |cal| == 0 then None
    else if cal[0].date == d then Some(cal[0])
    else FindHoliday(cal[1..], d)
  }

  /** `e_festivo(data)`. */
  function IsHoliday(cal: seq<Holiday>, d: Date): (r: bool)
    requires Valid(d)
    ensures r <==> (exists h :: h in cal && h.date == d) || Weekday(d) == Sunday
  {
    var listed := FindHoliday(cal, d).Some?;
    if !listed then Weekday(d) == Sunday else listed
  }

  /** Only the dates matter: relabelling entries or flipping `ricorrente`
      changes no answer. */
  lemma RecurringFlagIgnored(cal1: seq<Holiday>, cal2: seq<Holiday>, d: Date)
    requires Valid(d)
    requires |cal1| == |cal2|
    requires forall i :: 0 <= i < |cal1| ==> cal1[i].date == cal2[i].date
    ensures IsHoliday(cal1, d) == IsHoliday(cal2, d)
  {
    if exists h :: h in cal1 && h.date == d {
      var h :| h in cal1 && h.date == d;
      var i :| 0 <= i < |cal1| && cal1[i] == h;
      assert cal2[i] in cal2;
    }
    if exists h :: h in cal2 && h.date == d {
      var h :| h in cal2 && h.date == d;
      var i :| 0 <= i < |cal2| && cal2[i] == h;
      assert cal1[i] in cal1;
    }
  }

  /** The table as the first start-up seeds it: Italy's 2025 holidays,
      Easter Monday marked not recurring. */
  const SeedHolidays: seq<Holiday> := [
    Holiday(Date(2025, 1, 1), "Capodanno", true),
    Holiday(Date(2025, 1, 6), "Epifania", true),
    Holiday(Date(2025, 4, 21), "Pasqua", false),
    Holiday(Date(2025, 4, 25), "Liberazione", true),
    Holiday(Date(2025, 5, 1), "Festa Lavoro", true),
    Holiday(Date(2025, 6, 2), "Festa Repubblica", true),
    Holiday(Date(2025, 8, 15), "Ferragosto", true),
    Holiday(Date(2025, 11, 1), "Ognissanti", true),
    Holiday(Date(2025, 12, 8), "Immacolata", true),
    Holiday(Date(2025, 12, 25), "Natale", true),
    Holiday(Date(2025, 12, 26), "Santo Stefano", true)
  ]

  /** Every seeded entry names a day of 2025. */
  lemma SeedHolidaysIn2025()
    ensures forall i :: 0 <= i < |SeedHolidays| ==> SeedHolidays[i].date.year == 2025
  {
  }

  /** A table whose entries all name days of one year lists no day of another. */
  lemma NotListedOtherYear(cal: seq<Holiday>, y: int, d: Date)
    requires forall i :: 0 <= i < |cal| ==> cal[i].date.year == y
    requires d.year != y
    ensures FindHoliday(cal, d).None?
  {
  }

  lemma SeededChristmas2025()
    ensures Valid(Date(2025, 12, 25)) && IsHoliday(SeedHolidays, Date(2025, 12, 25))
  {
    assert SeedHolidays[9] in SeedHolidays && SeedHolidays[9].date == Date(2025, 12, 25);
  }

  lemma UnlistedChristmas2026()
    ensures Valid(Date(2026, 12, 25)) && !IsHoliday(SeedHolidays, Date(2026, 12, 25))
  {
    KnownWeekdays();
    SeedHolidaysIn2025();
    NotListedOtherYear(SeedHolidays, 2025, Date(2026, 12, 25));
  }

  /** Christmas 2025 (a Thursday) is a holiday, but Christmas 2026 (a
      Friday) is not, although its entry is flagged recurring. */
  lemma SeededChristmasIsYearSpecific(cal: seq<Holiday>)
    requires cal == SeedHolidays
    ensures IsHoliday(cal, Date(2025, 12, 25))
    ensures !IsHoliday(cal, Date(2026, 12, 25))
  {
    SeededChristmas2025();
    UnlistedChristmas2026();
  }
}
