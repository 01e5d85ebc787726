/** "Chi tocca": which squad of a squad type is on duty on a given date
    (`calcola_squadra_di_turno` in bot_cambi.py).

    Every scheme counts from 1 January of the date's OWN year, so its
    rotation restarts each year; the weekday-night scheme ignores the year
    and uses only the weekday. Every index is reduced modulo the type's
    declared squad count and then used to pick from that type's squads in
    `ordine` order.
 */
module Rotation {
  import opened Wrappers
  import opened Dates
  import opened Sorting
  import opened Arith

  /** A row of `tipi_squadra`: `nome` is unique, `numero_squadre` the declared count. */
  datatype SquadType = SquadType(id: int, name: string, count: nat)

  /** A row of `squadre`: the squad's type, display name and rotation position. */
  datatype Squad = Squad(id: int, typeId: int, name: string, order: int)

  /** The two tables the resolver reads. */
  datatype Registry = Registry(types: seq<SquadType>, squads: seq<Squad>)

  /** The four rotation rules, one per squad type the code recognises by name. */
  datatype Scheme = Weekend | WeekdayNights | FridayNights | Evenings

  const WeekendName: string := "Squadre Weekend"
  const WeekdayNightsName: string := "Squadre Notti Feriali"
  const FridayNightsName: string := "Squadre Notti Venerdì"
  const EveningsName: string := "Squadre Sere"

  /** What the resolver answers for a type it cannot rotate. */
  const NotAvailable: string := "N/D"

  /** The failures Python raises while resolving: a declared count of zero
      makes `%` divide by zero, and an index past the registered squads
      makes `squadre[indice]` raise `IndexError`. */
  datatype RotationError = ZeroSquadCount | RosterIncomplete(index: nat, registered: nat)

  /** The rule the code attaches to a squad-type name; other names have none. */
  function SchemeOf(name: string): (r: Option<Scheme>)
    ensures r == Some(Weekend) <==> name == WeekendName
    ensures r == Some(WeekdayNights) <==> name == WeekdayNightsName
    ensures r == Some(FridayNights) <==> name == FridayNightsName
    ensures r == Some(Evenings) <==> name == EveningsName
  {
    if name == WeekendName then Some(Weekend)
    else if name == WeekdayNightsName then Some(WeekdayNights)
    else if name == FridayNightsName then Some(FridayNights)
    else if name == EveningsName then Some(Evenings)
    else None
  }

  /** `SELECT ... FROM tipi_squadra WHERE nome = ?`: the first row with that name. */
  function FindType(types: seq<SquadType>, name: string): (r: Option<SquadType>)
    ensures r.Some? ==> r.value in types && r.value.name == name
    ensures r.None? <==> forall t :: t in types ==> t.name != name
  {
    if |types| == 0 then None
    else if types[0].name == name then Some(types[0])
    else FindType(types[1..], name)
  }

  /** The squads of one type, in table order. */
  function SquadRowsOfType(squads: seq<Squad>, typeId: int): (r: seq<Squad>)
    ensures forall s :: s in r <==> s in squads && s.typeId == typeId
    ensures |r| <= |squads|
  {
    if |squads| == 0 then []
    else
      assert squads == [squads[0]] + squads[1..];
      (if squads[0].typeId == typeId then [squads[0]] else []) + SquadRowsOfType(squads[1..], typeId)
  }

  /** Filtering keeps every row of the type as often as the table holds it
      and drops every other row. */
  lemma {:induction false} SquadRowsOfTypeCount(squads: seq<Squad>, typeId: int, s: Squad)
    ensures multiset(SquadRowsOfType(squads, typeId))[s] == (if s.typeId == typeId then multiset(squads)[s] else 0)
  {
    if |squads| > 0 {
      SquadRowsOfTypeCount(squads[1..], typeId, s);
      assert squads == [squads[0]] + squads[1..];
    }
  }

  /** `ORDER BY ordine`. */
  predicate OrderLe(a: Squad, b: Squad) {
    a.order <= b.order
  }

  lemma OrderLeIsTotalPreorder()
    ensures TotalPreorder(OrderLe)
  {
  }

  /** The squads of a type sorted by `ordine` (rows with equal `ordine`
      keep table order). */
  function SquadsOf(squads: seq<Squad>, typeId: int): (r: seq<Squad>)
    ensures SortedBy(r, OrderLe)
    ensures multiset(r) == multiset(SquadRowsOfType(squads, typeId))
    ensures forall s :: s in r <==> s in squads && s.typeId == typeId
  {
    OrderLeIsTotalPreorder();
    var r := Sort(SquadRowsOfType(squads, typeId), OrderLe);
    assert forall s :: s in r <==> s in multiset(r);
    r
  }

  /** Weekend: one step per 7-day block counted from 1 January. */
  function WeekendIndex(d: Date, n: nat): (r: nat)
    requires Valid(d) && n > 0
    ensures r < n
  {
    (DayOfYear0(d) / 7) % n
  }

  /** Weekday nights: days since the Monday of the date's week. */
  function WeekdayNightsIndex(d: Date, n: nat): (r: nat)
    requires Valid(d) && n > 0
    ensures r < n
    ensures r == Weekday(d) % n
  {
    var mondayOrdinal := Ordinal(d) - Weekday(d);
    (Ordinal(d) - mondayOrdinal) % n
  }

  /** Friday nights: one step per two 7-day blocks counted from 1 January. */
  function FridayNightsIndex(d: Date, n: nat): (r: nat)
    requires Valid(d) && n > 0
    ensures r < n
  {
    ((DayOfYear0(d) / 7) / 2) % n
  }

  /** Evenings: one step per day counted from 1 January. */
  function EveningsIndex(d: Date, n: nat): (r: nat)
    requires Valid(d) && n > 0
    ensures r < n
  {
    DayOfYear0(d) % n
  }

  function RotationIndex(scheme: Scheme, d: Date, n: nat): (r: nat)
    requires Valid(d) && n > 0
    ensures r < n
  {
    match scheme
    case Weekend => WeekendIndex(d, n)
    case WeekdayNights => WeekdayNightsIndex(d, n)
    case FridayNights => FridayNightsIndex(d, n)
    case Evenings => EveningsIndex(d, n)
  }

  /** `calcola_squadra_di_turno(tipo_squadra, data)`.

      An unregistered type name, or a registered one without a rule, gives
      "N/D". Otherwise the rule's index, always below the declared count,
      picks from the type's squads in `ordine` order; the two Python
      exceptions become `Failure`. */
  function Resolve(reg: Registry, name: string, d: Date): (r: Result<string, RotationError>)
    requires Valid(d)
    ensures FindType(reg.types, name).None? ==> r == Success(NotAvailable)
    ensures SchemeOf(name).None? ==> r == Success(NotAvailable)
    ensures r.Failure? ==> FindType(reg.types, name).Some? && SchemeOf(name).Some?
    ensures FindType(reg.types, name).Some? && FindType(reg.types, name).value.count == 0 && SchemeOf(name).Some?
            ==> r == Failure(ZeroSquadCount)
    ensures r.Success? && FindType(reg.types, name).Some? && SchemeOf(name).Some? ==>
              var t := FindType(reg.types, name).value;
              && t.count > 0
              && RotationIndex(SchemeOf(name).value, d, t.count) < |SquadsOf(reg.squads, t.id)|
              && exists s :: s in reg.squads && s.typeId == t.id && s.name == r.value
  {
    match FindType(reg.types, name)
    case None => Success(NotAvailable)
    case Some(t) =>
      var squads := SquadsOf(reg.squads, t.id);
      match SchemeOf(name)
      case None => Success(NotAvailable)
      case Some(scheme) =>
        if t.count == 0 then Failure(ZeroSquadCount)
        else
          var index := RotationIndex(scheme, d, t.count);
          if index < |squads| then
            assert squads[index] in squads;
            Success(squads[index].name)
          else Failure(RosterIncomplete(index, |squads|))
  }

  /** With the declared number of squads registered, every recognised type
      resolves to the squad at the rule's position in `ordine` order. */
  lemma ResolvePicksOrderedSquad(reg: Registry, name: string, d: Date)
    requires Valid(d)
    requires FindType(reg.types, name).Some? && SchemeOf(name).Some?
    requires FindType(reg.types, name).value.count > 0
    requires RotationIndex(SchemeOf(name).value, d, FindType(reg.types, name).value.count)
             < |SquadsOf(reg.squads, FindType(reg.types, name).value.id)|
    ensures var t := FindType(reg.types, name).value;
            var i := RotationIndex(SchemeOf(name).value, d, t.count);
            && i < t.count
            && Resolve(reg, name, d) == Success(SquadsOf(reg.squads, t.id)[i].name)
  {
  }

  /** Resolution fails exactly when a recognised, registered type declares no
      squads or has no squad at the position its rule computes (at most as
      many squads as that index). */
  lemma ResolveFailure(reg: Registry, name: string, d: Date)
    requires Valid(d)
    ensures Resolve(reg, name, d).Failure? <==>
              && FindType(reg.types, name).Some?
              && SchemeOf(name).Some?
              && var t := FindType(reg.types, name).value;
                 (t.count == 0 || RotationIndex(SchemeOf(name).value, d, t.count) >= |SquadsOf(reg.squads, t.id)|)
  {
  }

  /** Every rule that counts from 1 January starts the year at position 0. */
  lemma YearStartsAtFirstSquad(y: int, n: nat)
    requires Valid(Date(y, 1, 1)) && n > 0
    ensures WeekendIndex(Date(y, 1, 1), n) == 0
    ensures FridayNightsIndex(Date(y, 1, 1), n) == 0
    ensures EveningsIndex(Date(y, 1, 1), n) == 0
  {
    ZeroMod(n);
  }

  /** Weekend: the squad stays on for the rest of each 7-day block from
      1 January and hands over to the next squad when a new block starts. */
  lemma WeekendNextDay(d: Date, n: nat)
    requires Valid(d) && Valid(NextDay(d)) && NextDay(d).year == d.year && n > 0
    ensures (DayOfYear0(d) + 1) % 7 != 0 ==> WeekendIndex(NextDay(d), n) == WeekendIndex(d, n)
    ensures (DayOfYear0(d) + 1) % 7 == 0 ==> WeekendIndex(NextDay(d), n) == (WeekendIndex(d, n) + 1) % n
  {
    NextDayAdvances(d);
    BlockStep(DayOfYear0(d), 7, n);
  }

  /** Friday nights: the same, with 14-day blocks. */
  lemma FridayNightsNextDay(d: Date, n: nat)
    requires Valid(d) && Valid(NextDay(d)) && NextDay(d).year == d.year && n > 0
    ensures (DayOfYear0(d) + 1) % 14 != 0 ==> FridayNightsIndex(NextDay(d), n) == FridayNightsIndex(d, n)
    ensures (DayOfYear0(d) + 1) % 14 == 0 ==> FridayNightsIndex(NextDay(d), n) == (FridayNightsIndex(d, n) + 1) % n
  {
    NextDayAdvances(d);
    var x := DayOfYear0(d);
    DivDiv(x);
    DivDiv(x + 1);
    BlockStep(x, 14, n);
  }

  /** Evenings: the next squad takes over every day of the year. */
  lemma EveningsNextDay(d: Date, n: nat)
    requires Valid(d) && Valid(NextDay(d)) && NextDay(d).year == d.year && n > 0
    ensures EveningsIndex(NextDay(d), n) == (EveningsIndex(d, n) + 1) % n
  {
    NextDayAdvances(d);
    ModSucc(DayOfYear0(d), n);
  }

  /** On New Year's Day every rule that counts from 1 January restarts at
      the first squad, whatever position 31 December had reached. */
  lemma RotationRestartsEachYear(d: Date, n: nat)
    requires Valid(d) && Valid(NextDay(d)) && NextDay(d).year != d.year && n > 0
    ensures WeekendIndex(NextDay(d), n) == 0
    ensures FridayNightsIndex(NextDay(d), n) == 0
    ensures EveningsIndex(NextDay(d), n) == 0
  {
    NextDayAdvances(d);
    ZeroMod(n);
  }

  /** Weekday nights: the position depends on the weekday alone, never on
      the year, and moves on by one weekday from one day to the next. */
  lemma WeekdayNightsNextDay(d: Date, n: nat)
    requires Valid(d) && Valid(NextDay(d)) && n > 0
    ensures WeekdayNightsIndex(NextDay(d), n) == ((Weekday(d) + 1) % 7) % n
  {
    NextDayWeekday(d);
  }

  lemma WeekdayNightsByWeekday(d1: Date, d2: Date, n: nat)
    requires Valid(d1) && Valid(d2) && n > 0
    requires Weekday(d1) == Weekday(d2)
    ensures WeekdayNightsIndex(d1, n) == WeekdayNightsIndex(d2, n)
  {
  }

  /** The row kept from the head of the table, if it has the type. */
  function HeadRow(s: Squad, typeId: int): seq<Squad> {
    if s.typeId == typeId then [s] else []
  }

  lemma RowsUnfold(squads: seq<Squad>, typeId: int)
    requires |squads| > 0
    ensures SquadRowsOfType(squads, typeId) == HeadRow(squads[0], typeId) + SquadRowsOfType(squads[1..], typeId)
  {
  }

  lemma {:induction false} SquadRowsOfTypeAppend(a: seq<Squad>, b: seq<Squad>, typeId: int)
    ensures SquadRowsOfType(a + b, typeId) == SquadRowsOfType(a, typeId) + SquadRowsOfType(b, typeId)
  {
    if |a| > 0 {
      var ab := a + b;
      assert ab[0] == a[0] && ab[1..] == a[1..] + b;
      RowsUnfold(ab, typeId);
      RowsUnfold(a, typeId);
      SquadRowsOfTypeAppend(a[1..], b, typeId);
      var h := HeadRow(a[0], typeId);
      var ra, rb := SquadRowsOfType(a[1..], typeId), SquadRowsOfType(b, typeId);
      assert h + (ra + rb) == (h + ra) + rb;
    } else {
      assert a + b == b;
    }
  }

  lemma {:induction false} SquadRowsOfTypeAll(a: seq<Squad>, typeId: int)
    ensures (forall s :: s in a ==> s.typeId == typeId) ==> SquadRowsOfType(a, typeId) == a
    ensures (forall s :: s in a ==> s.typeId != typeId) ==> SquadRowsOfType(a, typeId) == []
  {
    if |a| > 0 {
      SquadRowsOfTypeAll(a[1..], typeId);
      assert a == [a[0]] + a[1..];
    }
  }

  /** The tables as the first start-up seeds them: types 1-4 with 4, 3, 2
      and 7 squads, and squads numbered from `ordine` 1 in each type. */
  const SeedTypes: seq<SquadType> :=
    [ SquadType(1, WeekendName, 4), SquadType(2, WeekdayNightsName, 3),
      SquadType(3, FridayNightsName, 2), SquadType(4, EveningsName, 7) ]
  const SeedWeekend: seq<Squad> :=
    [ Squad(1, 1, "A", 1), Squad(2, 1, "B", 2), Squad(3, 1, "C", 3), Squad(4, 1, "D", 4) ]
  const SeedWeekdayNights: seq<Squad> :=
    [ Squad(5, 2, "An", 1), Squad(6, 2, "Bn", 2), Squad(7, 2, "Cn", 3) ]
  const SeedFridayNights: seq<Squad> :=
    [ Squad(8, 3, "S1n", 1), Squad(9, 3, "S2n", 2) ]
  const SeedEvenings: seq<Squad> :=
    [ Squad(10, 4, "S1", 1), Squad(11, 4, "S2", 2), Squad(12, 4, "S3", 3), Squad(13, 4, "S4", 4),
      Squad(14, 4, "S5", 5), Squad(15, 4, "S6", 6), Squad(16, 4, "S7", 7) ]
  const SeedRegistry: Registry :=
    Registry(SeedTypes, SeedWeekend + (SeedWeekdayNights + (SeedFridayNights + SeedEvenings)))

  /** Rows of the seeded table that belong to one type, when that type's
      seeded rows are `mine` and the rows around them belong to other types. */
  lemma SeededRowsOfType(before: seq<Squad>, mine: seq<Squad>, after: seq<Squad>, typeId: int)
    requires forall s :: s in mine ==> s.typeId == typeId
    requires forall s :: s in before ==> s.typeId != typeId
    requires forall s :: s in after ==> s.typeId != typeId
    ensures SquadRowsOfType(before + (mine + after), typeId) == mine
  {
    SquadRowsOfTypeAppend(before, mine + after, typeId);
    SquadRowsOfTypeAppend(mine, after, typeId);
    SquadRowsOfTypeAll(before, typeId);
    SquadRowsOfTypeAll(mine, typeId);
    SquadRowsOfTypeAll(after, typeId);
  }

  /** A type's rows that are already in `ordine` order with distinct `ordine`
      values come back from `SquadsOf` unchanged. */
  lemma SquadsOfAlreadyOrdered(squads: seq<Squad>, typeId: int, rows: seq<Squad>)
    requires SquadRowsOfType(squads, typeId) == rows
    requires forall i, j :: 0 <= i < j < |rows| ==> rows[i].order < rows[j].order
    ensures SquadsOf(squads, typeId) == rows
  {
    OrderLeIsTotalPreorder();
    forall x, y | x in multiset(rows) && y in multiset(rows) && OrderLe(x, y) && OrderLe(y, x)
      ensures x == y
    {
      var i :| 0 <= i < |rows| && rows[i] == x;
      var j :| 0 <= j < |rows| && rows[j] == y;
      assert !(i < j) && !(j < i);
    }
    SortedUnique(rows, SquadsOf(squads, typeId), OrderLe);
  }

  lemma SeededWeekdayNightSquads()
    ensures SquadsOf(SeedRegistry.squads, 2) == SeedWeekdayNights
  {
    var before, mine, after := SeedWeekend, SeedWeekdayNights, SeedFridayNights + SeedEvenings;
    assert forall i, j :: 0 <= i < j < |mine| ==> mine[i].order < mine[j].order;
    SeedTypeIds();
    SeededRowsOfType(before, mine, after, 2);
    SquadsOfAlreadyOrdered(before + (mine + after), 2, mine);
  }

  /** Each seeded group carries its own type id. */
  lemma SeedTypeIds()
    ensures forall s :: s in SeedWeekend ==> s.typeId == 1
    ensures forall s :: s in SeedWeekdayNights ==> s.typeId == 2
    ensures forall s :: s in SeedFridayNights ==> s.typeId == 3
    ensures forall s :: s in SeedEvenings ==> s.typeId == 4
  {
    SameTypeId(SeedWeekend, 1);
    SameTypeId(SeedWeekdayNights, 2);
    SameTypeId(SeedFridayNights, 3);
    SameTypeId(SeedEvenings, 4);
  }

  lemma SameTypeId(a: seq<Squad>, typeId: int)
    requires forall i :: 0 <= i < |a| ==> a[i].typeId == typeId
    ensures forall s :: s in a ==> s.typeId == typeId
  {
  }

  lemma SeededWeekendSquads()
    ensures SquadsOf(SeedRegistry.squads, 1) == SeedWeekend
  {
    var mine, after := SeedWeekend, SeedWeekdayNights + (SeedFridayNights + SeedEvenings);
    assert forall i, j :: 0 <= i < j < |mine| ==> mine[i].order < mine[j].order;
    SeedTypeIds();
    SeededRowsOfType([], mine, after, 1);
    assert [] + (mine + after) == mine + after;
    SquadsOfAlreadyOrdered(mine + after, 1, mine);
  }

  /** The four type names differ from one another. */
  lemma TypeNamesDistinct()
    ensures WeekendName != WeekdayNightsName && WeekendName != FridayNightsName && WeekendName != EveningsName
    ensures WeekdayNightsName != FridayNightsName && WeekdayNightsName != EveningsName
    ensures FridayNightsName != EveningsName
  {
    assert WeekendName[8] == 'W' && WeekdayNightsName[8] == 'N' && FridayNightsName[8] == 'N' && EveningsName[8] == 'S';
    assert WeekdayNightsName[14] == 'F' && FridayNightsName[14] == 'V';
  }

  /** The lookup returns the first row carrying the name. */
  lemma {:induction false} FindTypeFirst(types: seq<SquadType>, name: string, i: nat)
    requires i < |types| && types[i].name == name
    requires forall j :: 0 <= j < i ==> types[j].name != name
    ensures FindType(types, name) == Some(types[i])
  {
    if i > 0 {
      assert types[0].name != name;
      FindTypeFirst(types[1..], name, i - 1);
    }
  }

  lemma SeededTypes()
    ensures FindType(SeedTypes, WeekendName) == Some(SquadType(1, WeekendName, 4))
    ensures FindType(SeedTypes, WeekdayNightsName) == Some(SquadType(2, WeekdayNightsName, 3))
    ensures FindType(SeedTypes, FridayNightsName) == Some(SquadType(3, FridayNightsName, 2))
    ensures FindType(SeedTypes, EveningsName) == Some(SquadType(4, EveningsName, 7))
  {
    SeededTypeAt(0);
    SeededTypeAt(1);
    SeededTypeAt(2);
    SeededTypeAt(3);
  }

  lemma SeededTypeAt(i: nat)
    requires i < |SeedTypes|
    ensures FindType(SeedTypes, SeedTypes[i].name) == Some(SeedTypes[i])
  {
    TypeNamesDistinct();
    forall j | 0 <= j < i
      ensures SeedTypes[j].name != SeedTypes[i].name
    {
    }
    FindTypeFirst(SeedTypes, SeedTypes[i].name, i);
  }

  /** With the weekday-night squads seeded as An, Bn, Cn (`ordine` 1-3,
      declared count 3), every date's weekday night goes to one of them by
      its weekday alone. */
  lemma WeekdayNightsAsSeeded(reg: Registry, d: Date)
    requires Valid(d)
    requires FindType(reg.types, WeekdayNightsName) == Some(SquadType(2, WeekdayNightsName, 3))
    requires SquadsOf(reg.squads, 2) == SeedWeekdayNights
    ensures Resolve(reg, WeekdayNightsName, d) == Success(SeedWeekdayNights[Weekday(d) % 3].name)
  {
    var t := SquadType(2, WeekdayNightsName, 3);
    assert SchemeOf(WeekdayNightsName) == Some(WeekdayNights);
    var i := RotationIndex(WeekdayNights, d, t.count);
    assert i == Weekday(d) % 3;
    assert |SquadsOf(reg.squads, t.id)| == 3;
    ResolvePicksOrderedSquad(reg, WeekdayNightsName, d);
    assert Resolve(reg, WeekdayNightsName, d) == Success(SquadsOf(reg.squads, t.id)[i].name);
  }

  /** Monday to Thursday, 6-9 January 2025: An, Bn, Cn, then An again. */
  lemma SeededWeekdayNights(reg: Registry)
    requires FindType(reg.types, WeekdayNightsName) == Some(SquadType(2, WeekdayNightsName, 3))
    requires SquadsOf(reg.squads, 2) == SeedWeekdayNights
    ensures Resolve(reg, WeekdayNightsName, Date(2025, 1, 6)) == Success("An")
    ensures Resolve(reg, WeekdayNightsName, Date(2025, 1, 7)) == Success("Bn")
    ensures Resolve(reg, WeekdayNightsName, Date(2025, 1, 8)) == Success("Cn")
    ensures Resolve(reg, WeekdayNightsName, Date(2025, 1, 9)) == Success("An")
  {
    SecondWeekOf2025();
    WeekdayNightsAsSeeded(reg, Date(2025, 1, 6));
    WeekdayNightsAsSeeded(reg, Date(2025, 1, 7));
    WeekdayNightsAsSeeded(reg, Date(2025, 1, 8));
    WeekdayNightsAsSeeded(reg, Date(2025, 1, 9));
  }

  /** With the weekend squads seeded as A, B, C, D, the squad is picked by
      the number of whole weeks since 1 January, modulo 4. */
  lemma WeekendAsSeeded(reg: Registry, d: Date)
    requires Valid(d)
    requires FindType(reg.types, WeekendName) == Some(SquadType(1, WeekendName, 4))
    requires SquadsOf(reg.squads, 1) == SeedWeekend
    ensures Resolve(reg, WeekendName, d) == Success(SeedWeekend[WeekendIndex(d, 4)].name)
  {
    assert SchemeOf(WeekendName) == Some(Weekend);
    assert RotationIndex(Weekend, d, 4) == WeekendIndex(d, 4);
    ResolvePicksOrderedSquad(reg, WeekendName, d);
  }

  lemma ThreeAndSevenWeeksIn()
    ensures Valid(Date(2025, 1, 22)) && WeekendIndex(Date(2025, 1, 22), 4) == 3
    ensures Valid(Date(2025, 2, 19)) && WeekendIndex(Date(2025, 2, 19), 4) == 3
  {
    SecondWeekOf2025();
  }

  /** Weekend, seeded: 22 January 2025 is three weeks into the year and
      19 February seven weeks, both squad D (7 mod 4 = 3). */
  lemma SeededWeekendWeeks(reg: Registry)
    requires FindType(reg.types, WeekendName) == Some(SquadType(1, WeekendName, 4))
    requires SquadsOf(reg.squads, 1) == SeedWeekend
    ensures Resolve(reg, WeekendName, Date(2025, 1, 22)) == Success("D")
    ensures Resolve(reg, WeekendName, Date(2025, 2, 19)) == Success("D")
  {
    ThreeAndSevenWeeksIn();
    WeekendAsSeeded(reg, Date(2025, 1, 22));
    WeekendAsSeeded(reg, Date(2025, 2, 19));
  }
}
