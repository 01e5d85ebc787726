/** Squad rosters (`get_squadre_per_tipo`, `aggiungi_vvf_a_squadra`,
    `rimuovi_vvf_da_squadra` in bot_cambi.py).

    Membership is the `squadre_componenti` table: a set of (squad, firefighter)
    pairs, unique by its UNIQUE constraint. A squad's members are listed by
    the SQL key: qualification (CSV, then VV, then anything else), driver
    grade (III, II, I, then none), surname, then given name.
 */
module Roster {
  import opened Sorting
  import opened Rotation

  /** `qualifica`: the table admits CSV and VV; a missing value sorts last. */
  datatype Qualification = CSV | VV | Unqualified

  /** `autista`: the table admits I, II and III; a missing value sorts last. */
  datatype DriverGrade = GradeIII | GradeII | GradeI | NoGrade

  /** A row of `vvf`. */
  datatype Firefighter = Firefighter(id: int, qualification: Qualification, surname: string, name: string, driver: DriverGrade)

  /** A (squad id, firefighter id) row of `squadre_componenti`. */
  type Membership = set<(int, int)>

  datatype RosterDb = RosterDb(firefighters: seq<Firefighter>, membership: Membership)

  function QualificationRank(q: Qualification): (r: int)
    ensures 1 <= r <= 3
  {
    match q
    case CSV => 1
    case VV => 2
    case Unqualified => 3
  }

  function DriverRank(g: DriverGrade): (r: int)
    ensures 1 <= r <= 4
  {
    match g
    case GradeIII => 1
    case GradeII => 2
    case GradeI => 3
    case NoGrade => 4
  }

  /** The columns the members query returns: `qualifica, cognome, nome,
      autista`, without the firefighter's id. */
  datatype MemberKey = MemberKey(qualification: Qualification, driver: DriverGrade, surname: string, name: string)

  function KeyOf(f: Firefighter): MemberKey {
    MemberKey(f.qualification, f.driver, f.surname, f.name)
  }

  /** The `ORDER BY` of the members query, one key after the other. */
  predicate KeyLe(a: MemberKey, b: MemberKey) {
    if QualificationRank(a.qualification) != QualificationRank(b.qualification) then
      QualificationRank(a.qualification) < QualificationRank(b.qualification)
    else if DriverRank(a.driver) != DriverRank(b.driver) then
      DriverRank(a.driver) < DriverRank(b.driver)
    else if a.surname != b.surname then
      TextLe(a.surname, b.surname)
    else
      TextLe(a.name, b.name)
  }

  /** Firefighters are ordered by the columns the query returns. */
  predicate MemberLe(a: Firefighter, b: Firefighter) {
    KeyLe(KeyOf(a), KeyOf(b))
  }

  /** Two firefighters the members query cannot tell apart. */
  predicate SameKey(a: Firefighter, b: Firefighter) {
    KeyOf(a) == KeyOf(b)
  }

  lemma KeyLeIsTotalPreorder()
    ensures TotalPreorder(KeyLe)
  {
    forall a: MemberKey, b: MemberKey
      ensures KeyLe(a, b) || KeyLe(b, a)
    {
      TextLeTotal(a.surname, b.surname);
      TextLeTotal(a.name, b.name);
    }
    forall a: MemberKey, b: MemberKey, c: MemberKey | KeyLe(a, b) && KeyLe(b, c)
      ensures KeyLe(a, c)
    {
      KeyLeTransitive(a, b, c);
    }
  }

  lemma KeyLeTransitive(a: MemberKey, b: MemberKey, c: MemberKey)
    requires KeyLe(a, b) && KeyLe(b, c)
    ensures KeyLe(a, c)
  {
    if a.surname != b.surname && TextLe(a.surname, b.surname) && TextLe(b.surname, c.surname) {
      TextLeTransitive(a.surname, b.surname, c.surname);
      if a.surname == c.surname {
        TextLeAntisymmetric(a.surname, b.surname);
      }
    }
    if TextLe(a.name, b.name) && TextLe(b.name, c.name) {
      TextLeTransitive(a.name, b.name, c.name);
    }
  }

  /** Every qualification and driver grade the table admits has its own
      rank, and text compares by code point, so two different keys never tie. */
  lemma KeyLeAntisymmetric(a: MemberKey, b: MemberKey)
    requires KeyLe(a, b) && KeyLe(b, a)
    ensures a == b
  {
    assert a.qualification == b.qualification by {
      assert QualificationRank(a.qualification) == QualificationRank(b.qualification);
    }
    assert a.driver == b.driver by {
      assert DriverRank(a.driver) == DriverRank(b.driver);
    }
    if a.surname != b.surname {
      TextLeAntisymmetric(a.surname, b.surname);
    }
    TextLeAntisymmetric(a.name, b.name);
  }

  lemma MemberLeIsTotalPreorder()
    ensures TotalPreorder(MemberLe)
  {
    KeyLeIsTotalPreorder();
    forall a: Firefighter, b: Firefighter, c: Firefighter | MemberLe(a, b) && MemberLe(b, c)
      ensures MemberLe(a, c)
    {
      KeyLeTransitive(KeyOf(a), KeyOf(b), KeyOf(c));
    }
  }

  /** Only firefighters with the same key tie. */
  lemma MemberLeTies(a: Firefighter, b: Firefighter)
    requires MemberLe(a, b) && MemberLe(b, a)
    ensures SameKey(a, b)
  {
    KeyLeAntisymmetric(KeyOf(a), KeyOf(b));
  }

  predicate IsMember(db: RosterDb, squadId: int, f: Firefighter) {
    (squadId, f.id) in db.membership
  }

  /** The `vvf JOIN squadre_componenti` rows of one squad, in table order. */
  function MemberRows(firefighters: seq<Firefighter>, membership: Membership, squadId: int): (r: seq<Firefighter>)
    ensures forall f :: f in r <==> f in firefighters && (squadId, f.id) in membership
    ensures |r| <= |firefighters|
  {
    if |firefighters| == 0 then []
    else
      (if (squadId, firefighters[0].id) in membership then [firefighters[0]] else [])
        + MemberRows(firefighters[1..], membership, squadId)
  }

  /** The join keeps each member row as often as the table holds it. */
  lemma {:induction false} MemberRowsCount(firefighters: seq<Firefighter>, membership: Membership, squadId: int, f: Firefighter)
    ensures multiset(MemberRows(firefighters, membership, squadId))[f]
            == (if (squadId, f.id) in membership then multiset(firefighters)[f] else 0)
  {
    if |firefighters| > 0 {
      MemberRowsCount(firefighters[1..], membership, squadId, f);
      assert firefighters == [firefighters[0]] + firefighters[1..];
    }
  }

  /** A squad's members in the query's order. */
  function MembersOf(db: RosterDb, squadId: int): (r: seq<Firefighter>)
    ensures SortedBy(r, MemberLe)
    ensures multiset(r) == multiset(MemberRows(db.firefighters, db.membership, squadId))
    ensures forall f :: f in r <==> f in db.firefighters && IsMember(db, squadId, f)
  {
    MemberLeIsTotalPreorder();
    var r := Sort(MemberRows(db.firefighters, db.membership, squadId), MemberLe);
    assert forall f :: f in r <==> f in multiset(r);
    r
  }

  /** The listing depends only on which firefighters the squad has, never on
      the order rows were inserted in, as long as no two of them share the
      whole sort key. */
  lemma MembersOfIgnoresInsertionOrder(db1: RosterDb, db2: RosterDb, squadId: int)
    requires multiset(MemberRows(db1.firefighters, db1.membership, squadId))
             == multiset(MemberRows(db2.firefighters, db2.membership, squadId))
    requires forall f, g ::
               (f in MemberRows(db1.firefighters, db1.membership, squadId)
                && g in MemberRows(db1.firefighters, db1.membership, squadId)
                && SameKey(f, g)) ==> f == g
    ensures MembersOf(db1, squadId) == MembersOf(db2, squadId)
  {
    var a, b := MembersOf(db1, squadId), MembersOf(db2, squadId);
    var rows := MemberRows(db1.firefighters, db1.membership, squadId);
    MemberLeIsTotalPreorder();
    forall x, y | x in multiset(a) && y in multiset(a) && MemberLe(x, y) && MemberLe(y, x)
      ensures x == y
    {
      MemberLeTies(x, y);
      assert x in multiset(rows) && y in multiset(rows);
    }
    SortedUnique(a, b, MemberLe);
  }

  /** The rows as the members query returns them. */
  function Keys(s: seq<Firefighter>): (r: seq<MemberKey>)
    ensures |r| == |s|
    ensures forall i :: 0 <= i < |s| ==> r[i] == KeyOf(s[i])
  {
    seq(|s|, i requires 0 <= i < |s| => KeyOf(s[i]))
  }

  lemma KeysAppend(u: seq<Firefighter>, v: seq<Firefighter>)
    ensures Keys(u + v) == Keys(u) + Keys(v)
  {
  }

  /** Taking a firefighter out takes their row out of the returned rows. */
  lemma KeysRemoveAt(s: seq<Firefighter>, j: int)
    requires 0 <= j < |s|
    ensures multiset(Keys(s)) == multiset{KeyOf(s[j])} + multiset(Keys(s[..j] + s[j + 1..]))
  {
    var ks := Keys(s);
    RemoveAt(ks, j);
    KeysAppend(s[..j], s[j + 1..]);
    assert ks[..j] == Keys(s[..j]);
    assert ks[j + 1..] == Keys(s[j + 1..]);
  }

  lemma KeysRemoveHead(s: seq<Firefighter>)
    requires |s| > 0
    ensures multiset(Keys(s)) == multiset{KeyOf(s[0])} + multiset(Keys(s[1..]))
  {
    assert Keys(s) == [KeyOf(s[0])] + Keys(s[1..]);
  }

  /** Rearranging the firefighters rearranges their returned rows. */
  lemma {:induction false} KeysPermutation(a: seq<Firefighter>, b: seq<Firefighter>)
    requires multiset(a) == multiset(b)
    ensures multiset(Keys(a)) == multiset(Keys(b))
    decreases |a|
  {
    if |a| == 0 {
      assert |b| == |multiset(b)| == 0;
    } else {
      var j := IndexOf(b, a[0]);
      var rest := b[..j] + b[j + 1..];
      RemoveBoth(a, b, j);
      KeysPermutation(a[1..], rest);
      KeysRemoveHead(a);
      KeysRemoveAt(b, j);
    }
  }

  /** What the members query returns depends only on which firefighters
      the squad has, never on the order rows were inserted in: rows that tie
      on the sort key are the same returned row. */
  lemma MemberKeysIgnoreInsertionOrder(db1: RosterDb, db2: RosterDb, squadId: int)
    requires multiset(MemberRows(db1.firefighters, db1.membership, squadId))
             == multiset(MemberRows(db2.firefighters, db2.membership, squadId))
    ensures Keys(MembersOf(db1, squadId)) == Keys(MembersOf(db2, squadId))
  {
    var a, b := MembersOf(db1, squadId), MembersOf(db2, squadId);
    var ka, kb := Keys(a), Keys(b);
    KeyLeIsTotalPreorder();
    KeysPermutation(a, b);
    assert SortedBy(ka, KeyLe) && SortedBy(kb, KeyLe);
    forall x, y | x in multiset(ka) && y in multiset(ka) && KeyLe(x, y) && KeyLe(y, x)
      ensures x == y
    {
      KeyLeAntisymmetric(x, y);
    }
    SortedUnique(ka, kb, KeyLe);
  }

  /** `get_squadre_per_tipo`: each squad of the type, in `ordine` order, with
      its members in listing order. */
  function SquadRoster(reg: Registry, db: RosterDb, typeId: int): (r: seq<(Squad, seq<Firefighter>)>)
    ensures |r| == |SquadsOf(reg.squads, typeId)|
    ensures forall i, j :: 0 <= i < j < |r| ==> r[i].0.order <= r[j].0.order
    ensures forall i :: 0 <= i < |r| ==> r[i].0 in reg.squads && r[i].0.typeId == typeId
    ensures forall i :: 0 <= i < |r| ==> r[i].0 == SquadsOf(reg.squads, typeId)[i]
    ensures forall i :: 0 <= i < |r| ==> r[i].1 == MembersOf(db, r[i].0.id)
  {
    var squads := SquadsOf(reg.squads, typeId);
    seq(|squads|, i requires 0 <= i < |squads| => (squads[i], MembersOf(db, squads[i].id)))
  }

  /** `aggiungi_vvf_a_squadra`: `INSERT OR IGNORE`, reporting whether a row
      was inserted. */
  function AddMember(m: Membership, firefighterId: int, squadId: int): (r: (Membership, bool))
    ensures (squadId, firefighterId) in r.0
    ensures r.1 <==> (squadId, firefighterId) !in m
    ensures forall p :: p != (squadId, firefighterId) ==> (p in r.0 <==> p in m)
  {
    if (squadId, firefighterId) in m then (m, false)
    else (m + {(squadId, firefighterId)}, true)
  }

  /** `rimuovi_vvf_da_squadra`: `DELETE`, reporting whether a row was deleted. */
  function RemoveMember(m: Membership, firefighterId: int, squadId: int): (r: (Membership, bool))
    ensures (squadId, firefighterId) !in r.0
    ensures r.1 <==> (squadId, firefighterId) in m
    ensures forall p :: p != (squadId, firefighterId) ==> (p in r.0 <==> p in m)
  {
    (m - {(squadId, firefighterId)}, (squadId, firefighterId) in m)
  }

  /** Adding twice is adding once: the repeat reports false and changes nothing. */
  lemma AddMemberIdempotent(m: Membership, firefighterId: int, squadId: int)
    ensures var (m1, _) := AddMember(m, firefighterId, squadId);
            AddMember(m1, firefighterId, squadId) == (m1, false)
  {
  }

  /** Removing twice is removing once. */
  lemma RemoveMemberIdempotent(m: Membership, firefighterId: int, squadId: int)
    ensures var (m1, _) := RemoveMember(m, firefighterId, squadId);
            RemoveMember(m1, firefighterId, squadId) == (m1, false)
  {
    var p := (squadId, firefighterId);
    var m1 := m - {p};
    assert m1 - {p} == m1;
  }

  /** Adding an absent pair and removing it again restores the table, and
      both report success. */
  lemma AddThenRemove(m: Membership, firefighterId: int, squadId: int)
    requires (squadId, firefighterId) !in m
    ensures var (m1, added) := AddMember(m, firefighterId, squadId);
            var (m2, removed) := RemoveMember(m1, firefighterId, squadId);
            added && removed && m2 == m
  {
    var p := (squadId, firefighterId);
    assert (m + {p}) - {p} == m;
  }

  /** Adding a pair makes that firefighter appear in that squad's listing,
      and leaves every other squad's listing as it was. */
  lemma AddMemberListing(db: RosterDb, firefighterId: int, squadId: int, f: Firefighter, otherSquad: int)
    requires f in db.firefighters && f.id == firefighterId
    requires otherSquad != squadId
    ensures var db1 := db.(membership := AddMember(db.membership, firefighterId, squadId).0);
            && f in MembersOf(db1, squadId)
            && MembersOf(db1, otherSquad) == MembersOf(db, otherSquad)
  {
    var db1 := db.(membership := AddMember(db.membership, firefighterId, squadId).0);
    MemberRowsUnaffected(db.firefighters, db.membership, db1.membership, otherSquad);
  }

  lemma {:induction false} MemberRowsUnaffected(firefighters: seq<Firefighter>, m1: Membership, m2: Membership, squadId: int)
    requires forall id :: (squadId, id) in m1 <==> (squadId, id) in m2
    ensures MemberRows(firefighters, m1, squadId) == MemberRows(firefighters, m2, squadId)
  {
    if |firefighters| > 0 {
      MemberRowsUnaffected(firefighters[1..], m1, m2, squadId);
    }
  }
}
