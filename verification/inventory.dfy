/** The breathing-apparatus inventory of bot.py: serial numbers, the
    `articoli` table, the count of available cylinders and the stock alarm.

    The table is a map from serial to article: `seriale` is UNIQUE, and
    every statement of the bot selects, updates or deletes by serial. */
module Inventory {
  import opened Wrappers
  import opened Text

  /** The category keys the bot offers (`CATEGORIE`). */
  const Mask := "maschera"
  const Regulator := "erogatore"
  const Harness := "spallaccio"
  const Cylinder := "bombola"
  const Categories := [Mask, Regulator, Harness, Cylinder]

  /** The prefix of an article of an unknown category. */
  const FallbackPrefix := "ART"

  /** `get_prefisso_categoria`: the serial prefix of a category. */
  function Prefix(category: string): (r: string)
    ensures r == FallbackPrefix <==> category !in Categories
    ensures r in {"MAS", "ER", "SPAL", "BOMB", FallbackPrefix}
    ensures '_' !in r
  {
    if category == Mask then "MAS"
    else if category == Regulator then "ER"
    else if category == Harness then "SPAL"
    else if category == Cylinder then "BOMB"
    else FallbackPrefix
  }

  /** The prefix table itself. */
  lemma PrefixTable()
    ensures Prefix(Mask) == "MAS" && Prefix(Regulator) == "ER"
    ensures Prefix(Harness) == "SPAL" && Prefix(Cylinder) == "BOMB"
  {
  }

  /** Distinct known categories never share a prefix, so their serials
      never collide. */
  lemma PrefixInjective(c1: string, c2: string)
    requires c1 in Categories && c2 in Categories
    requires Prefix(c1) == Prefix(c2)
    ensures c1 == c2
  {
  }

  /** The three fields of a serial `PREFIX_NUMBER_SITE`. */
  datatype SerialParts = SerialParts(prefix: string, number: string, site: string)

  function IndexOf(s: string, c: char): (r: Option<nat>)
    ensures r.None? <==> c !in s
    ensures r.Some? ==> r.value < |s| && s[r.value] == c && c !in s[..r.value]
  {
    if |s| == 0 then None
    else if s[0] == c then Some(0)
    else
      match IndexOf(s[1..], c)
      case None => None
      case Some(i) =>
        assert s[..i + 1] == [s[0]] + s[1..][..i];
        Some(i + 1)
  }

  /** The first occurrence of `c` in `a + [c] + b` is the one after `a`. */
  lemma IndexOfAfter(a: string, c: char, b: string)
    requires c !in a
    ensures IndexOf(a + [c] + b, c) == Some(|a|)
  {
    var s := a + [c] + b;
    assert s[|a|] == c && s[..|a|] == a;
    var i := IndexOf(s, c).value;
    assert i <= |a|;
    assert s[..i] == a[..i];
  }

  /** Splits `s` at the first `c`: the text before it and the text after. */
  function SplitOnce(s: string, c: char): (r: Option<(string, string)>)
    ensures r.None? <==> c !in s
    ensures r.Some? ==> s == r.value.0 + [c] + r.value.1 && c !in r.value.0
  {
    match IndexOf(s, c)
    case None => None
    case Some(i) =>
      assert s == s[..i] + [c] + s[i + 1..];
      Some((s[..i], s[i + 1..]))
  }

  lemma SplitOnceAfter(a: string, c: char, b: string)
    requires c !in a
    ensures SplitOnce(a + [c] + b, c) == Some((a, b))
  {
    var s := a + [c] + b;
    IndexOfAfter(a, c, b);
    assert s[..|a|] == a && s[|a| + 1..] == b;
  }

  /** Reads a serial back: the text before the first underscore, the text
      between it and the second, and the rest. */
  function ParseSerial(serial: string): (r: Option<SerialParts>)
    ensures r.Some? ==> serial == r.value.prefix + "_" + r.value.number + "_" + r.value.site
    ensures r.Some? ==> '_' !in r.value.prefix && '_' !in r.value.number
  {
    match SplitOnce(serial, '_')
    case None => None
    case Some((prefix, rest)) =>
      match SplitOnce(rest, '_')
      case None => None
      case Some((number, site)) =>
        JoinAssoc(prefix, number, site);
        Some(SerialParts(prefix, number, site))
  }

  lemma JoinAssoc(a: string, b: string, c: string)
    ensures a + ['_'] + (b + ['_'] + c) == a + "_" + b + "_" + c
  {
  }

  /** Why an entered number was refused. */
  datatype EntryError = NotANumber

  /** The serial built from the category and site chosen on the keyboard and
      the number the user typed: the typed text, stripped, must be all
      digits. */
  function ComposeSerial(category: string, site: string, typed: string): (r: Result<string, EntryError>)
    ensures r.Failure? <==> !IsDigits(Strip(typed))
    ensures r.Success? ==> ParseSerial(r.value) == Some(SerialParts(Prefix(category), Strip(typed), Upper(site)))
  {
    var number := Strip(typed);
    if !IsDigits(number) then Failure(NotANumber)
    else
      var serial := Prefix(category) + "_" + number + "_" + Upper(site);
      SerialRoundTrip(Prefix(category), number, Upper(site));
      Success(serial)
  }

  lemma SerialRoundTrip(prefix: string, number: string, site: string)
    requires '_' !in prefix && '_' !in number
    ensures ParseSerial(prefix + "_" + number + "_" + site) == Some(SerialParts(prefix, number, site))
  {
    var rest := number + "_" + site;
    assert prefix + "_" + number + "_" + site == prefix + ['_'] + rest;
    SplitOnceAfter(prefix, '_', rest);
    SplitOnceAfter(number, '_', site);
  }

  /** Two entries give the same serial only if they agree on the prefix,
      the stripped number and the upper-cased site. */
  lemma SerialInjective(c1: string, s1: string, t1: string, c2: string, s2: string, t2: string)
    requires ComposeSerial(c1, s1, t1).Success? && ComposeSerial(c1, s1, t1) == ComposeSerial(c2, s2, t2)
    ensures Prefix(c1) == Prefix(c2) && Strip(t1) == Strip(t2) && Upper(s1) == Upper(s2)
  {
    assert ParseSerial(ComposeSerial(c1, s1, t1).value) == ParseSerial(ComposeSerial(c2, s2, t2).value);
  }

  /** The states an article takes (`stato`). */
  const Available := "disponibile"
  const Used := "usato"
  const OutOfService := "fuori_uso"

  /** A row of `articoli`, without its id and timestamp. */
  datatype Article = Article(category: string, site: string, state: string)

  /** The `articoli` table keyed by its UNIQUE serial. */
  type Store = map<string, Article>

  /** `insert_articolo`: a duplicate serial violates the UNIQUE constraint,
      which the bot reports as false without touching the table. */
  function InsertArticle(store: Store, serial: string, category: string, site: string, state: string): (r: (Store, bool))
    ensures r.1 <==> serial !in store
    ensures !r.1 ==> r.0 == store
    ensures r.0.Keys == store.Keys + {serial}
    ensures r.1 ==> r.0[serial] == Article(category, site, state)
    ensures forall k :: k in store ==> r.0[k] == store[k]
  {
    if serial in store then (store, false)
    else (store[serial := Article(category, site, state)], true)
  }

  /** `update_stato`: only the named article's state changes; an unknown
      serial matches no row. */
  function UpdateState(store: Store, serial: string, state: string): (r: Store)
    ensures r.Keys == store.Keys
    ensures forall k :: k in store && k != serial ==> r[k] == store[k]
    ensures serial in store ==> r[serial] == store[serial].(state := state)
    ensures serial !in store ==> r == store
  {
    if serial in store then store[serial := store[serial].(state := state)] else store
  }

  /** `delete_articolo`: exactly the named article goes. */
  function DeleteArticle(store: Store, serial: string): (r: Store)
    ensures r.Keys == store.Keys - {serial}
    ensures forall k :: k in r ==> r[k] == store[k]
  {
    store - {serial}
  }

  /** Deleting twice is deleting once. */
  lemma DeleteIdempotent(store: Store, serial: string)
    ensures DeleteArticle(DeleteArticle(store, serial), serial) == DeleteArticle(store, serial)
  {
  }

  /** Inserting a new serial and deleting it again restores the table. */
  lemma InsertThenDelete(store: Store, serial: string, category: string, site: string, state: string)
    requires serial !in store
    ensures DeleteArticle(InsertArticle(store, serial, category, site, state).0, serial) == store
  {
  }

  /** What the delete confirmation reports. */
  datatype DeleteOutcome = Removed | NotFound

  /** The `elimina_` confirmation: it looks the serial up first and deletes
      only a known article. */
  function ConfirmDelete(store: Store, serial: string): (r: (Store, DeleteOutcome))
    ensures r.1 == Removed <==> serial in store
    ensures r.0 == DeleteArticle(store, serial)
    ensures r.1 == NotFound ==> r.0 == store
  {
    if serial in store then (DeleteArticle(store, serial), Removed) else (store, NotFound)
  }

  /** `if sede:` treats a missing site and the empty string alike. */
  predicate FiltersSite(site: Option<string>) {
    site.Some? && site.value != ""
  }

  /** The rows `conta_bombole_disponibili` counts. */
  predicate Counted(a: Article, site: Option<string>) {
    && a.category == Cylinder
    && a.state == Available
    && (FiltersSite(site) ==> a.site == site.value)
  }

  function CountedSerials(store: Store, site: Option<string>): set<string> {
    set k | k in store && Counted(store[k], site)
  }

  /** `conta_bombole_disponibili`: the available cylinders, at one site when
      one is given. */
  function CountAvailableCylinders(store: Store, site: Option<string>): (r: nat)
    ensures r <= |store|
    ensures r == 0 <==> forall k :: k in store ==> !Counted(store[k], site)
  {
    var s := CountedSerials(store, site);
    SubsetCard(s, store.Keys);
    assert forall k :: k in store && Counted(store[k], site) ==> k in s;
    assert |s| != 0 ==> exists k :: k in s by {
      if |s| != 0 {
        var k :| k in s;
      }
    }
    |s|
  }

  lemma SubsetCard<T>(a: set<T>, b: set<T>)
    requires a <= b
    ensures |a| <= |b|
  {
    assert b == a + (b - a);
  }

  /** A site's count never exceeds the count over all sites. */
  lemma SiteCountBounded(store: Store, site: string)
    ensures CountAvailableCylinders(store, Some(site)) <= CountAvailableCylinders(store, None)
  {
    SubsetCard(CountedSerials(store, Some(site)), CountedSerials(store, None));
  }

  /** When every article sits at one of two sites, the overall count is the
      sum of the two sites' counts. */
  lemma CountSplitsBySite(store: Store, s1: string, s2: string)
    requires s1 != "" && s2 != "" && s1 != s2
    requires forall k :: k in store ==> store[k].site in {s1, s2}
    ensures CountAvailableCylinders(store, None)
            == CountAvailableCylinders(store, Some(s1)) + CountAvailableCylinders(store, Some(s2))
  {
    var a, b := CountedSerials(store, Some(s1)), CountedSerials(store, Some(s2));
    assert CountedSerials(store, None) == a + b;
    assert a * b == {};
  }

  /** Writing row `a` under `serial` replaces that serial's membership in
      the counted set by whether `a` counts. */
  lemma CountedSerialsWrite(store: Store, serial: string, a: Article, filter: Option<string>)
    ensures var others := CountedSerials(store, filter) - {serial};
            CountedSerials(store[serial := a], filter) == (if Counted(a, filter) then others + {serial} else others)
  {
    var others := CountedSerials(store, filter) - {serial};
    var after := CountedSerials(store[serial := a], filter);
    forall x | x in after
      ensures x in others || (x == serial && Counted(a, filter))
    {
    }
    forall x | x in others
      ensures x in after
    {
      assert x in store && x != serial;
    }
  }

  /** The count is the counted rows other than `serial`, plus one if that
      row exists and counts. */
  lemma CountWithout(store: Store, serial: string, filter: Option<string>)
    ensures var others := CountedSerials(store, filter) - {serial};
            CountAvailableCylinders(store, filter)
            == |others| + (if serial in store && Counted(store[serial], filter) then 1 else 0)
  {
    var all := CountedSerials(store, filter);
    if serial in store && Counted(store[serial], filter) {
      assert all == (all - {serial}) + {serial};
    } else {
      assert all - {serial} == all;
    }
  }

  /** One new row changes each count by one exactly when that row counts. */
  lemma InsertCount(store: Store, serial: string, category: string, site: string, state: string, filter: Option<string>)
    ensures CountAvailableCylinders(InsertArticle(store, serial, category, site, state).0, filter)
            == CountAvailableCylinders(store, filter)
               + (if serial !in store && Counted(Article(category, site, state), filter) then 1 else 0)
  {
    if serial !in store {
      var a := Article(category, site, state);
      CountedSerialsWrite(store, serial, a, filter);
      CountWithout(store, serial, filter);
      CountWithout(store[serial := a], serial, filter);
      assert CountedSerials(store[serial := a], filter) - {serial} == CountedSerials(store, filter) - {serial};
    }
  }

  /** A state change moves the count by whether the row counted before and
      after. */
  lemma UpdateCount(store: Store, serial: string, state: string, filter: Option<string>)
    requires serial in store
    ensures CountAvailableCylinders(UpdateState(store, serial, state), filter)
            == CountAvailableCylinders(store, filter)
               - (if Counted(store[serial], filter) then 1 else 0)
               + (if Counted(store[serial].(state := state), filter) then 1 else 0)
  {
    var a := store[serial].(state := state);
    CountedSerialsWrite(store, serial, a, filter);
    CountWithout(store, serial, filter);
    CountWithout(store[serial := a], serial, filter);
    assert CountedSerials(store[serial := a], filter) - {serial} == CountedSerials(store, filter) - {serial};
  }

  /** Deleting a row lowers each count by one exactly when that row counted. */
  lemma DeleteCount(store: Store, serial: string, filter: Option<string>)
    ensures CountAvailableCylinders(DeleteArticle(store, serial), filter)
            == CountAvailableCylinders(store, filter) - (if serial in store && Counted(store[serial], filter) then 1 else 0)
  {
    var after := CountedSerials(DeleteArticle(store, serial), filter);
    forall x | x in after
      ensures x in CountedSerials(store, filter) - {serial}
    {
    }
    assert after == CountedSerials(store, filter) - {serial};
    CountWithout(store, serial, filter);
  }

  /** The stock-alarm thresholds (`SOGLIE_BOMBOLE`). */
  const BelowStockLimit := 7
  const WarningLevel := 8
  const PreWarningLevel := 10

  /** The three alarm messages. */
  datatype StockAlarm = BelowStock | Warning | PreWarning

  /** The alarm for an available-cylinder count: the first matching
      threshold wins, and 9 or more than 10 raise nothing. */
  function AlarmLevel(count: int): (r: Option<StockAlarm>)
    ensures r == Some(BelowStock) <==> count <= 7
    ensures r == Some(Warning) <==> count == 8
    ensures r == Some(PreWarning) <==> count == 10
    ensures r == None <==> count == 9 || count >= 11
  {
    if count <= BelowStockLimit then Some(BelowStock)
    else if count == WarningLevel then Some(Warning)
    else if count == PreWarningLevel then Some(PreWarning)
    else None
  }

  /** At eight cylinders or fewer some alarm always sounds. */
  lemma LowStockAlwaysAlarms(count: int)
    requires count <= WarningLevel
    ensures AlarmLevel(count).Some?
  {
  }

  /** `controlla_allarme_bombole`: the alarm, if any, with the count it
      reports. */
  function CheckCylinderStock(store: Store, site: Option<string>): (r: Option<(StockAlarm, nat)>)
    ensures r.Some? <==> AlarmLevel(CountAvailableCylinders(store, site)).Some?
    ensures r.Some? ==> r.value.1 == CountAvailableCylinders(store, site)
                        && Some(r.value.0) == AlarmLevel(r.value.1)
  {
    var count := CountAvailableCylinders(store, site);
    match AlarmLevel(count)
    case None => None
    case Some(a) => Some((a, count))
  }

  /** What entering an article's number leads to. */
  datatype AddOutcome = InvalidNumber | AlreadyExists(serial: string) | Added(serial: string, alarm: Option<(StockAlarm, nat)>)

  /** The `inserisci_numero` step: validate the number, compose the serial,
      insert it as available and, for a cylinder, check the site's stock. */
  function AddArticle(store: Store, category: string, site: string, typed: string): (r: (Store, AddOutcome))
    ensures r.1 == InvalidNumber <==> ComposeSerial(category, site, typed).Failure?
    ensures !r.1.Added? ==> r.0 == store
    ensures r.1.AlreadyExists? ==> r.1.serial in store
    ensures r.1.Added? ==> && r.1.serial !in store
                           && r.0 == store[r.1.serial := Article(category, site, Available)]
    ensures r.1.Added? ==> r.1.alarm == (if category == Cylinder then CheckCylinderStock(r.0, Some(site)) else None)
    ensures !r.1.InvalidNumber? ==> Success(r.1.serial) == ComposeSerial(category, site, typed)
  {
    match ComposeSerial(category, site, typed)
    case Failure(_) => (store, InvalidNumber)
    case Success(serial) =>
      var (next, inserted) := InsertArticle(store, serial, category, site, Available);
      if !inserted then (store, AlreadyExists(serial))
      else (next, Added(serial, if category == Cylinder then CheckCylinderStock(next, Some(site)) else None))
  }

  /** Adding a cylinder raises its site's count by one. */
  lemma AddedCylinderCounts(store: Store, site: string, typed: string)
    requires AddArticle(store, Cylinder, site, typed).1.Added?
    ensures CountAvailableCylinders(AddArticle(store, Cylinder, site, typed).0, Some(site))
            == CountAvailableCylinders(store, Some(site)) + 1
  {
    var serial := AddArticle(store, Cylinder, site, typed).1.serial;
    InsertCount(store, serial, Cylinder, site, Available, Some(site));
  }

  /** Entering the same number twice adds the article once: the repeat
      reports the existing serial and changes nothing. */
  lemma AddArticleTwice(store: Store, category: string, site: string, typed: string)
    requires AddArticle(store, category, site, typed).1.Added?
    ensures var (next, first) := AddArticle(store, category, site, typed);
            AddArticle(next, category, site, typed) == (next, AlreadyExists(first.serial))
  {
  }

  /** The inline-button actions on an article. */
  datatype ArticleAction = MarkUsed(serial: string) | MarkOutOfService(serial: string) | Restore(serial: string) | Delete(serial: string)

  const UsedTag := "usato_"
  const OutOfServiceTag := "fuori_uso_"
  const RestoreTag := "ripristina_"
  const DeleteTag := "elimina_"
  /** Tags the button handler tests between `ripristina_` and `elimina_`,
      which belong to other actions. */
  const OtherTags := ["approva_", "rifiuta_", "nuovo_cat_", "nuovo_sede_", "rimuovi_cat_"]

  predicate StartsWith(s: string, prefix: string) {
    |prefix| <= |s| && s[..|prefix|] == prefix
  }

  /** The tag each article button's data starts with. */
  function TagOf(a: ArticleAction): string {
    match a
    case MarkUsed(_) => UsedTag
    case MarkOutOfService(_) => OutOfServiceTag
    case Restore(_) => RestoreTag
    case Delete(_) => DeleteTag
  }

  /** The button data `f"{tag}{seriale}"`: the action's tag followed by the
      serial, unchanged. */
  function EncodeAction(a: ArticleAction): (r: string)
    ensures StartsWith(r, TagOf(a)) && r[|TagOf(a)|..] == a.serial
    ensures |r| == |TagOf(a)| + |a.serial|
  {
    match a
    case MarkUsed(s) => UsedTag + s
    case MarkOutOfService(s) => OutOfServiceTag + s
    case Restore(s) => RestoreTag + s
    case Delete(s) => DeleteTag + s
  }

  /** The button handler's dispatch on the callback data, tested in its
      order; data another action claims first decodes to nothing. */
  function DecodeAction(data: string): (r: Option<ArticleAction>)
    ensures r.Some? ==> EncodeAction(r.value) == data
  {
    if StartsWith(data, UsedTag) then Some(MarkUsed(data[|UsedTag|..]))
    else if StartsWith(data, OutOfServiceTag) then Some(MarkOutOfService(data[|OutOfServiceTag|..]))
    else if StartsWith(data, RestoreTag) then Some(Restore(data[|RestoreTag|..]))
    else if exists i :: 0 <= i < |OtherTags| && StartsWith(data, OtherTags[i]) then None
    else if StartsWith(data, DeleteTag) then Some(Delete(data[|DeleteTag|..]))
    else None
  }

  /** Every button the bot builds is dispatched to the action it was built
      for, whatever the serial. */
  lemma DecodeEncode(a: ArticleAction)
    ensures DecodeAction(EncodeAction(a)) == Some(a)
  {
    var data := EncodeAction(a);
    assert data[0] == (match a
      case MarkUsed(_) => 'u'
      case MarkOutOfService(_) => 'f'
      case Restore(_) => 'r'
      case Delete(_) => 'e');
    if !a.Restore? {
      forall i | 0 <= i < |OtherTags|
        ensures !StartsWith(data, OtherTags[i])
      {
        assert OtherTags[i][0] in {'a', 'r', 'n'};
        if |OtherTags[i]| <= |data| {
          assert data[..|OtherTags[i]|][0] == data[0];
        }
      }
    }
    match a
    case MarkUsed(s) => assert data[..|UsedTag|] == UsedTag;
    case MarkOutOfService(s) =>
      assert data[..|OutOfServiceTag|] == OutOfServiceTag;
    case Restore(s) =>
      assert data[..|RestoreTag|] == RestoreTag;
    case Delete(s) =>
      assert data[..|DeleteTag|] == DeleteTag;
  }

  /** What a button press leaves behind: the table, the outcome of a
      deletion, and the stock alarm sent to the admins, if any. */
  datatype ButtonResult = ButtonResult(store: Store, deletion: Option<DeleteOutcome>, alarm: Option<(StockAlarm, nat)>)

  /** The buttons that take an article out of service. */
  predicate TakesOutOfService(a: ArticleAction) {
    a.MarkUsed? || a.MarkOutOfService?
  }

  /** What the button handler does with an action, as written: the used,
      out-of-service and restore buttons only set the state, and no button
      runs the stock check. */
  function ApplyAction(store: Store, a: ArticleAction): (r: ButtonResult)
    ensures a.Delete? <==> r.deletion.Some?
    ensures a.MarkUsed? ==> r.store == UpdateState(store, a.serial, Used)
    ensures a.MarkOutOfService? ==> r.store == UpdateState(store, a.serial, OutOfService)
    ensures a.Restore? ==> r.store == UpdateState(store, a.serial, Available)
    ensures a.Delete? ==> (r.store, r.deletion.value) == ConfirmDelete(store, a.serial)
    ensures r.alarm.None?
  {
    match a
    case MarkUsed(s) => ButtonResult(UpdateState(store, s, Used), None, None)
    case MarkOutOfService(s) => ButtonResult(UpdateState(store, s, OutOfService), None, None)
    case Restore(s) => ButtonResult(UpdateState(store, s, Available), None, None)
    case Delete(s) => var (r, o) := ConfirmDelete(store, s); ButtonResult(r, Some(o), None)
  }

  /** As written, taking one of nine available cylinders at a site out of
      use leaves that site at the warning level, yet the press sends no
      alarm: the stock is checked only when a cylinder is added. */
  lemma UseRaisesNoAlarm(store: Store, serial: string, site: string)
    requires serial in store && store[serial] == Article(Cylinder, site, Available)
    requires CountAvailableCylinders(store, Some(site)) == 9
    ensures var after := ApplyAction(store, MarkUsed(serial));
            && CountAvailableCylinders(after.store, Some(site)) == 8
            && AlarmLevel(CountAvailableCylinders(after.store, Some(site))) == Some(Warning)
            && after.alarm == None
  {
    UpdateCount(store, serial, Used, Some(site));
  }

  /** The button handler with the stock check also run when a cylinder is
      used or put out of service, for that cylinder's site. Tables and
      deletions are those of `ApplyAction`. */
  function ApplyActionChecked(store: Store, a: ArticleAction): (r: ButtonResult)
    ensures r.store == ApplyAction(store, a).store && r.deletion == ApplyAction(store, a).deletion
    ensures r.alarm.Some? <==>
              && TakesOutOfService(a) && a.serial in store && store[a.serial].category == Cylinder
              && AlarmLevel(CountAvailableCylinders(r.store, Some(store[a.serial].site))).Some?
    ensures r.alarm.Some? ==> a.serial in store && r.alarm == CheckCylinderStock(r.store, Some(store[a.serial].site))
  {
    var plain := ApplyAction(store, a);
    if TakesOutOfService(a) && a.serial in store && store[a.serial].category == Cylinder then
      plain.(alarm := CheckCylinderStock(plain.store, Some(store[a.serial].site)))
    else plain
  }

  /** With the check after use, taking one of nine available cylinders at a
      site out of use raises the warning with count 8. */
  lemma UsingNinthCylinderWarns(store: Store, serial: string, site: string)
    requires serial in store && store[serial] == Article(Cylinder, site, Available)
    requires CountAvailableCylinders(store, Some(site)) == 9
    ensures ApplyActionChecked(store, MarkUsed(serial)).alarm == Some((Warning, 8))
  {
    UpdateCount(store, serial, Used, Some(site));
  }

  /** Marking an article used and restoring it gives back the table it came
      from when it was available. */
  lemma UseThenRestore(store: Store, serial: string)
    requires serial in store && store[serial].state == Available
    ensures ApplyActionChecked(ApplyActionChecked(store, MarkUsed(serial)).store, Restore(serial)).store == store
  {
    var r := ApplyActionChecked(ApplyActionChecked(store, MarkUsed(serial)).store, Restore(serial)).store;
    assert r.Keys == store.Keys;
    assert forall k :: k in r ==> r[k] == store[k];
  }
}
