# Fire-brigade duty rotation and breathing-apparatus inventory

This project models in Dafny the two rule sets of a volunteer fire brigade's
pair of Telegram bots (Erba, Italy).

The first is the duty rotation of `bot_cambi.py`:
- which squad is on duty on a given date for each squad type
  (`calcola_squadra_di_turno`);
- the holiday predicate (`e_festivo`);
- the daily "chi tocca oggi" report (`get_chi_tocca_oggi`), with the date
  and hour passed in;
- squad rosters with their member ordering and the add/remove of members.

The second is the inventory of `bot.py`:
- the serial numbers of masks, regulators, harnesses and cylinders;
- the `articoli` table with its insert, state change and deletion;
- the count of available cylinders and the stock alarm;
- the access roles of the bot's users.

SQLite tables become immutable values:
- a table keyed by a UNIQUE column becomes a `map`;
- a table with a composite UNIQUE key becomes a `set` of pairs;
- a table read in row order becomes a `seq`.

The modules:
- `Dates`: Gregorian dates as Python's `datetime` sees them. It covers
  validity, days since 1 January of the date's own year, the ordinal
  (`toordinal`), and the weekday with Monday = 0.
- `Rotation`: squad types, squads in `ordine` order, the four rotation
  rules, and `Resolve` for `calcola_squadra_di_turno`. The two Python
  exceptions become `Failure`:
  - a declared count of zero, which is a division by zero;
  - no registered squad at the computed index (no more squads than the
    index), which is an `IndexError`.
- `Holidays`: `e_festivo` and the 2025 holiday table.
- `Duty`: the daily report, as a sequence of (slot, squad) entries.
- `Roster`: the member listing of a squad and the membership set.
- `Text`: Python's `strip`, `isdigit` and `upper` as far as the bot uses
  them.
- `Inventory`: the category prefix, serial composition and parsing, the
  article table, the cylinder count, the alarm, the add-article step and
  the inline article buttons.
- `Access`: the `utenti` table and its roles.
- `Sorting`, `Arith`, `Wrappers`: a stable insertion sort with its
  uniqueness theorem, Euclidean division facts, and `Option`/`Result`.

## Behaviour worth knowing

- Every rotation that counts days counts from 1 January of the date's own
  year (bot_cambi.py:239-240, 254-255, 261-262). Elapsed days are never
  negative, and every such rotation restarts on 1 January
  (`Rotation.RotationRestartsEachYear`).
- The weekday-night index counts the days since the Monday of the date's
  week, so it depends on the weekday alone (bot_cambi.py:247-249).
- The night entry of the daily report is decided by the weekday only
  (bot_cambi.py:305-313). A holiday from Monday to Friday therefore gets
  both a night entry and a weekend entry when the weekday's night squad is
  not named Weekend (`Duty.WeekdayHolidayReport`).
- A weekday night squad named "Weekend" is dropped like the weekend
  placeholder (bot_cambi.py:312). After 20:00 on a non-holiday day from
  Monday to Friday with such a squad, the report has no entries and the
  message reads "Oggi non ci sono turni programmati" (bot_cambi.py:321-324;
  `Duty.ReportEmptyWhenNightNamedWeekend`).
- The `ricorrente` column of `festivita` is stored but never read
  (bot_cambi.py:278-279), so every entry covers only the one date it names
  (`Holidays.RecurringFlagIgnored`).
- The cylinder stock alarm is checked only after a cylinder is added
  (bot.py:611), never when one is used or put out of service; see
  "Findings".

## Model

| member | source | states |
|---|---|---|
| Dates.DayOfYear0 | bot_cambi.py:239-240 | days since 1 January of the date's own year: below the length of that year, and day − 1 in January |
| Dates.Ordinal | bot_cambi.py:247 | the day number since 0001-01-01 counted from 1, split into the days of the earlier years and the day of the year |
| Dates.Weekday | bot_cambi.py:283 | a weekday number from 0 (Monday) to 6 (Sunday) |
| Dates.NextDay | bot_cambi.py:293 | the following calendar day stays in the year or moves to the next one, and is a valid date except after 9999-12-31 |
| Dates.NextDayAdvances | bot_cambi.py:239-240 | from one day to the next, the day of the year rises by one within a year and restarts at 0 on 1 January, and the ordinal rises by one |
| Dates.NextDayWeekday | bot_cambi.py:283 | the weekday (Monday = 0) cycles by one from each day to the next |
| Dates.KnownWeekdays | bot_cambi.py:283 | 0001-01-01 is a Monday, 2025-01-01 a Wednesday, 2025-12-25 a Thursday and 2026-12-25 a Friday |
| Rotation.SchemeOf | bot_cambi.py:237-267 | each of the four type names selects its own rotation rule, and every other name selects none |
| Rotation.FindType | bot_cambi.py:220-224 | the type found carries the requested name, and none is found exactly when no registered type has that name |
| Rotation.SquadsOf | bot_cambi.py:229-234 | the squads of one type, exactly those and as often as registered, in ascending `ordine` |
| Rotation.SquadRowsOfTypeCount | bot_cambi.py:229-234 | the type filter keeps each squad of the type with its multiplicity and drops every other |
| Rotation.WeekendIndex | bot_cambi.py:237-243 | the weekend index is below the declared squad count |
| Rotation.WeekdayNightsIndex | bot_cambi.py:245-250 | the weekday-night index is the weekday modulo the count, so the year plays no part |
| Rotation.FridayNightsIndex | bot_cambi.py:252-257 | the Friday-night index is below the declared squad count |
| Rotation.EveningsIndex | bot_cambi.py:259-264 | the evening index is below the declared squad count |
| Rotation.Resolve | bot_cambi.py:211-270 | an unknown type or a type without a rule gives "N/D"; a zero count fails; a success for a known type is the name of a registered squad of that type |
| Rotation.ResolvePicksOrderedSquad | bot_cambi.py:226-264 | whenever a squad exists at the rule's index, the result is that squad in `ordine` order, and the index is below the declared count |
| Rotation.ResolveFailure | bot_cambi.py:241-264 | resolution fails exactly when a recognised type declares zero squads or has no squad at the computed index (at most as many squads as the index) |
| Rotation.YearStartsAtFirstSquad | bot_cambi.py:239-264 | on 1 January the weekend, Friday-night and evening rules all pick the first squad |
| Rotation.WeekendNextDay | bot_cambi.py:239-242 | the weekend index is constant within each 7-day block from 1 January and steps by one at each block boundary |
| Rotation.FridayNightsNextDay | bot_cambi.py:254-256 | the Friday-night index is constant within each 14-day block from 1 January and steps by one at each block boundary |
| Rotation.EveningsNextDay | bot_cambi.py:261-263 | the evening index advances by one modulo the count between consecutive days of the same year |
| Rotation.RotationRestartsEachYear | bot_cambi.py:239-263 | on the day after 31 December the weekend, Friday-night and evening rules restart at index 0 |
| Rotation.WeekdayNightsNextDay | bot_cambi.py:247-249 | the weekday-night index of the next day is the next weekday modulo the count |
| Rotation.WeekdayNightsByWeekday | bot_cambi.py:247-249 | two dates on the same weekday get the same weekday-night index |
| Rotation.SquadRowsOfTypeAppend | bot_cambi.py:229-234 | filtering two row blocks by type is filtering each block |
| Rotation.SquadsOfAlreadyOrdered | bot_cambi.py:229-234 | rows of a type registered with strictly increasing `ordine` are listed as registered |
| Rotation.SeededTypes | bot_cambi.py:151-156 | the four default types have ids 1-4 and counts 4, 3, 2 and 7 |
| Rotation.SeededWeekendSquads | bot_cambi.py:164-166 | the default weekend squads are listed A, B, C, D |
| Rotation.SeededWeekdayNightSquads | bot_cambi.py:164-168 | the default weekday-night squads are listed An, Bn, Cn |
| Rotation.SeededWeekdayNights | bot_cambi.py:245-250 | with the default squads, Monday to Thursday 6-9 January 2025 give An, Bn, Cn, An |
| Rotation.SeededWeekendWeeks | bot_cambi.py:237-243 | with the default squads, the dates 3 and 7 weeks after 1 January 2025 both give D |
| Holidays.FindHoliday | bot_cambi.py:278-279 | a row found has the requested date, and none is found exactly when no row has it |
| Holidays.IsHoliday | bot_cambi.py:272-286 | a date is a holiday exactly when some row has that date or it is a Sunday |
| Holidays.RecurringFlagIgnored | bot_cambi.py:127-134 | two tables with the same dates give the same answers whatever their `ricorrente` flags |
| Holidays.SeededChristmasIsYearSpecific | bot_cambi.py:182-194 | the default table makes 25 December 2025 a holiday but not 25 December 2026, a Friday |
| Duty.NightSquad | bot_cambi.py:305-310 | on Friday the Friday-night squad, Monday to Thursday the weekday-night squad, at weekends the "Weekend" placeholder |
| Duty.Report | bot_cambi.py:296-318 | at most three entries, strictly in the order evening, night, weekend |
| Duty.ReportSlots | bot_cambi.py:299-318 | evening entry iff before 20:00 on a non-holiday that is not Saturday; night entry iff Monday-Friday and the squad is not named "Weekend"; weekend entry iff Saturday, Sunday or holiday |
| Duty.ReportSquads | bot_cambi.py:301-317 | each entry names the squad its scheme resolves to |
| Duty.ReportFailure | bot_cambi.py:299-318 | the report fails exactly when an applicable scheme fails to resolve |
| Duty.ReportNeverEmpty | bot_cambi.py:305-318 | every day has at least one entry when the weekday's night squad is not named Weekend |
| Duty.WeekdayHolidayReport | bot_cambi.py:299-318 | a holiday on Monday-Friday has no evening entry and adds the weekend entry; it keeps its night entry when the night squad is not named Weekend |
| Duty.WorkingDayReport | bot_cambi.py:299-318 | a non-holiday Monday-Thursday has the evening entry iff before 20:00 and no weekend entry; it has the weekday-night squad when that squad is not named Weekend |
| Duty.ReportEmptyWhenNightNamedWeekend | bot_cambi.py:305-324 | after 20:00 on a non-holiday Monday-Friday whose night squad is named Weekend the report has no entries |
| Duty.WeekendDayReport | bot_cambi.py:299-318 | Saturday and Sunday have the weekend squad as their only entry |
| Roster.MemberLeIsTotalPreorder | bot_cambi.py:353-365 | the member ordering compares any two members and is transitive |
| Roster.MemberLeTies | bot_cambi.py:353-365 | two members tie only if they agree on qualification, driver grade, surname and given name |
| Roster.KeyLeAntisymmetric | bot_cambi.py:353-365 | two returned rows that the ordering ranks both ways are the same row: each admitted qualification and driver grade has its own rank and text compares by code point |
| Roster.MemberRows | bot_cambi.py:349-352 | the join keeps exactly the firefighters that belong to the squad |
| Roster.MemberRowsCount | bot_cambi.py:349-352 | the join keeps each member row as often as the table holds it |
| Roster.MembersOf | bot_cambi.py:348-367 | a squad's listing is a permutation of its members, sorted by qualification (CSV, VV, other), driver grade (III, II, I, none), surname, given name |
| Roster.MembersOfIgnoresInsertionOrder | bot_cambi.py:348-367 | when no two members share qualification, driver grade, surname and name, the sorted member records (ids included) depend only on who is in the squad and not on the row order |
| Roster.KeysPermutation | bot_cambi.py:349 | rearranging the member rows rearranges the returned (qualification, surname, name, driver) columns |
| Roster.MemberKeysIgnoreInsertionOrder | bot_cambi.py:348-367 | for every roster, the returned (qualification, surname, name, driver) rows depend only on who is in the squad and not on the row order |
| Roster.SquadRoster | bot_cambi.py:332-371 | entry i is the i-th squad of the type in `ordine` order, with that squad's member listing, and there is one entry per squad |
| Roster.AddMember | bot_cambi.py:373-386 | afterwards the pair is present; true iff it was absent; no other pair changes |
| Roster.RemoveMember | bot_cambi.py:388-397 | afterwards the pair is absent; true iff it was present; no other pair changes |
| Roster.AddMemberIdempotent | bot_cambi.py:373-386 | a repeated add returns false and changes nothing |
| Roster.RemoveMemberIdempotent | bot_cambi.py:388-397 | a repeated remove returns false and changes nothing |
| Roster.AddThenRemove | bot_cambi.py:373-397 | adding an absent pair and removing it restores the table, and both report success |
| Roster.AddMemberListing | bot_cambi.py:348-386 | an added firefighter appears in that squad's listing, and every other squad's listing is unchanged |
| Text.Strip | bot.py:587 | the result is a stretch of the input with only whitespace dropped at either end, and it neither starts nor ends with whitespace |
| Text.StripIdempotent | bot.py:587 | stripping twice is stripping once |
| Text.IsDigits | bot.py:592 | the empty entry is refused; otherwise accepted exactly when every character is a digit |
| Text.Upper | bot.py:598 | same length, each ASCII lower-case letter raised and every other character kept |
| Inventory.Prefix | bot.py:103-111 | one of MAS, ER, SPAL, BOMB, ART; ART exactly for a category outside the four; never an underscore |
| Inventory.PrefixTable | bot.py:105-110 | maschera, erogatore, spallaccio and bombola map to MAS, ER, SPAL and BOMB |
| Inventory.PrefixInjective | bot.py:105-110 | distinct known categories have distinct prefixes |
| Inventory.ParseSerial | bot.py:598 | a parsed serial is its prefix, "_", number, "_", site, with no underscore in the first two fields |
| Inventory.ComposeSerial | bot.py:586-598 | refused exactly when the stripped entry is not all digits; otherwise the serial parses back to the prefix, the stripped number and the upper-cased site |
| Inventory.SerialRoundTrip | bot.py:598 | a serial built from an underscore-free prefix and number parses back to its three fields |
| Inventory.SerialInjective | bot.py:597-598 | two entries give the same serial only if prefix, stripped number and upper-cased site agree |
| Inventory.InsertArticle | bot.py:113-124 | true iff the serial was new; a duplicate leaves the table unchanged; a new row has the given fields; existing rows never change |
| Inventory.UpdateState | bot.py:134-139 | only the named article's state changes; an unknown serial leaves the table unchanged |
| Inventory.DeleteArticle | bot.py:141-146 | exactly the named serial is removed and every other row is kept |
| Inventory.DeleteIdempotent | bot.py:141-146 | deleting twice is deleting once |
| Inventory.InsertThenDelete | bot.py:113-146 | inserting a new serial and deleting it restores the table |
| Inventory.ConfirmDelete | bot.py:755-763 | reports removed iff the serial exists; an unknown serial is reported not found and the table is unchanged |
| Inventory.CountAvailableCylinders | bot.py:172-183 | at most the number of articles, and zero exactly when no available cylinder (at the site, if one is given) exists |
| Inventory.SiteCountBounded | bot.py:175-180 | a site's count never exceeds the count over all sites |
| Inventory.CountSplitsBySite | bot.py:172-183 | with two sites, the overall count is the sum of the two sites' counts |
| Inventory.InsertCount | bot.py:113-124 | an insert raises a count by one exactly when it adds a new row that count includes |
| Inventory.UpdateCount | bot.py:134-139 | a state change moves a count by whether the row was counted before and after |
| Inventory.DeleteCount | bot.py:141-146 | a deletion lowers a count by one exactly when the deleted row was counted |
| Inventory.AlarmLevel | bot.py:783-788 | below-stock iff the count is at most 7, warning iff 8, pre-warning iff 10, nothing iff 9 or at least 11 |
| Inventory.LowStockAlwaysAlarms | bot.py:783-786 | at eight cylinders or fewer an alarm is always raised |
| Inventory.CheckCylinderStock | bot.py:766-788 | an alarm is raised iff the count calls for one, and it reports that count |
| Inventory.AddArticle | bot.py:586-616 | invalid entries and duplicate serials leave the table unchanged; an added article is new, available and has the composed serial; only a cylinder triggers the site's stock check |
| Inventory.AddedCylinderCounts | bot.py:600-611 | adding a cylinder raises its site's available count by one |
| Inventory.AddArticleTwice | bot.py:600-616 | entering the same number again reports the existing serial and changes nothing |
| Inventory.EncodeAction | bot.py:439 | the button data is the action's tag followed by the serial, unchanged |
| Inventory.DecodeAction | bot.py:638-756 | data that decodes to an action is exactly that action's button data |
| Inventory.DecodeEncode | bot.py:638-756 | every article button is dispatched to the action it was built for, whatever the serial |
| Inventory.ApplyAction | bot.py:638-763 | the used, out-of-service and restore buttons set that state; the delete button confirms the deletion; no button raises a stock alarm |
| Inventory.UseRaisesNoAlarm | bot.py:638-641 | as written, using one of nine available cylinders at a site leaves eight, the warning level, and sends no alarm |
| Inventory.ApplyActionChecked | bot.py:611 | the corrected handler: same tables and deletions, and an alarm exactly when a cylinder leaves service and its site's count calls for one |
| Inventory.UsingNinthCylinderWarns | bot.py:766-788 | with the corrected handler, using one of nine available cylinders at a site raises the warning with count 8 |
| Inventory.UseThenRestore | bot.py:638-653 | marking an available article used and then restoring it gives back the original table |
| Access.IsAdmin | bot.py:69-75 | admin exactly when the row exists with role admin; a user without a row is no admin |
| Access.IsApproved | bot.py:77-83 | approved iff a row exists whose role is not pending; every admin is approved |
| Access.SeedAdmins | bot.py:45-48 | every configured id has a row afterwards; existing rows keep their roles; new rows are admins |
| Access.Register | bot.py:292-294 | the user has a row afterwards; an existing row is never changed; a new row is pending |
| Access.Start | bot.py:290-312 | registers the user, and the admins are told iff the user was not already approved |
| Access.PendingRequests | bot.py:85-92 | exactly the users with a row who are not approved |
| Access.Approve | bot.py:94-100 | an existing user becomes a plain user and no other row changes; an unknown id changes nothing |
| Access.ApproveButton | bot.py:656-661 | only an admin's press approves; anyone else's changes nothing |
| Access.RejectButton | bot.py:677-686 | an admin's press deletes exactly the target's row; anyone else's changes nothing |
| Access.StartKeepsRole | bot.py:292-294 | /start never changes another user's role or approval |
| Access.StartFilesRequest | bot.py:292-312 | a newcomer's /start adds exactly that user to the pending requests and notifies the admins |
| Access.ApprovalGrantsAccess | bot.py:94-100 | an admin's approval of a pending user grants access and removes the request |
| Access.ApprovalDemotesAdmin | bot.py:97-98 | approving an admin makes them a plain user |
| Access.RejectionRevokes | bot.py:681-686 | a rejected user is neither approved nor pending, and a new /start makes them pending again |
| Access.NonAdminCannotDecide | bot.py:657-658 | approve and reject presses by a non-admin change nothing |
| Access.SeedAdminsOnEmptyTable | bot.py:45-48 | on an empty table, start-up makes exactly the configured ids admins |
| Access.RestartRestoresAdmin | bot.py:45-48 | a configured admin deleted by another admin is an admin again after the next start-up |
| Sorting.Sort | bot_cambi.py:232 | the result is sorted, a permutation of the input, and of the same length |
| Sorting.SortedUnique | bot_cambi.py:353-365 | two sorted permutations of the same rows are equal when the order has no ties |

## Findings

| source | as written | input that shows it | evidently intended | confidence | as-written member | corrected member |
|---|---|---|---|---|---|---|
| bot.py:611, 638-647 | the stock check runs only after a cylinder is added, when stock rises; the used and out-of-service buttons only set the state | nine available cylinders at one site, one of them marked used: eight remain, the warning level, and no alarm is sent | the check also runs when a cylinder leaves service, so a fall to a threshold alerts the admins | medium, not executed | Inventory.UseRaisesNoAlarm | Inventory.UsingNinthCylinderWarns |

`Inventory.ApplyAction` is the handler as written. `Inventory.ApplyActionChecked`
adds the check after a cylinder is used or put out of service; it leaves
every table and deletion as they were. `Inventory.UseThenRestore` is stated
about the corrected handler.

## Left out

- Telegram handlers, keyboards, message texts and the splitting of long
  messages: user interface and I/O.
- SQLite connections and table definitions: tables are values here.
  Foreign keys are not modelled; SQLite does not enforce them without
  `PRAGMA foreign_keys`, which the code never issues.
- The seeding of the squad tables is not modelled. Squad types and squads
  are an input. The `squadre` table has no UNIQUE constraint, so the seed's
  `INSERT OR IGNORE` adds the sixteen default squads again at every
  start-up (bot_cambi.py:93-101, 176-179). After one restart each weekend
  `ordine` appears twice, the listing reads A, A, B, B, C, C, D, D, and the
  first four indices reach only A and B. The seeded lemmas assume a table
  without duplicates.
- Rotation.Resolve: a negative `numero_squadre` is not modelled. The count
  is a natural number; Python would take a negative modulo and index from
  the end of the list.
- Rotation.SquadsOf: SQLite leaves the order of rows with equal `ordine`
  unspecified. The model keeps them in table order, which is what SQLite
  does for this query plan.
- Roster.MembersOf: rows with equal keys are kept in table order too, and
  the text order is SQLite's default BINARY collation (code-point order).
- Roster.Firefighter: a NULL `cognome` or `nome` is not modelled; surnames
  and names are always text. SQLite sorts NULL before every text.
- The clock (`datetime.now()`): the date and hour are parameters of
  `Duty.Report`.
- The unused `domani` variable (bot_cambi.py:293) and the fixed
  "Le tue squadre" suffix of the report (bot_cambi.py:327): no behaviour.
- The shift-swap tables (`cambi`, `tipologie_turno` with REAL hours,
  `turni_squadra`): unused by the rotation, and floating point.
- The wizard state kept in `context.user_data` is not modelled. The
  category and site reach `Inventory.AddArticle` as parameters.
- The stock statistics banding (bot.py:560-573) is not modelled. It reads a
  threshold `scorta_bassa` that `SOGLIE_BOMBOLE` (bot.py:16-20) does not
  define, so it raises `KeyError` whenever a site has 7 cylinders or more.
- Inventory.AddArticle: after a successful insert the reply looks up the
  category and site labels (bot.py:604-605). For a category or site the
  keyboard never offers, that lookup raises `KeyError` before the stock
  check. The model assumes the keyboard's values.
- Text.IsDigits: Python's `isdigit` also accepts non-ASCII digits such as
  superscripts. The model accepts only '0'-'9'.
- Text.Upper: Python's `upper` also maps non-ASCII letters. The model maps
  only a-z, which covers the two site keys.
- The approve/reject buttons' `int(...)` parsing of the user id, and the
  other inline buttons (category and site choice, removal listing): these
  only drive the user interface. Ids reach `Access` as integers.
- The ordering of pending requests by request time, and all timestamps:
  clock values.
- Listings by state or category (`get_articoli_per_stato`,
  `get_articoli_per_categoria`, `get_tutti_articoli`): plain selections
  that the model's map already answers.
- Flask servers, keep-alive pings, backup threads and the Gist backup:
  network, threads and foreign calls.
