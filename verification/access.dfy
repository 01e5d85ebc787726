/** Access control of bot.py: the `utenti` table and its roles.

    A user asks for access with /start and waits as `in_attesa`; an admin
    approves (`user`) or rejects (the row is deleted). The admins listed in
    the configuration are inserted at every start-up. */
module Access {

  /** `ruolo`. */
  datatype Role = Admin | User | Pending

  /** The `utenti` table keyed by its primary key `user_id`; names and
      timestamps are not modelled. */
  type Users = map<int, Role>

  /** `ADMIN_IDS`. */
  const AdminIds: seq<int> := [1816045269, 653425963, 693843502, 6622015744]

  /** `is_admin`: the row exists and its role is admin; a user without a
      row is no admin. */
  function IsAdmin(users: Users, id: int): (r: bool)
    ensures id !in users ==> !r
    ensures r <==> id in users && users[id] != User && users[id] != Pending
  {
    id in users && users[id] == Admin
  }

  /** `is_user_approved`: the row exists with role admin or user. */
  function IsApproved(users: Users, id: int): (r: bool)
    ensures r <==> id in users && users[id] != Pending
    ensures IsAdmin(users, id) ==> r
  {
    id in users && (users[id] == Admin || users[id] == User)
  }

  /** The start-up `INSERT OR IGNORE` of each configured admin: a row that
      exists already keeps its role. */
  function SeedAdmins(users: Users, ids: seq<int>): (r: Users)
    ensures r.Keys == users.Keys + set i | i in ids
    ensures forall id :: id in users ==> r[id] == users[id]
    ensures forall id :: id in r && id !in users ==> r[id] == Admin
    decreases |ids|
  {
    if |ids| == 0 then users
    else
      var next := if ids[0] in users then users else users[ids[0] := Admin];
      assert next.Keys == users.Keys + {ids[0]};
      assert forall id :: id in users ==> next[id] == users[id];
      assert forall id :: id in next && id !in users ==> next[id] == Admin;
      var r := SeedAdmins(next, ids[1..]);
      assert (set i | i in ids) == {ids[0]} + (set i | i in ids[1..]);
      r
  }

  /** The `/start` insert: a new user waits for approval; an existing row,
      whatever its role, is left alone. */
  function Register(users: Users, id: int): (r: Users)
    ensures id in r && r.Keys == users.Keys + {id}
    ensures id in users ==> r == users
    ensures id !in users ==> r[id] == Pending
    ensures forall k :: k in users ==> r[k] == users[k]
  {
    if id in users then users else users[id := Pending]
  }

  /** `/start`: register, then notify the admins unless the user is already
      approved. */
  function Start(users: Users, id: int): (r: (Users, bool))
    ensures r.0 == Register(users, id)
    ensures r.1 <==> !IsApproved(users, id)
  {
    var next := Register(users, id);
    (next, !IsApproved(next, id))
  }

  /** The users waiting for a decision (`get_richieste_in_attesa`, without
      its ordering by request time). */
  function PendingRequests(users: Users): (r: set<int>)
    ensures forall id :: id in r <==> id in users && !IsApproved(users, id)
  {
    set id | id in users && users[id] == Pending
  }

  /** `approva_utente`: the UPDATE sets role `user` on whatever row has the
      id, and matches nothing when there is none. */
  function Approve(users: Users, id: int): (r: Users)
    ensures r.Keys == users.Keys
    ensures id in users ==> r[id] == User
    ensures forall k :: k in users && k != id ==> r[k] == users[k]
  {
    if id in users then users[id := User] else users
  }

  /** The `approva_` button: only an admin's press counts. */
  function ApproveButton(users: Users, caller: int, target: int): (r: Users)
    ensures !IsAdmin(users, caller) ==> r == users
    ensures IsAdmin(users, caller) ==> r == Approve(users, target)
  {
    if !IsAdmin(users, caller) then users else Approve(users, target)
  }

  /** The `rifiuta_` button: an admin's press deletes the target's row. */
  function RejectButton(users: Users, caller: int, target: int): (r: Users)
    ensures !IsAdmin(users, caller) ==> r == users
    ensures IsAdmin(users, caller) ==> r.Keys == users.Keys - {target}
    ensures forall k :: k in r ==> r[k] == users[k]
  {
    if !IsAdmin(users, caller) then users else users - {target}
  }

  /** /start never overwrites a role: approval and admin rights survive it. */
  lemma StartKeepsRole(users: Users, id: int, other: int)
    requires other in users
    ensures Start(users, id).0[other] == users[other]
    ensures IsApproved(Start(users, id).0, other) == IsApproved(users, other)
  {
  }

  /** A newcomer's /start files exactly one new pending request and tells
      the admins. */
  lemma StartFilesRequest(users: Users, id: int)
    requires id !in users
    ensures var (next, notify) := Start(users, id);
            notify && PendingRequests(next) == PendingRequests(users) + {id}
  {
    var next := Start(users, id).0;
    assert forall k :: k in PendingRequests(next) <==> k in PendingRequests(users) + {id};
  }

  /** An admin's approval of a pending user grants access and closes the
      request. */
  lemma ApprovalGrantsAccess(users: Users, admin: int, target: int)
    requires IsAdmin(users, admin) && target in PendingRequests(users)
    ensures var next := ApproveButton(users, admin, target);
            && IsApproved(next, target)
            && PendingRequests(next) == PendingRequests(users) - {target}
  {
    var next := ApproveButton(users, admin, target);
    assert forall k :: k in PendingRequests(next) <==> k in PendingRequests(users) - {target};
  }

  /** The approval UPDATE does not look at the current role: approving an
      admin leaves them a plain user. */
  lemma ApprovalDemotesAdmin(users: Users, admin: int, target: int)
    requires IsAdmin(users, admin) && IsAdmin(users, target) && admin != target
    ensures var next := ApproveButton(users, admin, target);
            IsApproved(next, target) && !IsAdmin(next, target)
  {
  }

  /** An admin's rejection revokes access; the user may ask again with
      /start and is then pending once more. */
  lemma RejectionRevokes(users: Users, admin: int, target: int)
    requires IsAdmin(users, admin)
    ensures var next := RejectButton(users, admin, target);
            && !IsApproved(next, target)
            && target !in PendingRequests(next)
            && target in PendingRequests(Register(next, target))
  {
  }

  /** Presses by anyone but an admin change nothing. */
  lemma NonAdminCannotDecide(users: Users, caller: int, target: int)
    requires !IsAdmin(users, caller)
    ensures ApproveButton(users, caller, target) == users
    ensures RejectButton(users, caller, target) == users
  {
  }

  /** Start-up on an empty table makes every configured id an admin, and no
      one else has a row. */
  lemma SeedAdminsOnEmptyTable()
    ensures var users := SeedAdmins(map[], AdminIds);
            && (forall id :: id in AdminIds ==> IsAdmin(users, id))
            && (forall id :: id in users ==> id in AdminIds)
  {
  }

  /** A configured admin rejected by another admin is back as admin after
      the next start-up. */
  lemma RestartRestoresAdmin(users: Users, admin: int, target: int)
    requires IsAdmin(users, admin) && target in AdminIds
    ensures IsAdmin(SeedAdmins(RejectButton(users, admin, target), AdminIds), target)
  {
  }
}
