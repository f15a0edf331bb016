/**
 * The administrator handlers of server/routes/admin_endpoints.py: stopping
 * any session, deleting, re-roling, renaming and re-addressing accounts,
 * banning and unbanning, and handling pending registrations.
 *
 * Every handler first looks the caller (the JWT identity) up in User and
 * refuses a missing caller (401) and a caller whose role is not "admin"
 * (403) before it reads the request body. Body fields are `Option`s as in
 * UserEndpoints; killing a process is recorded on the Host.
 */
module AdminEndpoints {
  import opened Wrappers
  import opened Validators
  import opened Models

  const INVALID_DATA := Reply(400, "Invalid data format")
  const INSUFFICIENT_PERMISSIONS := Reply(403, "Insufficient permissions")
  const UNKNOWN_TARGET := Reply(404, "Invalid user")
  const USERNAME_TAKEN := Reply(400, "Username already taken")
  const EMAIL_TAKEN := Reply(400, "Email already taken")

  /** The caller is an existing User whose role is exactly "admin". */
  predicate IsAdmin(users: map<string, User>, callerId: string)
  {
    callerId in users && users[callerId].role == "admin"
  }

  /**
   * The guard every administrator handler opens with. `unknown` is the 401
   * message, which unban_user words differently from the others.
   */
  function AdminRefusal(users: map<string, User>, callerId: string, unknown: string): (r: Option<Reply>)
    ensures r.None? <==> IsAdmin(users, callerId)
    ensures r.Some? ==> r.value.status in {401, 403}
    ensures r.Some? && r.value.status == 401 <==> callerId !in users
  {
    if callerId !in users then Some(Reply(401, unknown))
    else if users[callerId].role != "admin" then Some(INSUFFICIENT_PERMISSIONS)
    else None
  }

  // ---------------------------------------------------------------------
  // delete_vm_by_id
  // ---------------------------------------------------------------------

  /**
   * delete_vm_by_id: any session, by record id. Only its QEMU process is
   * killed (websockify keeps running) and exactly that record is deleted.
   */
  method DeleteVmById(db: Db, host: Host, callerId: string, vmId: Option<nat>) returns (reply: Reply)
    requires db.Valid()
    modifies db, host
    ensures db.Valid()
    ensures old(db.Consistent()) ==> db.Consistent()
    ensures AdminRefusal(old(db.users), callerId, "Invalid user").Some? ==>
              reply == AdminRefusal(old(db.users), callerId, "Invalid user").value
    ensures IsAdmin(old(db.users), callerId) && vmId.None? ==> reply == INVALID_DATA
    ensures IsAdmin(old(db.users), callerId) && vmId.Some? && vmId.value !in old(db.vms)
            ==> reply == Reply(404, "Invalid virtual machine")
    ensures reply.status == 200 <==> IsAdmin(old(db.users), callerId) && vmId.Some? && vmId.value in old(db.vms)
    ensures reply.status == 200 ==>
              reply.message == "Virtual machine deleted"
              && db.State() == old(db.State()).(vms := old(db.vms) - {vmId.value})
              && host.signalled == old(host.signalled) + [old(db.vms)[vmId.value].processId]
    ensures reply.status != 200 ==> db.State() == old(db.State()) && host.signalled == old(host.signalled)
    ensures host.spawned == old(host.spawned)
  {
    var refusal := AdminRefusal(db.users, callerId, "Invalid user");
    if refusal.Some? {
      return refusal.value;
    }
    if vmId.None? {
      return INVALID_DATA;
    }
    if vmId.value !in db.vms {
      return Reply(404, "Invalid virtual machine");
    }
    host.Kill(db.vms[vmId.value].processId);
    db.vms := db.vms - {vmId.value};
    reply := Reply(200, "Virtual machine deleted");
  }

  // ---------------------------------------------------------------------
  // delete_user_by_id
  // ---------------------------------------------------------------------

  /** The checks of delete_user_by_id after the guard: the field (400), the target (404), an admin target (403). */
  function DeleteTargetRefusal(users: map<string, User>, userId: Option<string>): (r: Option<Reply>)
    ensures r.None? <==> userId.Some? && userId.value in users && users[userId.value].role != "admin"
    ensures userId.None? ==> r == Some(INVALID_DATA)
    ensures userId.Some? && userId.value !in users ==> r == Some(UNKNOWN_TARGET)
  {
    if userId.None? then Some(INVALID_DATA)
    else if userId.value !in users then Some(UNKNOWN_TARGET)
    else if users[userId.value].role == "admin" then
      Some(Reply(403, "Admins cannot delete their account, please contact the head admin"))
    else None
  }

  /**
   * delete_user_by_id as written: only the QEMU process of the target's
   * session is killed and only the User row is deleted, so the session
   * record stays behind, owned by nobody.
   */
  method DeleteUserById(db: Db, host: Host, callerId: string, userId: Option<string>) returns (reply: Reply)
    requires db.Valid()
    modifies db, host
    ensures db.Valid()
    ensures AdminRefusal(old(db.users), callerId, "Invalid user").Some? ==>
              reply == AdminRefusal(old(db.users), callerId, "Invalid user").value
    ensures IsAdmin(old(db.users), callerId) && DeleteTargetRefusal(old(db.users), userId).Some? ==>
              reply == DeleteTargetRefusal(old(db.users), userId).value
    ensures reply.status == 200 <==> IsAdmin(old(db.users), callerId) && DeleteTargetRefusal(old(db.users), userId).None?
    ensures reply.status == 200 ==>
              reply.message == "User deleted" && db.State() == old(db.State()).(users := old(db.users) - {userId.value})
    ensures reply.status == 200 && !OwnsVm(old(db.vms), userId.value) ==> host.signalled == old(host.signalled)
    ensures reply.status == 200 && OwnsVm(old(db.vms), userId.value) ==>
              (exists id :: id in old(db.vms) && old(db.vms)[id].userId == userId.value
                            && host.signalled == old(host.signalled) + [old(db.vms)[id].processId])
              && !NoOrphanVms(db.users, db.vms)
    ensures reply.status != 200 ==> db.State() == old(db.State()) && host.signalled == old(host.signalled)
    ensures host.spawned == old(host.spawned)
  {
    var refusal := AdminRefusal(db.users, callerId, "Invalid user");
    if refusal.Some? {
      return refusal.value;
    }
    refusal := DeleteTargetRefusal(db.users, userId);
    if refusal.Some? {
      return refusal.value;
    }
    var target := userId.value;
    if OwnsVm(db.vms, target) {
      var id :| id in db.vms && db.vms[id].userId == target;
      host.Kill(db.vms[id].processId);
      assert db.vms[id].userId !in db.users - {target};
    }
    db.users := db.users - {target};
    reply := Reply(200, "User deleted");
  }

  /**
   * delete_user_by_id with the session deleted too: both processes are
   * killed and the record goes with the User row, so no session is left
   * without an owner.
   */
  method DeleteUserAndVmById(db: Db, host: Host, callerId: string, userId: Option<string>) returns (reply: Reply)
    requires db.Valid()
    modifies db, host
    ensures db.Valid()
    ensures old(db.Consistent()) ==> db.Consistent()
    ensures reply.status == 200 <==> IsAdmin(old(db.users), callerId) && DeleteTargetRefusal(old(db.users), userId).None?
    ensures reply.status == 200 ==> userId.value !in db.users && !OwnsVm(db.vms, userId.value)
    ensures reply.status == 200 && !OwnsVm(old(db.vms), userId.value) ==>
              db.State() == old(db.State()).(users := old(db.users) - {userId.value})
    ensures reply.status == 200 && OwnsVm(old(db.vms), userId.value) ==>
              exists id :: id in old(db.vms) && old(db.vms)[id].userId == userId.value
                           && db.State() == old(db.State()).(users := old(db.users) - {userId.value}, vms := old(db.vms) - {id})
                           && host.signalled == old(host.signalled) + [old(db.vms)[id].websockifyProcessId, old(db.vms)[id].processId]
    ensures reply.status != 200 ==> db.State() == old(db.State()) && host.signalled == old(host.signalled)
    ensures userId.Some? && !OwnsVm(old(db.vms), userId.value) ==> host.signalled == old(host.signalled)
    ensures host.spawned == old(host.spawned)
  {
    var refusal := AdminRefusal(db.users, callerId, "Invalid user");
    if refusal.Some? {
      return refusal.value;
    }
    refusal := DeleteTargetRefusal(db.users, userId);
    if refusal.Some? {
      return refusal.value;
    }
    var target := userId.value;
    DeleteAccountAndSession(db, host, target);
    reply := Reply(200, "User deleted");
  }

  // ---------------------------------------------------------------------
  // change_user_role
  // ---------------------------------------------------------------------

  /**
   * change_user_role: the requested role is stored verbatim (any string,
   * "admin" included); an admin target is refused, so no admin can be
   * demoted here.
   */
  method ChangeUserRole(db: Db, callerId: string, userId: Option<string>, role: Option<string>) returns (reply: Reply)
    requires db.Valid()
    modifies db
    ensures db.Valid()
    ensures old(db.Consistent()) ==> db.Consistent()
    ensures AdminRefusal(old(db.users), callerId, "Invalid user").Some? ==>
              reply == AdminRefusal(old(db.users), callerId, "Invalid user").value
    ensures IsAdmin(old(db.users), callerId) && (userId.None? || role.None?) ==> reply == INVALID_DATA
    ensures IsAdmin(old(db.users), callerId) && userId.Some? && role.Some? && userId.value !in old(db.users)
            ==> reply == UNKNOWN_TARGET
    ensures reply.status == 200 <==>
              IsAdmin(old(db.users), callerId) && userId.Some? && role.Some?
              && userId.value in old(db.users) && old(db.users)[userId.value].role != "admin"
    ensures reply.status == 200 ==>
              reply.message == "User role changed"
              && db.State() == old(db.State()).(users := old(db.users)[userId.value :=
                   old(db.users)[userId.value].(role := role.value)])
    ensures reply.status != 200 ==> db.State() == old(db.State())
  {
    var refusal := AdminRefusal(db.users, callerId, "Invalid user");
    if refusal.Some? {
      return refusal.value;
    }
    if userId.None? || role.None? {
      return INVALID_DATA;
    }
    if userId.value !in db.users {
      return UNKNOWN_TARGET;
    }
    var target := db.users[userId.value];
    if target.role == "admin" {
      return Reply(403, "Admins cannot change their role, please contact the head admin");
    }
    UserNamesUpdate(db.users, userId.value, target.(role := role.value));
    db.users := db.users[userId.value := target.(role := role.value)];
    reply := Reply(200, "User role changed");
  }

  /** Replacing one row changes the username set by that row's name only. */
  lemma UserNamesUpdate(t: map<string, User>, id: string, u: User)
    requires UniqueUserNames(t) && id in t
    ensures UserNames(t[id := u]) == UserNames(t) - {t[id].username} + {u.username}
  {
    UserNamesRemove(t, id);
    UserNamesInsert(t - {id}, id, u);
    assert t[id := u] == (t - {id})[id := u];
  }

  // ---------------------------------------------------------------------
  // change_user_username
  // ---------------------------------------------------------------------

  /**
   * The name checks of change_user_username as written: the name held by a
   * User (the target's own name included), then by a BannedUser, then the
   * format. UnverifiedUser is not consulted.
   */
  function RenameRefusal(s: Snapshot, username: string): (r: Option<Reply>)
    ensures r.None? <==>
              username !in UserNames(s.users) && username !in BannedNames(s.banned) && IsValidUsername(username)
    ensures username in UserNames(s.users) || username in BannedNames(s.banned) ==> r == Some(USERNAME_TAKEN)
  {
    if username in UserNames(s.users) then Some(USERNAME_TAKEN)
    else if username in BannedNames(s.banned) then Some(USERNAME_TAKEN)
    else if !IsValidUsername(username) then Some(Reply(400, "Invalid username"))
    else None
  }

  /**
   * The name checks with the pending registrations consulted as well, as
   * register and the user's own change_username do.
   */
  function CheckedRenameRefusal(s: Snapshot, username: string): (r: Option<Reply>)
    ensures r.None? <==>
              username !in UserNames(s.users) && username !in UnverifiedNames(s.unverified)
              && username !in BannedNames(s.banned) && IsValidUsername(username)
    ensures r.Some? && RenameRefusal(s, username).None? ==> r == Some(USERNAME_TAKEN)
  {
    if username in UserNames(s.users) then Some(USERNAME_TAKEN)
    else if username in BannedNames(s.banned) then Some(USERNAME_TAKEN)
    else if username in UnverifiedNames(s.unverified) then Some(USERNAME_TAKEN)
    else if !IsValidUsername(username) then Some(Reply(400, "Invalid username"))
    else None
  }

  /** A rename that passes the checks as written can take the name of a pending registration. */
  lemma {:induction false} RenameCanTakePendingName()
    ensures
      var s := Snapshot(map["u" := User("alice", "a@x.io", "h", None, None, "user", false, None)],
                        map["p" := UnverifiedUser("bob", "b@x.io", "h", 0, "abc123")],
                        map[], map[], map[], 0, 0);
      && NamesDisjoint(s.users, s.unverified, s.banned)
      && RenameRefusal(s, "bob").None?
      && !NamesDisjoint(s.users["u" := s.users["u"].(username := "bob")], s.unverified, s.banned)
  {
    var s := Snapshot(map["u" := User("alice", "a@x.io", "h", None, None, "user", false, None)],
                      map["p" := UnverifiedUser("bob", "b@x.io", "h", 0, "abc123")],
                      map[], map[], map[], 0, 0);
    assert UserNames(s.users) == {"alice"} by {
      assert s.users["u"].username == "alice";
    }
    assert UnverifiedNames(s.unverified) == {"bob"} by {
      assert s.unverified["p"].username == "bob";
    }
    assert IsValidUsername("bob") by {
      UsernameLanguage("bob");
      assert AllUsernameChars("bob");
    }
    var renamed := s.users["u" := s.users["u"].(username := "bob")];
    assert renamed["u"].username == "bob";
    assert "bob" in UserNames(renamed) && "bob" in UnverifiedNames(s.unverified);
  }

  /** Renaming a row to a name no row holds keeps the names unique and swaps the old name for the new. */
  lemma RenameKeepsNamesUnique(users: map<string, User>, target: string, username: string)
    requires UniqueUserNames(users) && target in users && username !in UserNames(users)
    ensures UniqueUserNames(users[target := users[target].(username := username)])
    ensures UserNames(users[target := users[target].(username := username)])
            == UserNames(users) - {users[target].username} + {username}
  {
    var t := users[target := users[target].(username := username)];
    UserNamesUpdate(users, target, users[target].(username := username));
    forall a, b | a in t && b in t && a != b ensures t[a].username != t[b].username {
      if a == target {
        assert t[b].username in UserNames(users);
      } else if b == target {
        assert t[a].username in UserNames(users);
      }
    }
  }

  /** A rename that passes the checked refusal keeps all three tables' usernames apart. */
  lemma CheckedRenameKeepsNamesDisjoint(s: Snapshot, target: string, username: string)
    requires UniqueUserNames(s.users) && NamesDisjoint(s.users, s.unverified, s.banned)
    requires target in s.users && CheckedRenameRefusal(s, username).None?
    ensures NamesDisjoint(s.users[target := s.users[target].(username := username)], s.unverified, s.banned)
  {
    RenameKeepsNamesUnique(s.users, target, username);
  }

  /**
   * change_user_username as written: with a valid and unused name the
   * target is renamed. A name held only by a pending registration gets
   * through, after which the tables share a username.
   */
  method ChangeUserUsername(db: Db, callerId: string, userId: Option<string>, username: Option<string>)
    returns (reply: Reply)
    requires db.Valid()
    modifies db
    ensures db.Valid()
    ensures AdminRefusal(old(db.users), callerId, "Invalid user").Some? ==>
              reply == AdminRefusal(old(db.users), callerId, "Invalid user").value
    ensures IsAdmin(old(db.users), callerId) && (userId.None? || username.None?) ==> reply == INVALID_DATA
    ensures IsAdmin(old(db.users), callerId) && userId.Some? && username.Some? && userId.value !in old(db.users)
            ==> reply == UNKNOWN_TARGET
    ensures IsAdmin(old(db.users), callerId) && userId.Some? && username.Some? && userId.value in old(db.users)
            ==> (RenameRefusal(old(db.State()), username.value).Some? ==>
                   reply == RenameRefusal(old(db.State()), username.value).value)
    ensures reply.status == 200 <==>
              IsAdmin(old(db.users), callerId) && userId.Some? && username.Some? && userId.value in old(db.users)
              && RenameRefusal(old(db.State()), username.value).None?
    ensures reply.status == 200 ==>
              reply.message == "User username changed"
              && db.State() == old(db.State()).(users := old(db.users)[userId.value :=
                   old(db.users)[userId.value].(username := username.value)])
    ensures reply.status == 200 && username.value in UnverifiedNames(old(db.unverified)) ==> !db.Consistent()
    ensures reply.status != 200 ==> db.State() == old(db.State())
  {
    var refusal := AdminRefusal(db.users, callerId, "Invalid user");
    if refusal.Some? {
      return refusal.value;
    }
    if userId.None? || username.None? {
      return INVALID_DATA;
    }
    if userId.value !in db.users {
      return UNKNOWN_TARGET;
    }
    refusal := RenameRefusal(db.State(), username.value);
    if refusal.Some? {
      return refusal.value;
    }
    RenameKeepsNamesUnique(db.users, userId.value, username.value);
    db.users := db.users[userId.value := db.users[userId.value].(username := username.value)];
    reply := Reply(200, "User username changed");
  }

  /** change_user_username with the pending registrations consulted too: the tables keep their usernames apart. */
  method ChangeUserUsernameChecked(db: Db, callerId: string, userId: Option<string>, username: Option<string>)
    returns (reply: Reply)
    requires db.Valid()
    modifies db
    ensures db.Valid()
    ensures old(db.Consistent()) ==> db.Consistent()
    ensures reply.status == 200 <==>
              IsAdmin(old(db.users), callerId) && userId.Some? && username.Some? && userId.value in old(db.users)
              && CheckedRenameRefusal(old(db.State()), username.value).None?
    ensures reply.status == 200 ==>
              reply.message == "User username changed"
              && db.State() == old(db.State()).(users := old(db.users)[userId.value :=
                   old(db.users)[userId.value].(username := username.value)])
    ensures reply.status != 200 ==> db.State() == old(db.State())
  {
    var refusal := AdminRefusal(db.users, callerId, "Invalid user");
    if refusal.Some? {
      return refusal.value;
    }
    if userId.None? || username.None? {
      return INVALID_DATA;
    }
    if userId.value !in db.users {
      return UNKNOWN_TARGET;
    }
    refusal := CheckedRenameRefusal(db.State(), username.value);
    if refusal.Some? {
      return refusal.value;
    }
    RenameKeepsNamesUnique(db.users, userId.value, username.value);
    if db.Consistent() {
      CheckedRenameKeepsNamesDisjoint(db.State(), userId.value, username.value);
    }
    db.users := db.users[userId.value := db.users[userId.value].(username := username.value)];
    reply := Reply(200, "User username changed");
  }

  // ---------------------------------------------------------------------
  // change_user_email
  // ---------------------------------------------------------------------

  /** The address checks of change_user_email: held by a User, then by a BannedUser, then the address's shape. */
  function ReaddressRefusal(s: Snapshot, email: string): (r: Option<Reply>)
    ensures r.None? <==>
              email !in UserEmails(s.users) && email !in BannedEmails(s.banned) && IsValidEmail(email)
    ensures email in UserEmails(s.users) || email in BannedEmails(s.banned) ==> r == Some(EMAIL_TAKEN)
  {
    if email in UserEmails(s.users) then Some(EMAIL_TAKEN)
    else if email in BannedEmails(s.banned) then Some(EMAIL_TAKEN)
    else if !IsValidEmail(email) then Some(Reply(400, "Invalid email"))
    else None
  }

  /** change_user_email: a well-formed address no User or BannedUser holds replaces the target's. */
  method ChangeUserEmail(db: Db, callerId: string, userId: Option<string>, email: Option<string>)
    returns (reply: Reply)
    requires db.Valid()
    modifies db
    ensures db.Valid()
    ensures old(db.Consistent()) ==> db.Consistent()
    ensures AdminRefusal(old(db.users), callerId, "Invalid user").Some? ==>
              reply == AdminRefusal(old(db.users), callerId, "Invalid user").value
    ensures IsAdmin(old(db.users), callerId) && (userId.None? || email.None?) ==> reply == INVALID_DATA
    ensures IsAdmin(old(db.users), callerId) && userId.Some? && email.Some? && userId.value !in old(db.users)
            ==> reply == UNKNOWN_TARGET
    ensures reply.status == 200 <==>
              IsAdmin(old(db.users), callerId) && userId.Some? && email.Some? && userId.value in old(db.users)
              && ReaddressRefusal(old(db.State()), email.value).None?
    ensures reply.status == 200 ==>
              reply.message == "User email changed"
              && db.State() == old(db.State()).(users := old(db.users)[userId.value :=
                   old(db.users)[userId.value].(email := email.value)])
    ensures reply.status != 200 ==> db.State() == old(db.State())
  {
    var refusal := AdminRefusal(db.users, callerId, "Invalid user");
    if refusal.Some? {
      return refusal.value;
    }
    if userId.None? || email.None? {
      return INVALID_DATA;
    }
    if userId.value !in db.users {
      return UNKNOWN_TARGET;
    }
    refusal := ReaddressRefusal(db.State(), email.value);
    if refusal.Some? {
      return refusal.value;
    }
    var readdressed := db.users[userId.value].(email := email.value);
    UserNamesUpdate(db.users, userId.value, readdressed);
    db.users := db.users[userId.value := readdressed];
    reply := Reply(200, "User email changed");
  }

  // ---------------------------------------------------------------------
  // ban_user / unban_user
  // ---------------------------------------------------------------------

  /** The BannedUser row ban_user writes for a User: every column copied, plus the owner's id and the reason. */
  function Banish(userId: string, u: User, reason: Option<string>): (b: BannedUser)
    ensures b.userId == userId && b.banReason == reason
    ensures Restore(b) == u
  {
    BannedUser(userId, u.username, u.email, u.password, u.loginTime, u.ip, u.role, reason,
               u.twoFactorEnabled, u.twoFactorSecret)
  }

  /** The User row unban_user writes back from a BannedUser row. */
  function Restore(b: BannedUser): User
  {
    User(b.username, b.email, b.password, b.loginTime, b.ip, b.role, b.twoFactorEnabled, b.twoFactorSecret)
  }

  /** Every check of ban_user passes and the commit succeeds: an admin caller, a present target whose name is not yet banned. */
  ghost predicate BanAdmitted(users: map<string, User>, banned: map<nat, BannedUser>, callerId: string, userId: Option<string>)
  {
    IsAdmin(users, callerId) && userId.Some? && userId.value in users
    && users[userId.value].username !in BannedNames(banned)
  }

  /**
   * ban_user: the target's session (if any) has its QEMU process killed
   * and its record deleted, a BannedUser row copying the account is added
   * under the next integer id and the User row is deleted, all in one
   * commit. Any account can be banned, an administrator's (the caller's
   * own included) too. A username already in BannedUser makes the commit
   * fail (500) after the kill, and no table changes. After the commit the
   * ban reason is concatenated into the log message, which raises when
   * there is none: the ban stays committed and the reply is a 500.
   */
  method BanUser(db: Db, host: Host, callerId: string, userId: Option<string>, reason: Option<string>)
    returns (reply: Reply)
    requires db.Valid()
    modifies db, host
    ensures db.Valid()
    ensures old(db.Consistent()) ==> db.Consistent()
    ensures old(db.Consistent()) && reason.Some? ==> reply != INTERNAL_ERROR
    ensures AdminRefusal(old(db.users), callerId, "Invalid user").Some? ==>
              reply == AdminRefusal(old(db.users), callerId, "Invalid user").value
    ensures IsAdmin(old(db.users), callerId) && userId.None? ==> reply == INVALID_DATA
    ensures IsAdmin(old(db.users), callerId) && userId.Some? && userId.value !in old(db.users) ==> reply == UNKNOWN_TARGET
    ensures reply.status == 200 <==> BanAdmitted(old(db.users), old(db.banned), callerId, userId) && reason.Some?
    ensures reply.status == 200 ==> reply.message == "User banned"
    ensures BanAdmitted(old(db.users), old(db.banned), callerId, userId) && reason.None? ==> reply == INTERNAL_ERROR
    // the commit
    ensures BanAdmitted(old(db.users), old(db.banned), callerId, userId) ==>
              && userId.value !in db.users && !OwnsVm(db.vms, userId.value)
              && db.banned == old(db.banned)[old(db.nextBannedId) := Banish(userId.value, old(db.users)[userId.value], reason)]
              && db.nextBannedId == old(db.nextBannedId) + 1
              && db.users == old(db.users) - {userId.value}
              && db.unverified == old(db.unverified) && db.config == old(db.config) && db.nextVmId == old(db.nextVmId)
    ensures !BanAdmitted(old(db.users), old(db.banned), callerId, userId) ==> db.State() == old(db.State())
    // the session's QEMU process is killed before the commit, whether or not the commit succeeds
    ensures IsAdmin(old(db.users), callerId) && userId.Some? && userId.value in old(db.users)
            && !OwnsVm(old(db.vms), userId.value) ==>
              db.vms == old(db.vms) && host.signalled == old(host.signalled)
    ensures IsAdmin(old(db.users), callerId) && userId.Some? && userId.value in old(db.users)
            && OwnsVm(old(db.vms), userId.value) ==>
              exists id :: id in old(db.vms) && old(db.vms)[id].userId == userId.value
                           && host.signalled == old(host.signalled) + [old(db.vms)[id].processId]
                           && (BanAdmitted(old(db.users), old(db.banned), callerId, userId) ==> db.vms == old(db.vms) - {id})
    ensures !(IsAdmin(old(db.users), callerId) && userId.Some? && userId.value in old(db.users))
            ==> host.signalled == old(host.signalled)
    ensures host.spawned == old(host.spawned)
  {
    var refusal := AdminRefusal(db.users, callerId, "Invalid user");
    if refusal.Some? {
      return refusal.value;
    }
    if userId.None? {
      return INVALID_DATA;
    }
    var target := userId.value;
    if target !in db.users {
      return UNKNOWN_TARGET;
    }
    var user := db.users[target];
    var vms := db.vms;
    if OwnsVm(db.vms, target) {
      var id :| id in db.vms && db.vms[id].userId == target;
      host.Kill(db.vms[id].processId);
      vms := db.vms - {id};
      assert !OwnsVm(vms, target);
    }
    if user.username in BannedNames(db.banned) {
      return INTERNAL_ERROR;
    }
    CommitBan(db, target, reason, vms);
    if reason.None? {
      return INTERNAL_ERROR;
    }
    reply := Reply(200, "User banned");
  }

  /** The one commit of ban_user: the session record (if any) out, the BannedUser row in, the User row out. */
  method CommitBan(db: Db, target: string, reason: Option<string>, vms: map<nat, VirtualMachine>)
    requires db.Valid()
    requires target in db.users && db.users[target].username !in BannedNames(db.banned)
    requires forall id :: id in vms ==> id in db.vms && vms[id] == db.vms[id]
    requires !OwnsVm(vms, target)
    modifies db
    ensures db.Valid()
    ensures old(db.Consistent()) ==> db.Consistent()
    ensures db.State() == old(db.State()).(
              users := old(db.users) - {target},
              banned := old(db.banned)[old(db.nextBannedId) := Banish(target, old(db.users)[target], reason)],
              vms := vms,
              nextBannedId := old(db.nextBannedId) + 1)
  {
    var row := Banish(target, db.users[target], reason);
    BanKeepsNames(db.users, db.unverified, db.banned, target, db.nextBannedId, row);
    SessionsShrink(db.users, db.vms, vms, db.maxVmCount, target);
    db.banned := db.banned[db.nextBannedId := row];
    db.nextBannedId := db.nextBannedId + 1;
    db.users := db.users - {target};
    db.vms := vms;
  }

  /** Moving a User row to BannedUser keeps each table's names unique and the three tables apart. */
  lemma BanKeepsNames(users: map<string, User>, unverified: map<string, UnverifiedUser>, banned: map<nat, BannedUser>,
                      target: string, id: nat, row: BannedUser)
    requires UniqueUserNames(users) && UniqueBannedNames(banned)
    requires target in users && id !in banned
    requires row.username == users[target].username && row.username !in BannedNames(banned)
    ensures UniqueUserNames(users - {target}) && UniqueBannedNames(banned[id := row])
    ensures NamesDisjoint(users, unverified, banned) ==> NamesDisjoint(users - {target}, unverified, banned[id := row])
  {
    UserNamesRemove(users, target);
    BannedNamesInsert(banned, id, row);
    var t := banned[id := row];
    forall a, b | a in t && b in t && a != b ensures t[a].username != t[b].username {
      if a == id {
        assert banned[b].username in BannedNames(banned);
      } else if b == id {
        assert banned[a].username in BannedNames(banned);
      }
    }
  }

  /** Dropping every session of `target` (there is at most one) keeps the registry valid and leaves no session to the removed user. */
  lemma SessionsShrink(users: map<string, User>, vms: map<nat, VirtualMachine>, after: map<nat, VirtualMachine>,
                       maxVmCount: int, target: string)
    requires RegistryValid(vms, maxVmCount)
    requires forall id :: id in after ==> id in vms && after[id] == vms[id]
    requires !OwnsVm(after, target)
    ensures RegistryValid(after, maxVmCount)
    ensures NoOrphanVms(users, vms) ==> NoOrphanVms(users - {target}, after)
  {
    forall id | id in after ensures after[id].userId != target {
    }
  }

  /**
   * unban_user: the BannedUser row whose user_id column is the given id
   * (`released`; when several match, which one the database returns first
   * is not specified) becomes a User row again under a fresh uuid, not
   * its former id, and is deleted. A username already held by a User makes
   * the commit fail (500) and nothing changes.
   */
  method UnbanUser(db: Db, callerId: string, userId: Option<string>, idBytes: seq<byte>)
    returns (reply: Reply, ghost released: Option<nat>)
    requires db.Valid()
    requires |idBytes| == 16 && GenerateUuid(idBytes) !in db.users
    modifies db
    ensures db.Valid()
    ensures old(db.Consistent()) ==> db.Consistent() && reply != INTERNAL_ERROR
    ensures AdminRefusal(old(db.users), callerId, "Invalid user, user not found").Some? ==>
              reply == AdminRefusal(old(db.users), callerId, "Invalid user, user not found").value
    ensures IsAdmin(old(db.users), callerId) && userId.None? ==> reply == INVALID_DATA
    ensures released.Some? <==>
              IsAdmin(old(db.users), callerId) && userId.Some?
              && exists b :: b in old(db.banned) && old(db.banned)[b].userId == userId.value
    ensures released.Some? ==> released.value in old(db.banned) && old(db.banned)[released.value].userId == userId.value
    ensures IsAdmin(old(db.users), callerId) && userId.Some? && released.None? ==> reply == UNKNOWN_TARGET
    ensures reply.status == 200 ==>
              && released.Some? && reply.message == "User unbanned"
              && db.State() == old(db.State()).(
                   users := old(db.users)[GenerateUuid(idBytes) := Restore(old(db.banned)[released.value])],
                   banned := old(db.banned) - {released.value})
    ensures released.Some? && old(db.banned)[released.value].username !in UserNames(old(db.users)) ==> reply.status == 200
    ensures reply.status != 200 ==> db.State() == old(db.State())
  {
    released := None;
    var refusal := AdminRefusal(db.users, callerId, "Invalid user, user not found");
    if refusal.Some? {
      return refusal.value, None;
    }
    if userId.None? {
      return INVALID_DATA, None;
    }
    if !exists b :: b in db.banned && db.banned[b].userId == userId.value {
      return UNKNOWN_TARGET, None;
    }
    var b :| b in db.banned && db.banned[b].userId == userId.value;
    released := Some(b);
    var row := db.banned[b];
    if row.username in UserNames(db.users) {
      return INTERNAL_ERROR, released;
    }
    ghost var wasConsistent := db.Consistent();
    var id := GenerateUuid(idBytes);
    UserNamesInsert(db.users, id, Restore(row));
    BannedNamesRemove(db.banned, b);
    db.users := db.users[id := Restore(row)];
    db.banned := db.banned - {b};
    reply := Reply(200, "User unbanned");
  }

  // ---------------------------------------------------------------------
  // Pending registrations and banned rows
  // ---------------------------------------------------------------------

  /**
   * verify_unverified_user: the pending row with that id becomes a User row
   * (role "user", never logged in, 2FA off) under a fresh uuid, and is
   * deleted; no code is asked for. A username already held by a User makes
   * the commit fail (500) and nothing changes.
   */
  method VerifyUnverifiedUser(db: Db, callerId: string, userId: Option<string>, idBytes: seq<byte>)
    returns (reply: Reply)
    requires db.Valid()
    requires |idBytes| == 16 && GenerateUuid(idBytes) !in db.users
    modifies db
    ensures db.Valid()
    ensures old(db.Consistent()) ==> db.Consistent() && reply != INTERNAL_ERROR
    ensures AdminRefusal(old(db.users), callerId, "Invalid user").Some? ==>
              reply == AdminRefusal(old(db.users), callerId, "Invalid user").value
    ensures IsAdmin(old(db.users), callerId) && userId.None? ==> reply == INVALID_DATA
    ensures IsAdmin(old(db.users), callerId) && userId.Some? && userId.value !in old(db.unverified) ==> reply == UNKNOWN_TARGET
    ensures reply.status == 200 <==>
              IsAdmin(old(db.users), callerId) && userId.Some? && userId.value in old(db.unverified)
              && old(db.unverified)[userId.value].username !in UserNames(old(db.users))
    ensures reply.status == 200 ==>
              reply.message == "Unverified user verified"
              && db.State() == old(db.State()).(
                   users := old(db.users)[GenerateUuid(idBytes) := Promote(old(db.unverified)[userId.value])],
                   unverified := old(db.unverified) - {userId.value})
    ensures reply.status != 200 ==> db.State() == old(db.State())
  {
    var refusal := AdminRefusal(db.users, callerId, "Invalid user");
    if refusal.Some? {
      return refusal.value;
    }
    if userId.None? {
      return INVALID_DATA;
    }
    if userId.value !in db.unverified {
      return UNKNOWN_TARGET;
    }
    var row := db.unverified[userId.value];
    if row.username in UserNames(db.users) {
      return INTERNAL_ERROR;
    }
    var id := GenerateUuid(idBytes);
    UserNamesInsert(db.users, id, Promote(row));
    UnverifiedNamesRemove(db.unverified, userId.value);
    db.users := db.users[id := Promote(row)];
    db.unverified := db.unverified - {userId.value};
    reply := Reply(200, "Unverified user verified");
  }

  /** delete_unverified_user: the pending row with that id is deleted. */
  method DeleteUnverifiedUser(db: Db, callerId: string, userId: Option<string>) returns (reply: Reply)
    requires db.Valid()
    modifies db
    ensures db.Valid()
    ensures old(db.Consistent()) ==> db.Consistent()
    ensures AdminRefusal(old(db.users), callerId, "Invalid user").Some? ==>
              reply == AdminRefusal(old(db.users), callerId, "Invalid user").value
    ensures IsAdmin(old(db.users), callerId) && userId.None? ==> reply == INVALID_DATA
    ensures IsAdmin(old(db.users), callerId) && userId.Some? && userId.value !in old(db.unverified) ==> reply == UNKNOWN_TARGET
    ensures reply.status == 200 <==> IsAdmin(old(db.users), callerId) && userId.Some? && userId.value in old(db.unverified)
    ensures reply.status == 200 ==>
              reply.message == "Unverified user deleted"
              && db.State() == old(db.State()).(unverified := old(db.unverified) - {userId.value})
    ensures reply.status != 200 ==> db.State() == old(db.State())
  {
    var refusal := AdminRefusal(db.users, callerId, "Invalid user");
    if refusal.Some? {
      return refusal.value;
    }
    if userId.None? {
      return INVALID_DATA;
    }
    if userId.value !in db.unverified {
      return UNKNOWN_TARGET;
    }
    UnverifiedNamesRemove(db.unverified, userId.value);
    db.unverified := db.unverified - {userId.value};
    reply := Reply(200, "Unverified user deleted");
  }

  /**
   * delete_banned_user: the body's `user_id` is matched against
   * BannedUser's integer primary key, not its user_id column, and that row
   * is deleted.
   */
  method DeleteBannedUser(db: Db, callerId: string, bannedId: Option<nat>) returns (reply: Reply)
    requires db.Valid()
    modifies db
    ensures db.Valid()
    ensures old(db.Consistent()) ==> db.Consistent()
    ensures AdminRefusal(old(db.users), callerId, "Invalid user").Some? ==>
              reply == AdminRefusal(old(db.users), callerId, "Invalid user").value
    ensures IsAdmin(old(db.users), callerId) && bannedId.None? ==> reply == INVALID_DATA
    ensures IsAdmin(old(db.users), callerId) && bannedId.Some? && bannedId.value !in old(db.banned) ==> reply == UNKNOWN_TARGET
    ensures reply.status == 200 <==> IsAdmin(old(db.users), callerId) && bannedId.Some? && bannedId.value in old(db.banned)
    ensures reply.status == 200 ==>
              reply.message == "Banned user deleted"
              && db.State() == old(db.State()).(banned := old(db.banned) - {bannedId.value})
    ensures reply.status != 200 ==> db.State() == old(db.State())
  {
    var refusal := AdminRefusal(db.users, callerId, "Invalid user");
    if refusal.Some? {
      return refusal.value;
    }
    if bannedId.None? {
      return INVALID_DATA;
    }
    if bannedId.value !in db.banned {
      return UNKNOWN_TARGET;
    }
    BannedNamesRemove(db.banned, bannedId.value);
    db.banned := db.banned - {bannedId.value};
    reply := Reply(200, "Banned user deleted");
  }
}
