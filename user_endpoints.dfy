/**
 * The account handlers of server/routes/user_endpoints.py: registration,
 * e-mail verification, login, logout, account deletion and the 2FA
 * set-up / verify / disable cycle.
 *
 * Each request body field is an `Option<string>` (None when the body is
 * absent or lacks the field). Bcrypt, pyotp and the password policy are
 * oracles passed in as parameters: `hashPassword` (generate_password_hash),
 * `checkPassword(hash, plain)` (check_password_hash), `totpVerify(secret,
 * code)` and `policyFails` (the policy reported a failed test). The clock,
 * the client address and the random bytes behind generated ids and codes
 * are parameters too. The caller's id is the JWT identity.
 */
module UserEndpoints {
  import opened Wrappers
  import opened RandomChoice
  import opened Validators
  import opened Models

  const INVALID_DATA := Reply(400, "Invalid data format")
  const INVALID_USER := Reply(401, "Invalid user")
  const USERNAME_TAKEN := Reply(409, "Username already taken")
  const EMAIL_TAKEN := Reply(409, "Email already taken")
  const POLICY_MESSAGE := "Password must be at least 8 characters long, contain at least 1 uppercase letter, 2 numbers, 1 special character, and 2 non-letter characters"
  const REGISTERED := Reply(201, "User created. Check your email to verify your account. Please check your spam folder if you do not see the email.")

  /** `username` is held in one of the three account tables. */
  predicate NameTaken(s: Snapshot, username: string)
  {
    username in UserNames(s.users) || username in UnverifiedNames(s.unverified) || username in BannedNames(s.banned)
  }

  /** `email` is held in one of the three account tables. */
  predicate EmailTaken(s: Snapshot, email: string)
  {
    email in UserEmails(s.users) || email in UnverifiedEmails(s.unverified) || email in BannedEmails(s.banned)
  }

  /** The reply for a banned account: its reason is concatenated into the message, which raises when there is none. */
  function BannedReply(reason: Option<string>): Reply
  {
    match reason
    case Some(r) => Reply(403, "You were banned for: " + r + ". Please contact the head admin to appeal.")
    case None => INTERNAL_ERROR
  }

  // ---------------------------------------------------------------------
  // register
  // ---------------------------------------------------------------------

  /**
   * The checks of register, in the handler's order: the three fields, the
   * username then the e-mail in User, in UnverifiedUser and in BannedUser
   * (409), the username's format, the password policy (400). None when all
   * pass. The e-mail address's format is never checked.
   */
  function RegisterRefusal(s: Snapshot, username: Option<string>, email: Option<string>, password: Option<string>,
                           policyFails: bool): (r: Option<Reply>)
    ensures r.None? <==>
              && username.Some? && email.Some? && password.Some?
              && !NameTaken(s, username.value) && !EmailTaken(s, email.value)
              && IsValidUsername(username.value) && !policyFails
    ensures (username.None? || email.None? || password.None?) ==> r == Some(INVALID_DATA)
    ensures username.Some? && email.Some? && password.Some? && NameTaken(s, username.value)
            ==> r == Some(USERNAME_TAKEN) || r == Some(EMAIL_TAKEN)
    ensures username.Some? && email.Some? && password.Some? && EmailTaken(s, email.value)
            ==> r == Some(USERNAME_TAKEN) || r == Some(EMAIL_TAKEN)
    ensures r == Some(Reply(400, "Invalid username")) ==>
              !NameTaken(s, username.value) && !EmailTaken(s, email.value) && !IsValidUsername(username.value)
  {
    if username.None? || email.None? || password.None? then Some(INVALID_DATA)
    else
      var name, mail := username.value, email.value;
      if name in UserNames(s.users) then Some(USERNAME_TAKEN)
      else if mail in UserEmails(s.users) then Some(EMAIL_TAKEN)
      else if name in UnverifiedNames(s.unverified) then Some(USERNAME_TAKEN)
      else if mail in UnverifiedEmails(s.unverified) then Some(EMAIL_TAKEN)
      else if name in BannedNames(s.banned) then Some(USERNAME_TAKEN)
      else if mail in BannedEmails(s.banned) then Some(EMAIL_TAKEN)
      else if !IsValidUsername(name) then Some(Reply(400, "Invalid username"))
      else if policyFails then Some(Reply(400, POLICY_MESSAGE))
      else None
  }

  /**
   * register: on success exactly one UnverifiedUser row is added, under a
   * fresh uuid, holding the hashed password, the creation time and a
   * generated six-character code; nothing else changes.
   */
  method Register(db: Db, username: Option<string>, email: Option<string>, password: Option<string>,
                  policyFails: bool, hashPassword: string -> string, now: int,
                  idBytes: seq<byte>, codeDraws: seq<nat>)
    returns (reply: Reply)
    requires db.Valid()
    requires |idBytes| == 16 && GenerateUuid(idBytes) !in db.unverified
    requires |codeDraws| == 6 && DrawsBelow(codeDraws, |CodeAlphabet()|)
    modifies db
    ensures db.Valid()
    ensures old(db.Consistent()) ==> db.Consistent()
    ensures RegisterRefusal(old(db.State()), username, email, password, policyFails).Some? ==>
              reply == RegisterRefusal(old(db.State()), username, email, password, policyFails).value
              && db.State() == old(db.State())
    ensures RegisterRefusal(old(db.State()), username, email, password, policyFails).None? ==>
              reply == REGISTERED
              && db.State() == old(db.State()).(unverified := old(db.unverified)[GenerateUuid(idBytes) :=
                   UnverifiedUser(username.value, email.value, hashPassword(password.value), now, GenerateUniqueCode(codeDraws))])
  {
    var refusal := RegisterRefusal(db.State(), username, email, password, policyFails);
    if refusal.Some? {
      return refusal.value;
    }
    var row := UnverifiedUser(username.value, email.value, hashPassword(password.value), now, GenerateUniqueCode(codeDraws));
    db.unverified := db.unverified[GenerateUuid(idBytes) := row];
    reply := REGISTERED;
  }

  // ---------------------------------------------------------------------
  // verify_user
  // ---------------------------------------------------------------------

  /**
   * verify_user: the pending row with that username must carry that code;
   * it then becomes a User row (role "user") under a fresh uuid and the
   * pending row is deleted. Adding the User row is committed on its own
   * first, so a username already held by a User makes that commit fail
   * (500) and nothing changes; that cannot happen while the account tables
   * keep their usernames disjoint.
   */
  method VerifyUser(db: Db, username: Option<string>, code: Option<string>, idBytes: seq<byte>)
    returns (reply: Reply, ghost pending: Option<string>)
    requires db.Valid()
    requires |idBytes| == 16 && GenerateUuid(idBytes) !in db.users
    modifies db
    ensures db.Valid()
    ensures old(db.Consistent()) ==> db.Consistent()
    ensures username.None? || code.None? ==> reply == INVALID_DATA
    ensures username.Some? && code.Some? && username.value !in UnverifiedNames(old(db.unverified))
            ==> reply == Reply(401, "Invalid username or unique code")
    ensures pending.Some? <==> username.Some? && code.Some? && username.value in UnverifiedNames(old(db.unverified))
    ensures pending.Some? ==> pending.value in old(db.unverified) && old(db.unverified)[pending.value].username == username.value
    ensures pending.Some? && old(db.unverified)[pending.value].uniqueCode != code.value ==> reply == Reply(401, "Invalid code")
    ensures pending.Some? && old(db.unverified)[pending.value].uniqueCode == code.value
              && username.value in UserNames(old(db.users))
            ==> reply == INTERNAL_ERROR
    ensures reply.status == 200 <==>
              pending.Some? && old(db.unverified)[pending.value].uniqueCode == code.value
              && username.value !in UserNames(old(db.users))
    ensures old(db.Consistent()) ==> reply != INTERNAL_ERROR
    ensures reply.status == 200 ==>
              && pending.Some? && old(db.unverified)[pending.value].uniqueCode == code.value
              && reply.message == "User verified"
              && db.State() == old(db.State()).(
                   users := old(db.users)[GenerateUuid(idBytes) := Promote(old(db.unverified)[pending.value])],
                   unverified := old(db.unverified) - {pending.value})
    ensures reply.status != 200 ==> db.State() == old(db.State())
  {
    pending := None;
    if username.None? || code.None? {
      return INVALID_DATA, None;
    }
    if username.value !in UnverifiedNames(db.unverified) {
      return Reply(401, "Invalid username or unique code"), None;
    }
    var id :| id in db.unverified && db.unverified[id].username == username.value;
    pending := Some(id);
    var row := db.unverified[id];
    if row.uniqueCode != code.value {
      return Reply(401, "Invalid code"), pending;
    }
    if row.username in UserNames(db.users) {
      return INTERNAL_ERROR, pending;
    }
    UserNamesInsert(db.users, GenerateUuid(idBytes), Promote(row));
    UnverifiedNamesRemove(db.unverified, id);
    db.users := db.users[GenerateUuid(idBytes) := Promote(row)];
    db.unverified := db.unverified - {id};
    reply := Reply(200, "User verified");
  }

  // ---------------------------------------------------------------------
  // login
  // ---------------------------------------------------------------------

  /** Rows the login query matches: by username or by e-mail address. */
  predicate UserMatches(u: User, login: string) { u.username == login || u.email == login }
  predicate BannedMatches(b: BannedUser, login: string) { b.username == login || b.email == login }
  predicate UnverifiedMatches(v: UnverifiedUser, login: string) { v.username == login || v.email == login }

  predicate AnyUserMatches(users: map<string, User>, login: string)
  {
    exists id :: id in users && UserMatches(users[id], login)
  }

  predicate AnyBannedMatches(banned: map<nat, BannedUser>, login: string)
  {
    exists id :: id in banned && BannedMatches(banned[id], login)
  }

  predicate AnyUnverifiedMatches(unverified: map<string, UnverifiedUser>, login: string)
  {
    exists id :: id in unverified && UnverifiedMatches(unverified[id], login)
  }

  /** A missing or empty 2FA code. */
  predicate NoCode(code: Option<string>) { code.None? || code.value == "" }

  /**
   * login. `matched` is the User row the query returned, if any (when
   * several rows match, which one the database returns first is not
   * specified). A miss is answered from BannedUser first, then
   * UnverifiedUser. A hit must pass the password check and, with 2FA on,
   * the code check; it then records the login time and address.
   */
  method Login(db: Db, login: Option<string>, password: Option<string>, code: Option<string>,
               checkPassword: (string, string) -> bool, totpVerify: (string, string) -> bool,
               now: int, address: string)
    returns (reply: Reply, ghost matched: Option<string>)
    requires db.Valid()
    modifies db
    ensures db.Valid()
    ensures old(db.Consistent()) ==> db.Consistent()
    ensures login.None? || password.None? ==> reply == INVALID_DATA
    ensures matched.Some? <==> login.Some? && password.Some? && AnyUserMatches(old(db.users), login.value)
    ensures matched.Some? ==> matched.value in old(db.users) && UserMatches(old(db.users)[matched.value], login.value)
    // a miss
    ensures login.Some? && password.Some? && !AnyUserMatches(old(db.users), login.value) ==>
              if AnyBannedMatches(old(db.banned), login.value) then
                exists b :: b in old(db.banned) && BannedMatches(old(db.banned)[b], login.value)
                            && reply == BannedReply(old(db.banned)[b].banReason)
              else if AnyUnverifiedMatches(old(db.unverified), login.value) then
                reply == Reply(401, "Please verify your account before logging in")
              else
                reply == Reply(401, "Invalid username or password")
    // a hit
    ensures matched.Some? && !checkPassword(old(db.users)[matched.value].password, password.value)
            ==> reply == Reply(401, "Invalid username or password")
    ensures matched.Some? && checkPassword(old(db.users)[matched.value].password, password.value)
            && old(db.users)[matched.value].twoFactorEnabled && NoCode(code)
            ==> reply == Reply(400, "Please provide the 2FA code")
    ensures reply.status == 200 <==>
              && matched.Some? && checkPassword(old(db.users)[matched.value].password, password.value)
              && var u := old(db.users)[matched.value];
              && (u.twoFactorEnabled ==> !NoCode(code) && u.twoFactorSecret.Some? && totpVerify(u.twoFactorSecret.value, code.value))
    ensures reply.status == 200 ==>
              reply.message == "Login successful"
              && db.State() == old(db.State()).(users := old(db.users)[matched.value :=
                   old(db.users)[matched.value].(loginTime := Some(now), ip := Some(address))])
    ensures reply.status != 200 ==> db.State() == old(db.State())
  {
    matched := None;
    if login.None? || password.None? {
      return INVALID_DATA, None;
    }
    var name := login.value;
    if !AnyUserMatches(db.users, name) {
      if AnyBannedMatches(db.banned, name) {
        var b :| b in db.banned && BannedMatches(db.banned[b], name);
        return BannedReply(db.banned[b].banReason), None;
      }
      if AnyUnverifiedMatches(db.unverified, name) {
        return Reply(401, "Please verify your account before logging in"), None;
      }
      return Reply(401, "Invalid username or password"), None;
    }
    var id :| id in db.users && UserMatches(db.users[id], name);
    matched := Some(id);
    var user := db.users[id];
    if !checkPassword(user.password, password.value) {
      return Reply(401, "Invalid username or password"), matched;
    }
    if user.twoFactorEnabled {
      if NoCode(code) {
        return Reply(400, "Please provide the 2FA code"), matched;
      }
      if user.twoFactorSecret.None? {
        return INTERNAL_ERROR, matched;
      }
      if !totpVerify(user.twoFactorSecret.value, code.value) {
        return Reply(401, "Invalid 2FA code"), matched;
      }
    }
    db.users := db.users[id := user.(loginTime := Some(now), ip := Some(address))];
    reply := Reply(200, "Login successful");
  }

  // ---------------------------------------------------------------------
  // logout
  // ---------------------------------------------------------------------

  /**
   * logout: when the caller owns a session, only its QEMU process is
   * killed (websockify is left running) and the record is deleted; the
   * reply is 200 either way. The caller is not looked up in User.
   */
  method Logout(db: Db, host: Host, callerId: string) returns (reply: Reply)
    requires db.Valid()
    modifies db, host
    ensures db.Valid()
    ensures old(db.Consistent()) ==> db.Consistent()
    ensures reply == Reply(200, "Logout successful")
    ensures !OwnsVm(db.vms, callerId)
    ensures !OwnsVm(old(db.vms), callerId) ==> db.State() == old(db.State()) && host.signalled == old(host.signalled)
    ensures OwnsVm(old(db.vms), callerId) ==>
              exists id :: id in old(db.vms) && old(db.vms)[id].userId == callerId
                           && db.State() == old(db.State()).(vms := old(db.vms) - {id})
                           && host.signalled == old(host.signalled) + [old(db.vms)[id].processId]
    ensures host.spawned == old(host.spawned)
  {
    if OwnsVm(db.vms, callerId) {
      var id :| id in db.vms && db.vms[id].userId == callerId;
      host.Kill(db.vms[id].processId);
      db.vms := db.vms - {id};
    }
    reply := Reply(200, "Logout successful");
  }

  // ---------------------------------------------------------------------
  // delete_user
  // ---------------------------------------------------------------------

  /** The ban reason of the one BannedUser row with that username. */
  function BanReasonOf(banned: map<nat, BannedUser>, username: string): (r: Option<string>)
    requires UniqueBannedNames(banned) && username in BannedNames(banned)
    ensures exists b :: b in banned && banned[b].username == username && banned[b].banReason == r
  {
    var b :| b in banned && banned[b].username == username;
    banned[b].banReason
  }

  /**
   * The checks of delete_user, in order, for an existing caller: the
   * password field (400), an admin caller (403), a BannedUser row with the
   * caller's username (403), an UnverifiedUser row with it (401), the 2FA
   * code when 2FA is on (400 / 401), the password (401). None when all pass.
   */
  function DeleteUserRefusal(s: Snapshot, user: User, password: Option<string>, code: Option<string>,
                             checkPassword: (string, string) -> bool, totpVerify: (string, string) -> bool)
    : (r: Option<Reply>)
    requires UniqueBannedNames(s.banned)
    ensures password.None? ==> r == Some(INVALID_DATA)
    ensures password.Some? && user.role == "admin"
            ==> r == Some(Reply(403, "Admins cannot delete their account, please contact the head admin"))
    ensures r.None? ==>
              && password.Some? && user.role != "admin"
              && user.username !in BannedNames(s.banned) && user.username !in UnverifiedNames(s.unverified)
              && checkPassword(user.password, password.value)
              && (user.twoFactorEnabled ==> !NoCode(code) && user.twoFactorSecret.Some? && totpVerify(user.twoFactorSecret.value, code.value))
  {
    if password.None? then Some(INVALID_DATA)
    else if user.role == "admin" then Some(Reply(403, "Admins cannot delete their account, please contact the head admin"))
    else if user.username in BannedNames(s.banned) then Some(BannedReply(BanReasonOf(s.banned, user.username)))
    else if user.username in UnverifiedNames(s.unverified) then Some(Reply(401, "Please verify your account before deleting it"))
    else if user.twoFactorEnabled && NoCode(code) then Some(Reply(400, "Please provide the 2FA code"))
    else if user.twoFactorEnabled && user.twoFactorSecret.None? then Some(INTERNAL_ERROR)
    else if user.twoFactorEnabled && !totpVerify(user.twoFactorSecret.value, code.value) then Some(Reply(401, "Invalid 2FA code"))
    else if !checkPassword(user.password, password.value) then Some(Reply(401, "Invalid password"))
    else None
  }

  /**
   * delete_user as written: after the checks it kills only the QEMU
   * process of the caller's session and deletes the User row. The session
   * record is left in place, owned by a user who no longer exists, and its
   * websockify process keeps running.
   */
  method DeleteUser(db: Db, host: Host, callerId: string, password: Option<string>, code: Option<string>,
                    checkPassword: (string, string) -> bool, totpVerify: (string, string) -> bool)
    returns (reply: Reply)
    requires db.Valid()
    modifies db, host
    ensures db.Valid()
    ensures callerId !in old(db.users) ==>
              reply == INVALID_USER && db.State() == old(db.State()) && host.signalled == old(host.signalled)
    ensures callerId in old(db.users) && DeleteUserRefusal(old(db.State()), old(db.users)[callerId], password, code, checkPassword, totpVerify).Some?
            ==> reply == DeleteUserRefusal(old(db.State()), old(db.users)[callerId], password, code, checkPassword, totpVerify).value
                && db.State() == old(db.State()) && host.signalled == old(host.signalled)
    ensures reply.status == 200 <==>
              callerId in old(db.users)
              && DeleteUserRefusal(old(db.State()), old(db.users)[callerId], password, code, checkPassword, totpVerify).None?
    ensures reply.status == 200 ==>
              reply.message == "User deleted" && db.State() == old(db.State()).(users := old(db.users) - {callerId})
    ensures reply.status == 200 && OwnsVm(old(db.vms), callerId) ==>
              (exists id :: id in old(db.vms) && old(db.vms)[id].userId == callerId
                            && host.signalled == old(host.signalled) + [old(db.vms)[id].processId])
              && !NoOrphanVms(db.users, db.vms)
    ensures !OwnsVm(old(db.vms), callerId) ==> host.signalled == old(host.signalled)
    ensures host.spawned == old(host.spawned)
  {
    if callerId !in db.users {
      return INVALID_USER;
    }
    var refusal := DeleteUserRefusal(db.State(), db.users[callerId], password, code, checkPassword, totpVerify);
    if refusal.Some? {
      return refusal.value;
    }
    if OwnsVm(db.vms, callerId) {
      var id :| id in db.vms && db.vms[id].userId == callerId;
      host.Kill(db.vms[id].processId);
      assert db.vms[id].userId !in db.users - {callerId};
    }
    db.users := db.users - {callerId};
    reply := Reply(200, "User deleted");
  }

  /**
   * delete_user as its documentation describes it ("delete the user
   * account and their virtual machine"): the caller's session is stopped
   * like delete_vm stops one (both processes) and its record is deleted
   * with the User row, so no session is left without an owner.
   */
  method DeleteUserAndVm(db: Db, host: Host, callerId: string, password: Option<string>, code: Option<string>,
                         checkPassword: (string, string) -> bool, totpVerify: (string, string) -> bool)
    returns (reply: Reply)
    requires db.Valid()
    modifies db, host
    ensures db.Valid()
    ensures old(db.Consistent()) ==> db.Consistent()
    ensures callerId !in old(db.users) ==> reply == INVALID_USER && db.State() == old(db.State())
    ensures reply.status == 200 <==>
              callerId in old(db.users)
              && DeleteUserRefusal(old(db.State()), old(db.users)[callerId], password, code, checkPassword, totpVerify).None?
    ensures reply.status != 200 ==> db.State() == old(db.State()) && host.signalled == old(host.signalled)
    ensures reply.status == 200 ==> callerId !in db.users && !OwnsVm(db.vms, callerId)
    ensures reply.status == 200 && !OwnsVm(old(db.vms), callerId) ==>
              db.State() == old(db.State()).(users := old(db.users) - {callerId})
    ensures reply.status == 200 && OwnsVm(old(db.vms), callerId) ==>
              exists id :: id in old(db.vms) && old(db.vms)[id].userId == callerId
                           && db.State() == old(db.State()).(users := old(db.users) - {callerId}, vms := old(db.vms) - {id})
                           && host.signalled == old(host.signalled) + [old(db.vms)[id].websockifyProcessId, old(db.vms)[id].processId]
    ensures !OwnsVm(old(db.vms), callerId) ==> host.signalled == old(host.signalled)
    ensures host.spawned == old(host.spawned)
  {
    if callerId !in db.users {
      return INVALID_USER;
    }
    var refusal := DeleteUserRefusal(db.State(), db.users[callerId], password, code, checkPassword, totpVerify);
    if refusal.Some? {
      return refusal.value;
    }
    DeleteAccountAndSession(db, host, callerId);
    reply := Reply(200, "User deleted");
  }

  // ---------------------------------------------------------------------
  // Two-factor authentication
  // ---------------------------------------------------------------------

  /** setup_2fa: store a fresh secret and switch 2FA off until a code is verified. */
  method Setup2fa(db: Db, callerId: string, secret: string) returns (reply: Reply)
    requires db.Valid()
    modifies db
    ensures db.Valid()
    ensures old(db.Consistent()) ==> db.Consistent()
    ensures callerId !in old(db.users) ==> reply == INVALID_USER && db.State() == old(db.State())
    ensures callerId in old(db.users) ==>
              reply == Reply(200, "2FA setup")
              && db.State() == old(db.State()).(users := old(db.users)[callerId :=
                   old(db.users)[callerId].(twoFactorSecret := Some(secret), twoFactorEnabled := false)])
  {
    if callerId !in db.users {
      return INVALID_USER;
    }
    db.users := db.users[callerId := db.users[callerId].(twoFactorSecret := Some(secret), twoFactorEnabled := false)];
    reply := Reply(200, "2FA setup");
  }

  /** verify_2fa: switch 2FA on exactly when the code checks out against the stored secret. */
  method Verify2fa(db: Db, callerId: string, code: Option<string>, totpVerify: (string, string) -> bool)
    returns (reply: Reply)
    requires db.Valid()
    modifies db
    ensures db.Valid()
    ensures old(db.Consistent()) ==> db.Consistent()
    ensures callerId !in old(db.users) ==> reply == INVALID_USER
    ensures callerId in old(db.users) && code.None? ==> reply == INVALID_DATA
    ensures reply.status == 200 <==>
              callerId in old(db.users) && code.Some?
              && old(db.users)[callerId].twoFactorSecret.Some?
              && totpVerify(old(db.users)[callerId].twoFactorSecret.value, code.value)
    ensures reply.status == 200 ==>
              reply.message == "2FA verified"
              && db.State() == old(db.State()).(users := old(db.users)[callerId :=
                   old(db.users)[callerId].(twoFactorEnabled := true)])
    ensures reply.status != 200 ==> db.State() == old(db.State())
  {
    if callerId !in db.users {
      return INVALID_USER;
    }
    if code.None? {
      return INVALID_DATA;
    }
    var user := db.users[callerId];
    if user.twoFactorSecret.None? {
      return INTERNAL_ERROR;
    }
    if totpVerify(user.twoFactorSecret.value, code.value) {
      db.users := db.users[callerId := user.(twoFactorEnabled := true)];
      return Reply(200, "2FA verified");
    }
    reply := Reply(401, "Invalid 2FA code");
  }

  /** disable_2fa: with a valid code and the right password, switch 2FA off and forget the secret. */
  method Disable2fa(db: Db, callerId: string, password: Option<string>, code: Option<string>,
                    checkPassword: (string, string) -> bool, totpVerify: (string, string) -> bool)
    returns (reply: Reply)
    requires db.Valid()
    modifies db
    ensures db.Valid()
    ensures old(db.Consistent()) ==> db.Consistent()
    ensures callerId !in old(db.users) ==> reply == INVALID_USER
    ensures callerId in old(db.users) && (password.None? || code.None?) ==> reply == INVALID_DATA
    ensures reply.status == 200 <==>
              callerId in old(db.users) && password.Some? && code.Some?
              && old(db.users)[callerId].twoFactorSecret.Some?
              && totpVerify(old(db.users)[callerId].twoFactorSecret.value, code.value)
              && checkPassword(old(db.users)[callerId].password, password.value)
    ensures reply.status == 200 ==>
              reply.message == "2FA disabled"
              && db.State() == old(db.State()).(users := old(db.users)[callerId :=
                   old(db.users)[callerId].(twoFactorEnabled := false, twoFactorSecret := None)])
    ensures reply.status != 200 ==> db.State() == old(db.State())
  {
    if callerId !in db.users {
      return INVALID_USER;
    }
    if password.None? || code.None? {
      return INVALID_DATA;
    }
    var user := db.users[callerId];
    if user.twoFactorSecret.None? {
      return INTERNAL_ERROR;
    }
    if !totpVerify(user.twoFactorSecret.value, code.value) {
      return Reply(401, "Invalid 2FA code");
    }
    if !checkPassword(user.password, password.value) {
      return Reply(401, "Invalid password");
    }
    db.users := db.users[callerId := user.(twoFactorEnabled := false, twoFactorSecret := None)];
    reply := Reply(200, "2FA disabled");
  }
}
