# Buffet: a model of the server's bookkeeping and the client's decision helpers

Buffet is a web service that boots virtual machines from ISO images and
streams their screens to the browser over VNC. A Flask server keeps four
tables: pending registrations (`UnverifiedUser`), accounts (`User`),
banned accounts (`BannedUser`) and VM sessions (`VirtualMachine`), plus
an application-configuration table. A React client renders the account
pages and the administrator screen.

This project models, in Dafny:

- **The VM session registry.** This covers the random VNC password, the
  lowest-free display-port slot scan, and session creation, deletion and
  counting (module `VmEndpoints`). It also covers the exit-time sweep that
  kills and deletes every session (module `App`).
- **The account-table state machine.**
  - The users' own handlers (module `UserEndpoints`): registration across
    the three tables, e-mail verification, login lookup order, logout,
    account deletion and the two-factor setup → verify → disable cycle.
  - The administrator handlers (module `AdminEndpoints`): deleting VMs
    and users, changing role, username and e-mail, ban and unban,
    verifying and deleting pending registrations, and deleting banned
    rows.
- **The configuration handlers** (module `ConfigEndpoints`): the
  key/value upsert, and the read that shows each duration the way
  Python's `str(timedelta)` prints it. A parser is proved to recover the
  seconds from that text.
- **Pure helpers.**
  - The generated identifiers (`uuid4().hex` and the six-character
    verification code, module `Models`).
  - The username and e-mail regular expressions with `re.match` semantics
    (module `Validators`).
  - The six password-checklist expressions with JavaScript `test`
    semantics (module `PasswordRequirements`).
  - The two client route guards (modules `ProtectedRoute` and
    `ProtectedRouteJs`).
  - The administrator screen's log-line parser, search filters and log
    ordering (module `AdminScreen`).

How the model is built:

- **State.** The database is the class `Models.Db`, with one `map` per
  table keyed by primary key. Handlers are methods that modify it, and
  each ends in a `db.State() == old(db.State()).(…)` clause that names
  the whole new state. `Db.Valid()` states the schema's `unique=True`
  columns and the registry's port discipline. `Db.Consistent()` states
  the cross-table invariants that the route checks maintain.
- **Host effects.** The host's process table is the class `Models.Host`.
  It records which pids were spawned and which were sent `kill`.
- **Oracles and parameters.**
  - Bcrypt, pyotp and the password policy are function-typed parameters.
  - Random draws, the TOTP secret, the clock and the order in which a
    query returns rows are ordinary parameters.
  - Launching QEMU, QMP and websockify together is one abstract effect
    that may fail.
- **Errors.** A handler path that would raise (a failed `unique`
  constraint on commit, a `None` concatenated to a string, a launch
  failure that no `except` clause catches) is modelled as
  `Models.INTERNAL_ERROR`, Flask's 500 answer. What was committed before
  the exception stays committed.

Where the code departs from what its own docstrings and comments
describe, the model follows the code:

- `create_vm` never kills a QEMU process it started when a later launch
  step fails.
- `create_vm`'s `except subprocess.CalledProcessError` catches nothing
  that `Popen` or the QMP client raise, so a failed launch answers
  Flask's generic 500, not the "Critical error creating virtual machine"
  message.
- `ban_user` without a ban reason commits the ban and then raises while
  building its log message, answering 500.
- The sweep is registered with `atexit`, so it runs only at exit.
- `logout`, `delete_user`, `delete_vm_by_id`, `delete_user_by_id` and
  `ban_user` kill only the QEMU process (`process_id`), never websockify.
- The account deletions leave the session record behind (see Findings).
- The password "2 digits" rule does not count digits separated by a line
  terminator.
- `delete_banned_user` looks its argument up against the banned row's
  integer primary key, not against `user_id`.
- `ban_user` may ban an administrator, the caller included.
- client/src/App.tsx wraps each route in `ProtectedRoute` with no flags.
  Under the flag-based guard in ProtectedRoute.tsx every route therefore
  renders, the administrator screen included (`ProtectedRoute.UnflaggedRouteRenders`).
  The older path-based guard in ProtectedRoute.js is modelled for
  comparison only (`ProtectedRouteJs.AdminPageForVisitors`): its decision
  would show `/admin` to visitors who are not signed in. Which of the two
  files the extensionless import picks, and whether the `.js` guard can
  run at all, is not settled here: it reads `AuthContext` from
  client/src/AuthContext.js, while App.tsx provides the one in
  client/src/contexts, so without another provider its `useContext` yields
  `undefined` and the destructuring throws. In every case the server's
  administrator guard still refuses the data.

## Model

| member | source | states |
|---|---|---|
| RandomChoice.Choices | server/routes/vm_endpoints.py:44-48 | `random.choices(population, k)` gives exactly k characters, each from the population |
| RandomChoice.ChoicesReachAll | server/models.py:33 | every string over the population is the outcome of some draws, so the model of a random choice loses no outcome |
| VmEndpoints.CreateRandomVncPassword | server/routes/vm_endpoints.py:38-49 | the VNC password has 16 characters, all from the 72-character alphabet literal |
| VmEndpoints.VncPasswordsReachAll | server/routes/vm_endpoints.py:44-48 | conversely, every 16-character string over that alphabet is a possible password |
| VmEndpoints.FindFreeSlot | server/routes/vm_endpoints.py:103-112 | the scan stops at the smallest slot whose port 5900+slot no record holds; it passes MAX_VM_COUNT-1 exactly when every slot is taken |
| VmEndpoints.SlotRange | server/routes/vm_endpoints.py:105 | the pool is the slots 0..MAX_VM_COUNT-1, and there are MAX_VM_COUNT of them |
| VmEndpoints.UsedSlotsCard | server/routes/vm_endpoints.py:114-115 | records with distinct ports occupy as many slots as there are records |
| VmEndpoints.PoolFullIffAtCapacity | server/routes/vm_endpoints.py:103-112 | under the registry invariant the registry never holds more than MAX_VM_COUNT records, and the pool is full exactly when it holds MAX_VM_COUNT |
| VmEndpoints.CreateVm | server/routes/vm_endpoints.py:82-254 | refusals in the handler's order: 401, 400 without iso, 404 for a missing ISO file, 500 "No available ports" (before the ownership check), then 403 for a user who already owns a VM. A failed launch propagates out of the handler as Flask's generic 500, and a QEMU started by then is left running. Every refusal and failed launch leaves the database unchanged, and a refusal starts no process. On success exactly one record is added under the next id, which advances by one, on the lowest free slot, with wsport = 5700+slot, the iso, both pids, the owner, the capture-file name and a valid VNC password; the reply is 201 with id, wsport, iso and user_id. The registry invariant is kept |
| VmEndpoints.DeleteVm | server/routes/vm_endpoints.py:259-317 | 401, 400, 404 for an unknown vm, 403 for another user's vm with nothing changed; otherwise kill websockify then QEMU and remove exactly that record |
| VmEndpoints.GetVmCount | server/routes/vm_endpoints.py:412-427 | 401 for an unknown caller; otherwise the number of records, which never exceeds MAX_VM_COUNT |
| Models.DistinctWsPorts | server/routes/vm_endpoints.py:114-115 | two live records never share a websocket port |
| Models.GenerateUuid | server/models.py:24-30 | the identifier is 32 lower-case hex digits, with version digit 4 and an RFC 4122 variant digit |
| Models.UuidDecodes | server/models.py:30 | the hex text decodes back to the 16 stamped random bytes |
| Models.UnhexHex | server/models.py:30 | hexadecimal encoding is inverted by decoding |
| Models.GenerateUniqueCode | server/models.py:32-33 | the verification code has 6 characters, all ASCII letters or digits (the String(6) column) |
| Models.CodeAlphabetIsLettersAndDigits | server/models.py:33 | `ascii_letters + digits` holds exactly the ASCII letters and digits |
| Models.UserNamesInsert | server/models.py:45 | adding a row adds exactly its username to the table's names |
| Models.UserNamesRemove | server/models.py:45 | with unique usernames, deleting a row removes exactly its username |
| Models.UnverifiedNamesInsert | server/models.py:37 | the same for pending registrations |
| Models.UnverifiedNamesRemove | server/models.py:37 | the same for pending registrations |
| Models.BannedNamesInsert | server/models.py:55 | the same for banned rows |
| Models.BannedNamesRemove | server/models.py:55 | the same for banned rows |
| Models.Db.constructor | server/models.py:35-72 | an empty database satisfies the schema and the route invariants |
| Models.Host.Kill | server/app.py:91-100 | a kill is recorded and nothing else changes; its exit status is never read |
| App.KillsForAt | server/app.py:90-100 | the n-th visited record contributes its websockify pid, then its QEMU pid |
| App.UnvisitedAll | server/app.py:89-90 | the query's rows cover every record present at exit |
| App.CleanUp | server/app.py:86-103 | every record present at exit is visited in query order; its websockify and QEMU pids are signalled and the record is deleted; afterwards the registry is empty and nothing else changed |
| Validators.IsValidUsername | server/routes/user_endpoints.py:63-73 | the function is the search `re.match("^[a-zA-Z0-9_-]+$")` performs |
| Validators.UsernameLanguage | server/routes/admin_endpoints.py:35-45 | a name is accepted iff it is a non-empty run of `[a-zA-Z0-9_-]`, optionally followed by one `\n` (Python's `$`) |
| Validators.IsValidEmail | server/routes/user_endpoints.py:76-86 | the function is the search `re.match(r"[^@]+@[^@]+\.[^@]+")` performs, anchored only at the start |
| Validators.EmailAcceptsAnySuffix | server/routes/admin_endpoints.py:48-58 | anything may follow an accepted address |
| UserEndpoints.RegisterRefusal | server/routes/user_endpoints.py:135-179 | 400 for a missing field; then 409 checks, username then e-mail, in User, then Unverified, then Banned; only then 400 for the username format and the password policy; no refusal iff every check passes |
| UserEndpoints.Register | server/routes/user_endpoints.py:127-233 | a refused request changes nothing; otherwise exactly one pending row is added, with a fresh id and a valid code; the route invariants are kept |
| UserEndpoints.VerifyUser | server/routes/user_endpoints.py:237-273 | 400, 401 for an unknown username, 401 "Invalid code"; 200 exactly when the pending row's code matches and no User holds its username (that clash is a failed commit, 500); on success the pending row becomes a User with the same username, e-mail and hash, role "user", and is deleted |
| UserEndpoints.Login | server/routes/user_endpoints.py:340-437 | lookup by username or e-mail; a miss gives 403 with the ban reason if banned, else 401 "Please verify…" if pending, else 401; a wrong password gives 401; the 2FA code is demanded and checked when enabled; success records the login time and ip and changes nothing else |
| UserEndpoints.Logout | server/routes/user_endpoints.py:442-468 | a caller who owns a VM has its QEMU pid signalled and its record deleted; the reply is 200 either way |
| UserEndpoints.DeleteUserRefusal | server/routes/user_endpoints.py:485-527 | 400, 403 for admins, 403 when banned, 401 when pending, then the 2FA code, then the password |
| UserEndpoints.DeleteUser | server/routes/user_endpoints.py:473-544 | as written: on success only the QEMU pid of the caller's session is signalled and only the User row is deleted, which leaves an orphaned session |
| UserEndpoints.DeleteUserAndVm | server/routes/user_endpoints.py:529-544 | corrected: the session record goes with the account, and the route invariants are kept |
| UserEndpoints.Setup2fa | server/routes/user_endpoints.py:780-812 | stores the new secret and turns two-factor login off |
| UserEndpoints.Verify2fa | server/routes/user_endpoints.py:817-843 | turns two-factor login on exactly when the code verifies against the stored secret |
| UserEndpoints.Disable2fa | server/routes/user_endpoints.py:848-880 | after a valid code and password, clears both the flag and the secret; otherwise nothing changes |
| AdminEndpoints.AdminRefusal | server/routes/admin_endpoints.py:80-87 | no refusal iff the caller exists with role "admin"; 401 iff the caller is unknown, else 403 |
| AdminEndpoints.DeleteVmById | server/routes/admin_endpoints.py:129-184 | after the guard: 400, 404 for an unknown vm; otherwise only the QEMU pid is signalled and exactly that record is deleted |
| AdminEndpoints.DeleteTargetRefusal | server/routes/admin_endpoints.py:245-264 | 400, 404 for an unknown target, 403 for an admin target |
| AdminEndpoints.DeleteUserById | server/routes/admin_endpoints.py:229-298 | as written: only the target's QEMU pid is signalled and only the User row is deleted, which leaves an orphaned session |
| AdminEndpoints.DeleteUserAndVmById | server/routes/admin_endpoints.py:266-279 | corrected: both processes are killed and the record is deleted with the account; the route invariants are kept |
| AdminEndpoints.ChangeUserRole | server/routes/admin_endpoints.py:303-364 | 400, 404, 403 for an admin target; otherwise the role is set verbatim and nothing else changes |
| AdminEndpoints.UserNamesUpdate | server/routes/admin_endpoints.py:409 | renaming a row replaces exactly its old username by the new one |
| AdminEndpoints.RenameRefusal | server/routes/admin_endpoints.py:395-407 | as written: the name is refused if taken in User, then in BannedUser, then for its format; the pending table is not consulted |
| AdminEndpoints.CheckedRenameRefusal | server/routes/user_endpoints.py:656-666 | corrected: the pending table is consulted too, as the user's own rename does |
| AdminEndpoints.RenameCanTakePendingName | server/routes/admin_endpoints.py:395-409 | a concrete database where the as-written check lets a rename take a pending registration's username |
| AdminEndpoints.RenameKeepsNamesUnique | server/routes/admin_endpoints.py:396-398 | a name not in User keeps User's usernames unique after the rename |
| AdminEndpoints.CheckedRenameKeepsNamesDisjoint | server/routes/admin_endpoints.py:391-409 | with the corrected check, a rename keeps the three tables' usernames disjoint |
| AdminEndpoints.ChangeUserUsername | server/routes/admin_endpoints.py:369-434 | as written; a success on a pending registration's name breaks the cross-table invariant |
| AdminEndpoints.ChangeUserUsernameChecked | server/routes/admin_endpoints.py:391-411 | corrected: keeps every route invariant |
| AdminEndpoints.ReaddressRefusal | server/routes/admin_endpoints.py:465-477 | the e-mail is refused if taken in User, then in BannedUser, then if it is not a valid address |
| AdminEndpoints.ChangeUserEmail | server/routes/admin_endpoints.py:439-504 | after the guard and the checks, sets the e-mail and changes nothing else |
| AdminEndpoints.Banish | server/routes/admin_endpoints.py:620-632 | the banned row copies user_id and every account column, and carries the reason |
| AdminEndpoints.BanUser | server/routes/admin_endpoints.py:576-655 | 400, 404; the target's session (if any) has its QEMU pid signalled before the commit, so also when the commit fails, and is deleted with the commit; the User row moves to BannedUser in one commit; 200 iff that commit happens and a reason was given, and a ban without a reason is committed and then answers 500; the route invariants are kept, and from a consistent state the commit never hits the unique constraint |
| AdminEndpoints.CommitBan | server/routes/admin_endpoints.py:618-636 | the one commit of a ban: the account row leaves User, the banned row enters under the next integer key, and the session goes |
| AdminEndpoints.BanKeepsNames | server/routes/admin_endpoints.py:620-636 | the ban moves exactly one username from User to BannedUser |
| AdminEndpoints.UnbanUser | server/routes/admin_endpoints.py:660-719 | 401 "Invalid user, user not found", 403, 400, 404; the banned row chosen by user_id returns to User under a fresh id with all its columns, and is deleted |
| AdminEndpoints.VerifyUnverifiedUser | server/routes/admin_endpoints.py:888-946 | the pending row becomes a User with role "user", 2FA off, login time and ip unset, and is deleted |
| AdminEndpoints.DeleteUnverifiedUser | server/routes/admin_endpoints.py:837-883 | deletes exactly the pending row with that id |
| AdminEndpoints.DeleteBannedUser | server/routes/admin_endpoints.py:766-795 | deletes exactly the banned row whose integer key is the given user_id |
| ConfigEndpoints.DecimalValue | server/routes/config_endpoints.py:27 | decimal text reads back as its number |
| ConfigEndpoints.TwoDigits | server/routes/config_endpoints.py:27 | minutes and seconds print as two digits that read back as the number |
| ConfigEndpoints.SignedDecimalValue | server/routes/config_endpoints.py:27 | signed day counts read back as their value |
| ConfigEndpoints.ClockRoundTrip | server/routes/config_endpoints.py:27 | the `H:MM:SS` clock reads back as the seconds of the day |
| ConfigEndpoints.DurationRoundTrip | server/routes/config_endpoints.py:26-27 | `str(timedelta)` (with "N day(s), " for whole days, negative days floored) determines the seconds: parsing it gives them back |
| ConfigEndpoints.Shown | server/routes/config_endpoints.py:25-27 | a duration is shown as text that parses back to its seconds; any other value is unchanged |
| ConfigEndpoints.GetConfig | server/routes/config_endpoints.py:13-28 | the guard's 401/403; otherwise the same keys, no duration left, other values unchanged, each duration's text parsing back to its seconds |
| ConfigEndpoints.UpdateConfig | server/routes/config_endpoints.py:33-55 | the guard; 400 "No config provided" for an absent or empty body; otherwise every requested key maps to its value, keys not named keep theirs, and nothing else changes |
| PasswordRequirements.AnyChar | client/src/components/PasswordRequirementsComponent.tsx:28-31 | a one-class search succeeds iff some character is in the class |
| PasswordRequirements.LengthRuleSound | client/src/components/PasswordRequirementsComponent.tsx:27 | when `/.{8,}/` passes, some run without a line terminator spans 8 UTF-16 code units |
| PasswordRequirements.LengthRuleComplete | client/src/components/PasswordRequirementsComponent.tsx:27 | when some run without a line terminator spans 8 UTF-16 code units, `/.{8,}/` passes |
| PasswordRequirements.LengthRuleMeaning | client/src/components/PasswordRequirementsComponent.tsx:27 | `/.{8,}/` passes iff some run without a line terminator spans 8 UTF-16 code units (a character outside the Basic Multilingual Plane counts as two) |
| PasswordRequirements.AstralPasswordPasses | client/src/components/PasswordRequirementsComponent.tsx:27 | four U+1F600 characters, eight code units, already pass the length item |
| PasswordRequirements.DigitsRuleMeaning | client/src/components/PasswordRequirementsComponent.tsx:30 | `/[0-9].*[0-9]/` passes iff two digits occur with no line terminator between them |
| PasswordRequirements.DigitsRuleCounts | client/src/components/PasswordRequirementsComponent.tsx:30 | without line terminators, it passes iff there are at least two digits |
| PasswordRequirements.NewlineSplitsDigits | client/src/components/PasswordRequirementsComponent.tsx:30 | "1\n2" has two digits and still fails |
| PasswordRequirements.NoSpacesRule | client/src/components/PasswordRequirementsComponent.tsx:32 | `/^\S*$/` passes iff no character is JavaScript white space or a line terminator |
| PasswordRequirements.Requirements | client/src/components/PasswordRequirementsComponent.tsx:26-46 | six items in fixed order with their labels, each passing iff its own rule holds |
| ProtectedRoute.Guard | client/src/components/ProtectedRoute.tsx:47-63 | `/login` without a user when login is required; `/os` for a signed-in user on a logged-out-only route, or with the wrong role; otherwise the element is rendered |
| ProtectedRoute.RoleIgnoredWithoutLogin | client/src/components/ProtectedRoute.tsx:57 | `requiredRole` has no effect unless `requireLogin` is set |
| ProtectedRoute.RoleGateExact | client/src/components/ProtectedRoute.tsx:47-63 | with login required and a role set, the element renders iff a user with that role is signed in |
| ProtectedRoute.UnflaggedRouteRenders | client/src/App.tsx:20-35 | the routes pass no flags, and with no flags the guard always renders |
| ProtectedRouteJs.PathGuard | client/src/components/ProtectedRoute.js:10-18 | `/login` with a user and `/admin` with a non-admin user redirect to `/`; everything else, `/admin` without a user included, renders |
| ProtectedRouteJs.AdminPageForVisitors | client/src/components/ProtectedRoute.js:14-18 | the older guard shows `/admin` to a visitor who is not signed in, where the newer one sends them to `/login` |
| ProtectedRouteJs.AdminPageForSignedIn | client/src/components/ProtectedRoute.js:14-16 | for a signed-in user the two guards agree on `/admin` |
| Strings.JoinSplit | client/src/screens/Admin.tsx:371 | joining the pieces of a split gives the string back |
| Strings.SplitJoin | client/src/screens/Admin.tsx:371-375 | splitting a join of separator-free pieces gives the pieces back |
| Strings.Includes | client/src/screens/Admin.tsx:202 | `includes` holds iff the query occurs at some position |
| AdminScreen.ParseCefLog | client/src/screens/Admin.tsx:369-377 | the date is a prefix of the line; action and severity are present iff the line has at least 4 and 6 `\|` separators |
| AdminScreen.DateWords | client/src/screens/Admin.tsx:371 | with three or more words before the first `\|`, the date splits into exactly the first three |
| AdminScreen.CefRoundTrip | client/src/screens/Admin.tsx:369-377 | parsing a well-formed CEF line gives its three date words, the header's Signature ID, Name and Severity, and the `suser` value |
| AdminScreen.IsUserBanned | client/src/screens/Admin.tsx:193-197 | true iff some banned entry has that user_id |
| AdminScreen.Filter | client/src/screens/Admin.tsx:200-228 | `filter` keeps exactly the elements that pass |
| AdminScreen.FilteredUsers | client/src/screens/Admin.tsx:200-205 | a user is listed iff its lower-cased name contains the lower-cased query and its id is not banned |
| AdminScreen.FilteredVms | client/src/screens/Admin.tsx:208-210 | a VM is listed iff its lower-cased iso contains the lower-cased query |
| AdminScreen.FilteredBanned | client/src/screens/Admin.tsx:213-219 | a banned entry is listed iff its name matches the query |
| AdminScreen.FilteredPending | client/src/screens/Admin.tsx:222-228 | a pending entry is listed iff its name matches the query |
| AdminScreen.EmptyQueryListsUnbanned | client/src/screens/Admin.tsx:200-205 | the empty search lists every user who is not banned |
| AdminScreen.SortNewestFirst | client/src/screens/Admin.tsx:775-778 | the dates come out newest first and are a permutation of the keys |
| AdminScreen.DateRows | client/src/screens/Admin.tsx:796-809 | each stored line of a date is parsed, and the rows are in the reverse of the stored order |

## Left out

- Process and socket I/O is left out: the `Popen` of QEMU, websockify and `kill`, the QMP connection and `set_password`, and the sleep. Launching is one abstract effect that either yields two pids or fails; a kill is an entry in `Host.signalled`.
- The exception paths of `Popen(["kill", …])` (500 "Error deleting virtual machine") are not modelled, because the model's kill cannot fail.
- Filesystem work is left out: log-directory creation, `iso/index.json` and the logos, QR-code files, `get_all_logs`. The ISO files present are the parameter `isoFiles`.
- CEF logging calls are left out, because they are log output. Where a log call itself raises, the model keeps that outcome: `ban_user` concatenates the reason into its log message after the commit (server/routes/admin_endpoints.py:642), so a ban without a reason answers `Models.INTERNAL_ERROR` with the ban already committed.
- Bcrypt, pyotp, the password policy, Flask-Mail, JWT cookies and LDAP are foreign libraries. Bcrypt, pyotp and the policy are boolean oracles or parameters; the others are left out. The LDAP branch of `login` is not modelled: `login` reads `ApplicationConfig.LDAP_ENABLED` (server/routes/user_endpoints.py:381), which server/config.py does not define, and the model takes it as false.
- Randomness is modelled as draws: `random.choices` becomes indices below the alphabet size, and `uuid4` becomes 16 random bytes. `Register`, `VerifyUser`, `UnbanUser` and `VerifyUnverifiedUser` take the drawn uuid as fresh. The real generator only makes a collision improbable.
- Concurrency (gunicorn workers) is left out; requests are sequential.
- These handlers are not modelled, because they are read-only listings or not part of the modelled core:
  - `index_vm`, `get_user_vm`, `get_vm_by_id`;
  - `get_user_info`, `resend_verification_email`;
  - the users' own `change_password`, `change_username` and `change_email`;
  - `get_all_vm`, `get_all_users`, `get_user_vms`, `get_banned_users`, `get_unverified_users`, `get_all_logs`.
- `refresh_expiring_jwts` is left out, because it is JWT cookie plumbing.
- A ban reason that is `None` makes `login` and `delete_user` raise when they build the "You were banned for" message. The model returns `Models.INTERNAL_ERROR` there.
- A `None` TOTP secret makes pyotp raise, so the model returns `Models.INTERNAL_ERROR` there.
- The schema's `unique=True` columns are enforced at commit. A commit that would violate one returns `Models.INTERNAL_ERROR` and leaves the state unchanged.
- Foreign keys are taken as unenforced. server/models.py:54 and :71 declare `ForeignKey('user.id')` on `BannedUser.user_id` and `VirtualMachine.user_id`, but the database comes from the environment (server/config.py:26), and SQLite does not enforce foreign keys by default. With an enforcing database, the `ban_user` commit, which adds a banned row referencing the user it deletes, would fail with 500 after the kill; so would `delete_user` and `delete_user_by_id` of a session owner. `AdminEndpoints.BanUser`'s 200 and the orphaned sessions in Findings rows 1 and 2 rest on this choice.
- Some columns come from the handlers, not the schema. server/models.py:43-71 declares no `two_factor_enabled` or `two_factor_secret` on `User` or `BannedUser`, and no `websockify_process_id` or `vnc_password` on `VirtualMachine`. The handlers read and write them, so `Models.User`, `Models.BannedUser` and `Models.VirtualMachine` carry them as the handlers use them.
- The handlers import `Users`, `UnverifiedUsers`, `BannedUsers`, `VirtualMachines` (server/routes/user_endpoints.py:39) and `ApplicationConfigDb` (server/routes/config_endpoints.py:5), which server/models.py does not define. The model takes them to be the tables `User`, `UnverifiedUser`, `BannedUser`, `VirtualMachine` and the configuration table `Db.config`.
- Integer keys are never reused: `Db.nextVmId` and `Db.nextBannedId` only grow, whereas SQLite's `INTEGER PRIMARY KEY` may hand out again the highest key after it is deleted. The model abstracts this away; no handler depends on which fresh key it gets.
- `ConfigEndpoints.GetConfig` reads `ApplicationConfig.get_config()`, which is not part of this model. It is taken to be the configuration table `Db.config`.
- `ConfigEndpoints.Shown` models a `timedelta` as whole seconds; microseconds are not modelled.
- `ConfigEndpoints.UpdateConfig` returns no reply on success: the handler falls off its end. That outcome is `None`. A body that is not a JSON object is left out.
- `Strings.ToLower` lower-cases ASCII letters only. JavaScript's `toLowerCase` also maps non-ASCII letters.
- `AdminScreen.SortNewestFirst` takes JavaScript's `new Date(…)` parse of a date key as the function parameter `stamp`. It is an insertion sort and does not claim to keep the same order among equal stamps that the engine's sort keeps.
- The React state, effects, button handlers and every screen other than the Admin.tsx helpers are left out, and so are the axios clients and contexts.

## Findings

| source | as written | input that shows it | evidently intended | confidence | as-written member | corrected member |
|---|---|---|---|---|---|---|
| server/routes/user_endpoints.py:529-544 | `delete_user` kills the QEMU process of the caller's session but deletes only the User row | a non-admin user who owns a session deletes their account with the right password | the session record, and its websockify process, go with the account; otherwise the record stays owned by a user who no longer exists and keeps its port slot | not executed; medium | UserEndpoints.DeleteUser | UserEndpoints.DeleteUserAndVm |
| server/routes/admin_endpoints.py:266-279 | `delete_user_by_id` likewise deletes only the User row | an admin deletes a non-admin user who owns a session | the same as above | not executed; medium | AdminEndpoints.DeleteUserById | AdminEndpoints.DeleteUserAndVmById |
| server/routes/admin_endpoints.py:395-407 | `change_user_username` checks User and BannedUser but not UnverifiedUser | a user "alice" exists and "bob" is pending; an admin renames alice to "bob" | refuse a name held by a pending registration, as `register` and the user's own rename do; otherwise verifying "bob" later fails on the unique constraint | not executed; high | AdminEndpoints.RenameCanTakePendingName | AdminEndpoints.CheckedRenameKeepsNamesDisjoint |
