/**
 * The server's persistent state: the generated identifiers, the four
 * tables (UnverifiedUser, User, BannedUser, VirtualMachine) and the
 * application configuration table, plus the host's process effects.
 */
module Models {
  import opened Wrappers
  import opened RandomChoice

  newtype byte = x: int | 0 <= x < 256

  // ---------------------------------------------------------------------
  // generate_uuid: uuid4().hex
  // ---------------------------------------------------------------------

  predicate IsLowerHex(c: char)
  {
    '0' <= c <= '9' || 'a' <= c <= 'f'
  }

  /** The lower-case hexadecimal digit for 0 <= n < 16. */
  function HexDigit(n: int): (c: char)
    requires 0 <= n < 16
    ensures IsLowerHex(c)
  {
    if n < 10 then ('0' as int + n) as char else ('a' as int + n - 10) as char
  }

  /** Value of a lower-case hexadecimal digit (0 for anything else). */
  function HexValue(c: char): (v: int)
    ensures 0 <= v < 16
    ensures IsLowerHex(c) ==> HexDigit(v) == c
  {
    if '0' <= c <= '9' then c as int - '0' as int
    else if 'a' <= c <= 'f' then c as int - 'a' as int + 10
    else 0
  }

  lemma DigitValue(n: int)
    requires 0 <= n < 16
    ensures HexValue(HexDigit(n)) == n
  {
  }

  /** Lower-case hexadecimal text of a byte string, two digits per byte, high nibble first. */
  function Hex(b: seq<byte>): (h: string)
    ensures |h| == 2 * |b|
  {
    if |b| == 0 then ""
    else [HexDigit(b[0] as int / 16), HexDigit(b[0] as int % 16)] + Hex(b[1..])
  }

  /** Byte `i` becomes the digits at `2i` (high nibble) and `2i + 1` (low nibble). */
  lemma {:induction false} HexAt(b: seq<byte>, i: nat)
    requires i < |b|
    ensures Hex(b)[2 * i] == HexDigit(b[i] as int / 16)
    ensures Hex(b)[2 * i + 1] == HexDigit(b[i] as int % 16)
  {
    if i > 0 {
      HexAt(b[1..], i - 1);
      assert Hex(b)[2 * i] == Hex(b[1..])[2 * (i - 1)];
      assert Hex(b)[2 * i + 1] == Hex(b[1..])[2 * (i - 1) + 1];
    }
  }

  /** Every character of the hexadecimal text is a lower-case hex digit. */
  lemma {:induction false} HexIsLower(b: seq<byte>)
    ensures forall j :: 0 <= j < |Hex(b)| ==> IsLowerHex(Hex(b)[j])
  {
    forall j | 0 <= j < |Hex(b)| ensures IsLowerHex(Hex(b)[j]) {
      HexAt(b, j / 2);
      assert j == 2 * (j / 2) || j == 2 * (j / 2) + 1;
    }
  }

  /** Bytes of an even-length hexadecimal text. */
  function Unhex(h: string): (b: seq<byte>)
    requires |h| % 2 == 0
    ensures |b| == |h| / 2
  {
    if |h| == 0 then []
    else [(16 * HexValue(h[0]) + HexValue(h[1])) as byte] + Unhex(h[2..])
  }

  /** Decoding the hexadecimal text gives back the bytes. */
  lemma {:induction false} UnhexHex(b: seq<byte>)
    ensures Unhex(Hex(b)) == b
  {
    if |b| > 0 {
      var h := Hex(b);
      assert h[2..] == Hex(b[1..]);
      UnhexHex(b[1..]);
      DigitValue(b[0] as int / 16);
      DigitValue(b[0] as int % 16);
      assert [b[0]] + b[1..] == b;
    }
  }

  /** What uuid4 does to its 16 random bytes: version nibble 4 (byte 6), RFC 4122 variant bits 10 (byte 8). */
  function StampV4(b: seq<byte>): (r: seq<byte>)
    requires |b| == 16
  {
    b[6 := (0x40 + b[6] as int % 16) as byte][8 := (0x80 + b[8] as int % 64) as byte]
  }

  /** generate_uuid: the hex form of a version-4 UUID built from 16 random bytes. */
  function GenerateUuid(random: seq<byte>): (id: string)
    requires |random| == 16
    ensures |id| == 32
    ensures forall i :: 0 <= i < |id| ==> IsLowerHex(id[i])
    ensures id[12] == '4'
    ensures id[16] in "89ab"
  {
    var b := StampV4(random);
    HexIsLower(b);
    HexAt(b, 6);
    HexAt(b, 8);
    Hex(b)
  }

  /** The identifier determines the stamped bytes: decoding it gives them back. */
  lemma {:induction false} UuidDecodes(random: seq<byte>)
    requires |random| == 16
    ensures Unhex(GenerateUuid(random)) == StampV4(random)
  {
    UnhexHex(StampV4(random));
  }

  // ---------------------------------------------------------------------
  // generate_unique_code: 6 characters of string.ascii_letters + string.digits
  // ---------------------------------------------------------------------

  /** The `n` consecutive characters starting at `first`. */
  function CharRange(first: char, n: nat): (r: string)
    requires first as int + n <= 0xD800
    ensures |r| == n
    ensures forall i :: 0 <= i < n ==> r[i] as int == first as int + i
  {
    seq(n, i requires 0 <= i < n => (first as int + i) as char)
  }

  /** `string.ascii_letters + string.digits`. */
  function CodeAlphabet(): string
  {
    CharRange('a', 26) + CharRange('A', 26) + CharRange('0', 10)
  }

  predicate IsAsciiLetterOrDigit(c: char)
  {
    'a' <= c <= 'z' || 'A' <= c <= 'Z' || '0' <= c <= '9'
  }

  lemma CodeAlphabetIsLettersAndDigits(c: char)
    ensures c in CodeAlphabet() <==> IsAsciiLetterOrDigit(c)
  {
    var lower, upper, digits := CharRange('a', 26), CharRange('A', 26), CharRange('0', 10);
    assert CodeAlphabet() == lower + upper + digits;
    if 'a' <= c <= 'z' {
      assert lower[c as int - 'a' as int] == c;
    } else if 'A' <= c <= 'Z' {
      assert upper[c as int - 'A' as int] == c;
    } else if '0' <= c <= '9' {
      assert digits[c as int - '0' as int] == c;
    }
  }

  /** generate_unique_code: six ASCII letters or digits, fitting the String(6) column. */
  function GenerateUniqueCode(draws: seq<nat>): (code: string)
    requires |draws| == 6 && DrawsBelow(draws, |CodeAlphabet()|)
    ensures |code| == 6
    ensures forall i :: 0 <= i < |code| ==> IsAsciiLetterOrDigit(code[i])
  {
    var code := Choices(CodeAlphabet(), draws);
    forall i | 0 <= i < |code| ensures IsAsciiLetterOrDigit(code[i]) {
      CodeAlphabetIsLettersAndDigits(code[i]);
    }
    code
  }

  // ---------------------------------------------------------------------
  // Tables
  // ---------------------------------------------------------------------

  datatype UnverifiedUser = UnverifiedUser(
    username: string, email: string, password: string, created: int, uniqueCode: string)

  datatype User = User(
    username: string, email: string, password: string,
    loginTime: Option<int>, ip: Option<string>, role: string,
    twoFactorEnabled: bool, twoFactorSecret: Option<string>)

  datatype BannedUser = BannedUser(
    userId: string, username: string, email: string, password: string,
    loginTime: Option<int>, ip: Option<string>, role: string, banReason: Option<string>,
    twoFactorEnabled: bool, twoFactorSecret: Option<string>)

  /** A VM session record, with the columns create_vm fills in. */
  datatype VirtualMachine = VirtualMachine(
    port: int, wsport: int, iso: string,
    websockifyProcessId: int, processId: int,
    userId: string, logFile: string, vncPassword: string)

  /** Values held in the application configuration table. */
  datatype ConfigValue = Duration(seconds: int) | Text(text: string) | Number(n: int) | Flag(b: bool) | Null

  /** An HTTP status and message, as the handlers return them. */
  datatype Reply = Reply(status: nat, message: string)

  /** What Flask answers when a handler raises (a failed commit, a None concatenated to a string, ...). */
  const INTERNAL_ERROR := Reply(500, "Internal Server Error")

  /** The User row a verified account becomes: role "user", never logged in, 2FA off. */
  function Promote(row: UnverifiedUser): User
  {
    User(row.username, row.email, row.password, None, None, "user", false, None)
  }

  const VNC_PORT_BASE := 5900
  const WS_PORT_BASE := 5700

  function UserNames(t: map<string, User>): set<string> { set id | id in t :: t[id].username }
  function UserEmails(t: map<string, User>): set<string> { set id | id in t :: t[id].email }
  function UnverifiedNames(t: map<string, UnverifiedUser>): set<string> { set id | id in t :: t[id].username }
  function UnverifiedEmails(t: map<string, UnverifiedUser>): set<string> { set id | id in t :: t[id].email }
  function BannedNames(t: map<nat, BannedUser>): set<string> { set id | id in t :: t[id].username }
  function BannedEmails(t: map<nat, BannedUser>): set<string> { set id | id in t :: t[id].email }

  // How the username sets move when a row is added or deleted.

  lemma UserNamesInsert(t: map<string, User>, id: string, u: User)
    requires id !in t
    ensures UserNames(t[id := u]) == UserNames(t) + {u.username}
  {
    forall n | n in UserNames(t) ensures n in UserNames(t[id := u]) {
      var k :| k in t && t[k].username == n;
      assert k in t[id := u] && t[id := u][k] == t[k];
    }
    assert u.username == t[id := u][id].username;
  }

  lemma UserNamesRemove(t: map<string, User>, id: string)
    requires UniqueUserNames(t) && id in t
    ensures UserNames(t - {id}) == UserNames(t) - {t[id].username}
  {
    forall n | n in UserNames(t) - {t[id].username} ensures n in UserNames(t - {id}) {
      var k :| k in t && t[k].username == n;
      assert k in t - {id};
    }
  }

  lemma UnverifiedNamesInsert(t: map<string, UnverifiedUser>, id: string, u: UnverifiedUser)
    requires id !in t
    ensures UnverifiedNames(t[id := u]) == UnverifiedNames(t) + {u.username}
  {
    forall n | n in UnverifiedNames(t) ensures n in UnverifiedNames(t[id := u]) {
      var k :| k in t && t[k].username == n;
      assert k in t[id := u] && t[id := u][k] == t[k];
    }
    assert u.username == t[id := u][id].username;
  }

  lemma UnverifiedNamesRemove(t: map<string, UnverifiedUser>, id: string)
    requires UniqueUnverifiedNames(t) && id in t
    ensures UnverifiedNames(t - {id}) == UnverifiedNames(t) - {t[id].username}
  {
    forall n | n in UnverifiedNames(t) - {t[id].username} ensures n in UnverifiedNames(t - {id}) {
      var k :| k in t && t[k].username == n;
      assert k in t - {id};
    }
  }

  lemma BannedNamesInsert(t: map<nat, BannedUser>, id: nat, u: BannedUser)
    requires id !in t
    ensures BannedNames(t[id := u]) == BannedNames(t) + {u.username}
  {
    forall n | n in BannedNames(t) ensures n in BannedNames(t[id := u]) {
      var k :| k in t && t[k].username == n;
      assert k in t[id := u] && t[id := u][k] == t[k];
    }
    assert u.username == t[id := u][id].username;
  }

  lemma BannedNamesRemove(t: map<nat, BannedUser>, id: nat)
    requires UniqueBannedNames(t) && id in t
    ensures BannedNames(t - {id}) == BannedNames(t) - {t[id].username}
  {
    forall n | n in BannedNames(t) - {t[id].username} ensures n in BannedNames(t - {id}) {
      var k :| k in t && t[k].username == n;
      assert k in t - {id};
    }
  }

  /** The `unique=True` declarations on `username`, one per table. */
  ghost predicate UniqueUserNames(t: map<string, User>)
  {
    forall a, b :: a in t && b in t && a != b ==> t[a].username != t[b].username
  }

  ghost predicate UniqueUnverifiedNames(t: map<string, UnverifiedUser>)
  {
    forall a, b :: a in t && b in t && a != b ==> t[a].username != t[b].username
  }

  ghost predicate UniqueBannedNames(t: map<nat, BannedUser>)
  {
    forall a, b :: a in t && b in t && a != b ==> t[a].username != t[b].username
  }

  /** The record's display port is `5900 + slot` for a slot in the pool, and its websocket port `5700 + slot`. */
  ghost predicate WellPorted(vm: VirtualMachine, maxVmCount: int)
  {
    VNC_PORT_BASE <= vm.port < VNC_PORT_BASE + maxVmCount
    && vm.wsport == vm.port - VNC_PORT_BASE + WS_PORT_BASE
  }

  /**
   * What create_vm maintains for the session registry (the schema itself
   * declares no uniqueness on `port` or `user_id`): every record sits on a
   * slot of the pool, no two records share a port, no user owns two records.
   */
  ghost predicate RegistryValid(vms: map<nat, VirtualMachine>, maxVmCount: int)
  {
    && (forall id :: id in vms ==> WellPorted(vms[id], maxVmCount))
    && (forall a, b :: a in vms && b in vms && a != b ==> vms[a].port != vms[b].port)
    && (forall a, b :: a in vms && b in vms && a != b ==> vms[a].userId != vms[b].userId)
  }

  /** Under the registry invariant no two records share a websocket port either. */
  lemma DistinctWsPorts(vms: map<nat, VirtualMachine>, maxVmCount: int, a: nat, b: nat)
    requires RegistryValid(vms, maxVmCount)
    requires a in vms && b in vms && a != b
    ensures vms[a].wsport != vms[b].wsport
  {
    assert WellPorted(vms[a], maxVmCount) && WellPorted(vms[b], maxVmCount);
  }

  /** No two of the three account tables hold the same username: register checks all three. */
  ghost predicate NamesDisjoint(users: map<string, User>, unverified: map<string, UnverifiedUser>, banned: map<nat, BannedUser>)
  {
    && UserNames(users) !! UnverifiedNames(unverified)
    && UserNames(users) !! BannedNames(banned)
    && UnverifiedNames(unverified) !! BannedNames(banned)
  }

  /** Every session record belongs to an existing user. */
  ghost predicate NoOrphanVms(users: map<string, User>, vms: map<nat, VirtualMachine>)
  {
    forall id :: id in vms ==> vms[id].userId in users
  }

  /** Some record belongs to `userId`. */
  predicate OwnsVm(vms: map<nat, VirtualMachine>, userId: string)
  {
    exists id :: id in vms && vms[id].userId == userId
  }

  /** Two-factor login is only ever on for a user who holds a secret. */
  ghost predicate TwoFactorConsistent(users: map<string, User>)
  {
    forall id :: id in users && users[id].twoFactorEnabled ==> users[id].twoFactorSecret.Some?
  }

  /** The same for banned accounts, whose 2FA columns are copied back on unban. */
  ghost predicate BannedTwoFactorConsistent(banned: map<nat, BannedUser>)
  {
    forall id :: id in banned && banned[id].twoFactorEnabled ==> banned[id].twoFactorSecret.Some?
  }

  /** The whole database at one moment. */
  datatype Snapshot = Snapshot(
    users: map<string, User>, unverified: map<string, UnverifiedUser>, banned: map<nat, BannedUser>,
    vms: map<nat, VirtualMachine>, config: map<string, ConfigValue>, nextBannedId: nat, nextVmId: nat)

  /** The database: one map per table, keyed by primary key, and the next integer keys. */
  class Db {
    const maxVmCount: int
    var users: map<string, User>
    var unverified: map<string, UnverifiedUser>
    var banned: map<nat, BannedUser>
    var vms: map<nat, VirtualMachine>
    var config: map<string, ConfigValue>
    var nextBannedId: nat
    var nextVmId: nat

    ghost predicate Valid()
      reads this
    {
      && RegistryValid(vms, maxVmCount)
      && (forall id :: id in vms ==> id < nextVmId)
      && (forall id :: id in banned ==> id < nextBannedId)
      && UniqueUserNames(users)
      && UniqueUnverifiedNames(unverified)
      && UniqueBannedNames(banned)
    }

    /** The route-level invariants beyond the schema's: disjoint usernames, no orphaned session, 2FA only with a secret (active or banned). */
    ghost predicate Consistent()
      reads this
    {
      && NamesDisjoint(users, unverified, banned)
      && NoOrphanVms(users, vms)
      && TwoFactorConsistent(users)
      && BannedTwoFactorConsistent(banned)
    }

    function State(): Snapshot
      reads this
    {
      Snapshot(users, unverified, banned, vms, config, nextBannedId, nextVmId)
    }

    constructor (maxVmCount: int)
      ensures Valid() && Consistent()
      ensures this.maxVmCount == maxVmCount
      ensures users == map[] && unverified == map[] && banned == map[] && vms == map[] && config == map[]
    {
      this.maxVmCount := maxVmCount;
      users, unverified, banned, vms, config := map[], map[], map[], map[], map[];
      nextBannedId, nextVmId := 0, 0;
    }
  }

  /** The host's process table as the server affects it: what it spawned and which pids it sent `kill` to. */
  class Host {
    var spawned: seq<int>
    var signalled: seq<int>

    constructor ()
      ensures spawned == [] && signalled == []
    {
      spawned, signalled := [], [];
    }

    /** `subprocess.Popen(["kill", str(pid)])`; its exit status is never read. */
    method Kill(pid: int)
      modifies this
      ensures signalled == old(signalled) + [pid] && spawned == old(spawned)
    {
      signalled := signalled + [pid];
    }

    /** A process the server started. */
    method Spawn(pid: int)
      modifies this
      ensures spawned == old(spawned) + [pid] && signalled == old(signalled)
    {
      spawned := spawned + [pid];
    }
  }

  /**
   * Deletes the account `target` together with its session, if it has one:
   * the session is stopped as delete_vm stops one (websockify, then QEMU)
   * and its record is deleted with the User row, so no session is left
   * without an owner.
   */
  method DeleteAccountAndSession(db: Db, host: Host, target: string)
    requires db.Valid() && target in db.users
    modifies db, host
    ensures db.Valid()
    ensures old(db.Consistent()) ==> db.Consistent()
    ensures target !in db.users && !OwnsVm(db.vms, target)
    ensures !OwnsVm(old(db.vms), target) ==>
              db.State() == old(db.State()).(users := old(db.users) - {target}) && host.signalled == old(host.signalled)
    ensures OwnsVm(old(db.vms), target) ==>
              exists id :: id in old(db.vms) && old(db.vms)[id].userId == target
                           && db.State() == old(db.State()).(users := old(db.users) - {target}, vms := old(db.vms) - {id})
                           && host.signalled == old(host.signalled) + [old(db.vms)[id].websockifyProcessId, old(db.vms)[id].processId]
    ensures host.spawned == old(host.spawned)
  {
    if OwnsVm(db.vms, target) {
      var id :| id in db.vms && db.vms[id].userId == target;
      host.Kill(db.vms[id].websockifyProcessId);
      host.Kill(db.vms[id].processId);
      db.vms := db.vms - {id};
    }
    db.users := db.users - {target};
  }
}
