/**
 * The VM session registry (server/routes/vm_endpoints.py): the random VNC
 * password, the display-port slot allocator, creation and deletion of a
 * session record, and the session count.
 *
 * Launching QEMU, connecting to its QMP socket and starting websockify are
 * one abstract effect, `Launch`, that either yields the two process ids or
 * fails; the files under `iso/` are the set `isoFiles`; the wall-clock time
 * used in the capture-file name is the parameter `timeOfDay`.
 */
module VmEndpoints {
  import opened Wrappers
  import opened RandomChoice
  import opened Models

  // ---------------------------------------------------------------------
  // create_random_vnc_password
  // ---------------------------------------------------------------------

  const VNC_ALPHABET := "abcdefghijklmnopqrstuvwxyzABCDEFGHIJKLMNOPQRSTUVWXYZ1234567890!@#$%^&*()"
  const VNC_PASSWORD_LENGTH := 16

  predicate IsVncPassword(p: string)
  {
    |p| == VNC_PASSWORD_LENGTH && forall i :: 0 <= i < |p| ==> p[i] in VNC_ALPHABET
  }

  /** create_random_vnc_password: 16 characters drawn from the 72-character alphabet. */
  function CreateRandomVncPassword(draws: seq<nat>): (password: string)
    requires |draws| == VNC_PASSWORD_LENGTH && DrawsBelow(draws, |VNC_ALPHABET|)
    ensures IsVncPassword(password)
  {
    Choices(VNC_ALPHABET, draws)
  }

  /** Conversely every 16-character string over the alphabet is a possible password. */
  lemma {:induction false} VncPasswordsReachAll(p: string)
    requires IsVncPassword(p)
    ensures exists draws :: |draws| == VNC_PASSWORD_LENGTH && DrawsBelow(draws, |VNC_ALPHABET|)
                            && CreateRandomVncPassword(draws) == p
  {
    ChoicesReachAll(VNC_ALPHABET, p);
    var draws :| DrawsBelow(draws, |VNC_ALPHABET|) && Choices(VNC_ALPHABET, draws) == p;
    assert |draws| == VNC_PASSWORD_LENGTH;
  }

  // ---------------------------------------------------------------------
  // The slot pool
  // ---------------------------------------------------------------------

  /** Some record holds the display port of `slot`, `5900 + slot`. */
  predicate SlotInUse(vms: map<nat, VirtualMachine>, slot: int)
  {
    exists id :: id in vms && vms[id].port == VNC_PORT_BASE + slot
  }

  /** `slot` is the smallest slot of the pool whose display port is free. */
  ghost predicate IsLowestFreeSlot(vms: map<nat, VirtualMachine>, maxVmCount: int, slot: int)
  {
    && 0 <= slot < maxVmCount
    && !SlotInUse(vms, slot)
    && forall s :: 0 <= s < slot ==> SlotInUse(vms, s)
  }

  /** Every slot of the pool is taken. */
  ghost predicate PoolFull(vms: map<nat, VirtualMachine>, maxVmCount: int)
  {
    forall s :: 0 <= s < maxVmCount ==> SlotInUse(vms, s)
  }

  /**
   * The slot scan of create_vm: try slots 0, 1, ... up to MAX_VM_COUNT - 1
   * and stop at the first whose display port no record holds. The result
   * exceeds MAX_VM_COUNT - 1 exactly when every slot is taken.
   */
  method FindFreeSlot(vms: map<nat, VirtualMachine>, maxVmCount: int) returns (slot: int)
    ensures slot <= maxVmCount - 1 ==> IsLowestFreeSlot(vms, maxVmCount, slot)
    ensures slot > maxVmCount - 1 <==> PoolFull(vms, maxVmCount)
  {
    slot := 0;
    while slot <= maxVmCount - 1
      invariant 0 <= slot
      invariant slot <= maxVmCount || slot == 0
      invariant forall s :: 0 <= s < slot ==> SlotInUse(vms, s)
    {
      if !SlotInUse(vms, slot) {
        break;
      }
      slot := slot + 1;
    }
  }

  /** The slots the records occupy. */
  function UsedSlots(vms: map<nat, VirtualMachine>): set<int>
  {
    set id | id in vms :: vms[id].port - VNC_PORT_BASE
  }

  /** The slots 0 .. n-1. */
  function SlotRange(n: nat): (r: set<int>)
    ensures forall s :: s in r <==> 0 <= s < n
    ensures |r| == n
  {
    if n == 0 then {} else SlotRange(n - 1) + {n - 1}
  }

  /** Removing one record removes exactly its slot. */
  lemma UsedSlotsRemove(vms: map<nat, VirtualMachine>, k: nat)
    requires k in vms
    ensures UsedSlots(vms) == UsedSlots(vms - {k}) + {vms[k].port - VNC_PORT_BASE}
  {
    var rest := vms - {k};
    forall s | s in UsedSlots(vms) ensures s in UsedSlots(rest) + {vms[k].port - VNC_PORT_BASE} {
      var id :| id in vms && vms[id].port - VNC_PORT_BASE == s;
      if id != k {
        assert id in rest;
      }
    }
  }

  /** Distinct ports mean one slot per record. */
  lemma {:induction false} UsedSlotsCard(vms: map<nat, VirtualMachine>)
    requires forall a, b :: a in vms && b in vms && a != b ==> vms[a].port != vms[b].port
    ensures |UsedSlots(vms)| == |vms|
    decreases |vms|
  {
    if |vms| > 0 {
      var k :| k in vms;
      var rest := vms - {k};
      UsedSlotsCard(rest);
      UsedSlotsRemove(vms, k);
      assert vms[k].port - VNC_PORT_BASE !in UsedSlots(rest);
      assert vms.Keys == rest.Keys + {k};
    }
  }

  /** A subset is no larger, and only as large when it is the whole set. */
  lemma SubsetCard(a: set<int>, b: set<int>)
    requires a <= b
    ensures |a| <= |b|
    ensures |a| == |b| ==> a == b
  {
    var d := b - a;
    assert b == a + d;
    if |a| == |b| {
      assert d == {};
    }
  }

  /** Every record's slot lies in the pool. */
  lemma UsedSlotsInPool(vms: map<nat, VirtualMachine>, maxVmCount: int, n: nat)
    requires RegistryValid(vms, maxVmCount)
    requires n == if maxVmCount < 0 then 0 else maxVmCount
    ensures UsedSlots(vms) <= SlotRange(n)
  {
    forall s | s in UsedSlots(vms) ensures s in SlotRange(n) {
      var id :| id in vms && vms[id].port - VNC_PORT_BASE == s;
      assert WellPorted(vms[id], maxVmCount);
    }
  }

  /** The pool is full exactly when every slot of it is some record's slot. */
  lemma PoolFullIffCovered(vms: map<nat, VirtualMachine>, maxVmCount: int, n: nat)
    requires n == if maxVmCount < 0 then 0 else maxVmCount
    ensures PoolFull(vms, maxVmCount) <==> SlotRange(n) <= UsedSlots(vms)
  {
    if PoolFull(vms, maxVmCount) {
      forall s | s in SlotRange(n) ensures s in UsedSlots(vms) {
        assert SlotInUse(vms, s);
        var id :| id in vms && vms[id].port == VNC_PORT_BASE + s;
        assert vms[id].port - VNC_PORT_BASE == s;
      }
    }
    if SlotRange(n) <= UsedSlots(vms) {
      forall s | 0 <= s < maxVmCount ensures SlotInUse(vms, s) {
        assert s in SlotRange(n);
        var id :| id in vms && vms[id].port - VNC_PORT_BASE == s;
        assert vms[id].port == VNC_PORT_BASE + s;
      }
    }
  }

  /**
   * The pigeonhole view of the registry: it never holds more records than
   * the pool has slots, and the scan finds no free slot exactly when it is
   * at capacity.
   */
  lemma {:induction false} PoolFullIffAtCapacity(vms: map<nat, VirtualMachine>, maxVmCount: int)
    requires RegistryValid(vms, maxVmCount)
    ensures |vms| <= if maxVmCount < 0 then 0 else maxVmCount
    ensures PoolFull(vms, maxVmCount) <==> |vms| >= maxVmCount
  {
    var n: nat := if maxVmCount < 0 then 0 else maxVmCount;
    UsedSlotsCard(vms);
    UsedSlotsInPool(vms, maxVmCount, n);
    SubsetCard(UsedSlots(vms), SlotRange(n));
    PoolFullIffCovered(vms, maxVmCount, n);
    if PoolFull(vms, maxVmCount) {
      SubsetCard(SlotRange(n), UsedSlots(vms));
    }
  }

  // ---------------------------------------------------------------------
  // create_vm
  // ---------------------------------------------------------------------

  /**
   * The outcome of starting QEMU, setting its VNC password over QMP and
   * starting websockify. A failure raises out of the handler: its
   * `except subprocess.CalledProcessError` catches nothing that `Popen` or
   * the QMP client raise, so the reply is Flask's generic 500.
   */
  datatype Launch =
    | Launched(qemuPid: int, websockifyPid: int)
    | LaunchFailed(startedQemuPid: Option<int>)

  /** The fields of the 201 reply. */
  datatype VmSummary = VmSummary(id: nat, wsport: int, iso: string, userId: string)

  const NO_PORTS := Reply(500, "No available ports. Please try again later.")
  const ONE_VM_ONLY := Reply(403, "Users may only have one virtual machine at a time. Please shut down your current virtual machine before creating a new one.")

  /** The capture file name: the time of day, a dash, the ISO name and ".pcap". */
  function LogFileName(timeOfDay: string, iso: string): string
  {
    timeOfDay + "-" + iso + ".pcap"
  }

  /** Every refusal of create_vm passes: a known caller, an existing ISO file, a free slot, no VM of the caller's own. */
  ghost predicate CreateAdmitted(users: map<string, User>, vms: map<nat, VirtualMachine>, maxVmCount: int,
                                 callerId: string, iso: Option<string>, isoFiles: set<string>)
  {
    callerId in users && iso.Some? && iso.value in isoFiles
    && !PoolFull(vms, maxVmCount) && !OwnsVm(vms, callerId)
  }

  /**
   * create_vm. `iso` is the body's "iso" field (None when the body is
   * absent or lacks it); `passwordDraws` are the generator's draws.
   */
  method CreateVm(db: Db, host: Host, callerId: string, iso: Option<string>, isoFiles: set<string>,
                  launch: Launch, passwordDraws: seq<nat>, timeOfDay: string)
    returns (reply: Reply, summary: Option<VmSummary>)
    requires db.Valid()
    requires |passwordDraws| == VNC_PASSWORD_LENGTH && DrawsBelow(passwordDraws, |VNC_ALPHABET|)
    modifies db, host
    ensures db.Valid()
    // the refusals, in the order the handler tests them
    ensures callerId !in old(db.users) ==> reply == Reply(401, "Invalid user")
    ensures callerId in old(db.users) && iso.None? ==> reply == Reply(400, "Invalid data format")
    ensures callerId in old(db.users) && iso.Some? && iso.value !in isoFiles ==> reply == Reply(404, "Invalid ISO")
    ensures callerId in old(db.users) && iso.Some? && iso.value in isoFiles && PoolFull(old(db.vms), db.maxVmCount)
            ==> reply == NO_PORTS
    ensures (callerId in old(db.users) && iso.Some? && iso.value in isoFiles && !PoolFull(old(db.vms), db.maxVmCount)
             && OwnsVm(old(db.vms), callerId)) ==> reply == ONE_VM_ONLY
    ensures reply.status == 201 <==>
              CreateAdmitted(old(db.users), old(db.vms), db.maxVmCount, callerId, iso, isoFiles) && launch.Launched?
    ensures CreateAdmitted(old(db.users), old(db.vms), db.maxVmCount, callerId, iso, isoFiles) && launch.LaunchFailed?
            ==> reply == INTERNAL_ERROR
    ensures reply.status != 201 ==> db.State() == old(db.State()) && summary.None?
    ensures reply.status == 201 ==>
              && summary.Some? && summary.value.id == old(db.nextVmId) && summary.value.id !in old(db.vms)
              && db.nextVmId == old(db.nextVmId) + 1
              && db.vms.Keys == old(db.vms).Keys + {summary.value.id}
              && (forall id :: id in old(db.vms) ==> db.vms[id] == old(db.vms)[id])
              && var vm := db.vms[summary.value.id];
              && IsLowestFreeSlot(old(db.vms), db.maxVmCount, vm.port - VNC_PORT_BASE)
              && vm.wsport == vm.port - VNC_PORT_BASE + WS_PORT_BASE
              && vm.iso == iso.value && vm.userId == callerId
              && vm.processId == launch.qemuPid && vm.websockifyProcessId == launch.websockifyPid
              && vm.logFile == LogFileName(timeOfDay, iso.value)
              && vm.vncPassword == CreateRandomVncPassword(passwordDraws) && IsVncPassword(vm.vncPassword)
              && summary.value == VmSummary(summary.value.id, vm.wsport, vm.iso, callerId)
    // the launch's processes are never stopped here, even when it fails part-way
    ensures launch.Launched? && reply.status == 201 ==> host.spawned == old(host.spawned) + [launch.qemuPid, launch.websockifyPid]
    ensures CreateAdmitted(old(db.users), old(db.vms), db.maxVmCount, callerId, iso, isoFiles) && launch.LaunchFailed?
            ==> host.spawned == old(host.spawned) + (if launch.startedQemuPid.Some? then [launch.startedQemuPid.value] else [])
    ensures !CreateAdmitted(old(db.users), old(db.vms), db.maxVmCount, callerId, iso, isoFiles)
            ==> host.spawned == old(host.spawned)
    ensures host.signalled == old(host.signalled)
    ensures db.users == old(db.users) && db.unverified == old(db.unverified) && db.banned == old(db.banned)
    ensures db.config == old(db.config) && db.nextBannedId == old(db.nextBannedId)
  {
    summary := None;
    if callerId !in db.users {
      return Reply(401, "Invalid user"), None;
    }
    if iso.None? {
      return Reply(400, "Invalid data format"), None;
    }
    if iso.value !in isoFiles {
      return Reply(404, "Invalid ISO"), None;
    }
    var slot := FindFreeSlot(db.vms, db.maxVmCount);
    if slot > db.maxVmCount - 1 {
      return NO_PORTS, None;
    }
    var wsport := slot + WS_PORT_BASE;
    var port := slot + VNC_PORT_BASE;
    if OwnsVm(db.vms, callerId) {
      return ONE_VM_ONLY, None;
    }
    match launch
    case LaunchFailed(qemuPid) =>
      if qemuPid.Some? {
        host.Spawn(qemuPid.value);
      }
      return INTERNAL_ERROR, None;
    case Launched(qemuPid, websockifyPid) =>
      host.Spawn(qemuPid);
      var password := CreateRandomVncPassword(passwordDraws);
      host.Spawn(websockifyPid);
      var id := db.nextVmId;
      var vm := VirtualMachine(port, wsport, iso.value, websockifyPid, qemuPid, callerId,
                               LogFileName(timeOfDay, iso.value), password);
      db.vms := db.vms[id := vm];
      db.nextVmId := db.nextVmId + 1;
      reply := Reply(201, "");
      summary := Some(VmSummary(id, wsport, iso.value, callerId));
  }

  // ---------------------------------------------------------------------
  // delete_vm
  // ---------------------------------------------------------------------

  /** delete_vm. `vmId` is the body's "vm_id" field (None when the body is absent or lacks it). */
  method DeleteVm(db: Db, host: Host, callerId: string, vmId: Option<nat>) returns (reply: Reply)
    requires db.Valid()
    modifies db, host
    ensures db.Valid()
    ensures callerId !in old(db.users) ==> reply == Reply(401, "Invalid user")
    ensures callerId in old(db.users) && vmId.None? ==> reply == Reply(400, "Invalid data format")
    ensures callerId in old(db.users) && vmId.Some? && vmId.value !in old(db.vms)
            ==> reply == Reply(404, "Invalid virtual machine")
    ensures callerId in old(db.users) && vmId.Some? && vmId.value in old(db.vms)
            && old(db.vms)[vmId.value].userId != callerId
            ==> reply == Reply(403, "You can only delete your own virtual machine")
    ensures reply.status == 200 <==>
              callerId in old(db.users) && vmId.Some? && vmId.value in old(db.vms)
              && old(db.vms)[vmId.value].userId == callerId
    ensures reply.status == 200 ==>
              && reply.message == "Virtual machine deleted"
              && db.vms == old(db.vms) - {vmId.value}
              && host.signalled == old(host.signalled)
                   + [old(db.vms)[vmId.value].websockifyProcessId, old(db.vms)[vmId.value].processId]
    ensures reply.status != 200 ==> db.vms == old(db.vms) && host.signalled == old(host.signalled)
    ensures host.spawned == old(host.spawned)
    ensures db.users == old(db.users) && db.unverified == old(db.unverified) && db.banned == old(db.banned)
    ensures db.config == old(db.config) && db.nextVmId == old(db.nextVmId) && db.nextBannedId == old(db.nextBannedId)
  {
    if callerId !in db.users {
      return Reply(401, "Invalid user");
    }
    if vmId.None? {
      return Reply(400, "Invalid data format");
    }
    if vmId.value !in db.vms {
      return Reply(404, "Invalid virtual machine");
    }
    var vm := db.vms[vmId.value];
    if vm.userId != callerId {
      return Reply(403, "You can only delete your own virtual machine");
    }
    host.Kill(vm.websockifyProcessId);
    host.Kill(vm.processId);
    db.vms := db.vms - {vmId.value};
    reply := Reply(200, "Virtual machine deleted");
  }

  // ---------------------------------------------------------------------
  // get_vm_count
  // ---------------------------------------------------------------------

  datatype CountReply = Unauthorized | VmCount(count: nat)

  /** get_vm_count: 401 for an unknown caller, else the number of records, which never exceeds the pool size. */
  function GetVmCount(users: map<string, User>, vms: map<nat, VirtualMachine>, maxVmCount: int, callerId: string): (r: CountReply)
    requires RegistryValid(vms, maxVmCount)
    ensures r.Unauthorized? <==> callerId !in users
    ensures r.VmCount? ==> r.count == |vms| && r.count <= (if maxVmCount < 0 then 0 else maxVmCount)
  {
    PoolFullIffAtCapacity(vms, maxVmCount);
    if callerId !in users then Unauthorized else VmCount(|vms|)
  }
}
