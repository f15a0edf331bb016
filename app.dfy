/**
 * The exit-time sweep of server/app.py. It is registered with `atexit`
 * only, so it runs when the server process exits, never at start-up.
 */
module App {
  import opened Models

  /** The kill commands for the records visited in `order`: websockify's pid, then QEMU's, per record. */
  function KillsFor(vms: map<nat, VirtualMachine>, order: seq<nat>): (kills: seq<int>)
    requires forall i :: 0 <= i < |order| ==> order[i] in vms
    ensures |kills| == 2 * |order|
  {
    if |order| == 0 then []
    else
      var last := vms[order[|order| - 1]];
      KillsFor(vms, order[..|order| - 1]) + [last.websockifyProcessId, last.processId]
  }

  /** Each visited record contributes its two pids, websockify's first, at positions 2i and 2i + 1. */
  lemma {:induction false} KillsForAt(vms: map<nat, VirtualMachine>, order: seq<nat>, i: nat)
    requires forall j :: 0 <= j < |order| ==> order[j] in vms
    requires i < |order|
    ensures KillsFor(vms, order)[2 * i] == vms[order[i]].websockifyProcessId
    ensures KillsFor(vms, order)[2 * i + 1] == vms[order[i]].processId
    decreases |order|
  {
    var init := order[..|order| - 1];
    if i < |order| - 1 {
      KillsForAt(vms, init, i);
      assert KillsFor(vms, order)[2 * i] == KillsFor(vms, init)[2 * i];
      assert KillsFor(vms, order)[2 * i + 1] == KillsFor(vms, init)[2 * i + 1];
    }
  }

  /** Visiting one more record appends its two kill commands. */
  lemma KillsForNext(vms: map<nat, VirtualMachine>, rows: seq<nat>, i: nat)
    requires forall j :: 0 <= j < |rows| ==> rows[j] in vms
    requires i < |rows|
    ensures KillsFor(vms, rows[..i + 1])
            == KillsFor(vms, rows[..i]) + [vms[rows[i]].websockifyProcessId, vms[rows[i]].processId]
  {
    assert rows[..i + 1][..i] == rows[..i];
  }

  /** `rows` lists every record id of `vms` exactly once, as `VirtualMachine.query.all()` does. */
  predicate EnumeratesRecords(rows: seq<nat>, vms: map<nat, VirtualMachine>)
  {
    && (forall i :: 0 <= i < |rows| ==> rows[i] in vms)
    && (forall id :: id in vms ==> id in rows)
    && (forall i, j :: 0 <= i < j < |rows| ==> rows[i] != rows[j])
  }

  /** The records not yet visited after the first `i` rows. */
  function Unvisited(vms: map<nat, VirtualMachine>, rows: seq<nat>, i: nat): map<nat, VirtualMachine>
    requires i <= |rows|
  {
    vms - set j | 0 <= j < i :: rows[j]
  }

  /** The next row has not been visited yet, and visiting it removes exactly it. */
  lemma UnvisitedNext(vms: map<nat, VirtualMachine>, rows: seq<nat>, i: nat)
    requires EnumeratesRecords(rows, vms)
    requires i < |rows|
    ensures rows[i] in Unvisited(vms, rows, i)
    ensures Unvisited(vms, rows, i)[rows[i]] == vms[rows[i]]
    ensures Unvisited(vms, rows, i + 1) == Unvisited(vms, rows, i) - {rows[i]}
  {
    assert (set j | 0 <= j < i + 1 :: rows[j]) == (set j | 0 <= j < i :: rows[j]) + {rows[i]};
  }

  /** Once every row is visited nothing is left. */
  lemma UnvisitedAll(vms: map<nat, VirtualMachine>, rows: seq<nat>)
    requires EnumeratesRecords(rows, vms)
    ensures Unvisited(vms, rows, |rows|) == map[]
  {
    forall id | id in vms ensures id in set j | 0 <= j < |rows| :: rows[j] {
      var j :| 0 <= j < |rows| && rows[j] == id;
    }
  }

  /**
   * clean_up: for every record present at exit, in the order the query
   * returns them (`rows`), kill its websockify process, then its QEMU
   * process, then delete and commit the record. The exit status of `kill`
   * is never read, so every record is deleted whether or not its processes
   * were still alive.
   */
  method CleanUp(db: Db, host: Host, rows: seq<nat>)
    requires db.Valid()
    requires EnumeratesRecords(rows, db.vms)
    modifies db, host
    ensures db.Valid()
    ensures db.vms == map[]
    ensures host.signalled == old(host.signalled) + KillsFor(old(db.vms), rows)
    ensures host.spawned == old(host.spawned)
    ensures db.users == old(db.users) && db.unverified == old(db.unverified) && db.banned == old(db.banned)
    ensures db.config == old(db.config) && db.nextVmId == old(db.nextVmId) && db.nextBannedId == old(db.nextBannedId)
  {
    ghost var all := db.vms;
    for i := 0 to |rows|
      invariant db.vms == Unvisited(all, rows, i)
      invariant host.signalled == old(host.signalled) + KillsFor(all, rows[..i])
      invariant host.spawned == old(host.spawned)
      invariant db.users == old(db.users) && db.unverified == old(db.unverified) && db.banned == old(db.banned)
      invariant db.config == old(db.config) && db.nextVmId == old(db.nextVmId) && db.nextBannedId == old(db.nextBannedId)
    {
      UnvisitedNext(all, rows, i);
      KillsForNext(all, rows, i);
      var vm := db.vms[rows[i]];
      host.Kill(vm.websockifyProcessId);
      host.Kill(vm.processId);
      db.vms := db.vms - {rows[i]};
    }
    UnvisitedAll(all, rows);
    assert rows[..|rows|] == rows;
  }
}
