/** The sweep's classification of one tenant's VMs into a delete list and a
    power-off list (`_get_vms_to_delete_or_poweroff_for_tenant`).

    Two sources are merged: the tenant's explicit instance leases, and the live
    VMs the lease handler lists for the tenant. An explicit lease expires strictly
    after its `expiry`; a live VM that no explicit lease keeps out expires strictly
    after `created_at + expiry_mins * 60`. An expired item goes to the delete list
    when the governing action (the lease's own, or the tenant's for a live VM) is
    exactly "delete", and to the power-off list otherwise.

    `Classify` is the specification; `GetVmsToDeleteOrPoweroff` is the loop that
    builds the lists, proved equal to it. */
module Classifier {
  import opened LeaseTypes

  predicate IsDelete(action: string) {
    action == DELETE_ACTION
  }

  /** Strict comparison: a lease whose expiry is exactly `now` has not expired. */
  predicate LeaseExpired(lease: VmLeaseData, now: Time) {
    now > lease.expiry
  }

  /** When a VM with no explicit lease expires under the tenant's policy. */
  function ImplicitExpiry(vm: LiveVm, expiryMins: int): Time {
    vm.createdAt + expiryMins * 60
  }

  predicate VmExpired(vm: LiveVm, now: Time, expiryMins: int) {
    now > ImplicitExpiry(vm, expiryMins)
  }

  /** Leases read from the store carry distinct primary keys. */
  predicate DistinctLeaseIds(leases: seq<VmLeaseData>) {
    forall i, j :: 0 <= i < j < |leases| ==> leases[i].instanceUuid != leases[j].instanceUuid
  }

  /** A live VM is kept out of implicit classification by an explicit lease on
      its id that is either still running or expired with action "delete". An
      expired lease with any other action does not keep it out. */
  ghost predicate BlocksImplicit(leases: seq<VmLeaseData>, now: Time, id: string) {
    exists j :: 0 <= j < |leases| && leases[j].instanceUuid == id &&
      (!LeaseExpired(leases[j], now) || IsDelete(leases[j].action))
  }

  /** The state of the pass over explicit leases: the two lists and the three id sets. */
  datatype LeaseScan = LeaseScan(
    vmsToDelete: seq<QueuedVm>,
    vmsToPoweroff: seq<QueuedVm>,
    vmIdsToDelete: set<string>,
    vmIdsToPoweroff: set<string>,
    doNotDelete: set<string>)

  function ScanStep(scan: LeaseScan, lease: VmLeaseData, now: Time): LeaseScan {
    if LeaseExpired(lease, now) then
      if IsDelete(lease.action) then
        scan.(vmsToDelete := scan.vmsToDelete + [Explicit(lease)],
              vmIdsToDelete := scan.vmIdsToDelete + {lease.instanceUuid})
      else
        scan.(vmsToPoweroff := scan.vmsToPoweroff + [Explicit(lease)],
              vmIdsToPoweroff := scan.vmIdsToPoweroff + {lease.instanceUuid})
    else
      scan.(doNotDelete := scan.doNotDelete + {lease.instanceUuid})
  }

  /** The pass over explicit leases, in list order. */
  function ScanLeases(leases: seq<VmLeaseData>, now: Time): LeaseScan {
    if leases == [] then LeaseScan([], [], {}, {}, {})
    else ScanStep(ScanLeases(leases[..|leases| - 1], now), leases[|leases| - 1], now)
  }

  /** The pass over live VMs: the expired ones whose id is not blocked, in list order. */
  function ImplicitQueue(vms: seq<LiveVm>, now: Time, expiryMins: int, blocked: set<string>): seq<QueuedVm> {
    if vms == [] then []
    else
      var vm := vms[|vms| - 1];
      ImplicitQueue(vms[..|vms| - 1], now, expiryMins, blocked)
        + (if VmExpired(vm, now, expiryMins) && vm.instanceUuid !in blocked then [Implicit(vm)] else [])
  }

  datatype Queues = Queues(vmsToDelete: seq<QueuedVm>, vmsToPoweroff: seq<QueuedVm>)

  /** The two lists the sweep acts on for one tenant. Live VMs are blocked by
      the ids of expired "delete" leases and of unexpired leases only; the ids
      of expired power-off leases do not block them. */
  function Classify(now: Time, expiryMins: int, action: string,
                    leases: seq<VmLeaseData>, vms: seq<LiveVm>): Queues
  {
    var scan := ScanLeases(leases, now);
    var implicit := ImplicitQueue(vms, now, expiryMins, scan.vmIdsToDelete + scan.doNotDelete);
    if IsDelete(action) then Queues(scan.vmsToDelete + implicit, scan.vmsToPoweroff)
    else Queues(scan.vmsToDelete, scan.vmsToPoweroff + implicit)
  }

  /** The classification loop. The source also tests the live VM's id against
      `vms_to_poweroff`, a list of records; an id string never equals a record,
      so that test always passes and is not written here. */
  method GetVmsToDeleteOrPoweroff(now: Time, expiryMins: int, action: string,
                                  leases: seq<VmLeaseData>, vms: seq<LiveVm>)
    returns (vmsToDelete: seq<QueuedVm>, vmsToPoweroff: seq<QueuedVm>)
    ensures Queues(vmsToDelete, vmsToPoweroff) == Classify(now, expiryMins, action, leases, vms)
  {
    vmsToDelete, vmsToPoweroff := [], [];
    var vmIdsToDelete: set<string> := {};
    var vmIdsToPoweroff: set<string> := {};
    var doNotDelete: set<string> := {};
    var addSeconds := expiryMins * 60;
    var i := 0;
    while i < |leases|
      invariant 0 <= i <= |leases|
      invariant LeaseScan(vmsToDelete, vmsToPoweroff, vmIdsToDelete, vmIdsToPoweroff, doNotDelete)
                == ScanLeases(leases[..i], now)
    {
      var lease := leases[i];
      if now > lease.expiry {
        if lease.action == DELETE_ACTION {
          vmsToDelete := vmsToDelete + [Explicit(lease)];
          vmIdsToDelete := vmIdsToDelete + {lease.instanceUuid};
        } else {
          vmsToPoweroff := vmsToPoweroff + [Explicit(lease)];
          vmIdsToPoweroff := vmIdsToPoweroff + {lease.instanceUuid};
        }
      } else {
        doNotDelete := doNotDelete + {lease.instanceUuid};
      }
      assert leases[..i + 1][..i] == leases[..i];
      i := i + 1;
    }
    assert leases[..i] == leases;
    ghost var scan := ScanLeases(leases, now);
    ghost var blocked := vmIdsToDelete + doNotDelete;
    var j := 0;
    while j < |vms|
      invariant 0 <= j <= |vms|
      invariant vmIdsToDelete == scan.vmIdsToDelete && doNotDelete == scan.doNotDelete
      invariant IsDelete(action) ==>
        vmsToDelete == scan.vmsToDelete + ImplicitQueue(vms[..j], now, expiryMins, blocked) &&
        vmsToPoweroff == scan.vmsToPoweroff
      invariant !IsDelete(action) ==>
        vmsToDelete == scan.vmsToDelete &&
        vmsToPoweroff == scan.vmsToPoweroff + ImplicitQueue(vms[..j], now, expiryMins, blocked)
    {
      var vm := vms[j];
      var expiryDate := vm.createdAt + addSeconds;
      if now > expiryDate && vm.instanceUuid !in vmIdsToDelete && vm.instanceUuid !in doNotDelete {
        if action == DELETE_ACTION {
          vmsToDelete := vmsToDelete + [Implicit(vm)];
        } else {
          vmsToPoweroff := vmsToPoweroff + [Implicit(vm)];
        }
      }
      assert vms[..j + 1][..j] == vms[..j];
      j := j + 1;
    }
    assert vms[..j] == vms;
  }

  // ---------------------------------------------------------------------------
  // The passes, one item at a time

  lemma {:induction false} ScanLeasesMembers(leases: seq<VmLeaseData>, now: Time, x: QueuedVm)
    ensures x in ScanLeases(leases, now).vmsToDelete <==>
      x.Explicit? && x.lease in leases && LeaseExpired(x.lease, now) && IsDelete(x.lease.action)
    ensures x in ScanLeases(leases, now).vmsToPoweroff <==>
      x.Explicit? && x.lease in leases && LeaseExpired(x.lease, now) && !IsDelete(x.lease.action)
  {
    if leases != [] {
      var n := |leases| - 1;
      ScanLeasesMembers(leases[..n], now, x);
      assert leases == leases[..n] + [leases[n]];
    }
  }

  lemma {:induction false} ImplicitQueueMembers(vms: seq<LiveVm>, now: Time, expiryMins: int,
                                                blocked: set<string>, x: QueuedVm)
    ensures x in ImplicitQueue(vms, now, expiryMins, blocked) <==>
      x.Implicit? && x.vm in vms && VmExpired(x.vm, now, expiryMins) && x.vm.instanceUuid !in blocked
  {
    if vms != [] {
      var n := |vms| - 1;
      ImplicitQueueMembers(vms[..n], now, expiryMins, blocked, x);
      assert vms == vms[..n] + [vms[n]];
    }
  }

  /** The ids the lease pass collects as blocking are exactly the blocking leases' ids. */
  lemma {:induction false} ScanLeasesBlocked(leases: seq<VmLeaseData>, now: Time, id: string)
    ensures id in ScanLeases(leases, now).vmIdsToDelete + ScanLeases(leases, now).doNotDelete
            <==> BlocksImplicit(leases, now, id)
  {
    if leases != [] {
      var n := |leases| - 1;
      var pre := leases[..n];
      ScanLeasesBlocked(pre, now, id);
      if BlocksImplicit(leases, now, id) {
        var j :| 0 <= j < |leases| && leases[j].instanceUuid == id &&
          (!LeaseExpired(leases[j], now) || IsDelete(leases[j].action));
        if j < n {
          assert pre[j] == leases[j];
        }
      }
      if BlocksImplicit(pre, now, id) {
        var j :| 0 <= j < |pre| && pre[j].instanceUuid == id &&
          (!LeaseExpired(pre[j], now) || IsDelete(pre[j].action));
        assert leases[j] == pre[j];
      }
    }
  }

  lemma {:induction false} ScanLeasesAbsent(leases: seq<VmLeaseData>, now: Time, id: string)
    requires forall j :: 0 <= j < |leases| ==> leases[j].instanceUuid != id
    ensures forall x :: x in ScanLeases(leases, now).vmsToDelete ==> x.InstanceUuid() != id
    ensures forall x :: x in ScanLeases(leases, now).vmsToPoweroff ==> x.InstanceUuid() != id
  {
    if leases != [] {
      var n := |leases| - 1;
      ScanLeasesAbsent(leases[..n], now, id);
    }
  }

  /** One step of the lease pass adds one copy of the lease's record to at most one list. */
  lemma ScanStepCounts(scan: LeaseScan, lease: VmLeaseData, now: Time, x: QueuedVm)
    ensures multiset(ScanStep(scan, lease, now).vmsToDelete)[x] == multiset(scan.vmsToDelete)[x] +
      (if x == Explicit(lease) && LeaseExpired(lease, now) && IsDelete(lease.action) then 1 else 0)
    ensures multiset(ScanStep(scan, lease, now).vmsToPoweroff)[x] == multiset(scan.vmsToPoweroff)[x] +
      (if x == Explicit(lease) && LeaseExpired(lease, now) && !IsDelete(lease.action) then 1 else 0)
  {
  }

  /** With distinct keys, each lease contributes its record to its list exactly once. */
  lemma {:induction false} ScanLeasesAt(leases: seq<VmLeaseData>, now: Time, k: nat)
    requires DistinctLeaseIds(leases) && k < |leases|
    ensures multiset(ScanLeases(leases, now).vmsToDelete)[Explicit(leases[k])] ==
      (if LeaseExpired(leases[k], now) && IsDelete(leases[k].action) then 1 else 0)
    ensures multiset(ScanLeases(leases, now).vmsToPoweroff)[Explicit(leases[k])] ==
      (if LeaseExpired(leases[k], now) && !IsDelete(leases[k].action) then 1 else 0)
  {
    var n := |leases| - 1;
    var pre := leases[..n];
    var l := leases[k];
    var before := ScanLeases(pre, now);
    assert ScanLeases(leases, now) == ScanStep(before, leases[n], now);
    ScanStepCounts(before, leases[n], now, Explicit(l));
    if k == n {
      ScanLeasesAbsent(pre, now, l.instanceUuid);
      assert Explicit(l) !in before.vmsToDelete;
      assert Explicit(l) !in before.vmsToPoweroff;
    } else {
      ScanLeasesAt(pre, now, k);
      assert pre[k] == l;
      assert leases[n].instanceUuid != l.instanceUuid;
    }
  }

  // ---------------------------------------------------------------------------
  // Properties of the classification

  /** An expired explicit lease is queued exactly once: to the delete list when
      its action is "delete", otherwise to the power-off list. */
  lemma ExpiredLeaseQueuedOnce(now: Time, expiryMins: int, action: string,
                               leases: seq<VmLeaseData>, vms: seq<LiveVm>, k: nat)
    requires DistinctLeaseIds(leases) && k < |leases| && LeaseExpired(leases[k], now)
    ensures multiset(Classify(now, expiryMins, action, leases, vms).vmsToDelete)[Explicit(leases[k])] ==
      (if IsDelete(leases[k].action) then 1 else 0)
    ensures multiset(Classify(now, expiryMins, action, leases, vms).vmsToPoweroff)[Explicit(leases[k])] ==
      (if IsDelete(leases[k].action) then 0 else 1)
  {
    var scan := ScanLeases(leases, now);
    ScanLeasesAt(leases, now, k);
    ImplicitQueueMembers(vms, now, expiryMins, scan.vmIdsToDelete + scan.doNotDelete, Explicit(leases[k]));
  }

  /** A lease with `now <= expiry` (equality included) is never queued, and no
      live VM with its id is queued either. */
  lemma UnexpiredLeaseNeverQueued(now: Time, expiryMins: int, action: string,
                                  leases: seq<VmLeaseData>, vms: seq<LiveVm>, k: nat, vm: LiveVm)
    requires k < |leases| && !LeaseExpired(leases[k], now) && vm.instanceUuid == leases[k].instanceUuid
    ensures Explicit(leases[k]) !in Classify(now, expiryMins, action, leases, vms).vmsToDelete
    ensures Explicit(leases[k]) !in Classify(now, expiryMins, action, leases, vms).vmsToPoweroff
    ensures Implicit(vm) !in Classify(now, expiryMins, action, leases, vms).vmsToDelete
    ensures Implicit(vm) !in Classify(now, expiryMins, action, leases, vms).vmsToPoweroff
  {
    var scan := ScanLeases(leases, now);
    var blocked := scan.vmIdsToDelete + scan.doNotDelete;
    ScanLeasesMembers(leases, now, Explicit(leases[k]));
    ScanLeasesMembers(leases, now, Implicit(vm));
    ImplicitQueueMembers(vms, now, expiryMins, blocked, Explicit(leases[k]));
    ImplicitQueueMembers(vms, now, expiryMins, blocked, Implicit(vm));
    ScanLeasesBlocked(leases, now, vm.instanceUuid);
  }

  /** A live VM is queued iff its implicit lease has expired and no blocking
      explicit lease covers its id; the tenant's action picks the list. */
  lemma LiveVmQueuedIff(now: Time, expiryMins: int, action: string,
                        leases: seq<VmLeaseData>, vms: seq<LiveVm>, vm: LiveVm)
    ensures Implicit(vm) in Classify(now, expiryMins, action, leases, vms).vmsToDelete <==>
      vm in vms && VmExpired(vm, now, expiryMins) && !BlocksImplicit(leases, now, vm.instanceUuid) && IsDelete(action)
    ensures Implicit(vm) in Classify(now, expiryMins, action, leases, vms).vmsToPoweroff <==>
      vm in vms && VmExpired(vm, now, expiryMins) && !BlocksImplicit(leases, now, vm.instanceUuid) && !IsDelete(action)
  {
    var scan := ScanLeases(leases, now);
    ScanLeasesMembers(leases, now, Implicit(vm));
    ImplicitQueueMembers(vms, now, expiryMins, scan.vmIdsToDelete + scan.doNotDelete, Implicit(vm));
    ScanLeasesBlocked(leases, now, vm.instanceUuid);
  }

  /** Nothing unexpired is ever queued: every entry is an expired explicit lease
      of the input or an expired, unblocked live VM of the input. */
  lemma QueuedOnlyIfExpired(now: Time, expiryMins: int, action: string,
                            leases: seq<VmLeaseData>, vms: seq<LiveVm>, x: QueuedVm)
    requires x in Classify(now, expiryMins, action, leases, vms).vmsToDelete
          || x in Classify(now, expiryMins, action, leases, vms).vmsToPoweroff
    ensures x.Explicit? ==> x.lease in leases && LeaseExpired(x.lease, now)
    ensures x.Implicit? ==>
      x.vm in vms && VmExpired(x.vm, now, expiryMins) && !BlocksImplicit(leases, now, x.vm.instanceUuid)
  {
    var scan := ScanLeases(leases, now);
    ScanLeasesMembers(leases, now, x);
    ImplicitQueueMembers(vms, now, expiryMins, scan.vmIdsToDelete + scan.doNotDelete, x);
    if x.Implicit? {
      ScanLeasesBlocked(leases, now, x.vm.instanceUuid);
    }
  }

  /** A live VM covered by an expired "delete" lease is not queued a second time. */
  lemma ExpiredDeleteLeaseSuppressesLiveVm(now: Time, expiryMins: int, action: string,
                                           leases: seq<VmLeaseData>, vms: seq<LiveVm>, k: nat, vm: LiveVm)
    requires k < |leases| && LeaseExpired(leases[k], now) && IsDelete(leases[k].action)
    requires vm.instanceUuid == leases[k].instanceUuid
    ensures Implicit(vm) !in Classify(now, expiryMins, action, leases, vms).vmsToDelete
    ensures Implicit(vm) !in Classify(now, expiryMins, action, leases, vms).vmsToPoweroff
  {
    LiveVmQueuedIff(now, expiryMins, action, leases, vms, vm);
    assert BlocksImplicit(leases, now, vm.instanceUuid) by {
      assert leases[k].instanceUuid == vm.instanceUuid;
    }
  }

  /** An expired power-off lease does not keep its live VM out: when that VM's
      implicit lease has expired too, the VM is queued once as the lease record
      and once more as the live record. */
  lemma ExpiredPoweroffLeaseQueuedTwice(now: Time, expiryMins: int, action: string,
                                        leases: seq<VmLeaseData>, vms: seq<LiveVm>, k: nat, vm: LiveVm)
    requires DistinctLeaseIds(leases) && k < |leases|
    requires LeaseExpired(leases[k], now) && !IsDelete(leases[k].action)
    requires vm in vms && vm.instanceUuid == leases[k].instanceUuid && VmExpired(vm, now, expiryMins)
    ensures Explicit(leases[k]) in Classify(now, expiryMins, action, leases, vms).vmsToPoweroff
    ensures IsDelete(action) ==> Implicit(vm) in Classify(now, expiryMins, action, leases, vms).vmsToDelete
    ensures !IsDelete(action) ==> Implicit(vm) in Classify(now, expiryMins, action, leases, vms).vmsToPoweroff
  {
    ExpiredLeaseQueuedOnce(now, expiryMins, action, leases, vms, k);
    LiveVmQueuedIff(now, expiryMins, action, leases, vms, vm);
    assert !BlocksImplicit(leases, now, vm.instanceUuid);
  }

  /** A concrete instance: one expired power-off lease on vm-1 and the live vm-1
      itself, under a power-off tenant, put vm-1 on the power-off list twice. */
  lemma DuplicatePowerOffExample()
    ensures var lease := VmLeaseData("vm-1", "t-1", 100, DEFAULT_ACTION, 0, "admin", None, None);
            var vm := LiveVm("vm-1", "t-1", 0);
            Classify(200, 1, DEFAULT_ACTION, [lease], [vm]).vmsToPoweroff == [Explicit(lease), Implicit(vm)]
  {
    var lease := VmLeaseData("vm-1", "t-1", 100, DEFAULT_ACTION, 0, "admin", None, None);
    var vm := LiveVm("vm-1", "t-1", 0);
    assert [lease][..0] == [];
    assert [vm][..0] == [];
    var scan := ScanLeases([lease], 200);
    assert ScanLeases([], 200) == LeaseScan([], [], {}, {}, {});
    assert scan.vmsToPoweroff == [Explicit(lease)];
    assert scan.vmIdsToDelete == {} && scan.doNotDelete == {};
    assert scan.vmIdsToDelete + scan.doNotDelete == {};
    assert ImplicitQueue([vm], 200, 1, {}) == [Implicit(vm)];
    assert Classify(200, 1, DEFAULT_ACTION, [lease], [vm]) == Queues([], [Explicit(lease)] + [Implicit(vm)]);
  }
}
