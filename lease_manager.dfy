/** The lease manager: the administrative operations on tenant and instance
    leases, the write-time policy check, and one sweep over every tenant that
    deletes or powers off expired VMs and removes the lease rows of those the
    handler reports gone.

    The clock is the `now` parameter. Faults injected into the store's
    transactions are parameters too; the lease handler is a value whose
    functions answer the inventory, delete and power-off calls. */
module LeaseManagement {
  import opened LeaseTypes
  import opened Persistence
  import opened LeaseHandlers
  import opened Classifier

  // ---------------------------------------------------------------------------
  // Row-to-dict projections

  /** Reads a tenant row back out of its external view. */
  function TenantRowOf(data: TenantLeaseData): TenantRow {
    var p := data.vmLeasePolicy;
    TenantRow(p.tenantUuid, p.expiryMins, p.action, p.createdAt, p.createdBy, p.updatedAt, p.updatedBy)
  }

  /** Reads an instance row back out of its external view. */
  function InstanceRowOf(data: VmLeaseData): InstanceRow {
    InstanceRow(data.instanceUuid, data.tenantUuid, data.expiry, data.action,
                data.createdAt, data.createdBy, data.updatedAt, data.updatedBy)
  }

  /** The external view of a tenant row keeps every column of the row. */
  function GetTenantLeaseData(data: TenantRow): (r: TenantLeaseData)
    ensures TenantRowOf(r) == data
  {
    TenantLeaseData(VmLeasePolicy(data.tenantUuid, data.expiryMins, data.action,
                                  data.createdAt, data.createdBy, data.updatedAt, data.updatedBy))
  }

  /** The external view of an instance row keeps every column of the row. */
  function GetVmLeaseData(data: InstanceRow): (r: VmLeaseData)
    ensures InstanceRowOf(r) == data
  {
    VmLeaseData(data.instanceUuid, data.tenantUuid, data.expiry, data.action,
                data.createdAt, data.createdBy, data.updatedAt, data.updatedBy)
  }

  /** The views list exactly the instance rows of one tenant, each once. */
  ghost predicate ListsLeasesOf(data: seq<VmLeaseData>, table: map<string, InstanceRow>, tenantUuid: string) {
    && (forall i :: 0 <= i < |data| ==>
          data[i].tenantUuid == tenantUuid && data[i].instanceUuid in table &&
          GetVmLeaseData(table[data[i].instanceUuid]) == data[i])
    && (forall k :: k in table && table[k].tenantUuid == tenantUuid ==> GetVmLeaseData(table[k]) in data)
    && DistinctLeaseIds(data)
  }

  // ---------------------------------------------------------------------------
  // Requests and errors

  /** A tenant lease request body; `action` may be missing. */
  datatype TenantLeaseRequest = TenantLeaseRequest(tenantUuid: string, expiryMins: int, action: Option<string>)

  /** An instance lease request body; `action` may be missing. */
  datatype InstanceLeaseRequest = InstanceLeaseRequest(instanceUuid: string, expiry: Time, action: Option<string>)

  /** The exceptions an operation raises: ValueError on a policy violation,
      KeyError on a missing 'action', or the store's error. */
  datatype ManagerError = PolicyViolation | MissingAction | StoreError(error: DbError)

  datatype Status = Done | Raised(error: ManagerError)

  function StatusOf(r: TxResult): Status {
    if r.Committed? then Done else Raised(StoreError(r.error))
  }

  function ActionOrDefault(action: Option<string>): string {
    if action.Some? then action.value else DEFAULT_ACTION
  }

  /** An instance lease violates its tenant's policy when it would outlive the
      implicit lease of a VM of that tenant created now. */
  function CheckInstanceLeaseViolation(now: Time, instanceLease: InstanceLeaseRequest, tenantLease: TenantRow): (violation: bool)
    ensures violation <==>
      instanceLease.expiry > ImplicitExpiry(LiveVm(instanceLease.instanceUuid, tenantLease.tenantUuid, now), tenantLease.expiryMins)
  {
    now + tenantLease.expiryMins * 60 < instanceLease.expiry
  }

  // ---------------------------------------------------------------------------
  // The fold of per-VM outcomes

  /** The handler reports the VM gone: deleted or powered off, or not found. */
  predicate IsGone(outcome: Outcome) {
    outcome == SuccessOk || outcome == ErrNotFound
  }

  /** 1 when the result map reports `id` gone, 0 otherwise. */
  function GoneCount(result: map<string, Outcome>, id: string): nat {
    if id in result && IsGone(result[id]) then 1 else 0
  }

  /** One loop over a result map: appends every id reported gone, once each. */
  method AppendGoneIds(removeFromDb: seq<string>, result: map<string, Outcome>) returns (extended: seq<string>)
    ensures |removeFromDb| <= |extended| && extended[..|removeFromDb|] == removeFromDb
    ensures forall id :: multiset(extended[|removeFromDb|..])[id] == GoneCount(result, id)
  {
    extended := removeFromDb;
    var pending := result.Keys;
    while pending != {}
      invariant pending <= result.Keys
      invariant |removeFromDb| <= |extended| && extended[..|removeFromDb|] == removeFromDb
      invariant forall id :: multiset(extended[|removeFromDb|..])[id] == (if id in pending then 0 else GoneCount(result, id))
      decreases pending
    {
      var id :| id in pending;
      pending := pending - {id};
      if IsGone(result[id]) {
        assert (extended + [id])[|removeFromDb|..] == extended[|removeFromDb|..] + [id];
        extended := extended + [id];
      }
    }
  }

  /** What one tenant's step of the sweep read, queued, was told and removed. */
  datatype TenantSweep = TenantSweep(
    tenantUuid: string,
    leases: seq<VmLeaseData>,
    vms: seq<LiveVm>,
    vmsToDelete: seq<QueuedVm>,
    vmsToPoweroff: seq<QueuedVm>,
    deleteResult: map<string, Outcome>,
    poweroffResult: map<string, Outcome>,
    removeFromDb: seq<string>)

  predicate ReportedGone(sweep: TenantSweep, id: string) {
    GoneCount(sweep.deleteResult, id) + GoneCount(sweep.poweroffResult, id) > 0
  }

  /** The ids of a sweep's batch delete, as a set. */
  ghost function RemovedIds(sweep: TenantSweep): set<string> {
    set id | id in sweep.removeFromDb
  }

  /** A tenant's step, as specified: the lists are the classification of what
      was read; the handler is called only with a non-empty list; and the ids to
      remove are those either result reports gone, once per result map. */
  ghost predicate SweptAsSpecified(handler: LeaseHandler, now: Time, tLease: TenantRow, sweep: TenantSweep) {
    && sweep.tenantUuid == tLease.tenantUuid
    && (forall i :: 0 <= i < |sweep.leases| ==> sweep.leases[i].tenantUuid == tLease.tenantUuid)
    && DistinctLeaseIds(sweep.leases)
    && sweep.vms == handler.getAllVms(tLease.tenantUuid)
    && Queues(sweep.vmsToDelete, sweep.vmsToPoweroff)
       == Classify(now, tLease.expiryMins, tLease.action, sweep.leases, sweep.vms)
    && sweep.deleteResult == (if |sweep.vmsToDelete| > 0 then handler.deleteVms(sweep.vmsToDelete) else map[])
    && sweep.poweroffResult == (if |sweep.vmsToPoweroff| > 0 then handler.poweroffVms(sweep.vmsToPoweroff) else map[])
    && (forall id :: multiset(sweep.removeFromDb)[id] ==
          GoneCount(sweep.deleteResult, id) + GoneCount(sweep.poweroffResult, id))
  }

  /** The sweep only ever removes the lease row of a VM it queued because it had
      expired: an expired explicit lease of the tenant, or an expired live VM
      that no blocking lease covered. */
  lemma SweepRemovesOnlyExpired(handler: LeaseHandler, now: Time, tLease: TenantRow, sweep: TenantSweep, id: string)
    requires handler.Valid() && SweptAsSpecified(handler, now, tLease, sweep)
    requires id in sweep.removeFromDb
    ensures || (exists l :: l in sweep.leases && l.instanceUuid == id && LeaseExpired(l, now))
            || (exists vm :: vm in sweep.vms && vm.instanceUuid == id && VmExpired(vm, now, tLease.expiryMins) &&
                  !BlocksImplicit(sweep.leases, now, id))
  {
    assert multiset(sweep.removeFromDb)[id] > 0;
    var queued: seq<QueuedVm>;
    if id in sweep.deleteResult && IsGone(sweep.deleteResult[id]) {
      assert |sweep.vmsToDelete| > 0;
      assert sweep.deleteResult.Keys <= IdsOf(sweep.vmsToDelete);
      queued := sweep.vmsToDelete;
    } else {
      assert |sweep.vmsToPoweroff| > 0;
      assert sweep.poweroffResult.Keys <= IdsOf(sweep.vmsToPoweroff);
      queued := sweep.vmsToPoweroff;
    }
    var i :| 0 <= i < |queued| && queued[i].InstanceUuid() == id;
    QueuedOnlyIfExpired(now, tLease.expiryMins, tLease.action, sweep.leases, sweep.vms, queued[i]);
    if queued[i].Explicit? {
      assert queued[i].lease in sweep.leases;
    } else {
      assert queued[i].vm in sweep.vms;
    }
  }

  /** An id reaches the batch delete exactly when a result map reports it gone,
      and at most once per result map. */
  lemma RemovedOncePerReport(handler: LeaseHandler, now: Time, tLease: TenantRow, sweep: TenantSweep, id: string)
    requires SweptAsSpecified(handler, now, tLease, sweep)
    ensures id in sweep.removeFromDb <==> ReportedGone(sweep, id)
    ensures multiset(sweep.removeFromDb)[id] <= 2
  {
  }

  /** A handler that reports every VM of a batch deleted or powered off. */
  function AllSucceed(vms: seq<QueuedVm>): (result: map<string, Outcome>)
    ensures result.Keys == IdsOf(vms)
    ensures forall id :: id in result ==> result[id] == SuccessOk
  {
    map id | id in IdsOf(vms) :: SuccessOk
  }

  /** A concrete instance of a double removal: under a "delete" tenant, an
      expired power-off lease on vm-1 queues vm-1 for power-off and the live
      vm-1 for deletion; both calls succeed, so vm-1 is passed to the batch
      delete twice. */
  lemma DuplicateRemovalExample(sweep: TenantSweep)
    requires SweptAsSpecified(
      LeaseHandler(t => [LiveVm("vm-1", "t-1", 0)], AllSucceed, AllSucceed),
      200, TenantRow("t-1", 1, DELETE_ACTION, 0, "admin", None, None), sweep)
    requires sweep.leases == [VmLeaseData("vm-1", "t-1", 100, DEFAULT_ACTION, 0, "admin", None, None)]
    ensures multiset(sweep.removeFromDb)["vm-1"] == 2
  {
    var lease := VmLeaseData("vm-1", "t-1", 100, DEFAULT_ACTION, 0, "admin", None, None);
    var vm := LiveVm("vm-1", "t-1", 0);
    assert sweep.vms == [vm];
    ExpiredPoweroffLeaseQueuedTwice(200, 1, DELETE_ACTION, [lease], [vm], 0, vm);
    assert Implicit(vm) in sweep.vmsToDelete;
    assert Explicit(lease) in sweep.vmsToPoweroff;
    assert "vm-1" in IdsOf(sweep.vmsToDelete);
    assert "vm-1" in IdsOf(sweep.vmsToPoweroff);
  }

  /** The fault the store raises in this tenant's write-back, if any. */
  function FaultFor(faults: map<string, Fault>, tenantUuid: string): Fault {
    if tenantUuid in faults then faults[tenantUuid] else NoFault
  }

  /** The step called the batch delete, and the store raised. */
  predicate WriteBackFails(faults: map<string, Fault>, tLease: TenantRow, sweep: TenantSweep) {
    |sweep.removeFromDb| > 0 && Raises(FaultFor(faults, tLease.tenantUuid), 0)
  }

  /** The ids removed by the first sweeps of a run. */
  ghost function RemovedBy(sweeps: seq<TenantSweep>): set<string> {
    if sweeps == [] then {}
    else RemovedBy(sweeps[..|sweeps| - 1]) + RemovedIds(sweeps[|sweeps| - 1])
  }

  lemma RemovedByExtend(sweeps: seq<TenantSweep>, sweep: TenantSweep)
    ensures RemovedBy(sweeps + [sweep]) == RemovedBy(sweeps) + RemovedIds(sweep)
  {
  }

  /** The steps of a run, in order, starting from the instance table `table`:
      step k is the specified step for the k-th tenant lease; it read the
      tenant's rows from the table as the earlier steps left it; and it only
      happened because the step before it did not fail its write-back. */
  ghost predicate SweptInOrder(handler: LeaseHandler, now: Time, faults: map<string, Fault>,
                               table: map<string, InstanceRow>, tenantLeases: seq<TenantRow>, sweeps: seq<TenantSweep>)
    decreases |sweeps|
  {
    && |sweeps| <= |tenantLeases|
    && (|sweeps| > 0 ==>
          var k := |sweeps| - 1;
          && SweptInOrder(handler, now, faults, table, tenantLeases, sweeps[..k])
          && (k > 0 ==> !WriteBackFails(faults, tenantLeases[k - 1], sweeps[k - 1]))
          && SweptFrom(handler, now, tenantLeases[k], table - RemovedBy(sweeps[..k]), sweeps[k]))
  }

  /** A step that is the specified step for `tLease` and read the tenant's rows
      from the instance table `current`. */
  ghost predicate SweptFrom(handler: LeaseHandler, now: Time, tLease: TenantRow,
                            current: map<string, InstanceRow>, sweep: TenantSweep) {
    && SweptAsSpecified(handler, now, tLease, sweep)
    && ListsLeasesOf(sweep.leases, current, tLease.tenantUuid)
  }

  /** What a run says about its k-th step. */
  lemma {:induction false} SweptInOrderAt(handler: LeaseHandler, now: Time, faults: map<string, Fault>,
                                          table: map<string, InstanceRow>, tenantLeases: seq<TenantRow>,
                                          sweeps: seq<TenantSweep>, k: nat)
    requires SweptInOrder(handler, now, faults, table, tenantLeases, sweeps)
    requires k < |sweeps|
    ensures SweptAsSpecified(handler, now, tenantLeases[k], sweeps[k])
    ensures ListsLeasesOf(sweeps[k].leases, table - RemovedBy(sweeps[..k]), tenantLeases[k].tenantUuid)
    ensures k < |sweeps| - 1 ==> !WriteBackFails(faults, tenantLeases[k], sweeps[k])
    decreases |sweeps|
  {
    var prefix := sweeps[..|sweeps| - 1];
    if k < |sweeps| - 1 {
      SweptInOrderAt(handler, now, faults, table, tenantLeases, prefix, k);
      assert prefix[k] == sweeps[k];
      assert prefix[..k] == sweeps[..k];
    }
    assert SweptFrom(handler, now, tenantLeases[k], table - RemovedBy(sweeps[..k]), sweeps[k]);
  }

  lemma SweptInOrderExtend(handler: LeaseHandler, now: Time, faults: map<string, Fault>,
                           table: map<string, InstanceRow>, tenantLeases: seq<TenantRow>,
                           sweeps: seq<TenantSweep>, sweep: TenantSweep)
    requires SweptInOrder(handler, now, faults, table, tenantLeases, sweeps) && |sweeps| < |tenantLeases|
    requires |sweeps| > 0 ==> !WriteBackFails(faults, tenantLeases[|sweeps| - 1], sweeps[|sweeps| - 1])
    requires SweptAsSpecified(handler, now, tenantLeases[|sweeps|], sweep)
    requires ListsLeasesOf(sweep.leases, table - RemovedBy(sweeps), tenantLeases[|sweeps|].tenantUuid)
    ensures SweptInOrder(handler, now, faults, table, tenantLeases, sweeps + [sweep])
  {
    assert (sweeps + [sweep])[..|sweeps|] == sweeps;
  }

  /** Where a run stands after `sweeps`, with result `r` and the instance table
      now `current`: while no write-back has failed, the table lacks exactly
      what the steps removed; once the last step's write-back failed, the run
      reports the store error and that step's removals were rolled back. */
  ghost predicate SweepReached(handler: LeaseHandler, now: Time, faults: map<string, Fault>,
                               table: map<string, InstanceRow>, tenantLeases: seq<TenantRow>,
                               sweeps: seq<TenantSweep>, r: TxResult, current: map<string, InstanceRow>)
  {
    && SweptInOrder(handler, now, faults, table, tenantLeases, sweeps)
    && (r == Committed ==>
          && (|sweeps| > 0 ==> !WriteBackFails(faults, tenantLeases[|sweeps| - 1], sweeps[|sweeps| - 1]))
          && current == table - RemovedBy(sweeps))
    && (r != Committed ==>
          && r == RolledBack(EngineError)
          && |sweeps| > 0
          && WriteBackFails(faults, tenantLeases[|sweeps| - 1], sweeps[|sweeps| - 1])
          && current == table - RemovedBy(sweeps[..|sweeps| - 1]))
  }

  /** Removing two batches of keys one after the other removes their union. */
  lemma RemoveInTwoSteps(m: map<string, InstanceRow>, first: set<string>, second: set<string>)
    ensures (m - first) - second == m - (first + second)
  {
  }

  class LeaseManager {
    const domainMgr: DbPersistence
    const leaseHandler: LeaseHandler

    constructor (domainMgr: DbPersistence, leaseHandler: LeaseHandler)
      ensures this.domainMgr == domainMgr && this.leaseHandler == leaseHandler
    {
      this.domainMgr := domainMgr;
      this.leaseHandler := leaseHandler;
    }

    // -------------------------------------------------------------------------
    // Tenant leases

    /** Creates a tenant lease; a missing action is stored as "power off", and an
        existing tenant is a conflict that leaves the store as it was. */
    method AddTenantLease(userId: string, now: Time, tenantObj: TenantLeaseRequest, fault: Fault) returns (s: Status)
      requires domainMgr.Valid()
      modifies domainMgr
      ensures domainMgr.Valid()
      ensures s == Done <==> tenantObj.tenantUuid !in old(domainMgr.tenantLease) && !Raises(fault, 0)
      ensures s != Done ==> s == Raised(StoreError(
        if tenantObj.tenantUuid in old(domainMgr.tenantLease) then IntegrityError else EngineError))
      ensures s == Done ==> domainMgr.tenantLease == old(domainMgr.tenantLease)[tenantObj.tenantUuid :=
        TenantRow(tenantObj.tenantUuid, tenantObj.expiryMins, ActionOrDefault(tenantObj.action), now, userId, None, None)]
      ensures s == Done && tenantObj.action.None? ==> domainMgr.tenantLease[tenantObj.tenantUuid].action == "power off"
      ensures s != Done ==> domainMgr.tenantLease == old(domainMgr.tenantLease)
      ensures domainMgr.instanceLease == old(domainMgr.instanceLease)
    {
      var action: string;
      if tenantObj.action.Some? {
        action := tenantObj.action.value;
      } else {
        action := DEFAULT_ACTION;
      }
      var r := domainMgr.AddTenantLease(tenantObj.tenantUuid, tenantObj.expiryMins, action, userId, now, fault);
      s := StatusOf(r);
    }

    /** Updates a tenant's policy; the request must carry an action. */
    method UpdateTenantLease(userId: string, now: Time, tenantObj: TenantLeaseRequest, fault: Fault) returns (s: Status)
      requires domainMgr.Valid()
      modifies domainMgr
      ensures domainMgr.Valid()
      ensures s == Raised(MissingAction) <==> tenantObj.action.None?
      ensures s != Done && tenantObj.action.Some? ==> s == Raised(StoreError(EngineError))
      ensures s == Done <==> tenantObj.action.Some? && !Raises(fault, 0)
      ensures s == Done && tenantObj.tenantUuid in old(domainMgr.tenantLease) ==>
        domainMgr.tenantLease == old(domainMgr.tenantLease)[tenantObj.tenantUuid :=
          old(domainMgr.tenantLease)[tenantObj.tenantUuid].(expiryMins := tenantObj.expiryMins,
            action := tenantObj.action.value, updatedAt := Some(now), updatedBy := Some(userId))]
      ensures s != Done || tenantObj.tenantUuid !in old(domainMgr.tenantLease) ==>
        domainMgr.tenantLease == old(domainMgr.tenantLease)
      ensures domainMgr.instanceLease == old(domainMgr.instanceLease)
    {
      if tenantObj.action.None? {
        return Raised(MissingAction);
      }
      var r := domainMgr.UpdateTenantLease(tenantObj.tenantUuid, tenantObj.expiryMins, tenantObj.action.value,
                                           userId, now, fault);
      s := StatusOf(r);
    }

    /** Deletes a tenant lease and, in the same transaction, all its instance leases. */
    method DeleteTenantLease(tenantId: string, fault: Fault) returns (s: Status)
      requires domainMgr.Valid()
      modifies domainMgr
      ensures domainMgr.Valid()
      ensures s == Done <==> !Raises(fault, 0) && !Raises(fault, 1)
      ensures s != Done ==> s == Raised(StoreError(EngineError))
      ensures s == Done ==> domainMgr.tenantLease == old(domainMgr.tenantLease) - {tenantId}
      ensures s == Done ==> forall k :: k in domainMgr.instanceLease <==>
        k in old(domainMgr.instanceLease) && old(domainMgr.instanceLease)[k].tenantUuid != tenantId
      ensures s == Done ==> forall k :: k in domainMgr.instanceLease ==>
        domainMgr.instanceLease[k] == old(domainMgr.instanceLease)[k]
      ensures s != Done ==> domainMgr.tenantLease == old(domainMgr.tenantLease) &&
                            domainMgr.instanceLease == old(domainMgr.instanceLease)
    {
      var r := domainMgr.DeleteTenantLease(tenantId, fault);
      s := StatusOf(r);
    }

    /** Every tenant lease, as external views. */
    method GetTenantLeases() returns (allTenants: seq<TenantLeaseData>)
      requires domainMgr.Valid()
      ensures forall i :: 0 <= i < |allTenants| ==>
        TenantRowOf(allTenants[i]).tenantUuid in domainMgr.tenantLease &&
        domainMgr.tenantLease[TenantRowOf(allTenants[i]).tenantUuid] == TenantRowOf(allTenants[i])
      ensures forall t :: t in domainMgr.tenantLease ==> GetTenantLeaseData(domainMgr.tenantLease[t]) in allTenants
      ensures forall i, j :: 0 <= i < j < |allTenants| ==>
        allTenants[i].vmLeasePolicy.tenantUuid != allTenants[j].vmLeasePolicy.tenantUuid
    {
      var rows := domainMgr.GetAllTenantLeases();
      allTenants := seq(|rows|, i requires 0 <= i < |rows| => GetTenantLeaseData(rows[i]));
      forall t | t in domainMgr.tenantLease
        ensures GetTenantLeaseData(domainMgr.tenantLease[t]) in allTenants
      {
        var i :| 0 <= i < |rows| && rows[i] == domainMgr.tenantLease[t];
        assert allTenants[i] == GetTenantLeaseData(rows[i]);
      }
    }

    /** The tenant's lease as an external view, or None (the source's `{}`). */
    function GetTenantLease(tenantId: string): (r: Option<TenantLeaseData>)
      requires domainMgr.Valid()
      reads domainMgr
      ensures r.None? <==> tenantId !in domainMgr.tenantLease
      ensures r.Some? ==> TenantRowOf(r.value) == domainMgr.tenantLease[tenantId]
      ensures r.Some? ==> r.value.vmLeasePolicy.tenantUuid == tenantId
    {
      match domainMgr.GetTenantLease(tenantId)
      case Some(row) => Some(GetTenantLeaseData(row))
      case None => None
    }

    /** The tenant's lease together with the views of all its instance leases. */
    method GetTenantAndAssociatedInstanceLeases(tenantUuid: string)
      returns (tenantLease: Option<TenantLeaseData>, allVms: seq<VmLeaseData>)
      requires domainMgr.Valid()
      ensures tenantLease == GetTenantLease(tenantUuid)
      ensures ListsLeasesOf(allVms, domainMgr.instanceLease, tenantUuid)
    {
      tenantLease := GetTenantLease(tenantUuid);
      var rows := domainMgr.GetInstanceLeasesByTenant(tenantUuid);
      allVms := seq(|rows|, i requires 0 <= i < |rows| => GetVmLeaseData(rows[i]));
      forall k | k in domainMgr.instanceLease && domainMgr.instanceLease[k].tenantUuid == tenantUuid
        ensures GetVmLeaseData(domainMgr.instanceLease[k]) in allVms
      {
        var i :| 0 <= i < |rows| && rows[i] == domainMgr.instanceLease[k];
        assert allVms[i] == GetVmLeaseData(rows[i]);
      }
    }

    // -------------------------------------------------------------------------
    // Instance leases

    /** The instance lease as an external view, or None. */
    function GetInstanceLease(instanceId: string): (r: Option<VmLeaseData>)
      requires domainMgr.Valid()
      reads domainMgr
      ensures r.None? <==> instanceId !in domainMgr.instanceLease
      ensures r.Some? ==> InstanceRowOf(r.value) == domainMgr.instanceLease[instanceId]
      ensures r.Some? ==> r.value.instanceUuid == instanceId
    {
      match domainMgr.GetInstanceLease(instanceId)
      case Some(row) => Some(GetVmLeaseData(row))
      case None => None
    }

    /** Creates an instance lease under the tenant's policy: an expiry past
        `now + expiry_mins * 60` is refused and stores nothing; an expiry exactly
        at that bound is accepted; a missing action is stored as "power off". */
    method AddInstanceLease(userId: string, now: Time, tenantUuid: string,
                            instanceLeaseObj: InstanceLeaseRequest, fault: Fault) returns (s: Status)
      requires domainMgr.Valid() && tenantUuid in domainMgr.tenantLease
      modifies domainMgr
      ensures domainMgr.Valid()
      ensures s == Raised(PolicyViolation) <==>
        instanceLeaseObj.expiry > now + old(domainMgr.tenantLease)[tenantUuid].expiryMins * 60
      ensures s == Done <==>
        && instanceLeaseObj.expiry <= now + old(domainMgr.tenantLease)[tenantUuid].expiryMins * 60
        && instanceLeaseObj.instanceUuid !in old(domainMgr.instanceLease)
        && !Raises(fault, 0)
      ensures s != Done && instanceLeaseObj.expiry <= now + old(domainMgr.tenantLease)[tenantUuid].expiryMins * 60 ==>
        s == Raised(StoreError(
          if instanceLeaseObj.instanceUuid in old(domainMgr.instanceLease) then IntegrityError else EngineError))
      ensures s == Done ==> domainMgr.instanceLease == old(domainMgr.instanceLease)[instanceLeaseObj.instanceUuid :=
        InstanceRow(instanceLeaseObj.instanceUuid, tenantUuid, instanceLeaseObj.expiry,
                    ActionOrDefault(instanceLeaseObj.action), now, userId, None, None)]
      ensures s == Done && instanceLeaseObj.action.None? ==>
        domainMgr.instanceLease[instanceLeaseObj.instanceUuid].action == "power off"
      ensures s != Done ==> domainMgr.instanceLease == old(domainMgr.instanceLease)
      ensures domainMgr.tenantLease == old(domainMgr.tenantLease)
    {
      var tenantLease := domainMgr.tenantLease[tenantUuid];
      if !CheckInstanceLeaseViolation(now, instanceLeaseObj, tenantLease) {
        var action: string;
        if instanceLeaseObj.action.Some? {
          action := instanceLeaseObj.action.value;
        } else {
          action := DEFAULT_ACTION;
        }
        var r := domainMgr.AddInstanceLease(instanceLeaseObj.instanceUuid, tenantUuid, instanceLeaseObj.expiry,
                                            action, userId, now, fault);
        s := StatusOf(r);
      } else {
        s := Raised(PolicyViolation);
      }
    }

    /** Updates an instance lease under the tenant's policy; the policy is checked
        before the request's action is read. */
    method UpdateInstanceLease(userId: string, now: Time, tenantUuid: string,
                               instanceLeaseObj: InstanceLeaseRequest, fault: Fault) returns (s: Status)
      requires domainMgr.Valid() && tenantUuid in domainMgr.tenantLease
      modifies domainMgr
      ensures domainMgr.Valid()
      ensures s == Raised(PolicyViolation) <==>
        instanceLeaseObj.expiry > now + old(domainMgr.tenantLease)[tenantUuid].expiryMins * 60
      ensures s == Raised(MissingAction) <==>
        instanceLeaseObj.expiry <= now + old(domainMgr.tenantLease)[tenantUuid].expiryMins * 60 &&
        instanceLeaseObj.action.None?
      ensures s != Done ==>
        || instanceLeaseObj.expiry > now + old(domainMgr.tenantLease)[tenantUuid].expiryMins * 60
        || instanceLeaseObj.action.None?
        || s == Raised(StoreError(EngineError))
      ensures s == Done <==>
        && instanceLeaseObj.expiry <= now + old(domainMgr.tenantLease)[tenantUuid].expiryMins * 60
        && instanceLeaseObj.action.Some?
        && !Raises(fault, 0)
      ensures s == Done && instanceLeaseObj.instanceUuid in old(domainMgr.instanceLease) ==>
        domainMgr.instanceLease == old(domainMgr.instanceLease)[instanceLeaseObj.instanceUuid :=
          old(domainMgr.instanceLease)[instanceLeaseObj.instanceUuid].(
            tenantUuid := tenantUuid, expiry := instanceLeaseObj.expiry, action := instanceLeaseObj.action.value,
            updatedAt := Some(now), updatedBy := Some(userId))]
      ensures s != Done || instanceLeaseObj.instanceUuid !in old(domainMgr.instanceLease) ==>
        domainMgr.instanceLease == old(domainMgr.instanceLease)
      ensures domainMgr.tenantLease == old(domainMgr.tenantLease)
    {
      var tenantLease := domainMgr.tenantLease[tenantUuid];
      if !CheckInstanceLeaseViolation(now, instanceLeaseObj, tenantLease) {
        if instanceLeaseObj.action.None? {
          return Raised(MissingAction);
        }
        var r := domainMgr.UpdateInstanceLease(instanceLeaseObj.instanceUuid, tenantUuid, instanceLeaseObj.expiry,
                                               instanceLeaseObj.action.value, userId, now, fault);
        s := StatusOf(r);
      } else {
        s := Raised(PolicyViolation);
      }
    }

    /** Deletes one instance lease through the batch delete. */
    method DeleteInstanceLease(instanceUuid: string, fault: Fault) returns (s: Status)
      requires domainMgr.Valid()
      modifies domainMgr
      ensures domainMgr.Valid()
      ensures s == Done <==> !Raises(fault, 0)
      ensures s != Done ==> s == Raised(StoreError(EngineError))
      ensures s == Done ==> domainMgr.instanceLease == old(domainMgr.instanceLease) - {instanceUuid}
      ensures s != Done ==> domainMgr.instanceLease == old(domainMgr.instanceLease)
      ensures domainMgr.tenantLease == old(domainMgr.tenantLease)
    {
      var r := domainMgr.DeleteInstanceLeases([instanceUuid], fault);
      assert (set i | i in [instanceUuid]) == {instanceUuid};
      s := StatusOf(r);
    }

    // -------------------------------------------------------------------------
    // The sweep

    /** Reads the tenant's explicit leases and live VMs and classifies them. The
        leases and VMs read are returned too, so that the contract can name them. */
    method GetVmsToDeleteOrPoweroffForTenant(now: Time, tenantUuid: string, expiryMins: int, action: string)
      returns (leases: seq<VmLeaseData>, vms: seq<LiveVm>, vmsToDelete: seq<QueuedVm>, vmsToPoweroff: seq<QueuedVm>)
      requires domainMgr.Valid()
      ensures ListsLeasesOf(leases, domainMgr.instanceLease, tenantUuid)
      ensures vms == leaseHandler.getAllVms(tenantUuid)
      ensures Queues(vmsToDelete, vmsToPoweroff) == Classify(now, expiryMins, action, leases, vms)
    {
      var _, allVms := GetTenantAndAssociatedInstanceLeases(tenantUuid);
      leases := allVms;
      vms := leaseHandler.getAllVms(tenantUuid);
      vmsToDelete, vmsToPoweroff := GetVmsToDeleteOrPoweroff(now, expiryMins, action, leases, vms);
    }

    /** The first part of one tenant's step: classify, then ask the handler to
        delete and to power off, each only with a non-empty list, and collect
        the ids either result reports gone. */
    method DispatchForTenant(now: Time, tLease: TenantRow) returns (sweep: TenantSweep)
      requires domainMgr.Valid()
      ensures SweptAsSpecified(leaseHandler, now, tLease, sweep)
      ensures ListsLeasesOf(sweep.leases, domainMgr.instanceLease, tLease.tenantUuid)
    {
      var leases, vms, tenantVmsToDelete, tenantVmsToPoweroff :=
        GetVmsToDeleteOrPoweroffForTenant(now, tLease.tenantUuid, tLease.expiryMins, tLease.action);
      var removeFromDb: seq<string> := [];
      var deleteResult: map<string, Outcome> := map[];
      if |tenantVmsToDelete| > 0 {
        deleteResult := leaseHandler.deleteVms(tenantVmsToDelete);
        removeFromDb := AppendGoneIds(removeFromDb, deleteResult);
        assert removeFromDb[0..] == removeFromDb;
      }
      var poweroffResult: map<string, Outcome> := map[];
      if |tenantVmsToPoweroff| > 0 {
        poweroffResult := leaseHandler.poweroffVms(tenantVmsToPoweroff);
        var before := removeFromDb;
        removeFromDb := AppendGoneIds(removeFromDb, poweroffResult);
        assert removeFromDb == before + removeFromDb[|before|..];
      }
      sweep := TenantSweep(tLease.tenantUuid, leases, vms, tenantVmsToDelete, tenantVmsToPoweroff,
                           deleteResult, poweroffResult, removeFromDb);
    }

    /** One tenant's step: dispatch, then remove in one batch the lease rows of
        every VM either result reports gone; when nothing is reported gone, the
        store is not called. */
    method DeleteOrPoweroffVmsForTenant(now: Time, tLease: TenantRow, fault: Fault)
      returns (sweep: TenantSweep, r: TxResult)
      requires domainMgr.Valid()
      modifies domainMgr
      ensures domainMgr.Valid()
      ensures SweptAsSpecified(leaseHandler, now, tLease, sweep)
      ensures ListsLeasesOf(sweep.leases, old(domainMgr.instanceLease), tLease.tenantUuid)
      ensures domainMgr.tenantLease == old(domainMgr.tenantLease)
      ensures |sweep.removeFromDb| == 0 ==> r == Committed && domainMgr.instanceLease == old(domainMgr.instanceLease)
      ensures |sweep.removeFromDb| > 0 ==> (r == Committed <==> !Raises(fault, 0))
      ensures r == Committed ==> domainMgr.instanceLease == old(domainMgr.instanceLease) - RemovedIds(sweep)
      ensures r != Committed ==> r == RolledBack(EngineError) && domainMgr.instanceLease == old(domainMgr.instanceLease)
    {
      sweep := DispatchForTenant(now, tLease);
      r := Committed;
      if |sweep.removeFromDb| > 0 {
        r := domainMgr.DeleteInstanceLeases(sweep.removeFromDb, fault);
      }
    }

    /** A committed write-back removes exactly the rows of the VMs the handler
        reported gone: a VM reported with an unknown error, or not reported at
        all, keeps its row, unchanged, for the next sweep. */
    lemma WriteBackKeepsUnreported(now: Time, tLease: TenantRow, sweep: TenantSweep,
                                   before: map<string, InstanceRow>, after: map<string, InstanceRow>)
      requires SweptAsSpecified(leaseHandler, now, tLease, sweep)
      requires after == before - RemovedIds(sweep)
      ensures forall id :: id in before && !ReportedGone(sweep, id) ==> id in after && after[id] == before[id]
      ensures forall id :: ReportedGone(sweep, id) ==> id !in after
    {
    }

    /** One iteration of the sweep's loop: the next tenant's step, appended to
        the steps so far. */
    method SweepNextTenant(now: Time, faults: map<string, Fault>, ghost table: map<string, InstanceRow>,
                           tenantLeases: seq<TenantRow>, sweeps: seq<TenantSweep>)
      returns (extended: seq<TenantSweep>, r: TxResult)
      requires domainMgr.Valid() && |sweeps| < |tenantLeases|
      requires SweepReached(leaseHandler, now, faults, table, tenantLeases, sweeps, Committed, domainMgr.instanceLease)
      modifies domainMgr
      ensures domainMgr.Valid()
      ensures domainMgr.tenantLease == old(domainMgr.tenantLease)
      ensures |extended| == |sweeps| + 1 && extended[..|sweeps|] == sweeps
      ensures SweepReached(leaseHandler, now, faults, table, tenantLeases, extended, r, domainMgr.instanceLease)
    {
      var tLease := tenantLeases[|sweeps|];
      var sweep;
      sweep, r := DeleteOrPoweroffVmsForTenant(now, tLease, FaultFor(faults, tLease.tenantUuid));
      SweptInOrderExtend(leaseHandler, now, faults, table, tenantLeases, sweeps, sweep);
      RemovedByExtend(sweeps, sweep);
      RemoveInTwoSteps(table, RemovedBy(sweeps), RemovedIds(sweep));
      extended := sweeps + [sweep];
      assert extended[..|sweeps|] == sweeps;
    }

    /** One sweep: every tenant lease the store lists, once each, in that order.
        A store error in a tenant's write-back leaves the sweep, so later tenants
        are not processed; without one, every tenant is processed. */
    method Run(now: Time, faults: map<string, Fault>)
      returns (tenantLeases: seq<TenantRow>, sweeps: seq<TenantSweep>, r: TxResult)
      requires domainMgr.Valid()
      modifies domainMgr
      ensures domainMgr.Valid()
      ensures ListsTenants(tenantLeases, old(domainMgr.tenantLease))
      ensures domainMgr.tenantLease == old(domainMgr.tenantLease)
      ensures SweptInOrder(leaseHandler, now, faults, old(domainMgr.instanceLease), tenantLeases, sweeps)
      ensures r == Committed ==>
        && |sweeps| == |tenantLeases|
        && (|sweeps| > 0 ==> !WriteBackFails(faults, tenantLeases[|sweeps| - 1], sweeps[|sweeps| - 1]))
        && domainMgr.instanceLease == old(domainMgr.instanceLease) - RemovedBy(sweeps)
      ensures r != Committed ==>
        && r == RolledBack(EngineError)
        && |sweeps| > 0
        && WriteBackFails(faults, tenantLeases[|sweeps| - 1], sweeps[|sweeps| - 1])
        && domainMgr.instanceLease == old(domainMgr.instanceLease) - RemovedBy(sweeps[..|sweeps| - 1])
    {
      tenantLeases := domainMgr.GetAllTenantLeases();
      sweeps := [];
      r := Committed;
      while |sweeps| < |tenantLeases| && r == Committed
        invariant |sweeps| <= |tenantLeases|
        invariant domainMgr.Valid()
        invariant domainMgr.tenantLease == old(domainMgr.tenantLease)
        invariant SweepReached(leaseHandler, now, faults, old(domainMgr.instanceLease), tenantLeases, sweeps, r,
                               domainMgr.instanceLease)
        decreases |tenantLeases| - |sweeps|
      {
        sweeps, r := SweepNextTenant(now, faults, old(domainMgr.instanceLease), tenantLeases, sweeps);
      }
    }
  }
}
