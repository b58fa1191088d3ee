/** Value types shared by the lease store, the lease handler and the lease manager.

    Times are naive-UTC instants counted in whole seconds, so that
    `datetime + timedelta(seconds = n)` becomes integer addition. */
module LeaseTypes {

  datatype Option<+T> = None | Some(value: T)

  type Time = int

  /** The action stored when a lease request names none. */
  const DEFAULT_ACTION: string := "power off"

  /** The only action string that routes an expired VM to deletion; every other string powers it off. */
  const DELETE_ACTION: string := "delete"

  /** A row of the tenant_lease table, keyed by tenantUuid. A fresh row has no update stamp (SQL NULL). */
  datatype TenantRow = TenantRow(
    tenantUuid: string,
    expiryMins: int,
    action: string,
    createdAt: Time,
    createdBy: string,
    updatedAt: Option<Time>,
    updatedBy: Option<string>)

  /** A row of the instance_lease table, keyed by instanceUuid: an explicit lease on one VM. */
  datatype InstanceRow = InstanceRow(
    instanceUuid: string,
    tenantUuid: string,
    expiry: Time,
    action: string,
    createdAt: Time,
    createdBy: string,
    updatedAt: Option<Time>,
    updatedBy: Option<string>)

  /** The externally consumable view of a tenant row: `{'vm_lease_policy': {...}}`. */
  datatype VmLeasePolicy = VmLeasePolicy(
    tenantUuid: string,
    expiryMins: int,
    action: string,
    createdAt: Time,
    createdBy: string,
    updatedAt: Option<Time>,
    updatedBy: Option<string>)

  datatype TenantLeaseData = TenantLeaseData(vmLeasePolicy: VmLeasePolicy)

  /** The externally consumable view of an instance row. */
  datatype VmLeaseData = VmLeaseData(
    instanceUuid: string,
    tenantUuid: string,
    expiry: Time,
    action: string,
    createdAt: Time,
    createdBy: string,
    updatedAt: Option<Time>,
    updatedBy: Option<string>)

  /** A VM as the lease handler lists it for a tenant. */
  datatype LiveVm = LiveVm(instanceUuid: string, tenantUuid: string, createdAt: Time)

  /** An entry of the sweep's delete or power-off list: the explicit lease record
      that expired, or the live VM record whose implicit lease expired. */
  datatype QueuedVm = Explicit(lease: VmLeaseData) | Implicit(vm: LiveVm)
  {
    function InstanceUuid(): string {
      match this
      case Explicit(lease) => lease.instanceUuid
      case Implicit(vm) => vm.instanceUuid
    }
  }

  /** The per-VM outcome the lease handler reports for a delete or a power-off. */
  datatype Outcome = SuccessOk | ErrNotFound | ErrUnknown

  /** A database engine failure injected into a transaction: the statement with
      this index (0 for the first) raises instead of executing. */
  datatype Fault = NoFault | FailAt(statement: nat)

  datatype DbError = IntegrityError | EngineError

  /** How a transactional store method ends: committed, or rolled back and re-raised. */
  datatype TxResult = Committed | RolledBack(error: DbError)
}
