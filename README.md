# mors lease manager — a Dafny model

mors puts time-bounded leases on the virtual machines of cloud tenants.

- **Tenant lease:** says how many minutes a VM of the tenant may live (`expiry_mins`). It also names the action taken when that time is up: `"delete"`, or anything else, which means power off.
- **Instance lease:** overrides the tenant lease for one VM with an absolute `expiry` and its own action.
- **Sweep:** a periodic task that walks every tenant lease. For each tenant it merges the explicit instance leases with the live VMs that the lease handler lists. It puts every expired VM on a delete list or a power-off list and asks the lease handler to act on both. It then removes, in one transaction, the lease rows of the VMs the handler reports as gone.

The project models:

- the lease store (`DbPersistence`): two tables, with the commit/rollback wrapper around every write;
- the administrative operations on tenant and instance leases, including the write-time policy check;
- the classification of one tenant's VMs;
- the per-tenant fold of the handler's results back into the store;
- the sweep over all tenants.

Files:

- `lease_types.dfy`: the rows of the two tables, their external views, the handler's per-VM outcomes, the constants `DEFAULT_ACTION` (`"power off"`) and `"delete"`, and the transaction results.
- `persistence.dfy`: `class DbPersistence` holds the two tables as maps keyed by primary key. Each transactional method snapshots both tables when it begins. It restores them when a statement raises, and otherwise commits. Which statement raises is a `Fault` parameter. Inserting an existing key raises an integrity error by itself.
- `lease_handler.dfy`: the lease handler as a value with three functions: the inventory, delete and power-off. Its contract is that a result map only reports VMs of the batch it was given, and it may report fewer.
- `classifier.dfy`: the specification `Classify` and the loop `GetVmsToDeleteOrPoweroff`, which is proved equal to it. Lemmas state what the classification promises.
- `lease_manager.dfy`: `class LeaseManager` holds the administrative operations, the per-tenant sweep step and `Run`, plus lemmas about the sweep.

### How time and the clock are modelled

Time is whole seconds, and the clock is a `now` parameter.

- "Expired" means `now > expiry`, strictly. A lease whose expiry equals `now` is not expired.
- The source code does this, and the model follows the code, although the intended behaviour was for a tie to count as expired.
- The source reads the clock once per tenant inside a sweep. The model uses one `now` for the whole sweep.

### Behaviour kept as the code has it

**An expired power-off lease does not block its live VM.** The classifier checks whether a live VM is already queued for power-off. It does this by testing the VM's id against `vms_to_poweroff`, which is a list of records. An id string is never equal to a record, so the test always passes. As a result, an expired explicit lease with a non-delete action does not keep its live VM out:

- If the VM's implicit lease has expired too, the VM is queued twice.
- When the tenant's action is `"power off"`, both entries go on the power-off list (`DuplicatePowerOffExample`).
- When the tenant's action is `"delete"`, the VM goes on both lists. Its id can then reach the batch delete twice (`DuplicateRemovalExample`).

The model keeps this behaviour as written.

**A store error stops the whole sweep.** An error in a tenant's write-back is not caught per tenant. It leaves `run`, so later tenants are not processed and the next sweep is not scheduled. `Run` stops at the first failed write-back. The intended behaviour was to catch such failures per tenant; the model follows the code.

## Model

| member | source | states |
|---|---|---|
| Persistence.WithoutTenant | mors/persistence.py:97 | deleting by tenant removes exactly the instance rows of that tenant and keeps every other row unchanged |
| Persistence.DbPersistence.constructor | mors/persistence.py:64-68 | the store binds to an existing database: its tables are the given rows, each under its own primary key |
| Persistence.DbPersistence.Rollback | mors/persistence.py:50-54 | a rollback restores both tables to what they were when the transaction began |
| Persistence.DbPersistence.GetAllTenantLeases | mors/persistence.py:70-72 | lists every tenant row, each exactly once, and nothing else |
| Persistence.DbPersistence.GetTenantLease | mors/persistence.py:74-76 | None exactly when no row has the key; otherwise the row under that key |
| Persistence.DbPersistence.AddTenantLease | mors/persistence.py:78-82 | commits iff the key is new and no statement fails; it then inserts a row with the creation stamp and no update stamp; it fails with an integrity error exactly when the key already exists, and any other failure is an engine error; a failure leaves both tables unchanged |
| Persistence.DbPersistence.UpdateTenantLease | mors/persistence.py:84-90 | on commit it changes only the policy and update stamp of that one row; a missing key matches nothing; a failure changes nothing |
| Persistence.DbPersistence.DeleteTenantLease | mors/persistence.py:92-97 | two statements in one transaction: both happen, removing the tenant row and all its instance rows, or neither does |
| Persistence.DbPersistence.GetInstanceLeasesByTenant | mors/persistence.py:99-102 | lists exactly the instance rows of the tenant, each once |
| Persistence.DbPersistence.GetInstanceLease | mors/persistence.py:104-107 | None exactly when no row has the key; otherwise the row under that key |
| Persistence.DbPersistence.AddInstanceLease | mors/persistence.py:109-114 | commits iff the key is new and no statement fails; it fails with an integrity error exactly when the key already exists, and any other failure is an engine error; a failure changes nothing |
| Persistence.DbPersistence.UpdateInstanceLease | mors/persistence.py:116-122 | on commit it rewrites tenant, expiry, action and update stamp of that one row and keeps its creation stamp; a failure changes nothing |
| Persistence.DbPersistence.DeleteInstanceLeases | mors/persistence.py:124-128 | on commit it removes exactly the listed keys; a failure changes nothing; the tenant table never changes |
| Classifier.GetVmsToDeleteOrPoweroff | mors/lease_manager.py:171-212 | the two lists the loops build equal the classification `Classify` of the leases and live VMs |
| Classifier.ExpiredLeaseQueuedOnce | mors/lease_manager.py:180-189 | an expired explicit lease is queued exactly once: on the delete list iff its action is "delete", otherwise on the power-off list |
| Classifier.UnexpiredLeaseNeverQueued | mors/lease_manager.py:190-199 | a lease with `now <= expiry` is never queued, and no live VM with its id is queued either |
| Classifier.LiveVmQueuedIff | mors/lease_manager.py:194-207 | a live VM is queued iff `now > created_at + expiry_mins*60` and no unexpired or expired-"delete" lease covers its id; the tenant action picks the list |
| Classifier.QueuedOnlyIfExpired | mors/lease_manager.py:180-207 | every queued entry is an expired lease of the input or an expired, unblocked live VM of the input |
| Classifier.ExpiredDeleteLeaseSuppressesLiveVm | mors/lease_manager.py:182-197 | a live VM covered by an expired "delete" lease is not queued a second time |
| Classifier.ExpiredPoweroffLeaseQueuedTwice | mors/lease_manager.py:186-207 | an expired power-off lease does not keep its expired live VM out, so the VM is queued as the lease and again as the live VM |
| Classifier.DuplicatePowerOffExample | mors/lease_manager.py:197-199 | a concrete case: the power-off list holds vm-1 twice |
| LeaseManagement.GetTenantLeaseData | mors/lease_manager.py:28-40 | the tenant view keeps every column: reading the row back from it gives the row |
| LeaseManagement.GetVmLeaseData | mors/lease_manager.py:43-56 | the instance view keeps every column: reading the row back from it gives the row |
| LeaseManagement.CheckInstanceLeaseViolation | mors/lease_manager.py:118-123 | a violation iff the instance lease would outlive the implicit lease of a VM of the tenant created now |
| LeaseManagement.AppendGoneIds | mors/lease_manager.py:221-224 | appends, after the ids already collected, every id the result map reports ok or not-found, once each, and no other id |
| LeaseManagement.SweepRemovesOnlyExpired | mors/lease_manager.py:214-231 | the sweep only removes the lease row of a VM that it queued because it had expired |
| LeaseManagement.RemovedOncePerReport | mors/lease_manager.py:217-231 | an id is passed to the batch delete iff a result reports it gone, at most once per result map |
| LeaseManagement.DuplicateRemovalExample | mors/lease_manager.py:214-235 | a concrete case: under a "delete" tenant, an expired power-off lease and its live VM are both queued, and when both calls succeed vm-1 is passed to the batch delete twice |
| LeaseManagement.SweptInOrderAt | mors/lease_manager.py:239-241 | the k-th step of a sweep is the specified step for the k-th tenant lease; it read exactly that tenant's rows from the instance table as the earlier steps left it; and every step before the last had a write-back that did not fail |
| LeaseManagement.LeaseManager.constructor | mors/lease_manager.py:65-68 | the manager holds the given store and lease handler |
| LeaseManagement.LeaseManager.AddTenantLease | mors/lease_manager.py:70-81 | stores the tenant lease with the request's action, or "power off" when the request has none; a failure is an integrity error when the tenant already exists and an engine error otherwise, and changes nothing |
| LeaseManagement.LeaseManager.UpdateTenantLease | mors/lease_manager.py:83-90 | the missing-action error is raised exactly when the request has no action, and changes nothing; otherwise the store update runs, and its only failure is an engine error |
| LeaseManagement.LeaseManager.DeleteTenantLease | mors/lease_manager.py:92-94 | removes the tenant lease and every instance lease of the tenant, all or nothing; a failure is an engine error |
| LeaseManagement.LeaseManager.GetTenantLeases | mors/lease_manager.py:96-101 | the views of all tenant rows, each once, and nothing else |
| LeaseManagement.LeaseManager.GetTenantLease | mors/lease_manager.py:103-108 | None (the source's `{}`) exactly when the tenant has no lease; otherwise the view of its row |
| LeaseManagement.LeaseManager.GetTenantAndAssociatedInstanceLeases | mors/lease_manager.py:110-116 | the tenant's lease view together with the views of exactly its instance rows, each once |
| LeaseManagement.LeaseManager.GetInstanceLease | mors/lease_manager.py:125-130 | None exactly when the instance has no lease; otherwise the view of its row |
| LeaseManagement.LeaseManager.AddInstanceLease | mors/lease_manager.py:132-147 | an expiry past `now + expiry_mins*60` raises a policy violation and stores nothing; an expiry at or below it is stored, with "power off" when no action is given. The policy violation is raised exactly when the expiry is past the bound. A store failure is an integrity error exactly for a duplicate and an engine error otherwise |
| LeaseManagement.LeaseManager.UpdateInstanceLease | mors/lease_manager.py:149-160 | the policy violation is raised exactly when the expiry is past the bound, and it is checked before the action. The missing-action error is raised exactly when the expiry is within the bound and the action is missing. Neither changes anything; any other failure is an engine error. On success only that row's tenant, expiry, action and update stamp change |
| LeaseManagement.LeaseManager.DeleteInstanceLease | mors/lease_manager.py:162-164 | removes exactly that instance lease, through the batch delete; a failure is an engine error and changes nothing |
| LeaseManagement.LeaseManager.GetVmsToDeleteOrPoweroffForTenant | mors/lease_manager.py:171-212 | reads exactly the tenant's instance leases and the handler's live VMs, and returns their classification |
| LeaseManagement.LeaseManager.DispatchForTenant | mors/lease_manager.py:214-231 | each handler is called only with a non-empty list; the ids to remove are those reported ok or not-found, counted once per result map |
| LeaseManagement.LeaseManager.DeleteOrPoweroffVmsForTenant | mors/lease_manager.py:214-235 | with nothing reported gone, the store is not called; otherwise one transaction removes exactly those rows, or on failure nothing; the tenant table is never touched |
| LeaseManagement.LeaseManager.WriteBackKeepsUnreported | mors/lease_manager.py:221-235 | a VM with an unknown error, or not reported at all, keeps its lease row unchanged for the next sweep; every VM reported gone loses it |
| LeaseManagement.LeaseManager.Run | mors/lease_manager.py:237-244 | every tenant lease listed is swept once, in list order. Each step classifies the tenant's rows as the earlier steps left them. The sweep ends early exactly when a step's batch delete raises (`RolledBack`, that step last). Otherwise all tenants are swept and the result is `Committed`. The instance table loses exactly the rows removed by committed steps |

## Left out

- Scheduling (`start`, `spawn_after`, `sleep_seconds`): `Run` is one sweep, and the caller reschedules it.
- Logging is not modelled.
- Clocks: `now` is a parameter, and one `now` serves a whole sweep.
- SQL, connections and the connection pool. The store is two in-memory maps, and engine failures are injected through `Fault`.
- Failures of the store's reads (the non-transactional `db_connect` path): reads always succeed in the model.
- The lease handler's clients (OpenStack, the mock handler) and `get_lease_handler`. The handler is a value of three functions, and `mors/leasehandler/constants.py` is not part of this model. A handler that raises as a whole is not modelled.
- Warnings before expiry, the `notified` flag and webhooks: the modelled code has none of them.
- LeaseManager.AddInstanceLease: requires the tenant lease to exist, because the source then reads `expiry_mins` from a missing row and fails with an uncaught TypeError. The same holds for LeaseManager.UpdateInstanceLease.
- The model does not enforce that `expiry_mins` is positive; neither does the code. `DbPersistence.Valid()` has no foreign-key invariant either, so the store accepts an instance row whose tenant has no tenant row.
- The request context: only `user_id` is used, as a parameter.
- The admin API's check reads the clock before the store write's own timestamp. The model uses one `now` for both.
- Interleaving of the sweep with the administrative operations is not modelled. In the source both run as green threads on one lease manager. So an API write can land between a step's read of the leases (mors/lease_manager.py:179) and its batch delete by id (mors/lease_manager.py:235). For example, a lease re-extended while the power-off call runs is still deleted. Each modelled operation and each sweep step runs atomically.
- The bounded range of Python's `datetime` is not modelled: `Time` is an unbounded integer. In the source, a sum past the year 9999 raises `OverflowError`. This happens when `expiry_mins` is above about 4.2e9. At mors/lease_manager.py:121 it is an uncaught error of add/update, not the policy violation. At mors/lease_manager.py:196 it leaves `run` and stops all later sweeps. The model instead computes the expiry and compares it.
