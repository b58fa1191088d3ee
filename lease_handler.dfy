/** The lease handler as the sweep sees it: an inventory of live VMs per tenant,
    and a delete and a power-off operation that report one outcome per VM. The
    client behind it is outside this model; what the sweep relies on is its
    contract, which `Valid` states. */
module LeaseHandlers {
  import opened LeaseTypes

  /** The set of instance ids named by a batch of queued VMs. */
  function IdsOf(vms: seq<QueuedVm>): (ids: set<string>)
    ensures forall i :: 0 <= i < |vms| ==> vms[i].InstanceUuid() in ids
    ensures forall id :: id in ids ==> exists i :: 0 <= i < |vms| && vms[i].InstanceUuid() == id
  {
    set i | 0 <= i < |vms| :: vms[i].InstanceUuid()
  }

  datatype LeaseHandler = LeaseHandler(
    getAllVms: string -> seq<LiveVm>,
    deleteVms: seq<QueuedVm> -> map<string, Outcome>,
    poweroffVms: seq<QueuedVm> -> map<string, Outcome>)
  {
    /** A result map only reports VMs of the batch it was given. It may report
        fewer: when the client fails part-way, the handler returns what it had
        collected so far. */
    ghost predicate Valid() {
      forall vms: seq<QueuedVm> ::
        deleteVms(vms).Keys <= IdsOf(vms) && poweroffVms(vms).Keys <= IdsOf(vms)
    }
  }
}
