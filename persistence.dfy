/** The lease store: the tenant_lease and instance_lease tables, held in memory
    as two maps keyed by their primary keys.

    Every transactional method follows the commit/rollback wrapper of the store:
    it remembers both tables when the transaction begins, runs its statements one
    by one, and when a statement raises it restores both tables (rollback) and
    reports the error; otherwise the changes stay (commit). Which statement of a
    transaction raises is a `Fault` parameter; inserting an existing key raises
    an integrity error on its own. */
module Persistence {
  import opened LeaseTypes

  /** Does the injected fault hit the statement with this index? */
  predicate Raises(fault: Fault, statement: nat) {
    fault == FailAt(statement)
  }

  /** The instance table after `DELETE ... WHERE tenant_uuid = tenantUuid`. */
  function WithoutTenant(rows: map<string, InstanceRow>, tenantUuid: string): (r: map<string, InstanceRow>)
    ensures forall k :: k in r <==> k in rows && rows[k].tenantUuid != tenantUuid
    ensures forall k :: k in r ==> r[k] == rows[k]
    ensures forall k :: k in rows && k !in r ==> rows[k].tenantUuid == tenantUuid
  {
    map k | k in rows && rows[k].tenantUuid != tenantUuid :: rows[k]
  }

  /** The rows lists the whole tenant table, each row once. */
  ghost predicate ListsTenants(rows: seq<TenantRow>, table: map<string, TenantRow>) {
    && (forall i :: 0 <= i < |rows| ==> rows[i].tenantUuid in table && table[rows[i].tenantUuid] == rows[i])
    && (forall k :: k in table ==> table[k] in rows)
    && (forall i, j :: 0 <= i < j < |rows| ==> rows[i].tenantUuid != rows[j].tenantUuid)
  }

  /** The rows lists exactly the instance rows of one tenant, each row once. */
  ghost predicate ListsInstancesOf(rows: seq<InstanceRow>, table: map<string, InstanceRow>, tenantUuid: string) {
    && (forall i :: 0 <= i < |rows| ==>
          rows[i].tenantUuid == tenantUuid && rows[i].instanceUuid in table && table[rows[i].instanceUuid] == rows[i])
    && (forall k :: k in table && table[k].tenantUuid == tenantUuid ==> table[k] in rows)
    && (forall i, j :: 0 <= i < j < |rows| ==> rows[i].instanceUuid != rows[j].instanceUuid)
  }

  class DbPersistence {
    var tenantLease: map<string, TenantRow>
    var instanceLease: map<string, InstanceRow>

    /** Each row sits under its own primary key. */
    ghost predicate Valid()
      reads this
    {
      && (forall t :: t in tenantLease ==> tenantLease[t].tenantUuid == t)
      && (forall i :: i in instanceLease ==> instanceLease[i].instanceUuid == i)
    }

    /** Binds to an existing database: the tables hold whatever rows they
        already hold, each under its own primary key. */
    constructor (tenants: map<string, TenantRow>, instances: map<string, InstanceRow>)
      requires forall t :: t in tenants ==> tenants[t].tenantUuid == t
      requires forall i :: i in instances ==> instances[i].instanceUuid == i
      ensures Valid() && tenantLease == tenants && instanceLease == instances
    {
      tenantLease := tenants;
      instanceLease := instances;
    }

    /** Rollback: both tables return to what they were when the transaction began. */
    method Rollback(tenants: map<string, TenantRow>, instances: map<string, InstanceRow>)
      modifies this
      ensures tenantLease == tenants && instanceLease == instances
    {
      tenantLease, instanceLease := tenants, instances;
    }

    /** `SELECT * FROM tenant_lease`: every row once, in an order the table does not fix. */
    method GetAllTenantLeases() returns (rows: seq<TenantRow>)
      requires Valid()
      ensures ListsTenants(rows, tenantLease)
    {
      rows := [];
      var pending := tenantLease.Keys;
      while pending != {}
        invariant pending <= tenantLease.Keys
        invariant forall i :: 0 <= i < |rows| ==>
          rows[i].tenantUuid in tenantLease.Keys - pending && tenantLease[rows[i].tenantUuid] == rows[i]
        invariant forall k :: k in tenantLease.Keys - pending ==> tenantLease[k] in rows
        invariant forall i, j :: 0 <= i < j < |rows| ==> rows[i].tenantUuid != rows[j].tenantUuid
        decreases pending
      {
        var k :| k in pending;
        pending := pending - {k};
        rows := rows + [tenantLease[k]];
      }
    }

    /** The row keyed by tenantUuid, or None when there is none. */
    function GetTenantLease(tenantUuid: string): (r: Option<TenantRow>)
      requires Valid()
      reads this
      ensures r.None? <==> tenantUuid !in tenantLease
      ensures r.Some? ==> r.value.tenantUuid == tenantUuid && r.value == tenantLease[tenantUuid]
    {
      if tenantUuid in tenantLease then Some(tenantLease[tenantUuid]) else None
    }

    /** INSERT of a fresh tenant row; an existing key is an integrity error. */
    method AddTenantLease(tenantUuid: string, expiryMins: int, action: string, createdBy: string,
                          createdAt: Time, fault: Fault) returns (r: TxResult)
      requires Valid()
      modifies this
      ensures Valid()
      ensures r == Committed <==> tenantUuid !in old(tenantLease) && !Raises(fault, 0)
      ensures r == RolledBack(IntegrityError) <==> tenantUuid in old(tenantLease)
      ensures r != Committed && tenantUuid !in old(tenantLease) ==> r == RolledBack(EngineError)
      ensures r == Committed ==>
        tenantLease == old(tenantLease)[tenantUuid := TenantRow(tenantUuid, expiryMins, action, createdAt, createdBy, None, None)]
      ensures r != Committed ==> tenantLease == old(tenantLease)
      ensures instanceLease == old(instanceLease)
    {
      var tenants, instances := tenantLease, instanceLease;
      if tenantUuid in tenantLease {
        Rollback(tenants, instances);
        return RolledBack(IntegrityError);
      }
      if Raises(fault, 0) {
        Rollback(tenants, instances);
        return RolledBack(EngineError);
      }
      tenantLease := tenantLease[tenantUuid := TenantRow(tenantUuid, expiryMins, action, createdAt, createdBy, None, None)];
      r := Committed;
    }

    /** UPDATE ... WHERE tenant_uuid = tenantUuid: only the policy and the update
        stamp of that one row change; a missing key matches no row. */
    method UpdateTenantLease(tenantUuid: string, expiryMins: int, action: string, updatedBy: string,
                             updatedAt: Time, fault: Fault) returns (r: TxResult)
      requires Valid()
      modifies this
      ensures Valid()
      ensures r == Committed <==> !Raises(fault, 0)
      ensures r != Committed ==> r == RolledBack(EngineError) && tenantLease == old(tenantLease)
      ensures r == Committed && tenantUuid in old(tenantLease) ==>
        tenantLease == old(tenantLease)[tenantUuid := old(tenantLease)[tenantUuid].(
          expiryMins := expiryMins, action := action, updatedAt := Some(updatedAt), updatedBy := Some(updatedBy))]
      ensures tenantUuid !in old(tenantLease) ==> tenantLease == old(tenantLease)
      ensures instanceLease == old(instanceLease)
    {
      var tenants, instances := tenantLease, instanceLease;
      if Raises(fault, 0) {
        Rollback(tenants, instances);
        return RolledBack(EngineError);
      }
      if tenantUuid in tenantLease {
        tenantLease := tenantLease[tenantUuid := tenantLease[tenantUuid].(
          expiryMins := expiryMins, action := action, updatedAt := Some(updatedAt), updatedBy := Some(updatedBy))];
      }
      r := Committed;
    }

    /** Two statements in one transaction: delete the tenant row, then every
        instance row of that tenant. Either both take effect or neither does. */
    method DeleteTenantLease(tenantUuid: string, fault: Fault) returns (r: TxResult)
      requires Valid()
      modifies this
      ensures Valid()
      ensures r == Committed <==> !Raises(fault, 0) && !Raises(fault, 1)
      ensures r == Committed ==>
        tenantLease == old(tenantLease) - {tenantUuid} && instanceLease == WithoutTenant(old(instanceLease), tenantUuid)
      ensures r != Committed ==>
        r == RolledBack(EngineError) && tenantLease == old(tenantLease) && instanceLease == old(instanceLease)
    {
      var tenants, instances := tenantLease, instanceLease;
      if Raises(fault, 0) {
        Rollback(tenants, instances);
        return RolledBack(EngineError);
      }
      tenantLease := tenantLease - {tenantUuid};
      if Raises(fault, 1) {
        Rollback(tenants, instances);
        return RolledBack(EngineError);
      }
      instanceLease := WithoutTenant(instanceLease, tenantUuid);
      r := Committed;
    }

    /** `SELECT ... WHERE tenant_uuid = tenantUuid` on the instance table. */
    method GetInstanceLeasesByTenant(tenantUuid: string) returns (rows: seq<InstanceRow>)
      requires Valid()
      ensures ListsInstancesOf(rows, instanceLease, tenantUuid)
    {
      rows := [];
      var pending := instanceLease.Keys;
      while pending != {}
        invariant pending <= instanceLease.Keys
        invariant forall i :: 0 <= i < |rows| ==>
          && rows[i].tenantUuid == tenantUuid
          && rows[i].instanceUuid in instanceLease.Keys - pending
          && instanceLease[rows[i].instanceUuid] == rows[i]
        invariant forall k :: k in instanceLease.Keys - pending && instanceLease[k].tenantUuid == tenantUuid ==>
          instanceLease[k] in rows
        invariant forall i, j :: 0 <= i < j < |rows| ==> rows[i].instanceUuid != rows[j].instanceUuid
        decreases pending
      {
        var k :| k in pending;
        pending := pending - {k};
        if instanceLease[k].tenantUuid == tenantUuid {
          rows := rows + [instanceLease[k]];
        }
      }
    }

    /** The row keyed by instanceUuid, or None when there is none. */
    function GetInstanceLease(instanceUuid: string): (r: Option<InstanceRow>)
      requires Valid()
      reads this
      ensures r.None? <==> instanceUuid !in instanceLease
      ensures r.Some? ==> r.value.instanceUuid == instanceUuid && r.value == instanceLease[instanceUuid]
    {
      if instanceUuid in instanceLease then Some(instanceLease[instanceUuid]) else None
    }

    /** INSERT of a fresh instance row; an existing key is an integrity error. */
    method AddInstanceLease(instanceUuid: string, tenantUuid: string, expiry: Time, action: string,
                            createdBy: string, createdAt: Time, fault: Fault) returns (r: TxResult)
      requires Valid()
      modifies this
      ensures Valid()
      ensures r == Committed <==> instanceUuid !in old(instanceLease) && !Raises(fault, 0)
      ensures r == RolledBack(IntegrityError) <==> instanceUuid in old(instanceLease)
      ensures r != Committed && instanceUuid !in old(instanceLease) ==> r == RolledBack(EngineError)
      ensures r == Committed ==>
        instanceLease == old(instanceLease)[instanceUuid :=
          InstanceRow(instanceUuid, tenantUuid, expiry, action, createdAt, createdBy, None, None)]
      ensures r != Committed ==> instanceLease == old(instanceLease)
      ensures tenantLease == old(tenantLease)
    {
      var tenants, instances := tenantLease, instanceLease;
      if instanceUuid in instanceLease {
        Rollback(tenants, instances);
        return RolledBack(IntegrityError);
      }
      if Raises(fault, 0) {
        Rollback(tenants, instances);
        return RolledBack(EngineError);
      }
      instanceLease := instanceLease[instanceUuid :=
        InstanceRow(instanceUuid, tenantUuid, expiry, action, createdAt, createdBy, None, None)];
      r := Committed;
    }

    /** UPDATE ... WHERE instance_uuid = instanceUuid: sets the tenant, expiry,
        action and update stamp of that one row and keeps its creation stamp. */
    method UpdateInstanceLease(instanceUuid: string, tenantUuid: string, expiry: Time, action: string,
                               updatedBy: string, updatedAt: Time, fault: Fault) returns (r: TxResult)
      requires Valid()
      modifies this
      ensures Valid()
      ensures r == Committed <==> !Raises(fault, 0)
      ensures r != Committed ==> r == RolledBack(EngineError) && instanceLease == old(instanceLease)
      ensures r == Committed && instanceUuid in old(instanceLease) ==>
        instanceLease == old(instanceLease)[instanceUuid := old(instanceLease)[instanceUuid].(
          tenantUuid := tenantUuid, expiry := expiry, action := action,
          updatedAt := Some(updatedAt), updatedBy := Some(updatedBy))]
      ensures instanceUuid !in old(instanceLease) ==> instanceLease == old(instanceLease)
      ensures tenantLease == old(tenantLease)
    {
      var tenants, instances := tenantLease, instanceLease;
      if Raises(fault, 0) {
        Rollback(tenants, instances);
        return RolledBack(EngineError);
      }
      if instanceUuid in instanceLease {
        instanceLease := instanceLease[instanceUuid := instanceLease[instanceUuid].(
          tenantUuid := tenantUuid, expiry := expiry, action := action,
          updatedAt := Some(updatedAt), updatedBy := Some(updatedBy))];
      }
      r := Committed;
    }

    /** `DELETE ... WHERE instance_uuid IN instanceUuids`: absent keys are no-ops. */
    method DeleteInstanceLeases(instanceUuids: seq<string>, fault: Fault) returns (r: TxResult)
      requires Valid()
      modifies this
      ensures Valid()
      ensures r == Committed <==> !Raises(fault, 0)
      ensures r == Committed ==> instanceLease == old(instanceLease) - (set i | i in instanceUuids)
      ensures r != Committed ==> r == RolledBack(EngineError) && instanceLease == old(instanceLease)
      ensures tenantLease == old(tenantLease)
    {
      var tenants, instances := tenantLease, instanceLease;
      if Raises(fault, 0) {
        Rollback(tenants, instances);
        return RolledBack(EngineError);
      }
      instanceLease := instanceLease - (set i | i in instanceUuids);
      r := Committed;
    }
  }
}
