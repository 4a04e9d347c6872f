/**
 The store operations the create functions of kea.go run inside one
 transaction: the audit stored procedure, the gorm BeforeCreate hooks, the
 row inserts under the schema's unique constraints, commit and rollback.
 */
module KeaStore {
  import opened Wrappers
  import opened KeaTypes

  /**
   An open transaction: the committed store it started from and the working
   snapshot its statements have changed. Rollback discards the snapshot,
   commit installs it.
   */
  datatype Tx = Tx(committed: Store, work: Store)

  /** db.Begin(): the snapshot starts as the committed store. */
  function Begin(st: Store): Tx
  {
    Tx(st, st)
  }

  /** tx.Rollback(): the committed store, whatever the snapshot holds. */
  function Rollback(tx: Tx): Store
  {
    tx.committed
  }

  /** tx.Commit(): installs the snapshot, or keeps the committed store when the engine fails. */
  function Commit(tx: Tx, fault: Fault): (r: (Store, Option<DbError>))
    ensures r.1.None? <==> fault != FailCommit
    ensures r.1.None? ==> r.0 == tx.work
    ensures r.1.Some? ==> r.0 == tx.committed && r.1 == Some(Unavailable)
  {
    if fault == FailCommit then (tx.committed, Some(Unavailable)) else (tx.work, None)
  }

  /**
   The call of createAuditRevisionDHCP4 with the affects-configuration flag
   set: appends one revision to the snapshot's audit log. When the call
   fails no revision is written; gorm's Exec returns a new handle carrying
   the error, so the transaction itself carries on unharmed.
   */
  function CreateAuditRevision(tx: Tx, now: Timestamp, serverTag: string, message: string, fault: Fault): (r: Tx)
    ensures r.committed == tx.committed
    ensures r.work.(revisions := tx.work.revisions) == tx.work
    ensures fault == FailAudit ==> r == tx
    ensures fault != FailAudit ==> |r.work.revisions| == |tx.work.revisions| + 1
    ensures fault != FailAudit ==> r.work.revisions[..|tx.work.revisions|] == tx.work.revisions
    ensures fault != FailAudit ==> r.work.revisions[|tx.work.revisions|] == AuditRevision(now, serverTag, message, true)
  {
    if fault == FailAudit then tx
    else tx.(work := tx.work.(revisions := tx.work.revisions + [AuditRevision(now, serverTag, message, true)]))
  }

  /** The largest subnet ID: the row gorm's Last returns, ordering by primary key. */
  function MaxSubnetId(rows: seq<Subnet>): (m: int)
    requires |rows| > 0
    ensures forall i :: 0 <= i < |rows| ==> rows[i].id <= m
    ensures exists i :: 0 <= i < |rows| && rows[i].id == m
  {
    if |rows| == 1 then rows[0].id
    else
      var m := MaxSubnetId(rows[1..]);
      if rows[0].id > m then rows[0].id else m
  }

  /** The ID a new subnet should get: one past the last, or 1 for an empty table. */
  function NextSubnetId(rows: seq<Subnet>): (id: int)
    ensures |rows| == 0 ==> id == 1
    ensures forall i :: 0 <= i < |rows| ==> rows[i].id < id
    ensures |rows| > 0 ==> exists i :: 0 <= i < |rows| && rows[i].id == id - 1
  {
    if |rows| == 0 then 1 else MaxSubnetId(rows) + 1
  }

  /** DHCP4SharedNetwork.BeforeCreate: stamps the modification time and nothing else. */
  function BeforeCreateSharedNetwork(network: SharedNetwork, now: Timestamp): (r: SharedNetwork)
    ensures r.params.modifiedAt == now && r.params.columns == network.params.columns
    ensures r.(params := network.params) == network
  {
    network.(params := network.params.(modifiedAt := now))
  }

  function StampSubnet(subnet: Subnet, now: Timestamp): Subnet
  {
    subnet.(params := subnet.params.(modifiedAt := now))
  }

  /**
   DHCP4Subnet.BeforeCreate as kea.go writes it: stamps the modification time,
   then reads the last subnet within the transaction. gorm's Last reports
   "record not found" as an error when no row comes back, and the hook tests
   the error before testing for not-found, so an empty table fails the hook
   and the branch that would give ID 1 is never taken.
   */
  function BeforeCreateSubnetAsWritten(tx: Tx, subnet: Subnet, now: Timestamp, fault: Fault): (r: (Subnet, Option<DbError>))
    ensures r.0.params.modifiedAt == now && r.0.params.columns == subnet.params.columns
    ensures r.0.(id := subnet.id, params := subnet.params) == subnet
    ensures fault == FailLastQuery ==> r.1 == Some(Unavailable) && r.0.id == subnet.id
    ensures fault != FailLastQuery && |tx.work.subnets| == 0 ==> r.1 == Some(RecordNotFound) && r.0.id == subnet.id
    ensures fault != FailLastQuery && |tx.work.subnets| > 0 ==>
      && r.1 == None
      && (forall i :: 0 <= i < |tx.work.subnets| ==> tx.work.subnets[i].id < r.0.id)
      && (exists i :: 0 <= i < |tx.work.subnets| && tx.work.subnets[i].id + 1 == r.0.id)
  {
    var stamped := StampSubnet(subnet, now);
    if fault == FailLastQuery then (stamped, Some(Unavailable))
    else if |tx.work.subnets| == 0 then (stamped, Some(RecordNotFound))
    else (stamped.(id := MaxSubnetId(tx.work.subnets) + 1), None)
  }

  /**
   DHCP4Subnet.BeforeCreate corrected: "record not found" from Last is tested
   before any other error and gives ID 1; an engine failure of the read is
   still the hook's error, with the ID left as it was.
   */
  function BeforeCreateSubnet(tx: Tx, subnet: Subnet, now: Timestamp, fault: Fault): (r: (Subnet, Option<DbError>))
    ensures r.0.params.modifiedAt == now && r.0.params.columns == subnet.params.columns
    ensures r.0.(id := subnet.id, params := subnet.params) == subnet
    ensures r.1.Some? <==> fault == FailLastQuery
    ensures r.1.Some? ==> r.1 == Some(Unavailable) && r.0.id == subnet.id
    ensures r.1.None? && |tx.work.subnets| == 0 ==> r.0.id == 1
    ensures r.1.None? ==> forall i :: 0 <= i < |tx.work.subnets| ==> tx.work.subnets[i].id < r.0.id
    ensures r.1.None? && |tx.work.subnets| > 0 ==>
      exists i :: 0 <= i < |tx.work.subnets| && tx.work.subnets[i].id + 1 == r.0.id
  {
    var stamped := StampSubnet(subnet, now);
    if fault == FailLastQuery then (stamped, Some(Unavailable))
    else (stamped.(id := NextSubnetId(tx.work.subnets)), None)
  }

  /** Insert into dhcp4_shared_network (with its join rows); the name is unique. */
  function InsertSharedNetwork(tx: Tx, network: SharedNetwork, fault: Fault): (r: Result<Tx, DbError>)
    ensures r.Success? <==> fault != FailInsert && !NameTaken(tx.work.sharedNetworks, network.name)
    ensures r.Failure? ==> r.error == (if fault == FailInsert then Unavailable else Duplicate("name"))
    ensures r.Success? ==>
      r.value == tx.(work := tx.work.(sharedNetworks := tx.work.sharedNetworks + [network]))
  {
    if fault == FailInsert then Failure(Unavailable)
    else if NameTaken(tx.work.sharedNetworks, network.name) then Failure(Duplicate("name"))
    else Success(tx.(work := tx.work.(sharedNetworks := tx.work.sharedNetworks + [network])))
  }

  /** Insert into dhcp4_subnet (with its join rows); the ID and the prefix are unique. */
  function InsertSubnet(tx: Tx, subnet: Subnet, fault: Fault): (r: Result<Tx, DbError>)
    ensures r.Success? <==>
      fault != FailInsert && !SubnetIdTaken(tx.work.subnets, subnet.id) && !PrefixTaken(tx.work.subnets, subnet.prefix)
    ensures r.Failure? && fault == FailInsert ==> r.error == Unavailable
    ensures r.Failure? && fault != FailInsert && SubnetIdTaken(tx.work.subnets, subnet.id) ==>
      r.error == Duplicate("subnet_id")
    ensures r.Failure? && fault != FailInsert && !SubnetIdTaken(tx.work.subnets, subnet.id) ==>
      r.error == Duplicate("subnet_prefix")
    ensures r.Success? ==> r.value == tx.(work := tx.work.(subnets := tx.work.subnets + [subnet]))
  {
    if fault == FailInsert then Failure(Unavailable)
    else if SubnetIdTaken(tx.work.subnets, subnet.id) then Failure(Duplicate("subnet_id"))
    else if PrefixTaken(tx.work.subnets, subnet.prefix) then Failure(Duplicate("subnet_prefix"))
    else Success(tx.(work := tx.work.(subnets := tx.work.subnets + [subnet])))
  }

  /** One statement a create runs inside its transaction. */
  datatype Statement =
    | CallAudit(now: Timestamp, serverTag: string, message: string, fault: Fault)
    | InsertNetworkRow(network: SharedNetwork, fault: Fault)
    | InsertSubnetRow(subnet: Subnet, fault: Fault)

  function Exec(tx: Tx, s: Statement): Result<Tx, DbError>
  {
    match s
    case CallAudit(now, tag, message, fault) => Success(CreateAuditRevision(tx, now, tag, message, fault))
    case InsertNetworkRow(network, fault) => InsertSharedNetwork(tx, network, fault)
    case InsertSubnetRow(subnet, fault) => InsertSubnet(tx, subnet, fault)
  }

  /**
   Runs the statements in order, stopping at the first that fails: the
   transaction as the last successful statement left it, and the error.
   */
  function ExecAll(tx: Tx, stmts: seq<Statement>): (Tx, Option<DbError>)
    decreases |stmts|
  {
    if |stmts| == 0 then (tx, None)
    else
      match Exec(tx, stmts[0])
      case Failure(e) => (tx, Some(e))
      case Success(next) => ExecAll(next, stmts[1..])
  }

  /** No statement touches the committed store; each only changes the snapshot. */
  lemma {:induction false} StatementsKeepCommitted(tx: Tx, stmts: seq<Statement>)
    ensures ExecAll(tx, stmts).0.committed == tx.committed
    decreases |stmts|
  {
    if |stmts| > 0 {
      match Exec(tx, stmts[0])
      case Failure(_) =>
      case Success(next) => StatementsKeepCommitted(next, stmts[1..]);
    }
  }

  /**
   Whatever statements a transaction begun on st ran, and whether or not one
   failed, rollback returns st and a failed commit keeps st.
   */
  lemma RollbackRestoresBegin(st: Store, stmts: seq<Statement>)
    ensures Rollback(ExecAll(Begin(st), stmts).0) == st
    ensures Commit(ExecAll(Begin(st), stmts).0, FailCommit).0 == st
  {
    StatementsKeepCommitted(Begin(st), stmts);
  }
}
