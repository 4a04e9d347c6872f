/**
 The configuration writer of kea.go: CreateSharedNetwork4 and CreateSubnet4.
 Each opens a transaction, records an audit revision, appends the acting
 server to the record's server list, inserts the record, and rolls back on a
 failed insert or commits otherwise.
 */
module KeaWriter {
  import opened Wrappers
  import opened KeaTypes
  import opened KeaStore

  /**
   The outcome of a create: the store afterwards, the caller's record as the
   call left it (Go mutates it through the pointer whatever the outcome), and
   the returned error.
   */
  datatype Written<T> = Written(store: Store, entity: T, error: Option<DbError>)

  function SharedNetworkAuditMessage(name: string): string
  {
    "add new shared network: " + name
  }

  function SubnetAuditMessage(prefix: string): string
  {
    "add new subnet: " + prefix
  }

  function CreateSharedNetwork4(st: Store, server: Server, network: SharedNetwork, now: Timestamp, fault: Fault)
    : (w: Written<SharedNetwork>)
    // the acting server is appended to the record's server list
    ensures w.entity.servers == network.servers + [server]
    ensures w.entity.id == network.id && w.entity.name == network.name
    ensures w.entity.params == network.params.(modifiedAt := now)
    // a failed create leaves every table, the audit log included, as it was
    ensures w.error.Some? ==> w.store == st
    // a successful one adds exactly the record and one audit revision, or no
    // revision when the ignored audit call failed
    ensures w.error.None? && fault != FailAudit ==>
      w.store == st.(sharedNetworks := st.sharedNetworks + [w.entity],
                     revisions := st.revisions + [AuditRevision(now, server.tag, SharedNetworkAuditMessage(network.name), true)])
    ensures w.error.None? && fault == FailAudit ==>
      w.store == st.(sharedNetworks := st.sharedNetworks + [w.entity])
    ensures w.error.None? <==> fault != FailInsert && fault != FailCommit && !NameTaken(st.sharedNetworks, network.name)
    ensures w.error == Some(Duplicate("name")) <==> fault != FailInsert && NameTaken(st.sharedNetworks, network.name)
    ensures w.error.Some? && w.error != Some(Duplicate("name")) ==> w.error == Some(Unavailable)
  {
    var tx := Begin(st);
    var tx := CreateAuditRevision(tx, now, server.tag, SharedNetworkAuditMessage(network.name), fault);
    var attached := network.(servers := network.servers + [server]);
    var stamped := BeforeCreateSharedNetwork(attached, now);
    match InsertSharedNetwork(tx, stamped, fault)
    case Failure(e) => Written(Rollback(tx), stamped, Some(e))
    case Success(tx) =>
      var (committed, err) := Commit(tx, fault);
      Written(committed, stamped, err)
  }

  /** Which DHCP4Subnet.BeforeCreate a subnet create runs. */
  datatype SubnetHook = HookAsWritten | HookCorrected

  /** The steps of CreateSubnet4, with the subnet hook as a choice. */
  function CreateSubnetWith(hook: SubnetHook, st: Store, server: Server, sharedNetwork: SharedNetwork, subnet: Subnet, now: Timestamp, fault: Fault)
    : Written<Subnet>
  {
    var tx := Begin(st);
    var tx := CreateAuditRevision(tx, now, server.tag, SubnetAuditMessage(subnet.prefix), fault);
    var named := subnet.(sharedNetworkName := Some(sharedNetwork.name));
    var attached := named.(servers := named.servers + [server]);
    var (prepared, hookError) :=
      if hook == HookAsWritten then BeforeCreateSubnetAsWritten(tx, attached, now, fault)
      else BeforeCreateSubnet(tx, attached, now, fault);
    if hookError.Some? then Written(Rollback(tx), prepared, hookError)
    else
      match InsertSubnet(tx, prepared, fault)
      case Failure(e) => Written(Rollback(tx), prepared, Some(e))
      case Success(tx) =>
        var (committed, err) := Commit(tx, fault);
        Written(committed, prepared, err)
  }

  /** CreateSubnet4 with the corrected ID hook: the behaviour the rest of the model uses. */
  function CreateSubnet4(st: Store, server: Server, sharedNetwork: SharedNetwork, subnet: Subnet, now: Timestamp, fault: Fault)
    : (w: Written<Subnet>)
    // the subnet joins the shared network and the acting server's list
    ensures w.entity.sharedNetworkName == Some(sharedNetwork.name)
    ensures w.entity.servers == subnet.servers + [server]
    ensures w.entity.prefix == subnet.prefix && w.entity.params == subnet.params.(modifiedAt := now)
    // nothing else of the caller's subnet changes; a failed read leaves the ID
    ensures w.entity == subnet.(id := w.entity.id, sharedNetworkName := Some(sharedNetwork.name),
                                servers := subnet.servers + [server], params := subnet.params.(modifiedAt := now))
    ensures fault == FailLastQuery ==> w.entity.id == subnet.id
    // the ID is one past the largest existing ID, or 1 in an empty table
    ensures fault != FailLastQuery ==> forall i :: 0 <= i < |st.subnets| ==> st.subnets[i].id < w.entity.id
    ensures fault != FailLastQuery && |st.subnets| == 0 ==> w.entity.id == 1
    ensures fault != FailLastQuery && |st.subnets| > 0 ==>
      exists i :: 0 <= i < |st.subnets| && st.subnets[i].id + 1 == w.entity.id
    ensures w.error.Some? ==> w.store == st
    ensures w.error.None? && fault != FailAudit ==>
      w.store == st.(subnets := st.subnets + [w.entity],
                     revisions := st.revisions + [AuditRevision(now, server.tag, SubnetAuditMessage(subnet.prefix), true)])
    ensures w.error.None? && fault == FailAudit ==> w.store == st.(subnets := st.subnets + [w.entity])
    ensures w.error.None? <==> (fault == NoFault || fault == FailAudit) && !PrefixTaken(st.subnets, subnet.prefix)
    ensures w.error == Some(Duplicate("subnet_prefix")) <==>
      (fault == NoFault || fault == FailAudit || fault == FailCommit) && PrefixTaken(st.subnets, subnet.prefix)
    // the allocated ID never collides, so only the prefix or the engine can fail the insert
    ensures w.error.Some? && w.error != Some(Duplicate("subnet_prefix")) ==> w.error == Some(Unavailable)
  {
    CreateSubnetWith(HookCorrected, st, server, sharedNetwork, subnet, now, fault)
  }

  /**
   CreateSubnet4 as kea.go writes it: on an empty subnet table the hook fails
   with "record not found" and the create rolls back; on a non-empty table it
   behaves as the corrected create.
   */
  function CreateSubnet4AsWritten(st: Store, server: Server, sharedNetwork: SharedNetwork, subnet: Subnet, now: Timestamp, fault: Fault)
    : (w: Written<Subnet>)
    ensures w.entity.sharedNetworkName == Some(sharedNetwork.name)
    ensures w.entity.servers == subnet.servers + [server]
    ensures w.error.Some? ==> w.store == st
    ensures |st.subnets| == 0 ==> w.error.Some? && w.store == st
    ensures |st.subnets| == 0 ==>
      w.entity == subnet.(sharedNetworkName := Some(sharedNetwork.name), servers := subnet.servers + [server],
                          params := subnet.params.(modifiedAt := now))
    ensures |st.subnets| == 0 && fault != FailLastQuery ==> w.error == Some(RecordNotFound)
    ensures |st.subnets| > 0 ==> w == CreateSubnet4(st, server, sharedNetwork, subnet, now, fault)
  {
    CreateSubnetWith(HookAsWritten, st, server, sharedNetwork, subnet, now, fault)
  }
}
