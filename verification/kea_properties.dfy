/**
 Properties that relate several operations of the Kea store model: the
 unique constraints are kept, serial subnet creates number subnets 1..n, and
 what a create writes is what the lookups read back.
 */
module KeaProperties {
  import opened Wrappers
  import opened KeaTypes
  import opened KeaLookup
  import opened KeaWriter

  /** A shared-network create keeps every unique constraint of the store. */
  lemma CreateSharedNetwork4KeepsValid(st: Store, server: Server, network: SharedNetwork, now: Timestamp, fault: Fault)
    requires Valid(st)
    ensures Valid(CreateSharedNetwork4(st, server, network, now, fault).store)
  {
  }

  /** A subnet create keeps every unique constraint, the ID's included. */
  lemma CreateSubnet4KeepsValid(st: Store, server: Server, sharedNetwork: SharedNetwork, subnet: Subnet, now: Timestamp, fault: Fault)
    requires Valid(st)
    ensures Valid(CreateSubnet4(st, server, sharedNetwork, subnet, now, fault).store)
  {
  }

  /** With IDs 1..n, the next subnet gets n + 1, so the run stays unbroken. */
  lemma CreateSubnet4KeepsIdsContiguous(st: Store, server: Server, sharedNetwork: SharedNetwork, subnet: Subnet, now: Timestamp, fault: Fault)
    requires IdsContiguous(st.subnets)
    ensures IdsContiguous(CreateSubnet4(st, server, sharedNetwork, subnet, now, fault).store.subnets)
  {
    var w := CreateSubnet4(st, server, sharedNetwork, subnet, now, fault);
    var n := |st.subnets|;
    if w.error.None? {
      if n > 0 {
        assert st.subnets[n - 1].id == n;
        assert w.entity.id > n;
        var i :| 0 <= i < n && st.subnets[i].id + 1 == w.entity.id;
        assert w.entity.id == n + 1;
      }
      assert w.store.subnets[n] == w.entity;
    }
  }

  /** One subnet create request, as a caller would issue it. */
  datatype SubnetRequest = SubnetRequest(
    server: Server, sharedNetwork: SharedNetwork, subnet: Subnet, now: Timestamp, fault: Fault)

  /** Runs one request with the chosen subnet hook. */
  function Apply(hook: SubnetHook, st: Store, r: SubnetRequest): Written<Subnet>
  {
    if hook == HookCorrected then CreateSubnet4(st, r.server, r.sharedNetwork, r.subnet, r.now, r.fault)
    else CreateSubnet4AsWritten(st, r.server, r.sharedNetwork, r.subnet, r.now, r.fault)
  }

  /** The store after running the requests one after another. */
  function CreateSubnets(hook: SubnetHook, st: Store, reqs: seq<SubnetRequest>): Store
    decreases |reqs|
  {
    if |reqs| == 0 then st
    else CreateSubnets(hook, Apply(hook, st, reqs[0]).store, reqs[1..])
  }

  /**
   Serial subnet creates, whichever succeed and whichever fail, leave the
   subnet IDs a contiguous run 1..n with no gap and no repeat.
   */
  lemma {:induction false} SerialCreatesNumberSubnets(st: Store, reqs: seq<SubnetRequest>)
    requires IdsContiguous(st.subnets)
    ensures IdsContiguous(CreateSubnets(HookCorrected, st, reqs).subnets)
    decreases |reqs|
  {
    if |reqs| > 0 {
      var r := reqs[0];
      CreateSubnet4KeepsIdsContiguous(st, r.server, r.sharedNetwork, r.subnet, r.now, r.fault);
      SerialCreatesNumberSubnets(Apply(HookCorrected, st, r).store, reqs[1..]);
    }
  }

  /** Every request succeeds in the store the requests before it left. */
  ghost predicate AllSucceed(st: Store, reqs: seq<SubnetRequest>)
    decreases |reqs|
  {
    |reqs| == 0 ||
    (Apply(HookCorrected, st, reqs[0]).error.None? && AllSucceed(Apply(HookCorrected, st, reqs[0]).store, reqs[1..]))
  }

  /** A successful create appends one subnet carrying the request's prefix. */
  lemma SuccessfulCreateAppends(st: Store, r: SubnetRequest)
    requires Apply(HookCorrected, st, r).error.None?
    ensures Apply(HookCorrected, st, r).store.subnets == st.subnets + [Apply(HookCorrected, st, r).entity]
    ensures Apply(HookCorrected, st, r).entity.prefix == r.subnet.prefix
  {
  }

  /**
   A run in which every create succeeds keeps the rows it found and appends
   one subnet per request, in request order.
   */
  lemma {:induction false} SuccessfulRunAppendsInOrder(st: Store, reqs: seq<SubnetRequest>)
    requires AllSucceed(st, reqs)
    ensures |CreateSubnets(HookCorrected, st, reqs).subnets| == |st.subnets| + |reqs|
    ensures CreateSubnets(HookCorrected, st, reqs).subnets[..|st.subnets|] == st.subnets
    ensures forall k :: 0 <= k < |reqs| ==>
      CreateSubnets(HookCorrected, st, reqs).subnets[|st.subnets| + k].prefix == reqs[k].subnet.prefix
    decreases |reqs|
  {
    if |reqs| > 0 {
      var w := Apply(HookCorrected, st, reqs[0]);
      var rest := reqs[1..];
      SuccessfulCreateAppends(st, reqs[0]);
      SuccessfulRunAppendsInOrder(w.store, rest);
      var final := CreateSubnets(HookCorrected, w.store, rest).subnets;
      assert CreateSubnets(HookCorrected, st, reqs).subnets == final;
      AppendedRows(st.subnets, w.entity, final, reqs, rest);
    }
  }

  /** The sequence step of the run: prefix rows, the new row, then the rest in order. */
  lemma AppendedRows(s: seq<Subnet>, e: Subnet, final: seq<Subnet>, reqs: seq<SubnetRequest>, rest: seq<SubnetRequest>)
    requires |reqs| > 0 && rest == reqs[1..] && e.prefix == reqs[0].subnet.prefix
    requires |final| == |s| + 1 + |rest| && final[..|s| + 1] == s + [e]
    requires forall k :: 0 <= k < |rest| ==> final[|s| + 1 + k].prefix == rest[k].subnet.prefix
    ensures |final| == |s| + |reqs|
    ensures final[..|s|] == s
    ensures forall k :: 0 <= k < |reqs| ==> final[|s| + k].prefix == reqs[k].subnet.prefix
  {
  }

  /**
   From an empty subnet table, serial creates hand out IDs 1, 2, ..., n; when
   every request succeeds, request k gets ID k + 1 for its own prefix.
   */
  lemma SubnetIdsFromEmptyTable(st: Store, reqs: seq<SubnetRequest>)
    requires st.subnets == []
    ensures forall i :: 0 <= i < |CreateSubnets(HookCorrected, st, reqs).subnets| ==>
      CreateSubnets(HookCorrected, st, reqs).subnets[i].id == i + 1
    ensures AllSucceed(st, reqs) ==>
      && |CreateSubnets(HookCorrected, st, reqs).subnets| == |reqs|
      && forall k :: 0 <= k < |reqs| ==>
           && CreateSubnets(HookCorrected, st, reqs).subnets[k].id == k + 1
           && CreateSubnets(HookCorrected, st, reqs).subnets[k].prefix == reqs[k].subnet.prefix
  {
    SerialCreatesNumberSubnets(st, reqs);
    if AllSucceed(st, reqs) {
      SuccessfulRunAppendsInOrder(st, reqs);
    }
  }

  /**
   As written, the first subnet can never be created: on an empty table the
   create fails with "record not found", where the corrected create succeeds
   and gives the subnet ID 1.
   */
  lemma EmptyTableRejectsFirstSubnet(st: Store, server: Server, sharedNetwork: SharedNetwork, subnet: Subnet, now: Timestamp)
    requires st.subnets == []
    ensures CreateSubnet4AsWritten(st, server, sharedNetwork, subnet, now, NoFault).error == Some(RecordNotFound)
    ensures CreateSubnet4AsWritten(st, server, sharedNetwork, subnet, now, NoFault).store == st
    ensures CreateSubnet4(st, server, sharedNetwork, subnet, now, NoFault).error == None
    ensures |CreateSubnet4(st, server, sharedNetwork, subnet, now, NoFault).store.subnets| == 1
    ensures CreateSubnet4(st, server, sharedNetwork, subnet, now, NoFault).store.subnets[0].id == 1
  {
  }

  /** As written, a store without subnets keeps none, whatever requests are run. */
  lemma {:induction false} AsWrittenSubnetTableStaysEmpty(st: Store, reqs: seq<SubnetRequest>)
    requires st.subnets == []
    ensures CreateSubnets(HookAsWritten, st, reqs) == st
    decreases |reqs|
  {
    if |reqs| > 0 {
      AsWrittenSubnetTableStaysEmpty(Apply(HookAsWritten, st, reqs[0]).store, reqs[1..]);
    }
  }

  /** A shared network that was created is what GetSharedNetwork4 then returns. */
  lemma CreatedSharedNetworkIsFound(st: Store, server: Server, network: SharedNetwork, now: Timestamp, fault: Fault)
    requires Valid(st) && network.name != ""
    requires CreateSharedNetwork4(st, server, network, now, fault).error.None?
    ensures GetSharedNetwork4(CreateSharedNetwork4(st, server, network, now, fault).store, network.name, false)
      == Some(CreateSharedNetwork4(st, server, network, now, fault).entity.(servers := []))
  {
    var w := CreateSharedNetwork4(st, server, network, now, fault);
    CreateSharedNetwork4KeepsValid(st, server, network, now, fault);
    GetSharedNetwork4FindsTheRow(w.store, |st.sharedNetworks|);
  }

  /**
   Creating a shared network and then a subnet in the network read back by
   name: the subnet refers to the network by its name and the acting server
   is in both server lists.
   */
  lemma SubnetJoinsCreatedSharedNetwork(
    st: Store, server: Server, network: SharedNetwork, subnet: Subnet, now: Timestamp, later: Timestamp, fault: Fault)
    requires Valid(st) && network.name != ""
    requires CreateSharedNetwork4(st, server, network, now, NoFault).error.None?
    ensures
      var w1 := CreateSharedNetwork4(st, server, network, now, NoFault);
      var found := GetSharedNetwork4(w1.store, network.name, false);
      && found.Some?
      && var w2 := CreateSubnet4(w1.store, server, found.value, subnet, later, fault);
      && w2.entity.sharedNetworkName == Some(network.name)
      && server in w1.entity.servers
      && server in w2.entity.servers
  {
    CreatedSharedNetworkIsFound(st, server, network, now, NoFault);
  }

  /** A duplicate prefix is reported as such and the subnet table keeps its size. */
  lemma DuplicatePrefixKeepsSubnetCount(st: Store, server: Server, sharedNetwork: SharedNetwork, subnet: Subnet, now: Timestamp)
    requires PrefixTaken(st.subnets, subnet.prefix)
    ensures CreateSubnet4(st, server, sharedNetwork, subnet, now, NoFault).error == Some(Duplicate("subnet_prefix"))
    ensures |CreateSubnet4(st, server, sharedNetwork, subnet, now, NoFault).store.subnets| == |st.subnets|
    ensures |CreateSubnet4(st, server, sharedNetwork, subnet, now, NoFault).store.revisions| == |st.revisions|
  {
  }
}
