/**
 Records of the Kea DHCPv4 configuration store (kea.go) and the abstract
 in-memory store that replaces the MySQL database: one sequence per table,
 rows in insertion order, plus the append-only audit-revision log.
 */
module KeaTypes {
  import opened Wrappers

  /** A reading of time.Now(); the model never inspects it. */
  type Timestamp = nat

  /**
   The embedded DHCP4Params block (kea.go:16-43), kept opaque: every tuning
   column that is not NULL, by column name. Only the mandatory ModifiedAt
   timestamp is touched by this core.
   */
  datatype Params = Params(columns: map<string, string>, modifiedAt: Timestamp)

  /** DHCP4Server (kea.go:95-100): the tag is unique and not null. */
  datatype Server = Server(id: int, tag: string, description: string, modifiedAt: Timestamp)

  /**
   DHCP4SharedNetwork (kea.go:46-51): the name is unique and not null;
   servers are the rows of the dhcp4_shared_network_server join table.
   */
  datatype SharedNetwork = SharedNetwork(id: int, name: string, servers: seq<Server>, params: Params)

  /**
   DHCP4Subnet (kea.go:64-73): the ID is the primary key (subnet_id) and the
   prefix is unique and not null; servers are the rows of dhcp4_subnet_server.
   */
  datatype Subnet = Subnet(
    id: int,
    prefix: string,
    v4o6Interface: Option<string>,
    v4o6InterfaceId: Option<string>,
    v4o6Subnet: Option<string>,
    sharedNetworkName: Option<string>,
    servers: seq<Server>,
    params: Params)

  /** One row written by the createAuditRevisionDHCP4 stored procedure. */
  datatype AuditRevision = AuditRevision(timestamp: Timestamp, serverTag: string, message: string, configAffected: bool)

  /** The committed contents of the configuration database. */
  datatype Store = Store(
    servers: seq<Server>,
    sharedNetworks: seq<SharedNetwork>,
    subnets: seq<Subnet>,
    revisions: seq<AuditRevision>)

  /** What the storage engine reports when a statement fails. */
  datatype DbError =
    | Duplicate(column: string)   // a unique or primary-key constraint rejected the row
    | Unavailable                 // the connection or the engine failed
    | RecordNotFound              // a query into one record found no row

  /**
   The store round trip that the engine fails, if any. The engine's
   behaviour is outside the model, so the caller chooses it.
   */
  datatype Fault =
    | NoFault
    | FailAudit       // the createAuditRevisionDHCP4 call fails; kea.go ignores its error
    | FailLastQuery   // the subnet hook's read of the last subnet fails
    | FailInsert      // the INSERT fails
    | FailCommit      // the COMMIT fails

  predicate TagTaken(rows: seq<Server>, tag: string)
  {
    exists i :: 0 <= i < |rows| && rows[i].tag == tag
  }

  predicate NameTaken(rows: seq<SharedNetwork>, name: string)
  {
    exists i :: 0 <= i < |rows| && rows[i].name == name
  }

  predicate PrefixTaken(rows: seq<Subnet>, prefix: string)
  {
    exists i :: 0 <= i < |rows| && rows[i].prefix == prefix
  }

  predicate SubnetIdTaken(rows: seq<Subnet>, id: int)
  {
    exists i :: 0 <= i < |rows| && rows[i].id == id
  }

  /** The unique constraints of the schema hold in every table. */
  ghost predicate Valid(st: Store)
  {
    && (forall i, j :: 0 <= i < j < |st.servers| ==> st.servers[i].tag != st.servers[j].tag)
    && (forall i, j :: 0 <= i < j < |st.sharedNetworks| ==> st.sharedNetworks[i].name != st.sharedNetworks[j].name)
    && (forall i, j :: 0 <= i < j < |st.subnets| ==> st.subnets[i].prefix != st.subnets[j].prefix)
    && (forall i, j :: 0 <= i < j < |st.subnets| ==> st.subnets[i].id != st.subnets[j].id)
  }

  /** Subnet IDs are exactly 1, 2, ..., n in insertion order. */
  ghost predicate IdsContiguous(rows: seq<Subnet>)
  {
    forall i :: 0 <= i < |rows| ==> rows[i].id == i + 1
  }
}
