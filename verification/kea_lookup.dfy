/**
 The read-only accessors of kea.go: GetDHCP4Server and GetSharedNetwork4.
 Both select the rows whose key column equals the argument and Scan them into
 a fresh record; they answer "none" when no row was scanned or the scanned
 record still has an empty key. A SELECT the engine fails scans no row, so
 it also answers "none"; `selectFails` says whether the engine fails it.
 */
module KeaLookup {
  import opened Wrappers
  import opened KeaTypes

  /** Index of the first key equal to k, scanning the rows in table order. */
  function FirstIndexOf(keys: seq<string>, k: string): (r: Option<nat>)
    ensures r.Some? ==> r.value < |keys| && keys[r.value] == k
    ensures r.Some? ==> forall j :: 0 <= j < r.value ==> keys[j] != k
    ensures r.None? ==> forall j :: 0 <= j < |keys| ==> keys[j] != k
  {
    if |keys| == 0 then None
    else if keys[0] == k then Some(0)
    else
      match FirstIndexOf(keys[1..], k)
      case None => None
      case Some(i) => Some(i + 1)
  }

  function Tags(rows: seq<Server>): seq<string>
  {
    seq(|rows|, i requires 0 <= i < |rows| => rows[i].tag)
  }

  function Names(rows: seq<SharedNetwork>): seq<string>
  {
    seq(|rows|, i requires 0 <= i < |rows| => rows[i].name)
  }

  /** GetDHCP4Server: the server row whose tag is `tag`, if any and non-empty. */
  function GetDHCP4Server(st: Store, tag: string, selectFails: bool): (r: Option<Server>)
    ensures r.Some? <==> !selectFails && tag != "" && TagTaken(st.servers, tag)
    ensures r.Some? ==> r.value.tag == tag && r.value in st.servers
  {
    if selectFails then None
    else
      var keys := Tags(st.servers);
      assert forall j :: 0 <= j < |keys| ==> keys[j] == st.servers[j].tag;
      match FirstIndexOf(keys, tag)
      case None => None
      case Some(i) =>
        var row := st.servers[i];
        if row.tag == "" then None else Some(row)
  }

  /**
   GetSharedNetwork4: the shared-network row whose name is `name`, if any and
   non-empty. Scan reads the table's own columns only, so the many-to-many
   server list of the returned record is empty.
   */
  function GetSharedNetwork4(st: Store, name: string, selectFails: bool): (r: Option<SharedNetwork>)
    ensures r.Some? <==> !selectFails && name != "" && NameTaken(st.sharedNetworks, name)
    ensures r.Some? ==> r.value.name == name && r.value.servers == []
    ensures r.Some? ==>
      exists i :: 0 <= i < |st.sharedNetworks| && st.sharedNetworks[i].(servers := []) == r.value
  {
    if selectFails then None
    else
      var keys := Names(st.sharedNetworks);
      assert forall j :: 0 <= j < |keys| ==> keys[j] == st.sharedNetworks[j].name;
      match FirstIndexOf(keys, name)
      case None => None
      case Some(i) =>
        var row := st.sharedNetworks[i];
        if row.name == "" then None else Some(row.(servers := []))
  }

  /** In a valid store the lookup finds exactly the row carrying the tag. */
  lemma GetDHCP4ServerFindsTheRow(st: Store, i: nat)
    requires Valid(st)
    requires i < |st.servers| && st.servers[i].tag != ""
    ensures GetDHCP4Server(st, st.servers[i].tag, false) == Some(st.servers[i])
  {
  }

  /** In a valid store the lookup finds exactly the row carrying the name. */
  lemma GetSharedNetwork4FindsTheRow(st: Store, i: nat)
    requires Valid(st)
    requires i < |st.sharedNetworks| && st.sharedNetworks[i].name != ""
    ensures GetSharedNetwork4(st, st.sharedNetworks[i].name, false) == Some(st.sharedNetworks[i].(servers := []))
  {
  }

  /**
   A lookup misses on an empty server table and, once a server carrying a new
   non-empty tag is added, returns that server.
   */
  lemma GetDHCP4ServerAfterAddingServer(st: Store, s: Server)
    requires s.tag != "" && !TagTaken(st.servers, s.tag)
    ensures GetDHCP4Server(st.(servers := []), s.tag, false) == None
    ensures GetDHCP4Server(st.(servers := st.servers + [s]), s.tag, false) == Some(s)
  {
    var st' := st.(servers := st.servers + [s]);
    var k := FirstIndexOf(Tags(st'.servers), s.tag);
    assert Tags(st'.servers)[|st.servers|] == s.tag;
    assert k.Some?;
    assert k.value == |st.servers|;
  }
}
