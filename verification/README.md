# Kea DHCPv4 configuration store and IPv4 byte order, in Dafny

This project models the stateful core of a small Go program that writes Kea
DHCPv4 configuration records (servers, shared networks, subnets) through gorm
into Kea's MySQL configuration backend, together with the big-endian
conversion of an IPv4 address between a 32-bit integer and four bytes.

The MySQL database is replaced by an abstract in-memory `Store`: one sequence
per table (`servers`, `sharedNetworks`, `subnets`, rows in insertion order)
plus the append-only audit-revision log. Each stored record keeps the
`servers` list the caller handed to gorm, standing for its many-to-many join
rows (see "## Left out" for how gorm's join rows differ). A transaction is a `Tx` holding the committed
store and a working snapshot; rollback discards the snapshot and commit
installs it. The creates are pure functions from (store, inputs) to a
`Written` value: the store afterwards, the caller's record as the Go call
leaves it (the Go functions mutate it through a pointer), and the error. One
exception: gorm writes an auto-increment ID back into a shared network, which
the model does not (see the line on IDs under "## Left out").

Modules:

- `Wrappers`: `Option` and `Result`.
- `IpConvert`: `PutUint32` / `Uint32` over `seq<byte>`, against the positional
  reference `BigEndianValue` (network byte order, Appendix B of RFC 791).
- `KeaTypes`: the records, the store, the engine's error and fault values,
  the unique-constraint invariant `Valid` and `IdsContiguous`.
- `KeaLookup`: `GetDHCP4Server`, `GetSharedNetwork4`.
- `KeaStore`: transaction snapshot, the audit stored procedure, the two
  `BeforeCreate` hooks (the subnet hook as written and corrected), subnet ID
  allocation, the inserts and their unique constraints.
- `KeaWriter`: `CreateSharedNetwork4`, `CreateSubnet4` (corrected) and
  `CreateSubnet4AsWritten`.
- `KeaProperties`: lemmas relating several calls.

Inputs that come from outside the program are parameters: the clock reading
`now` (one reading serves both the audit revision and the `BeforeCreate`
stamp of a call), a `Fault` naming the store round trip of a create that the
engine fails (`FailAudit`, `FailLastQuery`, `FailInsert`, `FailCommit`, or
`NoFault`), and
for the lookups a flag saying whether the engine fails the SELECT.

Points where kea.go itself decides the modelled behaviour:

- kea.go never checks the error of the `createAuditRevisionDHCP4` call
  (kea.go:131, kea.go:149), and gorm's `Exec` returns a new handle, so a failed
  call leaves `tx` usable: the create goes on and, if the insert and commit
  succeed, commits the row without any audit revision (`FailAudit`). A
  revision that was written is rolled back with a failed insert.
- kea.go:146 calls `audit` with two of its three arguments and does not
  compile; it is not modelled, and the subnet's audit revision is the one
  written inside the transaction (kea.go:148-149).
- A constraint violation surfaces as the engine's error, modelled as
  `Duplicate(column)`; an engine failure as `Unavailable`; gorm's "record not
  found" as `RecordNotFound`.
- Server lists are Go slices: `append` adds the server at the end, so they are
  sequences, not sets.
- The subnet `BeforeCreate` hook, as written, cannot number the first subnet
  (see "## Findings"); `CreateSubnet4` and the lemmas about serial creates use
  the corrected hook, and `CreateSubnet4AsWritten` keeps the behaviour as
  written.

## Model

| member | source | states |
|---|---|---|
| `IpConvert.PutUint32` | ip_convert.go:11-12 | the buffer keeps its length and its bytes past the fourth; the first four bytes read most significant first have the value `v` |
| `IpConvert.Uint32` | ip_convert.go:15 | the result is the value of the first four bytes read most significant first |
| `IpConvert.PutUint32Layout` | ip_convert.go:12 | byte `i` of the encoding is base-256 digit `3 - i` of `v`: `v / 256^(3-i) % 256` |
| `IpConvert.RoundTrip` | ip_convert.go:12-15 | decoding the encoding of any 32-bit `v` gives `v` back, whatever the buffer held |
| `IpConvert.InverseRoundTrip` | ip_convert.go:12-15 | encoding the decoded value of a buffer of at least four bytes gives back the same buffer |
| `IpConvert.ExampleAddress` | ip_convert.go:11-15 | 173218814 encodes to the bytes 10, 83, 27, 254 and those bytes decode to 173218814 |
| `KeaLookup.FirstIndexOf` | kea.go:105 | the index found holds the key and no earlier row does; no index means no row holds it |
| `KeaLookup.GetDHCP4Server` | kea.go:103-110 | a server is returned exactly when the SELECT does not fail, the tag is non-empty and some row has it; the returned server is a row of the table with that tag |
| `KeaLookup.GetSharedNetwork4` | kea.go:113-120 | a network is returned exactly when the SELECT does not fail, the name is non-empty and some row has it; it is that row with an empty server list, as Scan does not load associations |
| `KeaLookup.GetDHCP4ServerFindsTheRow` | kea.go:103-110 | in a store meeting the unique constraints, looking up a row's non-empty tag returns that very row |
| `KeaLookup.GetSharedNetwork4FindsTheRow` | kea.go:113-120 | in a store meeting the unique constraints, looking up a row's non-empty name returns that row without its server list |
| `KeaLookup.GetDHCP4ServerAfterAddingServer` | kea.go:103-110 | the lookup misses on an empty server table and, after a server with a new non-empty tag is added, returns it |
| `KeaStore.Commit` | kea.go:142 | without an engine failure the snapshot becomes the store and no error is returned; with one the committed store stays and the error is returned |
| `KeaStore.CreateAuditRevision` | kea.go:129-131 | unless the call fails, the audit log of the snapshot gains exactly one revision at its end, with the time, the acting tag, the message and the flag set; a failed call changes nothing; the committed store and the other tables never change |
| `KeaStore.BeforeCreateSharedNetwork` | kea.go:54-57 | the modification timestamp becomes `now`; every other field and parameter column is kept |
| `KeaStore.MaxSubnetId` | kea.go:79-80 | the last subnet by primary key has an ID no smaller than any row's and is a row's ID |
| `KeaStore.NextSubnetId` | kea.go:79-89 | the rule the hook intends: the new ID exceeds every existing ID and is one past an existing ID; it is 1 when the table is empty |
| `KeaStore.BeforeCreateSubnetAsWritten` | kea.go:76-92 | the hook as written: stamps the modification time and changes nothing but the ID; a failed read is an engine error and an empty table a "record not found" error, both with the ID unchanged; otherwise the ID is one past the largest |
| `KeaStore.BeforeCreateSubnet` | kea.go:76-92 | the corrected hook: stamps the modification time and changes nothing but the ID; it fails exactly on an engine failure of the read, leaving the ID; otherwise the ID is 1 in an empty table and one past the largest ID otherwise |
| `KeaStore.InsertSharedNetwork` | kea.go:138 | the insert succeeds exactly when the engine does not fail and the name (unique at kea.go:48) is new, appending the row to the snapshot; a taken name is a duplicate-name error |
| `KeaStore.InsertSubnet` | kea.go:157 | the insert succeeds exactly when the engine does not fail and the ID (primary key) and the prefix (unique at kea.go:66) are new, appending the row; each failure reports its cause |
| `KeaStore.StatementsKeepCommitted` | kea.go:129-138 | running any sequence of the transaction's statements (audit call, inserts), stopping at the first failure, leaves the committed store untouched |
| `KeaStore.RollbackRestoresBegin` | kea.go:129-142 | whatever statements a transaction begun on a store ran, and wherever one failed, rollback returns that store and a failed commit keeps it |
| `KeaWriter.CreateSharedNetwork4` | kea.go:128-143 | the server list becomes the prior list with the acting server appended; on error every table and the audit log are unchanged; on success exactly the record and one audit revision ("add new shared network: " + name, acting tag, flag true) are added, or the record alone when the ignored audit call failed, and nothing else changes; success exactly when the engine does not fail the insert or commit and the name is new; a duplicate-name error exactly when the name is taken and the insert ran; any other error is an engine failure |
| `KeaWriter.CreateSubnet4` | kea.go:145-162 | with the corrected hook: the subnet refers to the given shared network by name and its server list is the prior list with the acting server appended; every other column is the caller's except the ID and the timestamp, and a failed read leaves the ID; its ID is 1 in an empty table and otherwise one past the largest ID; on error the store is unchanged; on success exactly the subnet and one audit revision ("add new subnet: " + prefix) are added, or the subnet alone when the ignored audit call failed; success exactly when no fault other than the audit call's occurs and the prefix is new; a duplicate-prefix error exactly when the prefix is taken and the insert ran; the ID constraint never fails |
| `KeaWriter.CreateSubnet4AsWritten` | kea.go:145-162 | as written: the shared-network name is set and the server appended; on an empty subnet table the create always fails, with "record not found" unless the read itself fails, the store is unchanged and the caller's subnet keeps its ID; on a non-empty table it is the corrected create |
| `KeaProperties.CreateSharedNetwork4KeepsValid` | kea.go:128-143 | a shared-network create keeps names, tags, prefixes and subnet IDs unique |
| `KeaProperties.CreateSubnet4KeepsValid` | kea.go:145-162 | a subnet create keeps prefixes and subnet IDs (and the other keys) unique |
| `KeaProperties.CreateSubnet4KeepsIdsContiguous` | kea.go:76-92 | when subnet IDs are 1..n, after any subnet create they are still 1..m in row order |
| `KeaProperties.SerialCreatesNumberSubnets` | kea.go:79-89 | any serial sequence of subnet creates, successful or not, keeps the IDs a contiguous run 1..n without gaps or repeats |
| `KeaProperties.SuccessfulRunAppendsInOrder` | kea.go:157-161 | when every create of a run succeeds, the subnet table keeps its rows and gains one row per request, carrying the requests' prefixes in request order |
| `KeaProperties.SubnetIdsFromEmptyTable` | kea.go:79-89 | from an empty subnet table the IDs are 1..n; when every request succeeds there is one subnet per request and request k's prefix has ID k + 1 |
| `KeaProperties.EmptyTableRejectsFirstSubnet` | kea.go:80-89 | on an empty subnet table with no engine failure, the create as written fails with "record not found" and changes nothing, while the corrected create adds one subnet with ID 1 |
| `KeaProperties.AsWrittenSubnetTableStaysEmpty` | kea.go:80-89 | as written, any run of subnet creates on a store without subnets leaves the whole store unchanged |
| `KeaProperties.CreatedSharedNetworkIsFound` | kea.go:128-143 | after a successful shared-network create, looking up its non-empty name returns the record written, without its server list |
| `KeaProperties.SubnetJoinsCreatedSharedNetwork` | kea.go:150-156 | a subnet created under a shared network read back by name refers to that name, and the acting server is in both records' server lists |
| `KeaProperties.DuplicatePrefixKeepsSubnetCount` | kea.go:157-160 | a subnet create with a taken prefix fails with a duplicate-prefix error and leaves the subnet table and the audit log the same size |

## Findings

| source | as written | input that shows it | evidently intended | confidence | as-written member | corrected member |
|---|---|---|---|---|---|---|
| kea.go:80-89 | gorm v1's `Last` into a struct sets `ErrRecordNotFound` as the query's error when no row comes back; the hook tests `db.Error` first (kea.go:81-82) and returns it, so the branch giving ID 1 (kea.go:87-89) is unreachable and the insert is rolled back | an empty subnet table, no engine failure, any prefix: the create returns "record not found" and no subnet is ever created | the first subnet gets ID 1 and later ones 2, 3, ... | not executed; rests on gorm v1's query callback, which is not part of this model | `KeaWriter.CreateSubnet4AsWritten`, `KeaProperties.EmptyTableRejectsFirstSubnet`, `KeaProperties.AsWrittenSubnetTableStaysEmpty` | `KeaWriter.CreateSubnet4`, `KeaProperties.SubnetIdsFromEmptyTable` |

## Left out

- Database connection, `LogMode`, `main` and the dotted-quad rendering of `net.IP` (kea.go:164-195, ip_convert.go:9-16 apart from the two conversions): I/O and library formatting around the modelled operations.
- The `audit` helper (kea.go:122-126) and its call at kea.go:146: the call does not compile and the helper's transaction is never closed, so no behaviour is assigned to it.
- The `DHCP4SharedNetwork.Create` stub (kea.go:59-61): it has no body.
- The contents of the parameter block (kea.go:16-43), including the `float32` fields: kept as an opaque map of column values; only its modification timestamp is set.
- The effect of the `createAuditRevisionDHCP4` procedure beyond appending one revision, and Kea's schema triggers: they are in the database schema, not in this program.
- IDs of servers and shared networks: the engine's auto-increment assigns them and gorm writes the new ID back into the caller's shared network; the model stores and returns the record's ID as given and checks no primary key for shared networks.
- The join rows behind the stored `servers` lists: gorm adds a join row only for a server with a non-zero ID and skips one that already exists, so the join table holds each such server once; the model's stored list is the caller's list, zero-ID servers and repeats included. No property reads the stored lists.
- Foreign keys of the join tables and of `shared_network_name`: declared in the database schema, which is not part of this model.
- MySQL string collation: keys are compared by exact equality, not by MySQL's case-insensitive, trailing-space-insensitive comparison.
- Concurrent writers: calls are serialized, so the race between reading the last subnet ID and inserting is not modelled.
- A nil server list and an empty one are both the empty sequence: appending to either gives the same list (kea.go:133-136).
- Which row a lookup returns when several rows share the key: the model takes the first, whereas gorm's `Scan` into one struct overwrites it row by row and keeps the last; the unique constraints rule this case out in a valid store.
- A nil `server` or `sharedNetwork` pointer: kea.go:131, kea.go:149 and kea.go:150 dereference it and panic; `main` checks both lookups first (kea.go:173, kea.go:185), and the model's records are values that cannot be nil.
- A failure of `db.Begin()` itself: gorm then reports the error on every later statement of the transaction; the model's transactions always open.
- IpConvert.PutUint32, IpConvert.Uint32: on a buffer shorter than four bytes Go panics; the `requires` of four bytes makes this the caller's obligation and the panic is not modelled.
