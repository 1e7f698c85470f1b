# Host-local to Calico IPAM conversion, modelled in Dafny

This project models the one-shot migration tool in `ipam_conversion/main.go`.
When a node is upgraded, the tool moves the IP allocations of the CNI
host-local plugin into Calico IPAM. The host-local store is the directory
`/var/lib/cni/networks/k8s-pod-network`. Each file in it is named after an
allocated address and holds the ID of the container that owns that address.
One extra file, whose name contains `last`, records the last reserved IP.

`readFiles` lists the directory and skips the sentinel. For every other
entry, it reads the file and parses `<name>/32` with Calico's CIDR parser.
It then calls `assignCalicoIP`, which builds the handle
`k8s-pod-network.<containerID>` and an `AssignIPArgs` whose `Hostname` is the
node name. That call creates a fresh Calico client and submits the
assignment. The first error of any kind panics and ends the run. Assignments
submitted before the error stay made.

## Structure

- `types.dfy` (module `Types`): addresses, `AssignIPArgs`, the events a run
  performs (`ReadFile`, `ParseCIDR`, `CreateClient`, `AssignIP`), the errors
  that stop it, and the external collaborators as oracles. `Attempts` picks
  out the assignments that were submitted.
- `assignment.dfy` (module `Assignment`): `assignCalicoIP`, covering the
  handle, the request, client creation and submission.
- `migration.dfy` (module `Migration`): the sentinel test (Go's
  `strings.Contains`) and how a record decodes. It also holds three
  definitions of the run:
  - `ProcessFile`, `Step`, `RunFrom` and `Convert` specify the run.
  - `Requests` is an independent reference for which requests a listing
    calls for.
  - `ReadFiles` is the imperative loop of `readFiles`, proved equal to
    `Convert`. Its body is the method `ProcessEntry`, proved equal to
    `ProcessFile`.
- `properties.dfy` (module `MigrationProperties`): the lemmas about the run.

How the program's inputs are modelled:

- The directory listing is a `Listing`: either the entries, or the error
  from listing.
- Each entry carries its name and the result of reading it.
- The node name (`KUBERNETES_NODE_NAME`) is a parameter.
- `cnet.ParseCIDR` is the oracle `parseCIDR`, a partial function.
- Client creation and `AssignIP` are the oracles `createClient` and
  `assignIP`. Each sees the history of events so far, so an oracle can
  behave like a stateful datastore (for example, refuse an address taken
  earlier).
- A `panic` becomes an `Error` in the final `State`, and the loop returns.

`readFiles` reads, parses and submits one entry at a time. So an unreadable
or unparsable entry stops the run after the earlier entries were already
assigned. It also creates a new client for every entry, not one client for
the whole run. The model follows the code on both points.

## Model

| member | source | states |
|---|---|---|
| `Assignment.HandleIDShape` | ipam_conversion/main.go:84 | The handle is `k8s-pod-network`, then a dot, then the container ID verbatim. Its length is the sum of those parts. |
| `Assignment.HandleIDInjective` | ipam_conversion/main.go:84 | Two handles are equal exactly when their container IDs are equal. Handle construction is deterministic and injective. |
| `Assignment.BuildArgsFields` | ipam_conversion/main.go:84-89 | The request carries the parsed IP unchanged and the node name as `Hostname`. Its handle identifies exactly one container ID: the record's content. |
| `Assignment.AssignCalicoIP` | ipam_conversion/main.go:83-101 | The first event is always client creation, and there are at most two events. Exactly one request is submitted when the client can be created, and none otherwise. The call fails exactly when client creation fails or the assignment is refused. A client error occurs exactly when client creation fails. Each error carries the collaborator's message unchanged. |
| `Migration.ContainsMeansOccurs` | ipam_conversion/main.go:61 | The sentinel test is true exactly when `last` occurs somewhere in the name. |
| `Migration.Decode` | ipam_conversion/main.go:65-73 | A record decodes exactly when its file is readable and `<name>/32` parses. The container ID is then the file content verbatim, and the IP is the result of parsing `<name>/32`. |
| `Migration.NonSentinel` | ipam_conversion/main.go:59-63 | The listing with sentinels removed keeps exactly the entries whose names do not contain `last`. |
| `MigrationProperties.NonSentinelCounts` | ipam_conversion/main.go:59-63 | Dropping the sentinels keeps every other entry as many times as the listing holds it, and no sentinel at all. |
| `MigrationProperties.NonSentinelAppend` | ipam_conversion/main.go:59-63 | Dropping the sentinels keeps listing order: filtering a concatenation is the concatenation of the filtered parts. |
| `Migration.RunFrom` | ipam_conversion/main.go:59-79 | Nothing that happened is undone. A stopped run stays stopped. A run can succeed only if it had not already failed. |
| `Migration.ProcessEntry` | ipam_conversion/main.go:60-78 | One pass of the loop body has exactly the events and the panic that `ProcessFile` gives the entry: nothing for a sentinel, otherwise the read, the parse, then client creation and submission, stopping at the first error. |
| `Migration.ReadFiles` | ipam_conversion/main.go:47-81 | The loop's events and final error equal those of the specification `Convert`. If the directory cannot be listed, the run fails with no event at all. |
| `MigrationProperties.ProcessFileAttempts` | ipam_conversion/main.go:59-79 | An entry causes no read, parse or submission exactly when it is a sentinel. It submits at most the request the entry calls for. If it succeeds, it submitted exactly that request and the entry decoded. |
| `MigrationProperties.SentinelsIgnored` | ipam_conversion/main.go:60-63 | Removing every sentinel entry from the listing leaves the run unchanged, including its events and its result. |
| `MigrationProperties.SentinelOnlyStoreIsNoOp` | ipam_conversion/main.go:60-63 | A store holding only `last_reserved_ip` converts successfully, with no event. |
| `MigrationProperties.StepFailures` | ipam_conversion/main.go:65-99 | Each way an entry fails gives a known final state and error. An unreadable file stops after the read. A bad name stops after the parse. A client error stops after client creation. A refused assignment stops after the submission. |
| `MigrationProperties.StopsAtFirstFailure` | ipam_conversion/main.go:65-78 | Once the run over the first entries has failed, any entries after them change nothing. No later entry is read, parsed or submitted. |
| `MigrationProperties.AbortsOnFirstError` | ipam_conversion/main.go:59-79 | If a run gets through some entries cleanly and the next entry fails, the whole conversion ends in exactly the state that entry left. |
| `MigrationProperties.FirstFailure` | ipam_conversion/main.go:59-79 | Every failed run has a first failing entry. Every entry before it went through, the run ends in the state handling it left, and nothing after it happened. |
| `MigrationProperties.EarlierWorkStays` | ipam_conversion/main.go:59-79 | The events and submissions of a run over some entries are a prefix of those of the run over those entries followed by more. Assignments made before a failure stay made. |
| `MigrationProperties.AttemptsFollowRequests` | ipam_conversion/main.go:59-79 | Submissions are always a prefix of the requests the listing calls for, in listing order. A successful run submits all of them. |
| `MigrationProperties.SuccessDecodesEveryRecord` | ipam_conversion/main.go:65-73 | A successful run met no unreadable file and no name that fails to parse. |
| `MigrationProperties.StepSucceeds` | ipam_conversion/main.go:60-99 | If the client and IPAM never fail, an entry that is the sentinel or decodes is handled without error. |
| `MigrationProperties.NoInducedFailureSucceeds` | ipam_conversion/main.go:59-99 | The run succeeds if every record decodes and the client and IPAM never fail. |
| `MigrationProperties.SucceedsIffAllDecodable` | ipam_conversion/main.go:59-79 | If the client and IPAM never fail, the conversion succeeds exactly when every non-sentinel record decodes. |
| `MigrationProperties.RequestsOnePerEntry` | ipam_conversion/main.go:59-89 | When every record decodes, each non-sentinel entry calls for exactly one request, in listing order, built from that entry. |
| `MigrationProperties.RequestsComeFromRecords` | ipam_conversion/main.go:65-89 | Every request the listing calls for carries the node name as host. Its IP is the parse of some non-sentinel record's `<name>/32`. Its handle is `k8s-pod-network.<that record's content>`. |
| `MigrationProperties.EveryAttemptMatchesARecord` | ipam_conversion/main.go:50-89 | A failed listing submits nothing. Otherwise submissions are a prefix of the listing's requests, and all of them on success. Every submission carries the node name, an IP parsed from a non-sentinel record's name plus `/32`, and that record's handle. |
| `MigrationProperties.NoFailuresMigratesEveryEntry` | ipam_conversion/main.go:59-79 | With no induced failure, the run succeeds and submits exactly one assignment per non-sentinel entry. The submissions follow listing order, and each is built from its entry and the node name. |
| `MigrationProperties.RequestsMultiset` | ipam_conversion/main.go:59-79 | Listings that are permutations of each other call for the same multiset of requests. |
| `MigrationProperties.ListingOrderIrrelevant` | ipam_conversion/main.go:59-79 | With no induced failure, two orderings of the same listing both succeed and submit the same multiset of assignments. |

## Left out

- `main` (logging setup, renaming the CNI config file, the one-second sleep): process and filesystem side effects with no logic.
- `createClient`: loading the datastore configuration and constructing the client are library calls. Only the fact that it can fail is kept, as the `createClient` oracle.
- The inside of `IPAM().AssignIP` (block selection, affinity, conflict detection) is library code. It is the `assignIP` oracle, which returns success or an error message.
- `cnet.ParseCIDR` and Go's address parsing are library code. The parse is an abstract partial function. The model makes no claim that `<name>/32` denotes a single host.
- Directory listing, file reads and `os.Getenv` are I/O. They are given as the `Listing`, each entry's `FileContents` and the `nodename` parameter. `ioutil.ReadDir` returns entries sorted by name. The model accepts the entries in any order, so its results cover every order, including the sorted one.
- A panic's stack trace and the non-zero exit status are not modelled. A panic is modelled as the `Error` that ends the run.
- File names and file contents are Go byte strings. The model holds them as Dafny strings with one character per byte. No property depends on the encoding: the marker `last` is ASCII, and concatenation and handle injectivity work the same on bytes.
- `AssignIPArgs` fields that the program leaves at their zero values (attributes, reserved-address settings) are not represented.
- `context.Background()` and timing: no cancellation or timeout exists to model.

