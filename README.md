# packet-bgp-agent: the announcement reconciliation core in Dafny

This project models the core of `PacketBGPAgent`, a Go agent that keeps a host's BGP anycast
announcements in step with the `BGP_ANNOUNCE` list in the instance's metadata. It covers:

- **Construction** (`NewPacketBGPAgent`). It picks the private management address, parses the
  ASN as a decimal `uint32` and starts gobgp with one neighbor (peer AS 65530, no listening port).
  The agent starts with an empty announcement table.
- **One metadata snapshot** (the body of the `EnsureIPs` watch loop). It updates the MD5 password
  and the ASN, decodes `BGP_ANNOUNCE`, and runs `EnsureBGP` only when that value has a recognised
  shape.
- **`EnsureBGP`**. A withdrawal pass deletes every table entry that is no longer desired, and only
  after its `DeletePath` succeeded. An addition pass then parses each desired CIDR, installs it on
  loopback, adds its path and stores the returned handle. Both passes return the first error at
  once.
- **`getPrivateIP`**. It returns the first IPv4, management, non-public address.

Layout:

- `common.dfy`: `Option`, `Result`, Go's errors, and `uint32`.
- `strconv.dfy`: `strconv.ParseUint(s, 10, 32)`, including Go's fallback values on error.
- `helpers.dfy`: `getPrivateIP`.
- `reconcile.dfy`: what one `EnsureBGP` pass means on values, with the lemmas about it.
- `agent.dfy`: the agent class, its loops, snapshot handling and construction.

The collaborators are oracles held in an `Environment` value of total functions: the gobgp server
(`Start`, `AddNeighbor`, `AddPath`, `DeletePath`), the netlink loopback install and
`net.ParseCIDR` (a validity predicate). `addPath(cidr, n)` answers the AddPath call that has `n`
AddPath calls before it in the same pass. Because the pass is fail-fast, `n` is the block's
position in the list. Go's map iteration order is unspecified, so the withdrawal loop picks its
next key with `:|`. Its specification (`Reconcile.Reconciled`) quantifies over the order in which
stale keys were visited. A ghost `calls` trace on the agent records every call made on the gobgp
server and the loopback device. The `net.ParseCIDR` check is not recorded.

In some places the intended behaviour and the code disagree. The model follows the code:

- Intended: best-effort processing of every block. The code is fail-fast and stops at the first
  failing block.
- Intended: a CIDR listed twice is added once. The code makes two loopback installs and two
  AddPath calls, and the later handle wins.
- Intended: an unparseable ASN falls back to 65000. The code does not skip a malformed ASN string
  in a snapshot. Go's fallback value becomes the ASN: 0 for a syntax error, 4294967295 for an
  overflow. A value of any unrecognised type becomes 0. At construction, by contrast, a malformed
  ASN string is not replaced by a fallback: `NewPacketBGPAgent` returns the parse error.
- An `MD5_PASSWORD` that is not a string, or a `BGP_ANNOUNCE` list element that is not a string,
  makes the Go type assertion panic. The model reports this as the `Panicked` outcome.

## Model

| member | source | states |
|---|---|---|
| `Strconv.ParseUint32` | agent.go:38-42 | Accepts exactly the non-empty all-digit strings whose value is at most 2^32-1, and returns that value. Reading left to right: the empty string, or a non-digit met while the leading digits are still within 32 bits, gives a syntax error with value 0. Leading digits whose value passes 2^32-1 give a range error with value 2^32-1, whatever follows them. |
| `Strconv.FormatParseRoundTrip` | agent.go:38-42 | Every 32-bit number written in decimal parses back to itself without error. |
| `Helpers.FirstPrivateIndex` | helpers.go:16-20 | Returns the position of the first address that is IPv4, management and not public. No earlier address qualifies. If none qualifies, it returns the list length. |
| `Helpers.GetPrivateIP` | helpers.go:11-22 | A metadata error is returned unchanged. Otherwise it returns an address exactly when one qualifies. That address qualifies and is the first qualifying one in list order. When none qualifies, the error is "No IP found". |
| `Agent.DecodeASN` | agent.go:108-120 | A string is read as a decimal `uint32`: its value when valid, 0 on a syntax error, 2^32-1 on overflow. A number is taken as is. Any other type gives 0. |
| `Agent.Contains` | agent.go:158-163 | The inner search of the withdrawal pass is true exactly when the key is one of the desired CIDRs. |
| `Agent.StringsOf` | agent.go:136-141 | A list succeeds exactly when every element is a string, and yields those strings in the same order. Otherwise the element type assertion fails. |
| `Agent.NewPacketBGPAgent` | agent.go:32-79 | Errors come in source order: private-IP lookup, ASN parse, `Start`, `AddNeighbor`. An agent is returned exactly when there is no error. Start gets router ID = gateway, port -1 and the parsed AS. The neighbor is the gateway with peer AS 65530 and the given password. The new agent has an empty table, an empty desired list, nothing ever desired, the given password and the parsed ASN. |
| `Agent.PacketBGPAgent.constructor` | agent.go:70-78 | The initial state: empty desired list, empty table, nothing ever desired, given password, ASN and private address. |
| `Agent.PacketBGPAgent.WithdrawKey` | agent.go:158-173 | A desired key is left alone with no call. For a stale key, DeletePath is called on its stored handle. The entry is removed only if that call succeeds, and its error is returned. |
| `Agent.PacketBGPAgent.Withdraw` | agent.go:157-174 | DeletePath is called only on stale keys, each at most once. The pass stops at the first failing one, which stays in the table. Without error the table is the old one with exactly the stale keys removed. The trace holds the DeletePath calls in visit order. |
| `Agent.PacketBGPAgent.AnnounceBlock` | agent.go:177-199 | One block is parsed, installed and added in that order, and the first failing step returns its error with the table unchanged. On success the table maps the CIDR to the handle AddPath returned. |
| `Agent.PacketBGPAgent.Announce` | agent.go:176-200 | The new table, the error and the calls equal the addition-pass specification `Reconcile.AddPass` applied to the old table. |
| `Agent.PacketBGPAgent.EnsureBGP` | agent.go:154-202 | Old and new table, error and calls are related by `Reconcile.Reconciled`. On nil the key set equals the desired CIDRs. Keys never go beyond the old keys plus the desired ones. |
| `Agent.PacketBGPAgent.AdoptAnnouncement` | agent.go:133-148 | The outcome is a panic exactly when the value is a list with a non-string element. It is "unrecognised" exactly when the value is neither a string nor a list. In both cases the desired list, the table and the calls stay as they were. Otherwise a string becomes a one-element list and a list of strings is kept in order. `EnsureBGP` then runs, related by `Reconciled`. The blocks ever desired grow by the new list only in that case. |
| `Agent.PacketBGPAgent.HandleSnapshot` | agent.go:101-148 | A non-string MD5_PASSWORD panics with nothing changed. A present MD5_PASSWORD is adopted. A present ASN is adopted as decoded, and an absent one leaves the ASN as it was. The outcome is a panic exactly when MD5_PASSWORD is not a string or BGP_ANNOUNCE is a list with a non-string element. It is "unset" exactly when BGP_ANNOUNCE is missing and "unrecognised" exactly when it is neither a string nor a list. Otherwise the decoded list is adopted and `EnsureBGP` runs. Only then do the list, table and calls change, and only then do the blocks ever desired grow, by the new list. |
| `Reconcile.WithdrawalFailsIff` | agent.go:157-174 | In every visit order, the withdrawal pass fails exactly when some stale entry's DeletePath fails. |
| `Reconcile.AddPassFrame` | agent.go:176-200 | The addition pass never removes a key and never calls DeletePath. It only adds desired keys and leaves undesired entries as they were. |
| `Reconcile.AddPassSucceeds` | agent.go:176-200 | The addition pass returns nil exactly when every block gets through parse, loopback install and AddPath. |
| `Reconcile.AddPassTable` | agent.go:194-199 | On success the table gains exactly the listed CIDRs. Each CIDR holds the handle from its last occurrence, so a duplicate ends as one key holding the later handle. Other entries are unchanged. |
| `Reconcile.AddPassCalls` | agent.go:176-199 | On success the calls are, block by block in list order, the loopback install followed by AddPath. |
| `Reconcile.AddPassFailFast` | agent.go:176-197 | If block f is the first to fail, the pass returns its error. Its table is that of the successful pass over the blocks before f. Its calls are theirs plus what block f called before failing. |
| `Reconcile.ReconcileSucceedsIff` | agent.go:154-202 | `EnsureBGP` returns nil exactly when every stale entry's DeletePath succeeds and every desired block succeeds. |
| `Reconcile.ConvergedTableMatchesDesired` | agent.go:157-200 | On nil the table's key set equals the set of desired CIDRs. Each key holds the handle of the last AddPath for it. |
| `Reconcile.NoEntryLostWithoutDelete` | agent.go:157-174 | An entry disappears only if it was stale and a DeletePath on its handle was called and succeeded. Desired entries always remain. No key appears that was neither present nor desired. |
| `Reconcile.AnnounceFailFast` | agent.go:176-199 | At the first failing block its error is returned. Earlier blocks keep their new handles. The failing block's entry is as it was, unless an earlier duplicate rewrote it. |
| `Reconcile.AnnounceFailFastCalls` | agent.go:176-197 | Apart from DeletePath calls, the pass makes only the calls of the blocks before the failing one and of the failing block up to its failing step. Later blocks make no call. |
| `Reconcile.DrainOnEmpty` | agent.go:157-176 | With an empty desired list and every DeletePath succeeding, the table ends empty and nil is returned. Exactly one DeletePath is made per entry, and there is no install and no AddPath. |
| `Reconcile.ReassertWithdrawsNothing` | agent.go:157-174 | A pass over a table that has just converged to the same list calls no DeletePath and keeps the same key set, whatever the collaborators answer. |

## Left out

- The watch loop itself: the `done` channel, `select`, `iterator.Next`/`Close`, the logging, and the
  nil dereference when `Next` returns an error (agent.go:82-100, and the logging at 146-148). Each snapshot is handed to
  `HandleSnapshot` as a map from key to `Value`.
- A failed type assertion panics, and the unrecovered panic ends the whole process. The model
  instead returns `Panicked` and keeps the agent, so later snapshots can still be handled. Its
  state is the one at the point of the panic.
- Metadata fetching in `getPrivateIP`. The result of `metadata.GetMetadata` is a parameter.
- `addAddr`'s netlink calls, gobgp's `Start`, `AddNeighbor`, `AddPath` and `DeletePath`, and
  `net.ParseCIDR` are oracles. The path attributes (origin IGP, next hop = private address) and the
  prefix built from `ip` and the mask length are not modelled. AddPath sees only the CIDR string and the
  number of AddPath calls before it, not the path attributes or the prefix.
- The `net.ParseCIDR` check made once per block is consulted but not recorded in the `calls`
  trace. A block that fails to parse therefore leaves no trace entry.
- `addAddr` is called with the parsed and masked `ipnet`. The model records `InstallAddr` with the
  raw CIDR string and asks the `addAddr` oracle about that string. Two spellings of the same
  network are therefore two different questions to the oracle.
- Agent.DecodeASN: a float64 ASN is modelled only as an integral value within `uint32` range
  (`Num`). Go's truncation and out-of-range conversion of other floats is not modelled.
- Agent.NewPacketBGPAgent: the calls to `Start` and `AddNeighbor` made before a failed
  construction are not recorded, because no agent exists to hold the trace.
- The oracles are functions, so two passes that ask the same question get the same answer. A
  collaborator whose answers change over time is not captured.
- The vendored metadata client (gRPC/TLS transport, goroutine, JSON merge patch) and `main.go`'s
  older bootstrap are not part of this model.
- Concurrency between the watch loop and other callers of `EnsureBGP` is not modelled: the model
  is sequential.
