# Detour: verified model

A Dafny model of the parts of Detour that decide something: the crash-safe takeover of
`/etc/resolv.conf`, the per-application WireGuard tunnel, the TLS-record reframing of the DPI
proxy, the TTL cache under the fallback resolver, the routing policy, and the moving of a
process tree into the tunnel slice. `dafny verify dfyconfig.toml` checks all of it.

Code that changes things step by step is imperative Dafny (classes, methods with loops), each
method proved against a specification function or relation; the theorems are lemmas about those.

| file | source it models |
|---|---|
| `ResolvConf.dfy` | the file protocol of `resolvconf.rs`: actions, single operations, crashes, runs |
| `ResolvManager.dfy` | the commands of `resolvconf.rs` as methods, and `run` in `main.rs` |
| `Tunnel.dfy`, `BringUp.dfy` | `up_steps`, `down_steps`, `up`, `down`, the marking chain of `tunnel.rs` |
| `WgConfig.dfy`, `WgAccept.dfy` | `WgConfig::parse` and `with_endpoint` of `tunnel.rs`; what it accepts, by the lines of the text |
| `Addresses.dfy` | bypass prefixes of `tunnel.rs`, `is_local_destination` of `apps.rs` |
| `Dpi.dfy` | `dpi.rs` and `splice` of `dpi_proxy.rs` |
| `Cache.dfy` | `cache.rs` |
| `Resolver.dfy` | `resolve` and `resolve_uncached` of `resolver.rs` |
| `Policy.dfy` | `policy.rs`, `policy_for` of `config.rs` |
| `Apps.dfy` | `parse_ppid` and `descendants` of `apps.rs`, `attach` of `main.rs` |
| `Strings.dfy`, `Wrappers.dfy` | the string operations and result types the others use |

## What the code does where its comments say otherwise

- resolvconf.rs says the system is never left without a resolver. Restoring a link removes the
  file before creating the link (crates/dns-helper/src/resolvconf.rs:226-228): `AbsentExactly`
  gives the exact window, `LinkRestoreCanLeaveNothing` shows it for every linked resolv.conf,
  and `CrashRecovery` shows that the next reconcile closes it.
- The drop-in flag is meant to protect the user's own drop-in
  (crates/dns-helper/src/resolvconf.rs:74-76). It fails in three ways. A crash between the drop-in
  write and the state write makes later takeovers treat ours as the user's (`OrphanDropinStays`); a
  `restore` with a backup but no record removes whatever is there (`StrayRestoreLoses`); and
  `exists` (crates/dns-helper/src/resolvconf.rs:260) follows links, so a drop-in that is a dangling
  link is written over and then deleted (`DanglingDropinIsLost`). `OriginChangesExactly` says when
  each happens, and that nothing else does it; `RunKeepsOrigin` and `RunOriginExactly` give the
  conditions over whole runs.
- dpi.rs says a flight without SNI is returned unchanged (crates/dns-helper/src/dpi.rs:71-73). The
  code cuts it at its midpoint (crates/dns-helper/src/dpi.rs:91-98); the model does what the code does.
- tunnel.rs says it fails closed. IPv6 does so, over whole runs, exactly when the bring-up that
  loaded the marks carried out both optional steps (`FailsClosed6Exactly`; `RefusedOptionalLeaks6`
  is an input where it leaks). For both families a teardown stays shut exactly under the condition
  of `TeardownShutExactly`, which refused steps can miss. `down` ignores every result, so a failed
  bring-up ends clean exactly under the condition of `FailureRollsBack`.
- policy.rs means to keep fe80::/10 reverse names local (crates/dns-core/src/policy.rs:139-150).
  Only two nibbles are joined, so the three-character tests never fire: `ReverseV6Exactly`,
  `LinkLocalReverseLeaks`.

## Assumptions

- Process death, not power loss: an operation that has returned is on disk.
- A file removal whose result the code ignores succeeds; no other process edits the four files;
  the texts behind symlinks do not change.
- Which processes live is an answer the environment gives; so are process ids, the clock, provider
  replies, the process table, owners, write results, and every command outcome of the tunnel.
- A command of the tunnel either has its whole effect or none; any command may be refused.
  `AlwaysFailsClosed` needs each sweep to remove the marks, if it gets to that step;
  `FailsClosed6Exactly` also needs the sweep before a bring-up to be refused nothing.
  `TameRunFailsClosed` asks for less than either.
- Names are ASCII, as `Name::to_ascii` prints them.

## Model

| member | source | states |
|---|---|---|
| ResolvConf.ExpandIsAtomic | crates/dns-helper/src/resolvconf.rs:268-296 | while a file is written through its temporary file, however it is torn, the named files are the old ones until the rename and exactly the new ones after it |
| ResolvConf.CutRefinesActions | crates/dns-helper/src/resolvconf.rs:159-296 | after any number of single operations of any program the files are those left by the completed actions: the operation level refines the action level |
| ResolvConf.BackedUpFirst | crates/dns-helper/src/resolvconf.rs:179-204 | when a takeover from files without a record, or the fresh part of one that undid a stale record, has changed any other file, the backup already holds the original text |
| ResolvConf.RestoreWithRecord | crates/dns-helper/src/resolvconf.rs:213-247 | a restore that finds a record keeps the invariant at every cut and ends with neither record nor backup |
| ResolvConf.FreshKeeps | crates/dns-helper/src/resolvconf.rs:168-208 | every cut of a takeover keeps the invariant: for the user's drop-in before it is written, for ours in the window, for none once recorded, a dangling link being written over; uncut it ends recorded and pointing at the proxy |
| ResolvConf.TakeOverKeeps | crates/dns-helper/src/resolvconf.rs:159-208 | the same for a takeover that first undoes a stale record |
| ResolvConf.StrayRestoreKeeps | crates/dns-helper/src/resolvconf.rs:213-247 | a restore with a backup but no record replaces the node by the backed-up file and forgets the drop-in, at exactly the stated cuts |
| ResolvConf.EventKeepsInvariant | crates/dns-helper/src/resolvconf.rs:134-247 | one use of any command, cut between any two operations, keeps the recovery invariant |
| ResolvConf.RunKeepsInvariant | crates/dns-helper/src/resolvconf.rs:134-247 | so does every run of takeovers, restores and reconciles, each cut anywhere |
| ResolvConf.ReconcileRecovers | crates/dns-helper/src/resolvconf.rs:134-149 | one uncut reconcile with the owner dead puts back node and drop-in and leaves no record |
| ResolvConf.CrashRecovery | crates/dns-helper/src/resolvconf.rs:134-247 | after every run, one uncut reconcile leaves no record and a resolv.conf that reads as before the first takeover |
| ResolvConf.CrashIsDetected | crates/dns-helper/src/resolvconf.rs:134-164 | over every run the record is that of the last takeover that wrote one, process and time; while that process lives neither a start nor a takeover touches a file; once it is dead, or without a record, one uncut reconcile recovers |
| ResolvConf.TakeoverHolds | crates/dns-helper/src/resolvconf.rs:134-208 | after a whole takeover resolv.conf is the managed text around its listen address, and as long as its process lives no number of starts and takeovers by others changes anything; the first whole start that finds it dead puts the user's node back |
| ResolvConf.RunKeepsText | crates/dns-helper/src/resolvconf.rs:213-247 | no run changes the text that recovery puts back, stray restores included |
| ResolvConf.OriginChangesExactly | crates/dns-helper/src/resolvconf.rs:183-240 | exactly which events change what is treated as the user's: a stray restore of a link or of a drop-in, a takeover cut between drop-in write and state write, and one that records a drop-in written over a dangling link; the drop-in is only ever written where none exists |
| ResolvConf.RunKeepsOrigin | crates/dns-helper/src/resolvconf.rs:183-265 | without stray restores the very node comes back, link or file; the drop-in ends as it began if and only if no takeover was cut in the window and none wrote over a dangling link; a drop-in that exists always survives |
| ResolvConf.RunOriginExactly | crates/dns-helper/src/resolvconf.rs:159-265 | the same for every run, stray restores included: the node is the user's unless it was a link that a stray restore rewrote, and the drop-in is what the last event that touched it made of it |
| ResolvConf.OrphanDropinStays | crates/dns-helper/src/resolvconf.rs:183-193 | from an untouched disk with NetworkManager and no drop-in: a takeover cut after its second write leaves ours, and it is still there after any later run without stray restores and a reconcile |
| ResolvConf.StrayRestoreLoses | crates/dns-helper/src/resolvconf.rs:213-240 | a takeover cut after the backup, then a restore: the user's link is a file and the user's drop-in is gone |
| ResolvConf.DanglingDropinIsLost | crates/dns-helper/src/resolvconf.rs:252-265 | a whole takeover and a reconcile delete a drop-in that was a dangling link |
| ResolvConf.ReachableIsRecorded | crates/dns-helper/src/resolvconf.rs:159-247 | in every reachable state: pointing at the proxy implies a record, a record implies a backup of the original, our own file is never the backup, and the record parses |
| ResolvConf.AbsentExactly | crates/dns-helper/src/resolvconf.rs:224-231 | resolv.conf goes missing if and only if a restore of a link is cut between removal and link; the record is then still there |
| ResolvConf.LinkRestoreCanLeaveNothing | crates/dns-helper/src/resolvconf.rs:224-231 | for every linked resolv.conf: takeover, death, and death one operation into recovery leaves no resolv.conf |
| ResolvManager.Manager.WriteAtomic | crates/dns-helper/src/resolvconf.rs:271-296 | performs exactly the operations of an atomic put and changes no other file |
| ResolvManager.Manager.Restore | crates/dns-helper/src/resolvconf.rs:213-247 | performs exactly the operations of the restore program; succeeds if and only if there is a readable backup |
| ResolvManager.Manager.ReconcileAfterCrash | crates/dns-helper/src/resolvconf.rs:134-149 | performs exactly the reconcile program; refuses with a process id exactly when the record on disk names it and it lives, and then leaves the files |
| ResolvManager.Manager.WriteNmDropin | crates/dns-helper/src/resolvconf.rs:252-265 | writes the drop-in, and says so, exactly when NetworkManager is there and the path leads to no file |
| ResolvManager.Manager.TakeOver | crates/dns-helper/src/resolvconf.rs:159-208 | performs exactly the takeover program; on success the record on disk is the one returned, names the process and the time of the takeover, the link and whether the drop-in was written, and resolv.conf is the managed text around the listen address; refuses exactly when the recorded process lives |
| ResolvManager.RunHelper | crates/dns-helper/src/main.rs:350-477 | when no operation fails: an unparsable listen address or a living owner stops it with the files untouched; every other exit of `run` ends restored, except the two that skip the restore after takeover, which end recorded and recoverable; a takeover or restore that fails midway is a cut, and belongs to the run theorems |
| Tunnel.BuildUpSteps | crates/dns-helper/src/tunnel.rs:289-314 | builds the bring-up program, one address step per address |
| Tunnel.Machine.TearDown | crates/dns-helper/src/tunnel.rs:392-396 | runs every teardown step whatever the results |
| Tunnel.Machine.TryAll | crates/dns-helper/src/tunnel.rs:331-346 | runs steps until the first error; optional steps may fail but not fail to start |
| Tunnel.Machine.BringUp | crates/dns-helper/src/tunnel.rs:351-390 | teardown, the preparation that may return early with nothing rolled back, bring-up, and rollback on failure |
| Tunnel.MarkedExactly | crates/dns-helper/src/tunnel.rs:251-269 | the chain marks exactly the slice's packets to non-bypass destinations |
| Tunnel.ShutFailsClosed | crates/dns-helper/src/tunnel.rs:302-312 | with rule and unreachable route of a family in place no guarded packet of the family takes the main table |
| Tunnel.OrderedStaysShut | crates/dns-helper/src/tunnel.rs:302-312 | for either family: every adding program that requires route and rule before loading the marks is shut after every prefix, under any failures and vanishing, as long as the optional steps it relies on were carried out |
| Tunnel.UpStepsAreOrdered | crates/dns-helper/src/tunnel.rs:289-314 | the bring-up program is such a program, for every config and both families |
| Tunnel.SweepStaysShut | crates/dns-helper/src/tunnel.rs:318-329 | a teardown, killed anywhere and with any steps refused, stays shut when the marks went or neither the rule nor the routes of the family did |
| Tunnel.SweepCleans | crates/dns-helper/src/tunnel.rs:316-329 | a teardown none of whose steps is refused, from any kernel state, ends in the clean state |
| Tunnel.SweepCleansExactly | crates/dns-helper/src/tunnel.rs:316-329 | with any steps refused and killed anywhere, a teardown ends clean if and only if what the kernel held had its step carried out or went with the interface |
| Tunnel.TeardownIdempotent | crates/dns-helper/src/tunnel.rs:316-329 | after a teardown that cleaned, a second one changes nothing, even refused or killed |
| Tunnel.TeardownShutExactly | crates/dns-helper/src/tunnel.rs:318-329 | for an installed tunnel that condition is necessary too, and otherwise a guarded packet leaks: refused steps and kills combined, either family |
| Tunnel.FailureRollsBack | crates/dns-helper/src/tunnel.rs:348-390 | a failed bring-up, from any kernel state, ends clean if and only if its last sweep cleans what it finds; a last sweep that is refused nothing does |
| Tunnel.UpStaysShut | crates/dns-helper/src/tunnel.rs:351-390 | for either family `up`, killed anywhere, failing anyhow, its sweeps refused anything that keeps shut, leaves a shut state, if a success carried out the optional steps of the family |
| Tunnel.AlwaysFailsClosed | crates/dns-helper/src/tunnel.rs:16-21 | over every run of bring-ups, teardowns, kills and vanishing, any command refused but the removal of the marks, no guarded IPv4 packet takes the main table while the chain is installed |
| Tunnel.TameRunFailsClosed | crates/dns-helper/src/tunnel.rs:16-21 | the same for IPv4 and IPv6, also once the interface goes, for every run whose sweeps keep shut and whose successful bring-ups carried out the optional steps of the family |
| BringUp.BringUpInstalls | crates/dns-helper/src/tunnel.rs:289-314 | success means IPv4 fails closed now and after the interface goes; IPv6 does so, now and then, if and only if both optional steps ran; no command failed to start; while the interface stays it is configured as asked and carries guarded packets |
| BringUp.UndisturbedExactly | crates/dns-helper/src/tunnel.rs:351-390 | undisturbed, from any kernel state, bring-up succeeds if and only if no address is given twice |
| BringUp.FailsClosed6Exactly | crates/dns-helper/src/tunnel.rs:302-312 | over every run of bring-ups, teardowns, kills and vanishing: the marks are there exactly when a bring-up loaded them and no sweep has begun since, and IPv6 fails closed, also once the interface goes, if and only if they are not there or that bring-up carried out both optional steps |
| BringUp.RefusedOptionalLeaks6 | crates/dns-helper/src/tunnel.rs:308-309 | from any kernel state and for any config with distinct addresses: with either optional step refused and nothing else amiss, bring-up succeeds and a guarded IPv6 packet takes the main table |
| BringUp.LoadPlaceExactly | crates/dns-helper/src/tunnel.rs:302-312 | loading the marks as the j-th route step fails closed at every prefix of every schedule if and only if it comes after the policy rule |
| WgConfig.Parse | crates/dns-helper/src/tunnel.rs:103-201 | the loop over lines computes the reduction and its error cases |
| WgConfig.AcceptedConfig | crates/dns-helper/src/tunnel.rs:103-201 | for every accepted text: setconf is the allowed lines in source order, each legal in its section, with a private key, a peer, and a public key in every peer; the IPv4 addresses are all there; the endpoint is the first; reducing again changes nothing |
| WgAccept.AcceptedExactly | crates/dns-helper/src/tunnel.rs:103-201 | which texts are accepted, by their lines: each reads in its section, a private key and an IPv4 address stand in interface sections, there is a peer, and every peer has a public key before the next section; the MTU is that of the last MTU entry; otherwise the error is that of the first line that does not read, or names the first thing missing |
| WgAccept.ClassifyExactly | crates/dns-helper/src/tunnel.rs:113-142 | how every line reads: without its comment and outer spaces, a blank, a known or unknown section in any letter case, a key in any letter case with its value, or malformed |
| WgAccept.V4AddressesAreSelected | crates/dns-helper/src/tunnel.rs:144-150 | the addresses kept from an entry are exactly its IPv4 pieces, trimmed, in order |
| WgConfig.CidrExactly | crates/dns-helper/src/tunnel.rs:236-239 | exactly which strings pass for an IPv4 address: the dotted forms of four bytes, alone or before a slash and a prefix length of at most 32 |
| WgConfig.ReduceSound | crates/dns-helper/src/tunnel.rs:113-183 | every line keeps the reducer's invariant |
| WgConfig.LegalIsFixed | crates/dns-helper/src/tunnel.rs:113-183 | legal lines pass through the reducer unchanged |
| WgConfig.WithEndpointExactly | crates/dns-helper/src/tunnel.rs:204-218 | on accepted output every endpoint line is rewritten, of all peers, and no other line |
| Addresses.LocalIsBypassed | crates/dns-helper/src/apps.rs:266-282 | the octet and mask tests agree with the bypass prefixes on every address, apart from the two unspecified ones, which only the tests accept |
| Addresses.BypassV4 | crates/dns-helper/src/tunnel.rs:39-46 | membership in the IPv4 bypass prefixes, bit by bit, as octet ranges |
| Addresses.BypassV6 | crates/dns-helper/src/tunnel.rs:47-47 | membership in the IPv6 bypass prefixes as an address and two masks |
| Dpi.SniSplitOffset | crates/dns-helper/src/dpi.rs:33-69 | the cursor loop terminates, reads in range, and computes the walk |
| Dpi.SplitOffsetExact | crates/dns-helper/src/dpi.rs:33-69 | on arbitrary bytes an offset is returned if and only if a host name is met first, and lies strictly inside it |
| Dpi.SplitOffsetOfClientHello | crates/dns-helper/src/dpi.rs:33-69 | for every encoded ClientHello with any extensions around a host name of two bytes or more: exactly its start plus half its length |
| Dpi.FragmentClientHello | crates/dns-helper/src/dpi.rs:74-109 | the guards and the loop over the two parts compute the rewrite |
| Dpi.ReframedExactly | crates/dns-helper/src/dpi.rs:74-98 | in bytes, which flights are reframed: type 22, a length that accounts for all the rest, two bytes of payload or more |
| Dpi.FragmentShape | crates/dns-helper/src/dpi.rs:74-109 | reframing gives, byte by byte, two non-empty records with lengths that fit, five bytes more, payload unchanged; cut in the middle of the host name met first, or in the middle of the payload when there is none; data changes exactly when it is reframed |
| Dpi.FragmentIdempotent | crates/dns-helper/src/dpi.rs:82-85 | reframing a reframed flight changes nothing |
| Dpi.ContentOfRecord | crates/dns-helper/src/dpi.rs:101-108 | decoding a stream undoes encoding a record |
| Dpi.SplicePreservesContent | crates/dns-helper/src/dpi_proxy.rs:104-129 | for every stream and first-read length the typed record content sent upstream is the client's |
| Dpi.HostNameIsSevered | crates/dns-helper/src/dpi.rs:71-109 | every encoded ClientHello is cut inside its host name: one half ends the first record, the other begins the second |
| Dpi.SentExactly | crates/dns-helper/src/dpi_proxy.rs:104-121 | for every stream and first read, what goes upstream in bytes: the severed records of a ClientHello and the rest; the two records of a reframed flight and the rest; else the stream as it is |
| Dpi.Connection.Splice | crates/dns-helper/src/dpi_proxy.rs:104-129 | sends the reframed first read and then the rest: five bytes more exactly when it is reframed, the host name of every ClientHello severed, anything else as it is, content unchanged; counts exactly the reframed flights |
| Cache.LifetimeBounds | crates/dns-core/src/cache.rs:127-144 | every lifetime lies in [5 s, 3600 s] |
| Cache.LifetimeIsLongest | crates/dns-core/src/cache.rs:127-144 | only NOERROR and NXDOMAIN are kept; a positive answer for the longest time no answer's TTL forbids, within floor and cap; a negative one for 30 s |
| Cache.HitServesLatest | crates/dns-core/src/cache.rs:59-76 | a hit is the latest cacheable insertion, inside its lifetime, aged by whole seconds; the 32-bit cast is lossless |
| Cache.StalenessBound | crates/dns-core/src/cache.rs:59-76 | lookup time plus served TTL is less than storage time plus max(original TTL, 5 s) plus 1 s |
| Cache.RunAgrees | crates/dns-core/src/cache.rs:84-125 | over every run each entry is the latest cacheable insertion for its key |
| Cache.CacheRefinesLog | crates/dns-core/src/cache.rs:59-125 | over every run every hit is served from the unbounded log of insertions |
| Cache.CacheEqualsLog | crates/dns-core/src/cache.rs:59-125 | until an insertion meets a full cache, a lookup hits if and only if the latest cacheable insertion since the last clear is inside its lifetime, and then serves it aged |
| Cache.KeysFoldCase | crates/dns-core/src/cache.rs:27-33 | two names share a key if and only if they differ in ASCII letter case alone, and the record types are equal |
| Cache.PurgeIsInvisible | crates/dns-core/src/cache.rs:107-112 | purging never changes a lookup at that time or later |
| Cache.PurgedExactly | crates/dns-core/src/cache.rs:107-112 | a purge keeps exactly the entries whose lifetime has not run out, unchanged |
| Cache.EvictionSparesLive | crates/dns-core/src/cache.rs:94-105 | a live entry is evicted only when all are live, and none has less life left |
| Cache.VictimExactly | crates/dns-core/src/cache.rs:94-105 | a victim is exactly an entry that has run out, or runs out before or with every other |
| Cache.InsertExactly | crates/dns-core/src/cache.rs:84-92 | an insertion of a cacheable message puts its entry and loses one victim if and only if the cache is full and the key new; an uncacheable one changes nothing |
| Cache.RunBoundsSize | crates/dns-core/src/cache.rs:84-92 | the size never exceeds max(1, capacity) in any run |
| Cache.TtlCache.GetAt | crates/dns-core/src/cache.rs:59-76 | the lookup with its two aging loops; hits if and only if there is an entry whose lifetime has not run out, and serves the latest insertion aged |
| Cache.TtlCache.InsertAt | crates/dns-core/src/cache.rs:84-92 | an insertion is one step of the relation, logged, with the lifetime returned; the entry is there afterwards, and nothing is lost while there is room |
| Cache.TtlCache.EvictOne | crates/dns-core/src/cache.rs:96-105 | drops one entry that has run out or runs out first, in any iteration order |
| Cache.TtlCache.PurgeExpired | crates/dns-core/src/cache.rs:108-112 | keeps exactly the entries whose lifetime has not run out, unchanged |
| Resolver.ResolveUncached | crates/dns-core/src/resolver.rs:149-187 | returns the first reply that is neither an error nor SERVFAIL; fails only if there is none, with the count and the last cause |
| Resolver.Resolve | crates/dns-core/src/resolver.rs:124-145 | a hit changes nothing; a miss asks, and stores what it returns; a failure stores nothing |
| Resolver.NextKeeps | crates/dns-core/src/resolver.rs:124-187 | every atomic step of every lookup keeps the claims of all lookups |
| Resolver.EveryOutcomeIsJustified | crates/dns-core/src/resolver.rs:122-187 | for every interleaving and all provider behaviours: never SERVFAIL; a success is the lookup's own first acceptable answer or an aged one another lookup took for the same folded key; failure only when every provider failed |
| Policy.EndsBelowIsLabelwise | crates/dns-core/src/policy.rs:98-107 | the byte comparison equals a proper suffix of labels |
| Policy.SuffixMatchesIsLabelwise | crates/dns-core/src/policy.rs:91-108 | for all strings a rule matches if and only if its labels are a suffix of the name's, a proper one for `*.`, whose remainder is never empty |
| Policy.BuiltinLocalIsLabelwise | crates/dns-core/src/policy.rs:110-119 | built-in local names in terms of labels |
| Policy.PrivateReverseIsLabelwise | crates/dns-core/src/policy.rs:121-155 | the reverse names kept local, by label, for all strings |
| Policy.RouteExactly | crates/dns-core/src/policy.rs:54-74 | for every policy and every name, by label: DoH if and only if no local rule, local ending, single label or private reverse block claims it, and the default is DoH or a DoH rule claims it |
| Policy.NormaliseIdempotent | crates/dns-core/src/policy.rs:87-89 | normalising twice is normalising once |
| Policy.NormaliseExactly | crates/dns-core/src/policy.rs:82-89 | the normal form is the string without the dots at its end, in small letters, and nothing else |
| Policy.ListSpellingIsIrrelevant | crates/dns-core/src/policy.rs:57-80 | case and trailing dots of lists and names never change a route |
| Policy.ActivateProfile | crates/dns-core/src/config.rs:201-215 | clones the policy and overwrites its list when the profile exists |
| Policy.ActivePolicy.OverwriteForceDoh | crates/dns-core/src/policy.rs:76-79 | replaces the forced list by the normalised domains, in order, and nothing else |
| Policy.ActivationExactly | crates/dns-core/src/config.rs:201-215 | a route changes if and only if the name is not local, a domain of the profile matches, and nothing sent it to DoH before; always from system to DoH |
| Policy.UnknownProfileChangesNothing | crates/dns-core/src/config.rs:197-215 | no profile, or an unknown one, leaves the policy as it is |
| Policy.NameSpellingIsIrrelevant | crates/dns-core/src/policy.rs:82-89 | two spellings of a name that differ in case and trailing dots have one route under every policy |
| Policy.ReverseV4Exactly | crates/dns-core/src/policy.rs:121-138 | the reverse name of every IPv4 address, and of every zone above one, goes to the system resolver if and only if the block is private, loopback or link-local; a one-octet zone only for 10 and 127 |
| Policy.ReverseV6Exactly | crates/dns-core/src/policy.rs:139-152 | every canonical ip6.arpa name does so if and only if it is in fc00::/7 |
| Policy.LinkLocalReverseLeaks | crates/dns-core/src/policy.rs:139-152 | link-local reverse names go to DoH |
| Apps.PpidIgnoresCommandName | crates/dns-helper/src/apps.rs:173-181 | the parent is read for every command name, parentheses and blanks included |
| Apps.Descendants | crates/dns-helper/src/apps.rs:183-197 | terminates on every table and returns exactly what is reachable from the roots, roots first, nothing new twice |
| Apps.Attach | crates/dns-helper/src/main.rs:124-166 | only the user's own processes of the tree are ever written; a quiet round means its whole tree has been moved; five busy rounds mean the last tree was moved or gone; root, foreign and dead roots are refused before any write |

## Left out

- DNS and HTTP input and output: sockets, the HTTP and TLS clients, the async runtime; a provider is an arbitrary reply.
- DNS wire format, `truncate_if_needed` and the proxy's response ids: decided by the hickory library or passed through.
- `parse_nameservers` and the nameserver list of the state record: read for forwarding only, never by recovery.
- JSON, TOML, file modes, directory creation and permission errors: a failing operation is a cut in the operation list.
- Two helpers started at once: the file protocol has no lock; commands are used one after another.
- Failing removals whose result `restore` ignores, and edits of the four files by other programs.
- The `reset` half of `attach`, `ss` parsing, `/proc` reading, Flatpak capture: polling and system interfaces.
- How an endpoint is resolved and the tunnel's temporary files are written and deleted: whether that preparation fails is part of the schedule, the rest has no effect on the modelled kernel state.
- The masquerade chain and the argument strings of the commands: a step is its effect on the kernel.
- The server-to-client half of `splice`: an unchanged copy.
- `validate`, `QueryLog`, status snapshots, diagnosis, the graphical front end: easy or outside the decisions modelled.
