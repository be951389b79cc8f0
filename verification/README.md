# A verified model of wgconfd

wgconfd keeps the peers of a WireGuard interface in step with peer lists ("sources")
published by others. The administrator says which address ranges each source may hand
out; the daemon fetches the sources, filters and merges what they declare, and applies
the difference to the interface.

The model follows the program's own division of work:

- `Wrappers.dfy`: `Option` and `Result`.
- `Bits.dfy`, `Net.dfy`: machine words and single CIDR networks (section 3.1 of RFC 4632),
  for any address width `w`. The operations are bit operations, as in the program; a
  shift by the whole width is ruled out by the precondition of `Shr`, so every use shows
  that no shift overflows. Lemmas say what the operations mean for address ranges.
- `NetLists.dfy`, `IpSet.dfy`: the sorted, disjoint, fully merged list of networks a
  source's ranges are kept in, with `insert`, the construction from a list, and the
  membership test.
- `Model.dfy`, `Declarations.dfy`: the data, and what a list of peer definitions
  declares, given key by key and without the state of the builder. `WhollyCovered`
  speaks about addresses, not about the membership test.
- `Builder.dfy`: the builder with its two mutable fields. Its invariant says that peers
  and errors are at all times exactly the declared ones.
- `Policy.dfy`, `Precedence.dfy`: what the declared configuration guarantees.
- `Updater.dfy`, `Schedule.dfy`: fetching with retries, and scheduled switches.
- `Device.dfy`, `Refinement.dfy`: the interface, the incremental update in every order
  the hash maps may be walked in, and how far the interface follows the configuration.
- `Manager.dfy`, `Runs.dfy`: the daemon and what holds over all its runs.

Clock readings, the outcome of each fetch, the contents of the cache and the public key
of the interface are inputs. Instants and durations are whole nanoseconds. A list or map
the program updates in place is a field or variable that is reassigned; the binary
search and the sort of the standard library are modelled by functions with the same
contract.

Where the code and its documentation disagree, the model follows the code:

- The README of wgconfd says that endpoint and preshared key come from the first source
  that defines a peer. The code takes all servers of all sources before any road
  warrior, so a later source's server beats an earlier source's road warrior.
  `Precedence.FirstSourceDecidesIff` says exactly when the documented rule holds,
  `Precedence.FirstSourceNeedNotDecide` gives an example in which it fails.
- The manual says that the daemon fails to start if fetching a required source fails.
  The code also accepts a cached copy, and fetches up to three times
  (`Updating.Updater.InitSource`).
- The README of wgconfd says that it overwrites the peers it knows about. A peer that
  joins the configuration without a preshared key while the interface already has one
  for it keeps that key. `Refinement.UpdateSetsFields` says that this is the only such
  case, `Refinement.JoiningPeerKeepsItsKey` gives an example.

## Model

| member | source | states |
|---|---|---|
| Bits.ShrIsDivision | src/model/ip.rs:80-83 | a right shift by k is division by 2^k, for every k below the width |
| Bits.MaskIsRemainder | src/model/ip.rs:49 | masking with the low bits is the remainder modulo 2^k |
| Bits.XorIsOneBit | src/model/ip.rs:169 | two words differ in exactly bit k if and only if they agree below and above it and not in it |
| Nets.NewAcceptsAlignedBlocks | src/model/ip.rs:43-57 | `new` accepts exactly the aligned blocks and tells the two errors apart |
| Nets.ContainsIsInclusion | src/model/ip.rs:69-84 | the shift comparison holds if and only if one address range includes the other |
| Nets.SiblingsAreHalves | src/model/ip.rs:162-170 | the exclusive-or test holds exactly for the two distinct halves of one network |
| Nets.NestedOrDisjoint | src/model/ip.rs:69-84 | any two valid networks are nested or disjoint |
| Nets.HalvesMerge | src/model/ip.rs:194 | lowering the prefix length of a lower half directly gives the valid network of both halves |
| NetLists.Search | src/model/ip.rs:199-200 | binary search finds the network or the one place where it would be inserted |
| NetLists.CanonicalHasNoSiblings | src/model/ip.rs:185-195 | in a canonical list no two members, adjacent or not, are siblings |
| NetLists.JointCoverIsSingle | src/model/ip.rs:199-209 | a network covered jointly by any number of members lies inside a single one |
| NetLists.PredecessorDecides | src/model/ip.rs:201-205 | only the predecessor of the insertion point can contain the network |
| NetLists.ContainsNetIsExact | src/model/ip.rs:199-209 | the membership test holds if and only if every address of the network is in the set |
| NetLists.CanonicalFormIsUnique | src/model/ip.rs:143-146 | equality of the stored lists is equality of the address sets |
| NetLists.MembersAreMaximal | src/model/ip.rs:185-196 | each stored network is a maximal network inside the set |
| NetLists.CanonicalFormIsShortest | src/model/ip.rs:185-196 | no list of networks with the same addresses is shorter |
| IpSets.IpSet.Contains | src/model/ip.rs:199-209 | decides whether every address of a network is in the set |
| IpSets.IpSet.Insert | src/model/ip.rs:172-197 | keeps the canonical form and adds exactly the addresses of the network |
| IpSets.IpSet.Window | src/model/ip.rs:177-184 | the window covers exactly what the new network absorbs, or the one member that holds it |
| IpSets.IpSet.Grow | src/model/ip.rs:185-195 | the cascading merge keeps window and network equal in addresses and ends without siblings on either side |
| IpSets.IpSet.FromIterator | src/model/ip.rs:237-246 | inserting one by one gives the canonical list of the union |
| IpSets.IpSet.FromVec | src/model/ip.rs:268-294 | sorting and compacting in place gives the canonical list of the union |
| IpSets.IpSet.CompactOne | src/model/ip.rs:277-290 | one step of the compaction: the write index stays at or behind the read index and the prefix is canonical for what was read |
| IpSets.IpSet.MergeDown | src/model/ip.rs:283-287 | the top of the stack is merged as long as it is the sibling |
| IpSets.StackStart | src/model/ip.rs:278-282 | after sorting, a new network lies inside the top of the stack or right of all of it and contains none of it |
| IpSets.NormalFormIgnoresOrder | src/model/ip.rs:268-294 | order and repetitions of the inputs do not matter |
| IpSets.BuildBothWays | src/main.rs:43-57 | the configuration file and the command line build the identical list from the same networks |
| Declarations.FirstCreator | src/manager/builder.rs:154-166 | finds the first definition that makes a key a peer, if there is one |
| Model.GlobalConfig.FixKeepalive | src/config.rs:53-62 | the value in every case of keepalive, minimum and maximum |
| Builder.PeerContact | src/manager/builder.rs:169-201 | refuses a key pinned to another source, otherwise gives source values with the local overrides |
| Builder.PushGranted | src/manager/builder.rs:207-222 | appends in order exactly the networks wholly covered by the ranges and tells whether any were added or removed |
| Builder.GrantedSnoc | src/manager/builder.rs:207-222 | each network is granted or not by itself, in the order declared |
| Builder.DeliveryInOrder | src/manager/builder.rs:203-232 | a definition routed to a peer appends its granted networks to each of the two lists, in order, and no other changes them |
| Builder.OneMore | src/manager/builder.rs:82-143 | how one more definition changes declared peers and errors, case by case |
| Builder.ConfigBuilder.InsertPeer | src/manager/builder.rs:147-167 | an existing peer is kept and reported as a duplicate, a new one starts without networks |
| Builder.ConfigBuilder.AddPeer | src/manager/builder.rs:203-232 | delivers the granted networks of both families and reports removed ones |
| Builder.ConfigBuilder.AddServer | src/manager/builder.rs:82-102 | peers and errors stay exactly the declared ones |
| Builder.ConfigBuilder.AddRoadWarrior | src/manager/builder.rs:105-143 | peers and errors stay exactly the declared ones |
| Policy.DeliveredIffJustified | src/manager/builder.rs:203-232 | a peer may use a network if and only if some definition routed to it declares it and its own source may grant all of it |
| Policy.AddressesComeFromPermittedRanges | src/manager/builder.rs:207-222 | no address is allowed that the source of the definition may not grant |
| Policy.AcceptedUnlessPinnedElsewhere | src/manager/builder.rs:180-185 | a definition is refused exactly if its key is pinned to a source of another name |
| Policy.WhoIsAPeer | src/manager/builder.rs:82-143 | the keys that become peers, in terms of definitions, pins and permissions |
| Policy.HowAPeerIsReached | src/manager/builder.rs:169-201 | endpoint, preshared key and keepalive of a built peer: each override there is, and otherwise the first creating definition and its source |
| Policy.IpErrorsMean | src/manager/builder.rs:224-231 | when removed networks are reported, with which message and importance |
| Policy.NothingIsLostSilently | src/manager/builder.rs:82-143 | a declared network reaches its peer, or an error names source and key, or it is a server definition of the local key |
| Policy.NoErrorsIffAllClean | src/manager/builder.rs:82-143 | the error list is empty if and only if every definition is used as declared |
| Policy.FirstServerDecidesContact | src/manager/builder.rs:154-165 | endpoint, preshared key and keepalive come from the first accepted server definition whatever sources follow |
| Policy.MoreSourcesOnlyAdd | src/manager/builder.rs:135-142 | further sources never take a network away from a peer |
| Policy.RoadWarriorRouting | src/manager/builder.rs:105-143 | which peers exist, that the local key is none, and where each road warrior goes |
| Policy.OnlyLocalRoadWarriorsLackEndpoints | src/manager/builder.rs:92-94 | a peer has no endpoint exactly when a local road warrior without override created it |
| Policy.PinnedKeyBelongsToItsSource | src/manager/builder.rs:180-198 | a pinned key exists and is reached only through its source; others add networks only by road warriors based on it |
| Precedence.DeciderStaysIff | src/manager/mod.rs:149-159 | appending sources leaves the definition that decides about a peer in place if and only if the peer is a server already or no appended source has it as one |
| Precedence.FirstSourceDecidesIff | src/manager/mod.rs:149-159 | the first source that defines a peer decides how it is reached if and only if it has it as a server or no later source does |
| Precedence.LaterSourcesDisturbNothing | src/manager/mod.rs:149-159 | appending sources takes no network from any peer, and changes no contact data under the condition of `DeciderStaysIff` |
| Precedence.ServersGoFirst | src/manager/mod.rs:149-159 | the first accepted server decides how a peer is reached, and a road warrior only if there is none |
| Precedence.FirstSourceNeedNotDecide | src/manager/mod.rs:149-159 | an example in which the second source decides against the first |
| Schedule.NextSwitchIsEarliest | src/manager/mod.rs:128-145 | the returned time is in the future, within 2^20 seconds, and the earliest pending switch below that |
| Schedule.NextSwitchTakesPlace | src/manager/mod.rs:130-145 | below the cap some source changes at that time, and stays changed |
| Schedule.NothingChangesBeforeTheNextSwitch | src/manager/mod.rs:123-163 | with unchanged sources the configuration is the same until that time |
| Schedule.SwitchesByTheClock | src/manager/mod.rs:128-145 | a source changes exactly at its announced time, and the next switch is the earliest announced time to come, at most 2^20 seconds ahead |
| Schedule.DefsOfSource | src/manager/mod.rs:149-159 | all definitions of each source are in force, in the order served, between those of its neighbours, in each phase |
| Schedule.ServedIsInForce | src/manager/mod.rs:149-159 | every server and road warrior a source serves is in force |
| Schedule.DefsCarrySettings | src/manager/mod.rs:130-145 | every definition in force carries the settings of the source it came from |
| Updating.Updater.Update | src/manager/updater.rs:70-97 | a success replaces the data and resets the backoff, a failure keeps the data, sets the due time by the present delay and lets that grow by a third |
| Updating.Updater.CacheLoad | src/manager/updater.rs:42-68 | replaces the data only, and only if the cache has some |
| Updating.Updater.InitSource | src/manager/mod.rs:101-121 | starting fails exactly for a required source that three fetches and the cache cannot provide; data, backoff and due time are those of the fetches made, with the cached data if the first failed |
| Updating.StartLeavesARow | src/manager/mod.rs:101-121 | after the start a source is in a row of at most three failures, one if its fetch failed and it has a cached copy or is not required, with the delay and due time of that row |
| Updating.DelaysGrowByAThird | src/manager/updater.rs:87-91 | the first delay is ten seconds or a tenth of the refresh time, each further one a third more, rounded down, up to the cap |
| Updating.DelaysGrowToAThird | src/manager/updater.rs:87-91 | delays never decrease along failures and never exceed a third of the refresh time |
| Updating.ThreeFailuresDouble | src/manager/updater.rs:87-91 | three more failures at least double the delay, floor division included |
| Updating.DelayReachesAThird | src/manager/updater.rs:87-91 | the delay is exactly a third of the refresh time after logarithmically many failures |
| Updating.EightyFourFailuresSuffice | src/manager/updater.rs:87-102 | 84 failures suffice for every non-zero 32-bit refresh time |
| Updating.HistoryDecides | src/manager/updater.rs:70-97 | over any history, also one that starts inside a row of failures: last good data, delay of the current row, next due time |
| Updating.AfterTheLastSuccess | src/manager/updater.rs:70-97 | whatever came before, a success and the failures after it decide data, delay and due time |
| Updating.WithoutSuccess | src/manager/updater.rs:87-97 | failures alone keep the data and continue the row of delays |
| Updating.FailuresKeepDataAndRetry | src/manager/updater.rs:70-97 | from any bounded delay: last good data stays, retries come within a third of the refresh time, the delay stays bounded |
| Devices.Device.ApplyDiff | src/wg.rs:58-161 | the interface afterwards is what the sections of the changed peers, in the one order walked, and the removals make of it |
| Devices.AppliedMeans | src/wg.rs:58-161 | for every order: which peers there are, their fields, and who may have each network |
| Refinement.OrderDoesNotMatter | src/wg.rs:61-147 | if no network is listed twice all orders give the same interface |
| Refinement.UpdateKeepsOwnsOnlyListed | src/wg.rs:58-161 | no tracked peer has a network its configuration does not list, without any assumption on overlaps |
| Refinement.UpdateWritesFields | src/wg.rs:62-109 | keepalive, endpoint and preshared key on the interface of each peer that is new or differs, in every case |
| Refinement.UpdateWritesNetworks | src/wg.rs:83-92 | the IPv4 and IPv6 networks of each peer that is new or differs |
| Refinement.UpdateSetsFields | src/wg.rs:62-109 | the fields agree afterwards if and only if every joining peer joins cleanly |
| Refinement.UpdateDeliversNetworks | src/wg.rs:58-110 | from any interface: all networks are in place if and only if none is listed twice and unchanged peers had theirs |
| Refinement.JoiningPeerKeepsItsKey | src/wg.rs:70-73 | an example: a peer that joins without a preshared key keeps the one on the interface |
| Refinement.UpdateKeepsOwnsAllListed | src/wg.rs:58-110 | from a complete interface only overlap in the new configuration matters |
| Refinement.UpdateTouchesOnlyItsPeers | src/wg.rs:133-158 | dropped peers are gone with their networks, foreign peers keep fields and all networks no changed peer lists |
| Refinement.SameConfigurationIsNoUpdate | src/manager/mod.rs:192 | skipping the update for an equal configuration is the same as doing it |
| Refinement.RunOwnsOnlyListed | src/manager/mod.rs:192-214 | the first property holds throughout every run |
| Refinement.RunDeliversIffDisjoint | src/manager/mod.rs:192-214 | networks are complete throughout a run if and only if no configuration of it overlaps |
| Refinement.RunKeepsFieldsIffCleanJoins | src/manager/mod.rs:192-214 | fields agree throughout a run if and only if all joins are clean |
| Refinement.UnwrittenPeerOverRun | src/manager/mod.rs:192-214 | a peer not written since a step has a network if and only if it had it then and no peer written since lists it |
| Refinement.DeliveredSinceLastWrite | src/manager/mod.rs:192-214 | all networks are in place at one step of a run if and only if each was delivered when its peer was last written and not claimed since |
| Refinement.UncontestedIsDelivered | src/manager/mod.rs:192-214 | configurations in which each network is uncontested since its peer was last written suffice, in whatever orders |
| Refinement.RunLeavesForeignPeersIntact | src/wg.rs:140-148 | over a run, peers in no configuration keep existence, fields and all networks no written peer lists |
| Refinement.RunRemovesDroppedPeers | src/wg.rs:140-158 | over a run, peers that left the configuration are gone with their networks |
| Refinement.EarlierOverlapLeavesGaps | src/wg.rs:64-67 | an example, by the commands themselves: after an overlapping configuration a disjoint one is not enough |
| Managing.NextRefreshIsEarliest | src/manager/mod.rs:165-178 | the refresh time is the earliest due time of all sources, at most one refresh from the start |
| Managing.RefreshLeavesNothingDue | src/manager/mod.rs:170-175 | every source due at the start is fetched although the clock moves during fetches |
| Managing.FetchedExactlyIfDue | src/manager/mod.rs:170-175 | a source is fetched exactly if it is due at the start or at the end of an earlier fetch of the same refresh |
| Managing.WakeIsEarliest | src/manager/mod.rs:216-224 | the returned instant is never before now and is the earliest due time, switch or refresh unless that has passed |
| Managing.NoSwitchIsMissed | src/manager/mod.rs:184-190 | until the daemon wakes, the applied configuration is the one in force |
| Managing.Manager.Refresh | src/manager/mod.rs:165-178 | refreshes exactly the sources that are due and returns the earliest due time |
| Managing.Manager.Select | src/manager/mod.rs:128-145 | the configuration in force of each source, and the next switch |
| Managing.Manager.MakeConfig | src/manager/mod.rs:123-163 | the peers and errors declared by all servers and then all road warriors in force |
| Managing.Manager.Update | src/manager/mod.rs:180-225 | one step of the daemon: sources, tracked configuration, interface and wake-up time |
| Runs.NoPeerExceedsThePermittedRanges | src/manager/mod.rs:180-225 | over every run, each network of a tracked peer on the interface comes from a definition in force, routed to that peer, whose own source is permitted all of it |
| Runs.NothingServedIsLostSilently | src/manager/mod.rs:149-163 | each network a source serves reaches a peer, or an error names it, or it is of the local server definition |
| Runs.ForeignPeersStayIntact | src/manager/mod.rs:180-225 | over every run, peers the daemon never tracks stay as they were, up to networks it gives to its own |
| Runs.DroppedPeersAreGone | src/manager/mod.rs:180-225 | over every run, peers that leave the configuration leave the interface |
| Runs.InterfaceFollowsTheConfiguration | src/manager/mod.rs:180-225 | over every run the interface follows the configuration if and only if nothing overlaps and peers join cleanly |
| Runs.SourcesReplayTheirFetches | src/manager/mod.rs:165-178 | over every run each source is as its own fetches left it |
| Runs.SourcesFollowTheirDelays | src/manager/updater.rs:70-97 | over every run the delay and due time of a source are those of its present row of failures, counting failures before the run |
| Runs.SourcesKeepGoodDataAndRetry | src/manager/updater.rs:70-97 | over every run failed fetches leave the last good data and are retried within a third of the refresh time |
| Runs.WakesAreExact | src/manager/mod.rs:216-224 | over every run the daemon wakes exactly at the first due time, announced switch or refresh, or at once if that is past |
| Runs.NoSourceStarves | src/manager/mod.rs:165-178 | over every run a source is overdue at most by the length of one update plus the lateness of the next, which then fetches it |
| Runs.FailedFetchesWakeTheDaemon | src/manager/mod.rs:216-224 | over every run the daemon wakes for the retry of a failed fetch, also one made before the run, and for every scheduled switch |

## Left out

- Starting the daemon beyond one source: `Managing.Manager` starts from sources already initialised and from any tracked configuration.
- Processes, files, temporary files, environment variables and log output (src/fileutil.rs, src/wg.rs:16-56, src/manager/updater.rs:104-154).
- The text of the `wg addconf` file: a section is a record, and what `wg` does with it is assumed in `Devices.ApplySection` and `Devices.RemovePeers`.
- Changes of the interface by others between updates, including endpoints that WireGuard itself updates when a peer roams.
- Failed `wg` commands, on which the daemon exits, and a crash between applying and storing the configuration.
- Overflow of clock arithmetic, on which the program panics, and a monotonic clock that goes back.
- Parsing, printing and serialisation of keys, addresses, timestamps and configuration, the representation types in src/proto.rs, and the command line apart from how it builds the ranges.
- Disjointness of the networks of different peers: the builder does not establish it, so it is a condition in `Refinement` and `Runs`.
- Refinement.FieldsAgree: does not cover the endpoint of a peer configured without one, because the program then writes none and the interface keeps its own.
- The capacity and memory behaviour of vectors and hash maps; `splice` is the list it leaves behind.
