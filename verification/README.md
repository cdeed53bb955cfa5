# Verified models of the network manager base services

This project models the algorithmic parts of the OpenHarmony network manager base and proves what
they promise. Everything is Dafny 4.11; `dafny verify dfyconfig.toml` checks the whole project.

| file | part of the system |
|---|---|
| `TrafficStats.dfy` | the kernel programs that count traffic per uid and per interface, under every interleaving |
| `Nat464.dfy` | the 464XLAT service: a three-state machine on a serial queue, beside prefix-discovery tasks with a doubling back-off |
| `Parcels.dfy` | the IPC message buffer and the list layout its codecs share |
| `FirewallCodec.dfy`, `FirewallPager.dfy` | the firewall rule codecs, and handing a rule list to the native service in pages |
| `NfqCodec.dfy`, `DiagCodec.dfy`, `PortStatesCodec.dfy` | the codecs of the netfilter-queue context, the diagnostics results and the port states |
| `AddressMask.dfy`, `Routes.dfy` | masking addresses by a prefix length, and bringing a routing table from one route list to another |
| `DnsHealth.dfy` | the tally of DNS reports, the failure threshold in double arithmetic, and the streak of failing batches |
| `NetCaps.dfy`, `NetActivate.dfy` | capability words, matching a request with a network, the callbacks of a frozen application |
| `RequestIds.dfy` | the ids of network requests, under every interleaving of their allocations |
| `AniNames.dfy` | the two name conversions of the `ani` attribute macro |
| `Powers.dfy`, `Options.dfy`, `Sequences.dfy` | powers of two and 2^32, optional values, a fact about sequences |

How the parts are modelled:

- Protocols are deterministic functions of a state and an event. A run is any sequence of events, an
  event that is not enabled leaves the state alone, and a theorem about all runs quantifies over all
  sequences. Objects whose methods update their fields are classes; each method is proved against the
  function that specifies it.
- A parcel is a sequence of typed cells with a read cursor. A write may fail at any point. Since every
  writer gives up at its first failing write, only the number of writes that succeed matters; that is
  the `budget` of a parcel, and `Wrote` says what is in the parcel in either case. Message layouts are
  value-level encoders and decoders; a decoder is proved on every cell sequence that contains the
  encoding at the cursor, whatever comes before and after.
- Machine integers are written out where they matter: 64-bit counters, the 32-bit cycle and the 8-bit
  iteration counter, list sizes cast to 32 bits, the 32-bit request counter, 32-bit capability words.

What the proofs found out about the code:

- The 32-bit discovery cycle is safe with up to 16 discovery tasks asleep together, and can wrap with 17
  (`CycleNeverWrapsIff`). So many tasks arise because several stop requests share one flag.
- A discovery chain that has given up leaves the service discovering with no task. The stop flag of a
  later stop request ends the very task of the restart that follows it: a query can follow n restarts in a
  row iff n and the tasks alive before them are more than one (`RestartQueriesIff`). So as long as each stop
  waits for the task before it, no further query is sent (`StaleStopStarvesDiscovery`,
  `ExhaustedStaysSilent`); two restarts before a task runs do lead to one.
- A stop is not final. A discovery that finds a prefix queues a Continue of its own, which undoes a stop
  queued before it: the service is discovering again, and with one more Continue behind the stop it runs
  (`StopUndone`). An idle service stays idle until a client asks iff no Continue is queued and no more tasks
  are alive than the stop flag will end (`StopHoldsIff`, `ClatComesBackIff`).
- `MaskAddress` takes the address family from the prefix length, so an IPv6 address with a prefix of 32
  bits or less, the default route included, masks to nothing and its route is never passed on
  (`MaskAddressIff`, `RoutePassedOnIff`).
- Removals come after additions, so a removed route that has the key of a new one takes the new one with
  it; this is the only way a table can come out wrong as long as equal routes have equal keys
  (`TableIffNoCollision`, `HostBitsLoseTheRoute`). Route equality ignores the route type, and a changed
  type is reported but never applied (`TypeChangeIsNotApplied`).
- The diagnostics writers announce the 32-bit size of a list but count elements on their own, so their
  messages stay aligned iff that size has not wrapped to less than the cap (`CappedRoundTrip`). The ping
  and interface readers append to what the object already holds; the socket reader empties it first.
- The service skips a rule it cannot read without telling, so a list arrives complete iff all its rules are
  valid (`DeliveredIffValid`).
- An empty firewall rule list sends no page, so its end is never announced; the `isFinish` argument of the
  client is not used.
- The pages of a rule list end, with the finish mark on exactly the last one, iff there are fewer than 2^32
  rules; with more, a finish mark comes early and empty pages follow for ever (`LoopEndsIff`,
  `LongRepeats`).
- Request ids are distinct within a full cycle iff no two allocations overlap: two that overlap at the limit
  can hand out an id twice in a row (`UniqueIff`, `DuplicateReachable`).
- Field names that the two conversions undo collide iff they differ in case only, after the first character
  (`FieldsCollideIff`).

## Model

| member | source | states |
|---|---|---|
| TrafficStats.Conservation | bpf/bpf_progs/netstats.c:47-157 | in every interleaving of any number of program instances the tables keep their size limits, each key's packet and byte counters are the adds performed for it modulo 2^64, and an instance gives up only when its table is full of other keys |
| TrafficStats.BooksBalance | bpf/bpf_progs/netstats.c:77-157 | when all instances have finished, the entry of a key holds exactly the packets and bytes that arrived for it modulo 2^64, those of the ingress program as received and those of the egress program as sent, in the table of that program; a key with traffic and no entry lost it to a table of 5000 or 1000 entries |
| TrafficStats.InstancesBalance | bpf/bpf_progs/netstats.c:77-157 | instance by instance: a key with an entry has counted all its instances, a key without one none of them |
| TrafficStats.InvStep | bpf/bpf_progs/netstats.c:77-157 | every indivisible step of every instance keeps the invariant, pointer validity included |
| TrafficStats.TableStep | bpf/bpf_progs/netstats.c:81-90 | a step touches only its own key, never drops a key, never overfills the table and leaves the keys of a full table alone |
| TrafficStats.StepsAreTheCode | bpf/bpf_progs/netstats.c:77-96 | the steps of one undisturbed instance have the effect of the sequential program |
| TrafficStats.BpfMap.constructor | bpf/bpf_progs/netstats.c:47-75 | a map starts empty with its size limit |
| TrafficStats.BpfMap.Count | bpf/bpf_progs/netstats.c:119-137 | the program without interference: counted iff the key was present or there was room |
| Nat464.ClatCallsAlternate | services/netconnmanager/src/nat464_service.cpp:43-92 | in every run StartClat and StopClat alternate beginning with StartClat, a stop names the interface of the start before it, a start has a non-empty prefix, and the service is running iff the last call was a start |
| Nat464.ClatStep | services/netconnmanager/src/nat464_service.cpp:62-92 | each event keeps this and only appends to the calls made |
| Nat464.RenameTakesEffect | services/netconnmanager/src/nat464_service.cpp:43-49 | from an idle service on, until the next rename that finds it idle, every CLAT call names the interface it was renamed to |
| Nat464.PrefixIsLatest | services/netconnmanager/src/nat464_service.cpp:78-82 | in every run each StartClat carries the latest prefix DNS64 answered, and that answer came after the StopClat before it |
| Nat464.DiscoveryStartsClat | services/netconnmanager/src/nat464_service.cpp:62-119 | a discovery is answered while any updates wait and all are executed, its own Continue last: the service never ends idle; with a prefix CLAT is started by the first two continues in a row, counting the one that started the discovery, and stopped again iff a stop is behind them; the back-off is reset |
| Nat464.DiscoveryStartsIff | services/netconnmanager/src/nat464_service.cpp:62-119 | any CLAT call is made iff the prefix is not empty and two continues follow each other |
| Nat464.StopUndone | services/netconnmanager/src/nat464_service.cpp:73-119 | an input where a waiting stop fails: with only a stop queued the service ends discovering again, with a stop and a continue it ends running |
| Nat464.DrainedIdleIff | services/netconnmanager/src/nat464_service.cpp:62-92 | after the queued updates have been executed, from any state, the service is idle iff the last of them is a stop |
| Nat464.BackoffBound | services/netconnmanager/src/nat464_service.cpp:106-135 | with at most k <= 16 tasks asleep together, iteration plus sleepers is at most 10 + k and the cycle is exactly 100 * 2^(iteration - 1), below 2^32 |
| Nat464.CycleNeverWrapsIff | services/netconnmanager/src/nat464_service.cpp:120-134 | the cycle is exact in all runs with at most k sleepers iff k <= 16 |
| Nat464.CycleWraps | services/netconnmanager/src/nat464_service.cpp:62-135 | a run with 17 sleepers reaches a cycle that has wrapped |
| Nat464.WakesWrap | services/netconnmanager/src/nat464_service.cpp:124-126 | n wake-ups in a row count the iteration modulo 256 and multiply the cycle by 2^n modulo 2^32 |
| Nat464.FailedQuerySleepsIff | services/netconnmanager/src/nat464_service.cpp:120-134 | a failed query is tried again iff the cycle is at most 100000 ms |
| Nat464.ChainStep | services/netconnmanager/src/nat464_service.cpp:51-135 | beside a lone failing chain every query and wake-up of the chain brings it one step closer to its end, and nothing else moves it |
| Nat464.LoneChain | services/netconnmanager/src/nat464_service.cpp:43-135 | with all queries failing, under every schedule and whatever continues and interface names clients submit, a lone chain with the back-off at its start ends after exactly 21 of its events, with 11 queries and 10 sleeps of 102300 ms in all, and leaves the service stalled |
| Nat464.RestartedChain | services/netconnmanager/src/nat464_service.cpp:73-135 | a chain stopped at any point of its back-off and restarted after its task took the stop flag has the whole back-off again: 11 further queries and 102300 ms |
| Nat464.QueryPossibleIff | services/netconnmanager/src/nat464_service.cpp:106-135 | from any state some schedule of the discovery tasks sends another query iff more tasks are alive than the stop flag will end |
| Nat464.RestartQueriesIff | services/netconnmanager/src/nat464_service.cpp:62-135 | after n restarts in a row a query can follow iff n and the tasks alive before them are more than one; for a single restart, iff a task was alive before it |
| Nat464.StopHoldsIff | services/netconnmanager/src/nat464_service.cpp:62-135 | an idle service can leave that state with no client asking for it iff a Continue is queued or more discovery tasks are alive than the stop flag will end |
| Nat464.NextStopHoldsIff | services/netconnmanager/src/nat464_service.cpp:73-135 | the same for the stop executed next, from any state |
| Nat464.ClatComesBackIff | services/netconnmanager/src/nat464_service.cpp:62-135 | with no Continue queued, CLAT can come up again with no client asking for it iff more tasks are alive than the stop flag will end |
| Nat464.StaleStopStarvesDiscovery | services/netconnmanager/src/nat464_service.cpp:62-135 | from a stalled service no event sequence in which a stop is executed only while no discovery task is alive sends a query or makes a CLAT call |
| Nat464.ExhaustedStaysSilent | services/netconnmanager/src/nat464_service.cpp:43-135 | after a lone chain has given up no such sequence leads to a twelfth query |
| Nat464.Nat464Service.constructor | services/netconnmanager/src/nat464_service.cpp:32-41 | the initial state |
| Nat464.Nat464Service.RenameV6Iface | services/netconnmanager/src/nat464_service.cpp:43-49 | the interface changes only while the service is idle, the tunnel name with it |
| Nat464.Nat464Service.UpdateService | services/netconnmanager/src/nat464_service.cpp:51-60 | the update goes to the end of the serial queue |
| Nat464.Nat464Service.RunQueued | services/netconnmanager/src/nat464_service.cpp:54-58 | the oldest update is taken off the queue and executed |
| Nat464.Nat464Service.UpdateState | services/netconnmanager/src/nat464_service.cpp:62-92 | the transition of the three-state machine, for every state and flag |
| Nat464.Nat464Service.DiscoverPrefixUntilSleep | services/netconnmanager/src/nat464_service.cpp:106-124 | an activation up to its end or its sleep: stop flag, answer, give-up limit |
| Nat464.Nat464Service.DiscoverPrefixAfterSleep | services/netconnmanager/src/nat464_service.cpp:124-134 | the rest of it: 8-bit counter, 32-bit cycle, resubmission |
| Parcels.ListRoundTrip | frameworks/native/netmanagernative/netfirewall_parcel.cpp:236-273 | a list read back is its announced elements, normalised, and the cursor ends right after the cells written |
| Parcels.ListStable | frameworks/native/netmanagernative/netfirewall_parcel.cpp:255-273 | a list that can be read looks at nothing beyond its end |
| Parcels.AnnouncedIff | frameworks/native/netmanagernative/netfirewall_parcel.cpp:238-239 | the announced size is the length or the cap iff the 32-bit size has not wrapped below the cap |
| Parcels.CappedRoundTrip | frameworks/native/netmanagernative/netsys_net_diag_data.cpp:392-438 | the reader of a counted list takes the announced elements, and ends where the writer ended iff the size has not wrapped below the cap; otherwise it stands before the first element not announced |
| Parcels.Parcel.WriteList | frameworks/native/netmanagernative/netfirewall_parcel.cpp:236-253 | writes the capped size and that many elements, or the part of it that fits |
| Parcels.Parcel.ReadList | frameworks/native/netmanagernative/netfirewall_parcel.cpp:255-273 | reads a capped size and that many elements, or fails where the first read fails |
| Parcels.Parcel.WriteCapped | frameworks/native/netmanagernative/netsys_net_diag_data.cpp:392-404 | the loop that counts as it writes and leaves at the cap |
| FirewallCodec.V6RoundTrip | frameworks/native/netmanagernative/netfirewall_parcel.cpp:51-101 | the interleaved address bytes come back, with a zero end address if none was sent |
| FirewallCodec.IpRoundTrip | frameworks/native/netmanagernative/netfirewall_parcel.cpp:29-103 | an IP parameter comes back with unused end addresses zero, for every family and type |
| FirewallCodec.IpCells | frameworks/native/netmanagernative/netfirewall_parcel.cpp:29-62 | how many cells a parameter takes: one address for family 1, sixteen bytes otherwise, twice that for type 2 |
| FirewallCodec.RuleRoundTrip | frameworks/native/netmanagernative/netfirewall_parcel.cpp:276-413 | an accepted rule arrives with every list cut to its announced elements, and exactly the cells written are consumed |
| FirewallCodec.RuleAcceptedIff | frameworks/native/netmanagernative/netfirewall_parcel.cpp:332-413 | a rule is accepted iff its direction is 1 or 2, its action 0 or 1 and its type 1 to 5 |
| FirewallCodec.RuleUnchangedIff | frameworks/native/netmanagernative/netfirewall_parcel.cpp:276-413 | a rule comes back exactly as it was iff it is accepted, no list has more than 100 elements, and an end address is there only where it is sent |
| FirewallCodec.RulePrefixRejected | frameworks/native/netmanagernative/netfirewall_parcel.cpp:332-413 | every strict prefix of an encoded rule is rejected |
| FirewallCodec.WriteRule | frameworks/native/netmanagernative/netfirewall_parcel.cpp:276-330 | the whole rule is written, or the part that fits, stopping at the first failing write |
| FirewallCodec.PartialRuleRejected | frameworks/native/netmanagernative/netfirewall_parcel.cpp:276-413 | what a failed WriteRule leaves in an empty parcel is never taken for a rule |
| FirewallCodec.BaseRoundTrip | frameworks/native/netmanagernative/netfirewall_parcel.cpp:415-616 | the same acceptance and normal form for IP, domain and DNS rules |
| FirewallCodec.BaseAcceptedIff | frameworks/native/netmanagernative/netfirewall_parcel.cpp:490-616 | in the fields of the three kinds, read as types 1, 2 and 3: an IP rule needs a direction of 1 or 2, an IP or domain rule an action of 0 or 1 |
| FirewallCodec.BaseUnchangedIff | frameworks/native/netmanagernative/netfirewall_parcel.cpp:415-616 | an accepted rule comes back exactly as it was iff no list has more than 100 elements and an end address is there only where it is sent |
| FirewallCodec.BasePrefixRejected | frameworks/native/netmanagernative/netfirewall_parcel.cpp:490-616 | every strict prefix of an encoded IP, domain or DNS rule is rejected |
| FirewallCodec.WriteIp | frameworks/native/netmanagernative/netfirewall_parcel.cpp:29-62 | the writer produces the conditional layout, or the part of it that fits |
| FirewallCodec.WriteV6 | frameworks/native/netmanagernative/netfirewall_parcel.cpp:51-60 | its byte loop |
| FirewallCodec.ReadIp | frameworks/native/netmanagernative/netfirewall_parcel.cpp:64-103 | the reader decodes the conditional layout, or fails where the first read fails |
| FirewallCodec.ReadV6 | frameworks/native/netmanagernative/netfirewall_parcel.cpp:92-101 | its byte loop, filling two fixed arrays |
| FirewallPager.ChunksPartition | frameworks/native/netmanagernative/netsys_native_service_proxy.cpp:3277-3297 | the pages concatenate to the list in order, each holds between 1 and the page size of rules, and all but the last are full |
| FirewallPager.ChunksCount | frameworks/native/netmanagernative/netsys_native_service_proxy.cpp:3277-3297 | there are as many pages as the length divided by the page size, rounded up |
| FirewallPager.PagesAreChunks | frameworks/native/netmanagernative/netsys_native_service_proxy.cpp:3284-3297 | page i carries chunk i and is marked as the last exactly when it is |
| FirewallPager.PagesNeeded | frameworks/native/netmanagernative/netsys_native_service_proxy.cpp:3274-3297 | IP rules take one page for each 300, other rules one for each 1000, rounded up |
| FirewallPager.LoopEndsIff | frameworks/native/netmanagernative/netsys_native_service_proxy.cpp:3277-3306 | the loop ends, with the finish mark on exactly its last page, iff the list has fewer than 2^32 rules |
| FirewallPager.LongRepeats | frameworks/native/netmanagernative/netsys_native_service_proxy.cpp:3277-3306 | otherwise some page is marked as the last while 2^32 rules are left, and every later turn sends an empty marked page |
| FirewallPager.SuccessMeansAllPages | frameworks/native/netmanagernative/netsys_native_service_proxy.cpp:3277-3306 | turns that have sent everything are the pages of a list of fewer than 2^32 rules |
| FirewallPager.SetFirewallRules | frameworks/native/netmanagernative/netsys_native_service_proxy.cpp:3267-3309 | for a list of any length: turn i sends exactly the page the 32-bit count gives it; success iff everything was sent and every answer was 0, and then there were fewer than 2^32 rules and exactly their pages were sent; a failure names the failing send or the page that did not fit |
| FirewallPager.WritePage | frameworks/native/netmanagernative/netsys_native_service_proxy.cpp:3280-3297 | one page is written, or the failing write is in its header or in a rule |
| FirewallPager.CmdSetFirewallRules | services/netmanagernative/src/netsys_native_service_stub.cpp:2394-2433 | the service decodes one page, skipping rules it cannot read |
| FirewallPager.PageReceived | services/netmanagernative/src/netsys_native_service_stub.cpp:2394-2433 | a page of valid rules of one type arrives as these rules, normalised |
| FirewallPager.RejectedIff | services/netmanagernative/src/netsys_native_service_stub.cpp:2394-2415 | a page is rejected iff it holds more than 300 IP rules or more than 1000 others |
| FirewallPager.RulesDelivered | services/netmanagernative/src/netsys_native_service_stub.cpp:2394-2433 | over all pages the service receives the whole list in order and normalised, rejects none and sees the finish mark on exactly the last |
| FirewallPager.DeliveredIffValid | services/netmanagernative/src/netsys_native_service_stub.cpp:2416-2431 | a list of rules of one type is received complete iff every IP rule has a direction of 1 or 2 and every IP or domain rule an action of 0 or 1 |
| NfqCodec.EncSlots | frameworks/native/netmanagernative/netfirewall_parcel.cpp:687-705 | the cells emitted are two for each queue counted |
| NfqCodec.DecPairs | frameworks/native/netmanagernative/netfirewall_parcel.cpp:722-734 | whatever the parcel holds, the result is an array of 64 slots |
| NfqCodec.CtxRoundTrip | frameworks/native/netmanagernative/netfirewall_parcel.cpp:682-756 | sequence number and every slot, used or empty, come back |
| NfqCodec.CtxPrefixRejected | frameworks/native/netmanagernative/netfirewall_parcel.cpp:709-736 | every strict prefix of an encoded context is rejected |
| NfqCodec.WriteCtx | frameworks/native/netmanagernative/netfirewall_parcel.cpp:682-707 | counting loop, header and slots, or the part that fits |
| NfqCodec.WriteSlots | frameworks/native/netmanagernative/netfirewall_parcel.cpp:696-705 | the loop over the slots in use |
| NfqCodec.ReadCtx | frameworks/native/netmanagernative/netfirewall_parcel.cpp:709-736 | decodes any parcel into a fixed array without touching anything outside it |
| NfqCodec.ReadPair | frameworks/native/netmanagernative/netfirewall_parcel.cpp:723-733 | an index inside the array and a queue, or failure |
| DiagCodec.PingRoundTrip | frameworks/native/netmanagernative/netsys_net_diag_data.cpp:145-214 | the result comes back with its first 1024 responses behind those the object had and the cursor at the end, iff the list size has not wrapped |
| DiagCodec.SocketsRoundTrip | frameworks/native/netmanagernative/netsys_net_diag_data.cpp:390-453 | both lists come back cut to 1024 with the cursor at the end iff neither size has wrapped |
| DiagCodec.IfaceRoundTrip | frameworks/native/netmanagernative/netsys_net_diag_data.cpp:474-538 | the configuration comes back with its first 64 addresses behind those the object had, every later field in place and the cursor at the end, iff the list size has not wrapped |
| DiagCodec.WritePing | frameworks/native/netmanagernative/netsys_net_diag_data.cpp:145-179 | writes the encoding, or the part that fits |
| DiagCodec.WriteSockets | frameworks/native/netmanagernative/netsys_net_diag_data.cpp:390-420 | writes the encoding, or the part that fits |
| DiagCodec.WriteIface | frameworks/native/netmanagernative/netsys_net_diag_data.cpp:474-504 | writes the encoding, or the part that fits |
| PortStatesCodec.StatesRoundTrip | frameworks/native/netmanagernative/net_port_states_info.cpp:78-201 | what can be written comes back exactly |
| PortStatesCodec.ReadIsEncodable | frameworks/native/netmanagernative/net_port_states_info.cpp:96-161 | whatever is read, from any parcel, has at most 1000 entries in each list |
| PortStatesCodec.WriteVector | frameworks/native/netmanagernative/net_port_states_info.cpp:78-94 | refuses a list of more than 1000 entries before writing anything |
| PortStatesCodec.WriteStates | frameworks/native/netmanagernative/net_port_states_info.cpp:192-201 | succeeds iff both lists have at most 1000 entries and the parcel takes them |
| PortStatesCodec.ReadVector | frameworks/native/netmanagernative/net_port_states_info.cpp:96-119 | fills a temporary vector by index and returns it, or fails |
| AddressMask.MaskByte | services/common/src/route_utils.cpp:190-198 | and-ing with the truncated shifted mask clears exactly the low bits of a byte |
| AddressMask.MaskAddress | services/common/src/route_utils.cpp:178-210 | the in-place routine masks byte by byte, or returns nothing on a family mismatch |
| AddressMask.MaskedValue | services/common/src/route_utils.cpp:188-203 | as a number, the masked address is v - v mod 2^(N-p) |
| AddressMask.MaskTwice | services/common/src/route_utils.cpp:188-203 | masking by p and then by q is masking by the smaller of the two |
| AddressMask.MaskedAgreeIff | services/common/src/route_utils.cpp:188-203 | two addresses mask alike iff their first p bits agree |
| AddressMask.MaskAddressIff | services/common/src/route_utils.cpp:185-194 | the prefix is returned iff the address is IPv4 or the length exceeds 32 |
| Routes.RoutePassedOnIff | services/common/src/route_utils.cpp:124-166 | a route is passed to the daemon iff its destination parses in the family its prefix length is taken for |
| Routes.RouteInstalled | services/common/src/route_utils.cpp:124-166 | a route added to an empty table is in it with its masked destination and, as next hop, the gateway of a unicast route, "unreachable" or "throw" for these types, or nothing |
| Routes.GatewayChanged | services/common/src/route_utils.cpp:77-166 | a unicast route whose gateway changes ends up in the table with the new gateway only |
| Routes.CompareRoutes | services/common/src/route_utils.cpp:86-101 | the three lists built by the comparison |
| Routes.UpdateRoutes | services/common/src/route_utils.cpp:77-122 | the operations issued, in order, and the flag returned |
| Routes.PlanOrder | services/common/src/route_utils.cpp:103-119 | gateway-less adds, then gateway adds, then removals, and exactly the unmatched routes |
| Routes.UnchangedIff | services/common/src/route_utils.cpp:86-121 | 0 is returned iff the lists agree as sets up to route equality and every matched route has the type and the MTU of its first match |
| Routes.SingleRouteIff | services/common/src/route_utils.cpp:86-121 | one route for another: nothing is asked for iff interface, destination, gateway and exclusion agree, and 0 is returned iff type and MTU agree as well |
| Routes.FinalTable | services/common/src/route_utils.cpp:86-119 | which keys are in the table in the end |
| Routes.TableIff | services/common/src/route_utils.cpp:77-122 | the table holds the new routes beside unrelated entries iff three conditions on the keys of the two lists hold |
| Routes.TableIffNoCollision | services/common/src/route_utils.cpp:77-122 | when equal routes have equal keys: iff no removed route has the key of a new one |
| Routes.MakeBeforeBreak | services/common/src/route_utils.cpp:103-119 | under these conditions, after any number of operations the table still holds all old routes or already holds all new ones |
| Routes.HostBitsLoseTheRoute | services/common/src/route_utils.cpp:103-119 | an input where the new route is lost |
| Routes.TypeChangeIsNotApplied | services/common/src/route_utils.cpp:90-95 | an input where a changed type is reported and not applied |
| DnsHealth.NetDnsResultCallback.constructor | services/netconnmanager/include/dns_result_call_back.h:44-47 | both tables start empty |
| DnsHealth.NetDnsResultCallback.IterateDnsReportResults | services/netconnmanager/src/dns_result_call_back.cpp:84-123 | each network mentioned gets the counts of admitted reports attributed to it, network 0 meaning the default |
| DnsHealth.TallyFacts | services/netconnmanager/src/dns_result_call_back.cpp:84-131 | totals are positive and add up to the admitted reports, failures do not exceed them, and 0 is a key only if it is the default |
| DnsHealth.TallyInFields | services/netconnmanager/src/dns_result_call_back.cpp:84-123 | the total of a network is the number of reports with its id, or with id 0 if it is the default, whose result is not -1101; its failures are those of them with a result other than 0 |
| DnsHealth.OverThresholdExact | services/netconnmanager/src/dns_result_call_back.cpp:22-38 | for all 32-bit counts the rounded quotient exceeds the rounded 0.6 iff 5 * fail > 3 * total, for any rounding to nearest |
| DnsHealth.OutcomeExact | services/netconnmanager/src/dns_result_call_back.cpp:34-51 | hence a batch fails a network exactly when more than three fifths of its reports do |
| DnsHealth.BatchFailsIff | services/netconnmanager/src/dns_result_call_back.cpp:34-123 | in the fields of the reports: a batch fails a network iff more than three fifths of the reports that count for it are failures, and leaves it alone iff there are none |
| DnsHealth.StreakCounts | services/netconnmanager/src/dns_result_call_back.cpp:56-72 | the fail count is the streak modulo 3, and one unhealthy detection was requested for each three batches of it |
| DnsHealth.NetDnsResultCallback.StreakStored | services/netconnmanager/src/dns_result_call_back.cpp:29-72 | the same of the object itself, for every network after any history of batches |
| DnsHealth.NetDnsResultCallback.RequestNetDetection | services/netconnmanager/src/dns_result_call_back.cpp:56-72 | the count goes up, or back to 0 with a detection at the third failure |
| DnsHealth.NetDnsResultCallback.ReportNetwork | services/netconnmanager/src/dns_result_call_back.cpp:34-52 | one network of a batch moves by one step, all others stay |
| DnsHealth.NetDnsResultCallback.OnDnsResultReport | services/netconnmanager/src/dns_result_call_back.cpp:29-54 | after a batch every network, mentioned or not, is where its history takes it, whatever the order of iteration |
| NetCaps.InsertMembers | services/netconnmanager/src/net_caps.cpp:37-49 | setting and clearing a bit are set insertion and removal |
| NetCaps.EqualIff | services/netconnmanager/src/net_caps.cpp:27-30 | words are equal iff they stand for the same set |
| NetCaps.HasAllIff | services/netconnmanager/src/net_caps.cpp:56-59 | having all of a set is containing it |
| NetCaps.NetCapabilities.constructor | services/netconnmanager/src/net_caps.cpp:20-25 | the valid members of the input, in whatever order |
| NetCaps.NetCapabilities.InsertNetCap | services/netconnmanager/src/net_caps.cpp:37-42 | inserts a valid capability, ignores others |
| NetCaps.NetCapabilities.RemoveNetCap | services/netconnmanager/src/net_caps.cpp:44-49 | removes a capability |
| NetCaps.NetCapabilities.HasNetCap | services/netconnmanager/src/net_caps.cpp:51-54 | membership |
| NetCaps.NetCapabilities.HasNetCaps | services/netconnmanager/src/net_caps.cpp:56-59 | inclusion |
| NetCaps.NetCapabilities.ToSet | services/netconnmanager/src/net_caps.cpp:61-70 | the set the word stands for |
| NetActivate.MatchIff | services/netconnmanager/src/net_activate.cpp:87-179 | a match, said with sets: wanted capabilities, or capability 12 if none is named, bearer types, identity with Wi-Fi as bearer 1, and bandwidth |
| NetActivate.MatchMonotone | services/netconnmanager/src/net_activate.cpp:87-179 | a match survives more capabilities, more bandwidth and a relaxed identity check |
| NetActivate.RememberedType | services/netconnmanager/src/net_activate.cpp:276-283 | after any suppressed sequence the type is AVAILABLE if the last non-update one is, and otherwise the last one seen |
| NetActivate.NetIdWrittenOnce | services/netconnmanager/src/net_activate.cpp:296-312 | with non-zero net ids the remembered one is written at most once, and the lost-delay fields are untouched |
| NetActivate.RememberedNetId | services/netconnmanager/src/net_activate.cpp:302-306 | what is remembered is the network in use at a loss that follows something else |
| NetActivate.Activation.constructor | services/netconnmanager/include/net_activate.h:102-107 | the initial state |
| NetActivate.Activation.SetLastCallbackType | services/netconnmanager/src/net_activate.cpp:276-283 | an update does not replace AVAILABLE |
| NetActivate.Activation.IsAllowCallback | services/netconnmanager/src/net_activate.cpp:296-322 | when a callback is held back, delayed or let through, and the state after it |
| RequestIds.SerialIds | services/netconnmanager/src/net_activate.cpp:48-51 | in every run in which no two allocations overlap the j-th id handed out is 1 + j mod 0x7FFFFFFF |
| RequestIds.UniqueIff | services/netconnmanager/src/net_activate.cpp:48-51 | in all runs with at most k allocations pending, ids fewer than 0x7FFFFFFF allocations apart differ iff k <= 1 |
| RequestIds.DuplicateReachable | services/netconnmanager/src/net_activate.cpp:48-51 | from the initial counter a run with two pending allocations hands out the id 1 twice in a row |
| RequestIds.IdRange | services/netconnmanager/src/net_activate.cpp:48-51 | with at most k <= 2^31 pending, ids are at least 1 and exceed the maximum by less than k |
| RequestIds.PositiveIff | services/netconnmanager/src/net_activate.cpp:48-51 | in all runs with at most k pending every id is positive iff k <= 2^31, where the 32-bit counter would wrap |
| AniNames.FieldName | common/ani_rs_macros/src/lib.rs:86-101 | the field loop computes the camel-case name and ends it with NUL |
| AniNames.VariantName | common/ani_rs_macros/src/lib.rs:130-140 | the variant loop computes the upper-case snake name and ends it with NUL |
| AniNames.RoundTripIff | common/ani_rs_macros/src/lib.rs:89-139 | field conversion followed by variant conversion gives the upper-cased name iff underscores stand between a character and a letter and inner upper-case letters follow an underscore |
| AniNames.VariantBackIff | common/ani_rs_macros/src/lib.rs:89-138 | the field loop undoes the variant loop iff the variant has no underscore of its own |
| AniNames.SnakeLength | common/ani_rs_macros/src/lib.rs:132-138 | the variant loop adds one underscore for each capital after the first character |
| AniNames.FieldsCollideIff | common/ani_rs_macros/src/lib.rs:89-101 | two names of that form get the same field name iff they differ in case only, and not in their first character |
| AniNames.FieldNamesDistinct | common/ani_rs_macros/src/lib.rs:89-101 | no two snake_case fields get the same name |

## Left out

- Write chains and read chains without a loop or a branch are values: the cells of a message and a decoder of them. The parcel methods run such a chain as one `WriteEach` or `ReadEach`; that the fields of a C++ object are assigned one by one is not captured.
- Reading a cell as another type of the same width, which a byte buffer would allow, is not modelled: such a read fails here.
- Parcels.Parcel.WriteCapped: covers the diagnostics loops for every element type at once; the three source loops differ only in the element written.
- FirewallPager.SetFirewallRules: the interface token in front of each page is not part of a page here; a loop that does not end is followed for as many turns as there are answers.
- DnsHealth.OverThresholdExact: doubles are real numbers of the binary64 format and rounding is to nearest; infinities and NaN cannot arise from these counts.
- DnsHealth.NetDnsResultCallback.OnDnsResultReport: tallies do not wrap, because a batch is announced with a 32-bit size; the status that detection requests return is only logged by the code.
- NetCaps.NetCapabilities.HasNetCap: asks for a capability below 32, since a shift by 32 or more is undefined in the code.
- NetCaps.NetCapabilities.HasNetCaps: asks for wanted capabilities below 32, for the same reason.
- NetActivate.MatchIff: requested capabilities are below 32, for the same reason.
- AddressMask.MaskAddress: prefix lengths are not negative; a negative one indexes in front of the buffer.
- AniNames.VariantName: letters are ASCII letters; the macro also puts an underscore before other Unicode capitals and maps other letters to upper case in the end.
- Parsing and printing of addresses, DNS queries, CLAT itself, sends and app state are inputs: an address is its bytes, an answer or a return code is a parameter or an event.
- Tearing of the 464XLAT fields: a queued update, an interface update and an activation up to its sleep are each one step.
- Deletion from the kernel maps, and inserts that fail for lack of memory although the map has room.
- Flat codecs (ping options, route table entries, intercept records, DHCP results) and the forwarding code of proxies and stubs would only add easy members.
- `AddRoutesToLocal` and `RemoveRoutesFromLocal`: loops that pass each route on.
