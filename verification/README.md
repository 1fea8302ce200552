# A model of the PWOSPF router

The program modelled is a software router that speaks PWOSPF: it learns its neighbours from HELLO packets, floods
link-state updates (LSUs) through the network, keeps a topology database, computes shortest paths and a forwarding
table from it, resolves next hops by ARP, and filters packets with a stateful firewall. The model follows the code
branch by branch, with its constants and its unusual cases, and proves what the code keeps and achieves.

Run `dafny verify dfyconfig.toml` in this directory to check everything.

## How the model is laid out

| module | what it holds |
|---|---|
| `Graphs`, `PathLabels` | walks and hop distances; the labels of Dijkstra's algorithm as values |
| `Records`, `Octets` | routes, neighbours, interfaces, table entries; words, octets and byte order |
| `Routers` | one router record with its packed arrays, edited in place |
| `Withdrawal`, `Hellos`, `Database` | what LSUs, HELLOs and expiry do to subnets, neighbours and the database, as values |
| `Intake`, `Unlinking`, `HelloWalk`, `Startup` | the same said without those functions: one route at both ends, a link gone at both ends, a HELLO interface by interface, and what is set up at start |
| `Topology` | the PWOSPF subsystem: the list of routers, shortest paths, the forwarding table, and every operation on them |
| `Forwarding`, `Lookup` | the forwarding table and route selection |
| `Network`, `PacketLoops`, `Gateways` | packets in a network of routers: where they go, exactly when they loop, two routers between which they do, and the configuration shipped, with which they never do |
| `Learning`, `Convergence`, `RunningNetwork` | how subnets and databases come to agree by LSUs and HELLOs, and the network that running subsystems make |
| `Flooding`, `FloodProtocol`, `Delivery`, `Adverts` | LSU copies, the distributed protocol and the router code that takes its steps, and LSU packets octet by octet |
| `Renewal`, `Overtaking` | one LSU after another: when routers take in the latest only, and a run that leaves them with an older one |
| `Sha1Spec`, `Sha1Published`, `Sha1` | FIPS PUB 180-1, the digests it publishes, and the streaming implementation |
| `PacketLists`, `ArpQueue` | the linked lists that packets wait in, node by node and with freed nodes, and the records of pending addresses |
| `ArpProtocol`, `ArpSteps`, `ArpConservation`, `ArpCache` | address resolution as a state machine, the code that takes its steps, what becomes of every packet, and the cache |
| `Locks` | the three mutexes and the threads that take them |
| `Checksum`, `Firewall` | header checksums; the flow table |

The router records of `Topology` point at each other and are updated through `modifies` frames of single fields.
Each operation on them is proved equal to a function on `Database.Topo`, in which routers are named by their ids;
what the operations keep and achieve is then proved about those functions, for single steps and for whole runs.

## Main results

- Dijkstra leaves every router's distance and predecessor right, on any topology; the forwarding table is complete
  exactly when all routers can be reached and all local subnets have an interface, and then holds the least hop count
  for every subnet (`Topology`, `Forwarding`).
- Routers that have taken in the LSUs of all others, in any order and however often, with HELLOs in between, agree on
  the links and on who holds or advertises what, although each keeps its own next hops and leaves its own static routes
  out of its database. They may start with subnets whose routers they have not heard of (`Convergence.DatabaseAgrees`).
  A router may advertise several subnets on one prefix as long as their masks differ and at most one leads to a router,
  as it does with a host route on one of its own subnets. A static route with the prefix and mask of a link breaks
  this: two routers agree if and only if there is none (`Convergence.TwoRoutersAgree`). With tables recomputed, routers
  that agree form a converged network (`RunningNetwork`).
- In a converged network every packet comes one hop closer at each router to one that advertises the longest key,
  except where a router has that key for a static route only (`Network`). **Packets do not always arrive.** A router
  advertises its static routes but looks them up last, so it may send a packet back to the router it came from: two
  gateways with a default route each pass packets to and fro, on whatever link (`Gateways.TwoDefaultRoutesLoop`,
  `PacketLoops.TwoGatewaysLoop`), and so does one gateway that learnt a shorter remote key
  (`PacketLoops.OneGatewayLoops`). Packets for a destination never loop, whichever shortest paths the tables follow,
  if and only if there is no such bounce, which holdings and distances decide (`PacketLoops.LoopFreeExactly`). With
  the static routes shipped there is none for any destination (`Gateways.ShippedNeverLoops`).
- A link is withdrawn at both ends: an LSU that leaves it out takes as many subnets from the other router as from its
  host, a neighbour gone silent one from either end, and a router that expires one from each router that stays
  (`Unlinking`). What one advertised route does is told case by case, with the clashes that cost a router its subnet or
  leave a link in one direction (`Intake`). A HELLO identifies the sender's subnet, exactly that one and exactly when the
  walk over the interfaces gets to an agreeing one (`HelloWalk`). The table set up at start is right if and only if no two
  interfaces share a prefix (`Startup`).
- Every run of locked sections keeps the topology and the neighbour arrays sound, and is a run of the value-level
  database (`Topology`, `Database`, `Hellos`).
- Flooding stops, is accepted at most once per router, and reaches every router that can be reached, with at most 256
  routers, which then have taken in exactly what the originator advertised (`FloodProtocol`); its steps are those of the
  router code (`Delivery`). When each LSU has come to rest before
  the next is sent, routers take in the latest only (`Renewal`). **An older LSU can win.** Routers discard by number
  and not by age, so a copy overtaken by the next LSU is taken in again, and stays (`Overtaking.OlderWins`); copies
  that wait for an address do overtake each other, since they are sent latest first. A receiver recovers the
  advertisements exactly when the frame size fits 16 bits, and then so does every router after any number of relays
  (`Adverts`). Withdrawal is exact in every storage order if and only if no advertised and unadvertised subnet share a
  router id (`Withdrawal`).
- The SHA-1 code computes FIPS PUB 180-1 for any chunking of any message below 2^61 octets, and reports longer ones. The
  specification it is measured against gives the two digests that the standard publishes (`Sha1Published`).
- ARP keeps one resolver thread per address, and frees no list twice (`ArpProtocol`). The thread leaves its buffer
  pointers as they are after sending, until its last section. Handing over a data packet then reads freed memory if
  and only if data packets were sent (`ArpProtocol.ReadsFreedExactly`); any other packet handed over then is lost
  (`ArpConservation.LatePacketIsLost`). As long as no freed memory is read, packets are lost exactly when they are
  handed over late (`ArpConservation`).
- No reachable state of any number of threads is deadlocked (`Locks`).
- The header checksums are those of RFC 1071, which for an odd length needs a zero octet behind it; the PWOSPF gate differs from the usual whole-header check in
  exactly one field value (`Checksum`). The table walk is longest-prefix match in either byte order (`Lookup`). The
  purge of the flow table loses live entries exactly when one stands before a stale one, and a packet from inside is
  refused exactly when the table is full of live entries for other connections (`Firewall`).

## Model

| member | source | states |
|---|---|---|
| PathLabels.RelaxStep | top_info.c:908-926 | relaxing one adjacency keeps all labels sound and realised by predecessors, settles that adjacency, unsettles none, and keeps visited routers at least as close as all others |
| PathLabels.VisitClosest | top_info.c:899-905 | choosing an unvisited router of least label starts a visit under which all earlier adjacencies stay settled |
| PathLabels.LabelIsWalk | top_info.c:900-928 | a label is the length of a real walk from the source, the one along the predecessors |
| PathLabels.NothingLeft | top_info.c:900-928 | when no unvisited router has a label, every label is the least number of hops and unlabelled routers cannot be reached |
| PathLabels.FinalAt | top_info.c:884-929 | for any router but the source: no predecessor means distance -1 and unreachable; else the predecessor is one hop closer and the label is the distance |
| Topology.Subsystem.GetSmallestUnknown | top_info.c:934-964 | ends, although two branches do not advance the list, and returns an unvisited router of least label, or null when none has a label |
| Topology.Subsystem.RelaxEdge | top_info.c:914-925 | changes labels as one relaxation step does, and no other field |
| Topology.Subsystem.RelaxAdjacencies | top_info.c:908-926 | after the loop over a router's adjacencies all visited routers' adjacencies are settled |
| Topology.Subsystem.Dijkstra | top_info.c:884-929 | on every valid topology, ends with each router's distance and predecessor right, and the topology unchanged |
| Topology.Subsystem.Predecessor | top_info.c:900-928 | read off the records: null predecessor exactly for unreachable routers, with distance -1; else distance falls by one along it |
| Topology.Subsystem.FindNextHop | top_info.c:819-841 | ends; returns the true distance and a router adjacent to this one on a shortest path, or null with 0 for this router and -1 for an unreachable one |
| Topology.Subsystem.EntryLeaves | top_info.c:672-813 | every entry of a matching table names the interface on an own subnet, or an adjacent router by its address and the interface it was heard on |
| Topology.Subsystem.FtableContains | top_info.c:846-861 | finds the first entry with the prefix and mask |
| Topology.Subsystem.GetIfAndNeighbor | top_info.c:625-646 | the address of the first neighbour with that id, counted interface by interface, and the name of the interface it is on; zeroed records exactly when there is none |
| Topology.Subsystem.GetSubnetIf | top_info.c:651-667 | the name of the first interface whose masked address is the prefix, and none exactly when there is no such |
| Forwarding.HopViaFirst | top_info.c:625-646 | the hop by way of a router is where that neighbour was heard first: its address and that interface |
| Forwarding.SubnetIfaceFirst | top_info.c:651-667 | the interface of a subnet is the first one on its prefix |
| Forwarding.EntriesLeave | top_info.c:755-798 | an entry of a right table at no distance names the first interface on an own subnet; any other names the address and interface of a neighbour one hop closer to a router that holds the subnet |
| Topology.Subsystem.AddLocalSubnet | top_info.c:689-736 | a local subnet is merged at 0 hops, or the program stops when no interface is on it |
| Topology.Subsystem.AddRemoteSubnet | top_info.c:755-798 | a remote subnet is merged if it is new or closer |
| Topology.Subsystem.AddRouter | top_info.c:681-810 | offers every subnet of one router at its true distance; stops the program exactly for a local subnet without interface, gives up exactly on an unreachable router |
| Topology.Subsystem.UpdateFtable | top_info.c:672-813 | completes exactly when every router is reachable and every local subnet has an interface, and then the table is right for the topology |
| Forwarding.MergeAllIsBest | top_info.c:689-798 | merging offers in any order keeps one entry per prefix and mask, each the earliest of the closest offers, or the last local one |
| Forwarding.MergedTableCorrect | top_info.c:672-813 | merging true offers that cover every holder gives a right table |
| Forwarding.TableIsMinimum | top_info.c:672-813 | in a right table every hop count is the least distance over all routers holding that subnet, reached by one of them, and keys are unique |
| Forwarding.RenamedTable | top_info.c:672-813 | rightness of a table depends on router ids only, not on the records |
| Topology.Subsystem.TableByRid | top_info.c:672-813 | the table computed from records is right for the topology named by router ids |
| Forwarding.HoldingsDecideTable | top_info.c:672-813 | a table is right for one database exactly when it is right for any other with the same links, the same subnets of its own router, and the same prefixes and masks of the others |
| Learning.TakenIn | top_info.c:406-435 | of subnets that may be advertised together, taking in one never clashes: afterwards it is there, with its router if it was held without, and no advertised one has changed |
| Learning.TakenBack | top_info.c:475-496 | so it is with the way back, at a router whose links are held or have their place |
| Learning.OwnComplete | top_info.c:480-483 | a router's own subnets are as they should be once all its links have turned up |
| Convergence.LsuTeaches | top_info.c:287-336 | after another router's LSU the database has everything that router advertises, links at both ends, and still nothing that is not so |
| Convergence.HelloTeaches | hello.c:123-135 | a HELLO from the router behind a subnet, when nobody has gone silent, adds no more than that router |
| Convergence.DatabaseAgrees | lsu.c:29-101 | after LSUs of all other routers, in any order and number and with such HELLOs in between, the database has exactly the links of the network, the router's own subnets, and the keys that each other router holds or has a static route for, whether or not it knew the routers behind subnets before |
| Convergence.StartsTruthful | sr_pwospf.c:64-82 | the database set up at start meets what that asks for |
| Convergence.OneMaskCompatible | top_info.c:413-416 | with one mask on all interfaces what a router advertises may be advertised together exactly when no static route has the prefix and mask of a link |
| Convergence.ShippedConsistent | rtable.vhost2:1 | it may with static routes to single hosts and by default, also to a host on one of the router's own subnets |
| Convergence.RepeatedLinkIsCut | top_info.c:419-427 | a static route with the prefix and mask of a router's only link makes the receiver lose that link |
| Convergence.TwoRoutersAgree | sr_pwospf.c:64-82 | two routers on one link that took in each other's LSU agree, with next hops and static routes of their own, if and only if no static route has the prefix and mask of their link |
| RunningNetwork.RecomputedNetworkConverges | top_info.c:332-333 | subsystems that recomputed their tables on agreeing databases form a converged network |
| RunningNetwork.FloodedNetworkConverges | lsu.c:29-101 | subsystems that took in the LSUs of all others, with HELLOs in between, and recomputed, and hear the routers they are linked with, form a converged network |
| RunningNetwork.AgreedLinksGoBothWays | top_info.c:437-498 | links whose two ends agree on their subnet go both ways |
| Network.NextHopIsCloser | top_info.c:747-798 | the next hop of a remote entry has an entry for that key one hop closer, or is itself the router with a static route for it, one hop away |
| Network.TopIsKnown | lsu.c:326-338 | every router knows the longest key advertised for a destination, except a router that alone has it, for a static route |
| Network.ChoiceIsLongest | sr_router.c:588-630 | a lookup finds the longest key that the router knows, in tables of whatever order |
| Network.ReachesOriginator | sr_router.c:416-430 | from a router that has not the longest key for a static route only, a packet takes the hops its entry says, one closer at each, to a router that advertises the key, unless it is for a router on the way |
| Network.WhereItEnds | sr_router.c:416-430 | a packet stops at a router that holds the subnet it chose, with the interface on it, or at one whose static route has the longest key |
| PacketLoops.RankFalls | sr_router.c:588-664 | without a bounce every hop lowers a measure of the routers |
| PacketLoops.ComesToRest | sr_router.c:416-430 | without a bounce every packet visits no router twice and ends at the router it is for, on a local subnet, or at a static route with the longest key |
| PacketLoops.BounceLoops | sr_router.c:416-430 | at any bounce right tables exist in which the packet goes to and fro |
| PacketLoops.LoopFreeExactly | sr_router.c:416-430 | packets for a destination never loop under any right tables if and only if it has no bounce |
| PacketLoops.TwoGatewaysLoop | lsu.c:326-338 | two linked routers that alone have static routes for the longest key send packets to and fro for ever, in every converged network |
| PacketLoops.OneGatewayLoops | lsu.c:326-338 | a router that alone has the longest key, for a static route, and knows a shorter remote one gets every packet back from the next hop |
| PacketLoops.LoneGatewayIsFine | lsu.c:326-338 | a router that alone has the longest key and knows no other never makes packets loop |
| PacketLoops.HomeIsFine | sr_router.c:416-430 | gateways that follow their own subnets where others follow their static routes never make packets loop |
| Gateways.TwoDefaultRoutesLoop | sr_router.c:416-430 | two routers on one link, of whatever mask and addresses, with a default route each: a converged network in which a packet for any address off the link passes between them for as long as it lives |
| Gateways.InterfaceMaskLink | sr_pwospf.c:241 | any two addresses that differ in the last bit make such a link with the mask of all interfaces |
| Gateways.ShippedNeverLoops | rtable.vhost1:1 | with the three static routes shipped, each host on an own subnet of its router, no packet for any destination loops, in whatever network |
| Routers.Router.RemoveAdjacency | top_info.c:220-235 | the array stays packed without duplicates and loses exactly the router with that id |
| Routers.Router.RemoveSubnetById | top_info.c:149-166 | removes only the first subnet attached to the id |
| Routers.Router.RemoveSubnet | top_info.c:114-144 | removes the first equal subnet and the adjacency behind it; arrays stay packed |
| Routers.Router.AddAdjacency | top_info.c:439-444 | appends, doubling a full array; still packed without duplicates |
| Routers.Router.HasAdjacency | top_info.c:505-516 | true exactly when a router with that id is adjacent |
| Routers.Router.Contains | top_info.c:521-532 | true exactly when a subnet agrees in prefix, mask and router id |
| Routers.Router.FindPrefix | top_info.c:537-549 | the first subnet on the prefix |
| Routers.Router.AddRoute | top_info.c:554-565 | appends, doubling a full array |
| Routers.Router.Learn | top_info.c:407-435 | the host's side of one advertised route, clashes included |
| Routers.Router.LearnBack | top_info.c:475-496 | the other side of one advertised route, clashes included |
| Routers.SwapRemoveTakesOne | top_info.c:154-165 | overwriting a slot by the last one removes exactly one occurrence |
| Topology.Subsystem.constructor | sr_pwospf.c:37-118 | the start state: one router, one subnet and one table entry per interface, and the invariant |
| Topology.Subsystem.AdjListContains | top_info.c:376-388 | the router with that id, or null exactly when there is none |
| Topology.Subsystem.AddNewRouter | top_info.c:570-620 | one fresh router without links or subnets joins the end of the list |
| Topology.Subsystem.TakeRoute | top_info.c:406-498 | one round of the loop changes the database exactly as one advertised route should |
| Topology.Subsystem.AddToExistingRouter | top_info.c:399-500 | the whole list of routes is taken in, in order, and the host's expiry renewed |
| Topology.Subsystem.SubInAdv | top_info.c:341-352 | true exactly when an advertisement agrees in prefix, mask and router id |
| Topology.Subsystem.WithdrawSubnet | top_info.c:314-323 | one subnet, its counterpart at the other router and the link between the two go, and nothing else |
| Topology.Subsystem.PruneHost | top_info.c:308-328 | the withdrawal loop ends, although it steps back after each removal, with the specified database |
| Topology.Subsystem.AddToTop | top_info.c:287-336 | the database is exactly what the LSU makes of it, expiry is renewed for the host alone, and distances and table are right again |
| Topology.Subsystem.RemoveFromTopo | top_info.c:186-215 | no adjacency to the router is left anywhere, and every other router lost one subnet leading to it |
| Topology.Subsystem.CheckTopInvalid | top_info.c:61-109 | exactly the expired routers other than this one are dropped, in list order; distances and table are recomputed exactly when some were |
| Topology.Subsystem.GetSequence | top_info.c:969-985 | the stored sequence number, 0 for an unknown router |
| Topology.Subsystem.SetSequence | top_info.c:990-1005 | stores the number with that router and no other |
| Topology.Subsystem.HandleLsu | lsu.c:29-101 | own and repeated LSUs change nothing; others update the database and table, are stored, and are forwarded |
| Topology.Subsystem.ForwardLsu | lsu.c:107-176 | one copy per neighbour but the sender's, carrying originator, number and advertisements of the packet, both times to live one less, and none when either runs out, with 8-bit wrap-around |
| Topology.Subsystem.SweepIface | hello.c:53-79 | silent neighbours go from the interface, and after start-up their subnets and links too |
| Topology.Subsystem.HearOn | hello.c:94-120 | the sender is refreshed or added on the receiving interface, and the array doubled when full |
| Topology.Subsystem.IdentifySubnet | hello.c:123-135 | only a subnet on the sender's prefix and mask that has no router takes its id |
| Topology.Subsystem.HandleHello | hello.c:26-142 | interfaces and database are exactly what the HELLO makes of them; it is dropped exactly when too short or when it disagrees with its interface, and the walk stops there |
| Topology.Subsystem.GenerateAdv | lsu.c:303-340 | the router's subnets in order, then the static routes without router |
| Topology.Subsystem.SendLsu | lsu.c:181-297 | the next sequence number, wrapping at 16 bits, and one copy of those advertisements per neighbour |
| Topology.Subsystem.Run | sr_pwospf.c:152-171 | every run of locked sections, in any order, keeps unique ids, packed adjacencies inside the network, this router and all predecessors in it, and distinct neighbours inside their arrays, and is a run of the value-level database |
| Database.TookKeeps | top_info.c:406-498 | a route changes its host's subnets as it would change a list of its own, even when it leads back to the host |
| Database.TookGrows | top_info.c:406-498 | a route that runs into no clash only adds links, both ways, and both ends then hold its subnet |
| Database.TookAllGrows | top_info.c:399-500 | routes without clashes only add links, keep all links going both ways, and link the host with every router they lead to |
| Database.WithdrawnShrinks | top_info.c:314-323 | withdrawal takes away the one link, both directions, and no other |
| Database.PrunedShrinks | top_info.c:308-328 | the loop only takes links away, always both directions, and prunes the host's subnets as a list of their own |
| Database.AfterLsuHost | top_info.c:287-336 | the host's subnets after an LSU depend only on its subnets before and the advertisements |
| Database.AfterLsuLinks | top_info.c:287-336 | an LSU without clashes keeps links symmetric, and during start-up only adds links, to every advertised router |
| Database.AfterLsuIsExact | top_info.c:287-336 | after start-up, without clashes and shared router ids, the host holds exactly the advertised ones of its subnets and is linked both ways with every advertised router |
| Database.DroppedAllIsRestriction | top_info.c:186-215 | expiry leaves exactly the links among the remaining routers, and keeps symmetry |
| Database.SweptTopoShrinks | hello.c:53-79 | every neighbour gone silent ends up linked with this router in neither direction |
| Database.AfterHelloParts | hello.c:26-142 | after start-up a HELLO parts this router from every silent neighbour on the interfaces it gets to, and never leaves a one-way link |
| Database.RunKeepsTopology | top_info.c:61-109 | over any run of LSUs, HELLOs and expiries links stay inside the network and this router in it, and links go both ways as long as no LSU clashes |
| Database.RunFromStart | sr_pwospf.c:37-118 | the same from the start state |
| Intake.LearnedTakesIn | top_info.c:406-435 | the host's subnets after one route: as they were, with the route added, with its router given to the first subnet on the prefix, or without that subnet, exactly as the masks and routers decide |
| Intake.LearnedTakesBack | top_info.c:475-496 | the other router's subnets after the way back, in the same detail |
| Intake.ClashIs | top_info.c:413-429 | exactly which first subnets on the prefix clash, at either end |
| Intake.RouteAtBothEnds | top_info.c:406-498 | one route changes the subnets of its host and of the router it leads to in that way, and nobody else's; after a clash at the host the other router keeps its own |
| Intake.ClashCutsLink | top_info.c:425-427 | a clash at the host costs it the link to the router behind the subnet it loses, and no other link |
| Intake.RouteLinks | top_info.c:437-496 | otherwise a route that leads to a router links both ways, and a clash there leaves the link from the host only |
| Unlinking.WithdrawnAtBothEnds | top_info.c:314-323 | the host loses its first subnet leading to the other router, that one its first leading back, and no third router anything |
| Unlinking.WithdrawnAtOneEnd | top_info.c:314-319 | a subnet that leads to no known router goes from the host alone |
| Unlinking.WithdrawnAtSelf | top_info.c:314-323 | a host that is its own neighbour loses two of its subnets leading to itself |
| Unlinking.PrunedAtBothEnds | top_info.c:308-328 | over the whole loop every other router loses as many subnets leading to the host as the host loses that lead there, as far as it has any, and keeps all others |
| Unlinking.LsuAtBothEnds | top_info.c:287-336 | so does a whole LSU past start-up, compared with the same LSU during start-up, and a link of which a subnet went is gone |
| Unlinking.UnadvertisedLinkGoes | top_info.c:303-328 | a link that an LSU leaves out is gone from the subnets of both ends and from the links |
| Unlinking.SweptAtBothEnds | hello.c:53-79 | the sweep takes one subnet from either end for every neighbour gone silent with that id, and no other |
| Unlinking.DroppedAtOthers | top_info.c:202-210 | a router that stays loses its first subnet leading to the one dropped |
| Unlinking.DroppedAllAtOthers | top_info.c:61-109 | over all routers dropped it loses one subnet leading to each, if it has one, and keeps all others |
| Topology.Subsystem.KeptOrExpired | top_info.c:61-109 | kept are this router and exactly those not expired; the ids of all others are dropped, each once |
| HelloWalk.HelloInTurn | hello.c:51-139 | the walk sweeps the interfaces up to the one the HELLO came in on; if that agrees, this router's subnets take in the sender and the rest are swept, else the walk ends |
| HelloWalk.QuietHello | hello.c:123-135 | during start-up or with nobody silent, exactly the first own subnet on the sender's prefix takes its router id, if it has none and the mask agrees, and nothing else in the database changes |
| HelloWalk.HelloAtEach | hello.c:51-120 | each interface the walk gets to keeps its valid neighbours, the receiving one hears the sender, and those behind a disagreement stay as they were |
| Startup.SubnetIs | sr_pwospf.c:67-82 | the subnet set up for an interface: its prefix and mask, no router, and as next hop the prefix unless that is the interface's own address |
| Startup.HostBitIsLast | sr_pwospf.c:74-77 | in that case the address with its last bit set, in network order on hosts of either byte order |
| Startup.StartTableRight | sr_pwospf.c:83-105 | with interface names of their own, the table set up at start is right if and only if no two interfaces share a prefix |
| Withdrawal.AdvertListInOrder | lsu.c:303-340 | the advertisements are the subnets in order, then the static routes in order and without router, all without next hop |
| Withdrawal.AdvertListIsExact | lsu.c:303-340 | an LSU advertises the router's subnets and its static routes and nothing else |
| Withdrawal.PruneExact | top_info.c:308-328 | without shared router ids the loop keeps every advertised subnet as often as it was there, and leaves only advertised ones |
| Withdrawal.MixedLosesAdvertised | top_info.c:149-166 | the losing case: an advertised subnet stored before an unadvertised one of the same router id is withdrawn in its place |
| Withdrawal.ExactInEveryOrder | top_info.c:308-328 | the loop is exact in every storage order if and only if no advertised and unadvertised subnet share a router id |
| Hellos.SweepKeepsValid | hello.c:53-64 | the sweep drops exactly the silent neighbours, each of the others staying as often as it was there |
| Hellos.HeardIs | hello.c:94-120 | every neighbour stays in its place with its id and address, one at the sender's address for 20 more seconds; a new one has the sender's router id and address |
| Hellos.HeardSender | hello.c:94-120 | afterwards the sender is a neighbour once, for 20 more seconds, with the id it had or the one it says, no other neighbour changed, and the array is large enough |
| Hellos.IdentifiedIs | hello.c:123-135 | subnet by subnet: only the first on the sender's prefix changes, only if it has that mask and no router, and only by taking the sender's router id |
| Hellos.AfterHelloFits | hello.c:94-119 | a HELLO leaves the neighbours of every interface distinct and inside their array, so that the slot written for a new one exists |
| Flooding.CopiesContents | lsu.c:131-172 | copies go to exactly the neighbours other than the one the packet came from, at most one each |
| Flooding.ForwardedCarry | lsu.c:107-176 | every copy sent on has the originator, number and advertisements of the packet and one less to live; one goes to each neighbour at another address than the packet came from, and none when that leaves nothing to live |
| Flooding.OriginatedCarry | lsu.c:242-293 | a new LSU goes to every neighbour with 255 to live and its advertisements |
| FloodProtocol.NothingElseTravels | lsu.c:107-176 | in every run each copy under way and each LSU taken in carries what the originator advertised |
| FloodProtocol.RunInv | lsu.c:29-176 | in every run copies carry the advertisements, and times to live lowered once per hop, stored numbers tell who accepted, and a router that accepted serves all it lists |
| FloodProtocol.FloodingStops | lsu.c:29-176 | a run has at most (largest number of neighbours) x (number of routers) deliveries |
| FloodProtocol.AcceptedAtMostOnce | lsu.c:44-50 | no router accepts the LSU twice and its originator never does |
| FloodProtocol.NeverStuck | lsu.c:29-176 | as long as a copy is under way some delivery is possible |
| FloodProtocol.ListedHasCopyComing | lsu.c:107-176 | with at most 256 routers times to live suffice: a neighbour of a router that accepted has accepted too or has a copy coming |
| FloodProtocol.FloodingDelivers | lsu.c:29-176 | when nothing is under way every router reachable over neighbour links has taken in exactly what the originator advertised and stored its number |
| Renewal.OrderlyTakesLatest | lsu.c:44-50 | when no copy is under way whenever a new LSU is sent, over any number of them, every router takes in the latest only, with what it advertised, each once and in order |
| Renewal.DeliversLikeFlooding | lsu.c:29-101 | a delivery among several LSUs does what a delivery of the flooding protocol does, which the router code takes |
| Overtaking.OlderWins | lsu.c:44-50 | a run of three routers in a ring at whose end no copy is under way and a router that took in the second LSU has last taken in what the first one advertised, and stores its number |
| Delivery.DeliverTo | lsu.c:29-101 | what a router does with a copy it is handed is a step of the flooding protocol: accepted, taken into the database, stored and sent on alike, unless the program stops |
| Adverts.WriteAdverts | lsu.c:205-211 | the octets of every advertisement, in order, in the host's byte order |
| Adverts.Layout | pwospf_protocol.h:33-71 | the place and byte order of every field of the packet and of each advertisement |
| Adverts.LayOutLsu | lsu.c:181-239 | the packet announces count, sequence number, length and originator as written, and passes the checksum gate |
| Adverts.ReadAdverts | lsu.c:51-71 | reads as many advertisements as are announced, or runs past the end of the packet |
| Adverts.WholePacketDecodes | lsu.c:51-71 | a whole packet is read back as laid out: the same octets on any host, the same words on hosts of one byte order |
| Adverts.RoundTripExactlyWhenItFits | lsu.c:253-255 | the receiver recovers exactly the advertisements laid out if and only if the frame size, 66 octets and 12 for each, fits its 16-bit variable |
| Adverts.RelayLsu | lsu.c:114-120 | forwarding changes time to live and checksum, and nothing else of the PWOSPF part |
| Adverts.LsuSurvivesRelays | lsu.c:107-176 | after any number of relays by hosts of either byte order the packet passes the gate and is read as laid out |
| Lookup.Select | sr_router.c:588-630 | no answer exactly when no entry matches; else the last match of the greatest mask word |
| Lookup.RawOrderIsPrefixOrder | sr_router.c:608-612 | comparing contiguous masks as raw words compares prefix lengths, in either byte order |
| Lookup.SelectedIsLongest | sr_router.c:637-664 | with contiguous masks the choice is the last of the longest matches |
| Lookup.MatchIsPrefixMatch | sr_router.c:603 | the masked comparison of raw words is agreement in the first bits in network order, in either byte order |
| Lookup.LongestPrefixMatch | sr_router.c:588-664 | the table walk is longest-prefix match, ties to the last entry, on either kind of host |
| Octets.StoreOrder | lsu.c:223 | the octets of a word lie most significant first on one kind of host and last on the other |
| Octets.HtonlIsBigEndian | lsu.c:223 | htonl lays a word out big-endian on either kind of host and ntohl reads it back |
| Checksum.Cksum | sr_router.c:556-575 | for every length up to 65534 the loop ends without overflow with the one's complement checksum of section 1 of RFC 1071, over one octet more when the length is odd |
| Checksum.Rfc1071Example | sr_router.c:556-575 | the checksum of the example in section 3 of RFC 1071 |
| Checksum.OddLengthNeedsZero | sr_router.c:562-566 | for an odd length that is the checksum of the padded data if and only if the octet behind it is 0 |
| Checksum.FilledChecksumIsValid | sr_router.c:578-583 | filling a zeroed aligned field with the checksum makes the checksum over the whole header 0 |
| Checksum.ValidFieldValues | sr_router.c:556-575 | exactly which field values make a header check as 0 |
| Checksum.UpdateIpHdr | sr_router.c:578-583 | the time to live drops by one in 8 bits, no other field changes, and the header is valid |
| Checksum.FillPwospfChecksum | lsu.c:237-239 | the checksum of the first 16 octets is stored, the rest untouched |
| Checksum.CheckPwospf | sr_pwospf.c:181-198 | accepts exactly the headers of version 2 whose field holds the computed checksum |
| Checksum.SendersPassGate | sr_pwospf.c:187-198 | what any sender fills in is accepted |
| Checksum.GateIsWholeHeaderCheck | sr_pwospf.c:187-198 | the gate is the usual whole-header check except that it refuses a field of all ones |
| Sha1Spec.PaddingIsLeast | sha1.c:326-371 | the padding completes whole 64-octet blocks with as few zeros as possible |
| Sha1Spec.ShiftRotates | sha1.c:46-48 | by every number of places the circular shift of section 3 is the rotation to the left |
| Sha1Spec.ShiftBy5 | sha1.c:245 | bit by bit: the first five bits come last, the others move up by five; `ShiftBy1` and `ShiftBy30` say the same of the other shifts used |
| Sha1Published.DigestOfAbc | sha1.c:207-301 | the specification gives the digest that Appendix A of FIPS PUB 180-1 publishes |
| Sha1Published.DigestOfLonger | sha1.c:207-371 | and that of Appendix B, over two blocks |
| Sha1.CircularShift | sha1.c:46-48 | the macro is the circular shift of section 3 |
| Sha1.Context.Schedule | sha1.c:224-235 | the 80 words of section 7, steps a and b |
| Sha1.Context.ProcessMessageBlock | sha1.c:207-301 | the hash is updated as section 7 says, and the buffer emptied |
| Sha1.Context.Reset | sha1.c:71-85 | the start state: nothing fed, nothing computed |
| Sha1.Context.Input | sha1.c:143-185 | octets are appended, or the context is corrupted exactly when the total reaches 2^61 octets or something follows a result |
| Sha1.Context.PadMessage | sha1.c:326-371 | one or two final blocks, after which the hash is the digest of the message |
| Sha1.Context.Result | sha1.c:104-119 | 1 with the digest of everything fed exactly when not corrupted; asking again changes nothing |
| Sha1.DigestOfChunks | sha1.c:71-185 | however a message is cut into calls, the result is 1 with its FIPS PUB 180-1 digest exactly when it is shorter than 2^61 octets |
| PacketLists.AddToPackBuff | buffer.c:29-66 | walks to the end of the list and appends one node with the packet, leaving the others in place; reads freed memory exactly when the pointer is left over from a freed list |
| PacketLists.AddToLsuBuff | lsu_buf.c:27-52 | one node with the packet comes in front of the list, which is not read, whatever it goes on with |
| PacketLists.TakeAll | buffer.c:102-118 | every packet is taken once, in order, from a node still live, and every node is freed once |
| ArpQueue.Pending.GetEntry | arpq.c:110-122 | the place of the entry for an address |
| ArpQueue.Pending.GetMacAddress | arpq.c:32-91 | queues the packet with its address and no other list changes, starts a thread exactly when none serves the address, and goes wrong exactly when the data pointer is left over from a freed list |
| ArpQueue.Entry.Drain | arpq.c:145-152 | sends all data packets, oldest first, and all LSUs, latest first, and leaves both pointers at freed nodes |
| ArpQueue.Entry.Finish | arpq.c:164-175 | clears both pointers; on time-out every data packet is answered and every LSU dropped first |
| ArpSteps.TakeHandOver | arpq.c:32-91 | handing a packet over in memory is the hand-over of the state machine, thread and fault included |
| ArpSteps.TakeSending | arpq.c:145-152 | the section after a successful lookup is a step of the state machine, and sends what its log says |
| ArpSteps.TakeEnd | arpq.c:164-175 | so is the last section, and it answers and drops what the log says |
| ArpProtocol.NextKeepsThreadInv | arpq.c:131-178 | every step of every thread keeps request counts, thread phases and entries consistent, freed lists included |
| ArpProtocol.ThreadDiscipline | arpq.c:35-90 | in every reachable state: one entry per address, request count at least 0 exactly while one thread serves it, never two threads, and between 1 and 5 requests per round, 5 when it gave up |
| ArpProtocol.NothingFreedTwice | arpq.c:148-171 | the lists a thread is about to send, answer or drop are live: no list is walked or freed a second time |
| ArpProtocol.ReadsFreedExactly | arpq.c:148-175 | in every reachable state handing over a packet reads freed memory if and only if it is a data packet whose address's thread has sent data packets and not run its last section |
| ArpConservation.RunConserves | arpq.c:32-178 | in every reachable state in which no freed memory was read, what was given for an address is what was settled followed by what waits, in order |
| ArpConservation.RoundSettlesEverything | arpq.c:131-178 | in such a state after a round every packet has been sent, answered, dropped or lost exactly once, in order, and none is lost if and only if none was given late |
| ArpConservation.FaultIsLateData | buffer.c:49-53 | freed memory is read only by a data packet given late, after data packets were sent for its address |
| ArpConservation.LateDataFaults | buffer.c:49-53 | for any address and data packets: one sent, the next handed over before the last section, and freed memory is read |
| ArpConservation.LatePacketIsLost | arpq.c:172-174 | for any address and two packets, not both data: the second, handed over between the sending and the last section, is lost |
| ArpCache.FreshMembers | arp.c:152-199 | exactly the unexpired entries stay |
| ArpCache.SearchIsTimely | arp.c:205-233 | a search answers from the entry for the address exactly while it has not expired |
| ArpCache.AddedAnswers | arp.c:111-150 | an address added is answered for 15 seconds and no longer, and other addresses as without it |
| ArpCache.Cache.CheckCacheInvalid | arp.c:152-199 | expired entries go from the front, the middle and the end of the list |
| ArpCache.Cache.SearchCache | arp.c:205-233 | purges and answers from what is left |
| ArpCache.Cache.AddCacheEntry | arp.c:111-150 | adds for 15 seconds unless the address is there, and keeps addresses unique |
| Locks.StepKeepsDiscipline | arpq.c:221-253 | a step keeps the rule that the PWOSPF mutex is taken first and the other two never together or twice |
| Locks.RouterIsDisciplined | lsu.c:126-293 | both threads of the router, and the resolver threads they start, keep that rule on every path |
| Locks.DeadlockFree | arpq.c:221-253 | for any threads that keep the rule, no thread of a reachable state is stuck: at most two waits lead to one that can move |
| Locks.MutualExclusion | sr_pwospf.c:126-144 | no mutex is ever held twice |
| Locks.RouterDeadlockFree | sr_pwospf.c:126-171 | no reachable state of any number of the router's threads is deadlocked |
| Firewall.RuleMeans | fw.c:435-469 | a rule lets a packet in exactly when every field it gives is that of the packet, its protocol being looked for in the destination address |
| Firewall.ProtocolRuleIsDead | fw.c:445 | so a rule that gives a destination and another number as protocol lets nothing in |
| Firewall.ToldElsewhere | fw.c:277-304 | a packet from inside changes no other entry, unless it opens a connection in a full table, which leaves the suffix of live ones |
| Firewall.BehindLastStaleIsSuffix | fw.c:350-382 | what the purge leaves is the longest suffix without a stale entry |
| Firewall.SuffixIsUnique | fw.c:350-382 | only one suffix is that |
| Firewall.PurgeSparesLive | fw.c:350-382 | the purge keeps all live entries if and only if none stands before a stale one |
| Firewall.ToldLeavesEntry | fw.c:277-304 | a packet let out leaves its connection open for 50 seconds or more, and replies find it until then |
| Firewall.RefusedExactly | fw.c:277-304 | a packet from inside is refused if and only if its connection has no live entry and the table is full of live ones, and the table then stays as it is |
| Firewall.FlowTable.DropHeads | fw.c:350-382 | the loop ends on every list, although it drops the head for each stale entry found and starts over |
| Firewall.FlowTable.RemoveStaleEntries | fw.c:350-382 | the size field is the new length, and the invariant holds |
| Firewall.FlowTable.FtContains | fw.c:388-414 | the first live entry of the connection |
| Firewall.FlowTable.AddConnect | fw.c:309-344 | appends an entry that expires in 50 seconds |
| Firewall.FlowTable.TellValid | fw.c:277-304 | the answer and the new table, with refresh, purge of a full table, and refusal |
| Firewall.FlowTable.CheckConnection | fw.c:253-269 | lets in exactly what a rule or a live connection allows, and refreshes the connection used |
| Firewall.FlowTable.RuleContains | fw.c:435-469 | true exactly when some rule matches in every non-zero field, its protocol being compared with the destination |
| Firewall.FlowTable.LiveAtMost4050Seconds | fw.h:30-32 | no entry is live more than 4050 seconds after it was added |

## Left out

- Topology.Subsystem.HandleLsu: takes its four locked sections as one step; other threads may run between them, which is why `Topology.Subsystem.Run` interleaves the sections one by one.
- Topology.Subsystem.GetIfAndNeighbor: MAC addresses and the other fields copied with an interface are not modelled.
- Topology.Subsystem.SendLsu: the IP and Ethernet headers of each copy are not laid out; `Adverts` covers the packet from the PWOSPF header on.
- Topology.Subsystem.constructor: at most ten interfaces, since the code writes one subnet per interface into ten slots without enlarging them.
- Adverts.ReadAdverts: running past the end of the packet is an empty answer; what the code then reads is not modelled. The next hop of a learned route, which the code leaves unset, is 0.
- Adverts.RelayLsu: the expiry message for a packet whose time to live is 0 on arrival is not modelled.
- Convergence.DatabaseAgrees: what happens while nothing changes. LSUs sent before a router was heard may have left their subnets in the database, but none arrives any more; nobody goes silent or expires. That subnets on one prefix may be advertised together and both ends of a link agree is asked for; `Convergence.TwoRoutersAgree`, `Withdrawal` and `Database` say what happens otherwise.
- Network.ReachesOriginator: what lies behind a local subnet or a static route is outside the network; the next hop of a static route is not followed, and neither the firewall nor the time to live stops packets.
- FloodProtocol.FloodingDelivers: copies are not lost, so resolution of next hops during flooding is taken to succeed; on fixed neighbour lists. It follows one LSU; `Renewal` follows several.
- ArpConservation.RunConserves: states after freed memory was read are not described, since the program's behaviour is undefined from there on; `ArpProtocol.ReadsFreedExactly` tells when that happens. That the sending calls reach the wire is outside the model.
- PacketLists.AddToPackBuff: of a freed list only the first node is looked at, at which the model stops; the allocator does not hand a freed node out again.
- ArpQueue.Entry.Finish: building the ICMP answers is left out; each is one event.
- Checksum.Cksum: for lengths over 65534 the 16-bit loop counter wraps and the code does not end.
- ArpCache.Cache.AddCacheEntry: address 0, for which the code fails an assertion, is excluded.
- Firewall.FlowTable.RuleContains: reading the rule file is left out.
- Lookup.Select: the copy of the entry made under the lock is left out.
- Sockets, the virtual network session, packet dumps, printing, configuration files, interface set-up and `main`: input and output only.
- `handle_ip` and ICMP construction: header copying; the header fields it fills in by `update_ip_hdr` are covered by `Checksum`.
- Byte-level allocation: arrays and lists are sequences. The code asks for twice the number of slots without the element size when it enlarges an array (top_info.c:451, top_info.c:463, top_info.c:558, hello.c:98); the model doubles the slots, as sr_pwospf.h:42-43 intends.
- The area id and authentication checks of `handle_pwospf`: comparisons with constants.
- `get_if_from_mac`: its match flag is not reset after a mismatch, so nothing is claimed of it.
- The clock is read once per operation; the code reads it again for every record.
- Records other than queued packets are freed by the code when they leave a list; the model drops them.
