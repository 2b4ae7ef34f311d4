# Named-data link-state routing: a verified model

NLSR routers keep one link-state database in step over a named-data network, calculate routes from it and
register them with their forwarders. This project models the parts that carry state machines and algorithms and
proves what they are for:

- **Sync** (`SyncStates`, `SyncNodes`, `SyncLogic`, `SyncNetwork`, `PublishingNetwork`): the replicated map from names
  to numbers, the log of differences it is answered from, many nodes over a network that loses, repeats and reorders,
  and the routers that publish on it.
- **Route calculation** (`Graphs`, `ShortestTrees`, `RouterQueue`, `RouterMaps`, `AdjacencyCosts`, `RouteOffers`,
  `LinkState`, `RouteCalculation`, `Forwarding`): the adjacency matrix, the array-based Dijkstra run, next hops,
  single- and multi-path mode, and hop-by-hop delivery.
- **From routes to the forwarder** (`Hops`, `RoutingTables`, `NamePrefixes`, `Fibs`, `RouteRefresh`, `PrefixDelivery`):
  three layers of derived tables, the register and unregister commands, and where packets for a prefix then go.
- **The database** (`LsaLists`, `Lsdbs`, `Convergence`, `NameLists`, `AdjacencyLists`, `Sequencing`,
  `SyncUpdates`, `PrefixUpdates`, `Hello`): installing, refreshing and expiring LSAs, the counters behind their
  numbers, neighbours and the debounced build of the own adjacency LSA.

`Names` and `Listings` hold what several of these share. Objects whose methods change them are classes, specified
by functions of their state; properties over runs are lemmas about those functions. `dafny verify dfyconfig.toml`
checks everything.

Five chains of results are worth reading as wholes:

1. `LinkState…DoDijkstraPathCalculation` ends in a shortest-path tree, `TreeDistancesAreExact` says what that is
   worth, `SinglePathTable` and `MultiPathTable` what the routing table then holds, and `NetworkDelivers` what
   forwarding does in a network whose routers hold the same LSAs, which `DeliveredAlike` gets from deliveries in
   any order.
2. `Lsdb.Valid` (kept by every install, removal, refresh and expiry) ties the name prefix table to the database,
   `TablesAgree` ties hops and FIB to the routing table, `ForwarderFollowsTable` the forwarder to the FIB, and
   `DatabaseRoutes` joins them: a prefix has a route exactly if a router it leads to is within reach, at the nearest
   one's distance. `AdvertisedPrefixesDelivered` follows the packets through the whole network.
3. `SyncLogic.SyncNode` keeps the heap-linked log equal to a list of steps, `DifferencesCompose` is the law of that
   list, `RunReplyJoins` and `FullReplyMerges` what an exchange achieves, `NodesAgree` what a network does.
   `RoutersPublishLawfully` shows that the routers' counters and files meet the law's one condition in every run.
4. `LsaList` methods and `Lsdb` timers are tied to the functions of `LsaLists`, whose runs `StoredHaveTimers`
   describes. `Sequencing` says when published numbers grow, and every `Lsdb` method that moves a counter ensures
   `KeepsGrowing` for the numbers the running router has published.
5. `Hello.HelloProtocol` handlers are tied to the transitions of `Hello`, of the neighbours and the list of adjacency
   LSAs together, whose runs `ActiveExactlyIfHeard`, `DecidedExactly`, `FaceIsLastGiven` and
   `OwnLsaFollowsNeighbours` describe.

Points where the code does not do what one might expect, each stated with its exact condition or an input:

- A local publish below the stored number breaks the log law (`PublishKeepsLaw`, `LowPublishBreaksLaw`); a name
  removed and published again under a lower number is not picked up by everyone (`LowerRepublishIsIgnored`);
  the state can fall back, and an old digest return, exactly by removing a raised forwarder leaf or by absorbing a
  removal that does not come with a higher forwarder number (`AdvancingClimbs`, `ForwarderRemovalRecurs`).
- LSA numbers pass through a signed 32-bit parameter on their way to a timer, so from 2^31 on timers no longer
  match and an LSA of another router never expires (`LargeNumbersNeverExpire`).
- A counter outside its field makes the packed number ambiguous (`SplitUndoesCombine`); the increment that leaves
  the field fails to make it larger exactly if the next field's lowest bit is set, or, for the Name field, always
  (`NextAdjGrows`, `NextCorGrows`, `NextNameGrows`).
- Of two contents under one number the first to arrive stays; databases can differ by it exactly if an origin has
  used its highest number twice (`OrderMattersExactly`).
- The comment on `NexthopList::addNextHop` says that the new cost replaces the old one; the code keeps the lower
  (`AddNextHop`). A FIB entry records costs lower than those registered exactly for faces it already had at a lower
  cost (`RecordedAsChosen`, `RisenCostIsNotRecorded`); the forwarder has the latest.
- Removing any one LSA of a router takes the router off its own prefix, which is wrong exactly if another LSA of it
  remains (`NamesGone`, `RouterLeft`, `OnePrefixForAll`); so does a newer Name LSA that has lost the router's own name
  (`ChangedNames`).
- An adjacency with a fractional configured cost is not equal to itself, so an own LSA with one counts as changed at
  every build (`SameExactly`, `FractionIsNotItself`, `InstallAdjLsa`).
- An LSA that is not stored counts as new under any reported number, 0 included (`SyncUpdates.IsNew`).
- A routing calculation that comes due while a build is scheduled is dropped (`RouteRefresh.Calculate`).

## Model

| member | source | states |
|---|---|---|
| `ShortestTrees.TreeDistancesAreExact` | src/route/routing-table-calculator.cpp:241-276 | what the Dijkstra loop leaves in m_distance is, for every router, the smaller of 2147483647 and the least cost over all paths from the source |
| `ShortestTrees.TreeNextHop` | src/route/routing-table-calculator.cpp:306-317 | following m_parent back from a router within reach ends at the source and gives the first router of a least-cost path; out of reach it gives no hop |
| `ShortestTrees.RelaxStep` | src/route/routing-table-calculator.cpp:261-270 | looking at one more link of the router being explored keeps the tree shape, keeps explored routers final, and makes that link satisfy the triangle inequality |
| `ShortestTrees.FinishRelaxing` | src/route/routing-table-calculator.cpp:257-272 | when all links of the nearest unexplored router have been looked at, it counts as explored and everything known about explored routers still holds |
| `ShortestTrees.AncestorIsFirstHop` | src/route/routing-table-calculator.cpp:306-317 | the walk along the parents stops at the source with the first hop of a path whose cost is the distance plus what was walked already |
| `Graphs.RestrictedDistance` | src/route/routing-table-calculator.cpp:127-137 | a run with the source row cut down to one link computes that link's cost plus the least cost from its far end while avoiding the source |
| `Graphs.BestLinkIsDistance` | src/route/routing-table-calculator.cpp:220-231 | the least of those costs over all links of the source is the unrestricted distance |
| `RouterQueue.QueueHeadIsNearest` | src/route/routing-table-calculator.cpp:255-257 | after the exchange sort the head of the queue is an unexplored router nearest among the unexplored |
| `RouterQueue.PassStep` | src/route/routing-table-calculator.cpp:325-331 | one comparison of the exchange sort keeps the queue a permutation, its head part sorted and the i-th entry no farther than those compared with it |
| `LinkState.LinkStateRoutingTableCalculator.SortQueueByDistance` | src/route/routing-table-calculator.cpp:320-333 | the unexplored part of the queue becomes sorted by distance, is a permutation of what it was, and the explored part is untouched |
| `LinkState.LinkStateRoutingTableCalculator.SelectNearest` | src/route/routing-table-calculator.cpp:325-331 | one outer pass moves an entry no farther than all later ones into place |
| `LinkState.LinkStateRoutingTableCalculator.IsNotExplored` | src/route/routing-table-calculator.cpp:336-347 | the scan answers whether the router is still in the unexplored part of the queue |
| `LinkState.LinkStateRoutingTableCalculator.RelaxLinks` | src/route/routing-table-calculator.cpp:261-270 | relaxing every link of the head of the queue settles it |
| `LinkState.LinkStateRoutingTableCalculator.ExploreNearest` | src/route/routing-table-calculator.cpp:256-272 | one round of the main loop explores the head and leaves the queue sorted for the next |
| `LinkState.LinkStateRoutingTableCalculator.DoDijkstraPathCalculation` | src/route/routing-table-calculator.cpp:241-276 | m_distance and m_parent end as a shortest-path tree of the matrix, or blank if the source has no number |
| `LinkState.LinkStateRoutingTableCalculator.GetLsNextHop` | src/route/routing-table-calculator.cpp:306-317 | terminates on every tree and returns the hop the two arrays determine |
| `LinkState.LinkStateRoutingTableCalculator.FillAdjMatrix` | src/route/routing-table-calculator.cpp:60-82 | each cell holds the cost the row's router last advertised for the column's router, 0 if none |
| `LinkState.LinkStateRoutingTableCalculator.CorrectAdjMatrix` | src/route/routing-table-calculator.cpp:92-110 | the in-place pass gives every pair 0 if either direction was 0 and otherwise the larger of the two costs, although later cells read what earlier ones wrote |
| `LinkState.LinkStateRoutingTableCalculator.MakeAdjMatrix` | src/route/routing-table-calculator.cpp:60-111 | the matrix is the graph of the network: agreed link costs between the numbered routers |
| `LinkState.LinkStateRoutingTableCalculator.AdjustAdjMatrix` | src/route/routing-table-calculator.cpp:127-137 | the source row keeps one link at the given cost and nothing else changes |
| `LinkState.LinkStateRoutingTableCalculator.GetNumOfLinkfromAdjMatrix` | src/route/routing-table-calculator.cpp:140-150 | counts exactly the positive cells of the row |
| `LinkState.LinkStateRoutingTableCalculator.GetLinksFromAdjMatrix` | src/route/routing-table-calculator.cpp:153-165 | lists exactly the positive cells of the row in order, with their costs |
| `LinkState.LinkStateRoutingTableCalculator.AddAllLsNextHopsToRoutingTable` | src/route/routing-table-calculator.cpp:279-303 | adds to the table, for every router but the source, the hop and distance of the run just made, if it has a hop |
| `LinkState.LinkStateRoutingTableCalculator.CalculateMultiPath` | src/route/routing-table-calculator.cpp:219-234 | one exact run per link of the source row, each through that link only, all offered to the routing table |
| `LinkState.LinkStateRoutingTableCalculator.CalculatePath` | src/route/routing-table-calculator.cpp:202-238 | a whole calculation: the matrix is the network, the runs are exact in either mode, and the table holds what they offered; in single-path mode a router without a number gets no routes |
| `RouteOffers.FillStep` | src/route/routing-table-calculator.cpp:286-302 | entering one router's hop keeps the table equal to what the runs so far offer, and touches no other router's entry |
| `RouteOffers.RestrictedRoundIsThrough` | src/route/routing-table-calculator.cpp:225-231 | a run on the restricted matrix gives, for every router, its exact cost by way of that link |
| `AdjacencyCosts.AdvertisedIsStored` | src/route/routing-table-calculator.cpp:63-82 | with one LSA per origin and one entry per neighbour the cost read is the one stored for the pair |
| `AdjacencyCosts.CostsIgnoreOrder` | src/route/routing-table-calculator.cpp:60-111 | link costs depend on which links each origin has, not on the order of LSAs or of the adjacencies inside them |
| `AdjacencyCosts.MentionedIgnoresOrder` | src/route/map.cpp:101-113 | nor does the set of routers mentioned |
| `AdjacencyCosts.NetworkIsSymmetric` | src/route/routing-table-calculator.cpp:84-110 | the corrected matrix is symmetric |
| `AdjacencyCosts.PositiveCostHasOrigin` | src/route/routing-table-calculator.cpp:92-110 | no link is in use from a router that has no LSA of its own |
| `AdjacencyCosts.LinkCostsTheLarger` | src/route/routing-table-calculator.cpp:92-110 | from the stored LSAs to the graph: a cell is 0 exactly if one of the two stored costs is, and otherwise at least both and equal to one of them; a positive cell has an LSA telling of each direction |
| `RouterMaps.RouterMap.AddEntry` | src/route/map.cpp:51-72 | a new router gets the next number, a known one changes nothing |
| `RouterMaps.RouterMap.GetMappingNoByRouterName` | src/route/map.cpp:88-98 | returns the router's number, or -1 exactly if it has none |
| `RouterMaps.RouterMap.GetRouterNameByMappingNo` | src/route/map.cpp:75-85 | inverse of the lookup by name; the empty name for a number not handed out |
| `RouterMaps.RouterMap.CreateFromAdjLsdb` | src/route/map.cpp:101-113 | numbers exactly the routers the database mentions, each once, 0 to n-1 |
| `RouteCalculation.CalculateLsRoutingTable` | src/route/routing-table.cpp:111-124 | the cleared table ends up holding a whole calculation on the database's adjacency LSAs, or, in single-path mode and for a router they do not mention, nothing |
| `RouteCalculation.SinglePathTable` | src/route/routing-table-calculator.cpp:213-218 | single-path mode: a router is listed exactly if it is within reach, with one hop, over the face of the first router of a least-cost path, at the least cost |
| `RouteCalculation.OffersAreCostsVia` | src/route/routing-table-calculator.cpp:219-234 | multi-path mode: the costs offered towards a router are exactly w(s,l) plus the least cost from l avoiding s, for each neighbour l |
| `RouteCalculation.MultiPathTable` | src/route/routing-table-calculator.cpp:219-234 | multi-path mode: one hop per face, at the least of those costs over the neighbours on that face |
| `RouteCalculation.MultiPathMinimumIsDistance` | src/route/routing-table-calculator.cpp:213-234 | both modes agree on which routers are within reach and on the least cost |
| `Forwarding.CalculateEverywhere` | src/route/routing-table.cpp:111-124 | routers that hold the same LSAs, each in its own order, run the single-path calculation and come to the state the next rows start from |
| `Forwarding.RenumberedDistance` | src/route/map.cpp:101-113 | routers that hold the same LSAs in different orders, and number the routers differently, compute the same distances |
| `Forwarding.HopGetsNearer` | src/route/routing-table-calculator.cpp:306-317 | each router's next hop is a live link to a router nearer the destination by exactly that link's cost, by the latter's own reckoning |
| `Forwarding.WayIsDownhill` | src/route/routing-table-calculator.cpp:213-218 | so distances fall along next hops everywhere in the network |
| `Forwarding.RouteDelivers` | src/route/routing-table-calculator.cpp:213-218 | hop-by-hop forwarding reaches a destination over live links at exactly the computed cost |
| `Forwarding.RouteGetsNearer` | src/route/routing-table-calculator.cpp:213-218 | the remaining distance falls strictly along the way |
| `Forwarding.RouteIsLoopFree` | src/route/routing-table-calculator.cpp:213-218 | no router is passed twice, so among n routers there are at most n-1 hops |
| `Forwarding.NetworkDelivers` | src/route/routing-table-calculator.cpp:202-238 | for the whole network: what each router has recorded is the least cost, and a packet it forwards for a destination within reach arrives over live links at that cost, through each router's own next hop, no router twice and after at most n-1 hops |
| `PrefixDelivery.DatabaseInstallsSoleHop` | src/route/fib.cpp:155-232 | single-path mode: after a calculation a valid database has installed, for any prefix, no hop exactly if no router the prefix leads to is within reach, and otherwise one, to the first router of a least-cost path to a nearest of them |
| `PrefixDelivery.NoShortcut` | src/route/routing-table-calculator.cpp:213-218 | a link and what the router at its far end has recorded never undercut what a router has recorded itself |
| `PrefixDelivery.NearestFalls` | src/route/fib.cpp:155-232 | the router behind the one installed hop is nearer its own nearest destination by exactly the link's cost, though the two need not be heading for the same one |
| `PrefixDelivery.PrefixDelivers` | src/route/routing-table-calculator.cpp:213-218 | in a network with the same adjacency LSAs everywhere a packet for a prefix arrives at a nearest of the routers it leads to, over live links at that distance, each router using its one installed hop, no router twice |
| `PrefixDelivery.AdvertisedPrefixesDelivered` | src/route/routing-table.cpp:43-107 | and so, from the databases: if all hold the same Name and adjacency LSAs, in any order, and neighbours have different faces, packets for a prefix that is no router's name reach a nearest advertiser |
| `Hops.NexthopList.AddNextHop` | src/route/nexthop-list.cpp:71-83 | one hop per face, at the lower of the stored and the new cost |
| `Hops.NexthopList.RemoveNextHop` | src/route/nexthop-list.cpp:91-99 | removes the hop only if face and cost both match |
| `Hops.NexthopList.Sort` | src/route/nexthop-list.cpp:102-105 | sorted by cost, then face URI; the same hops |
| `Hops.MinCostsAreLeast` | src/route/nexthop-list.cpp:71-83 | adding hops one by one leaves, per face, the least cost offered, and nothing that was not offered |
| `Hops.BeforeIsStrictOrder` | src/route/nexthop-list.cpp:49-60 | the comparator is a strict order in which any two different hops are comparable |
| `Hops.SortedIsUnique` | src/route/nexthop-list.cpp:102-105 | sorting has one possible result: two sorted arrangements of the same hops are equal |
| `Hops.SortedByCostThenUri` | src/route/nexthop-list.cpp:49-60 | in a sorted list an earlier hop costs less than a later one, or as much over a face whose URI is smaller |
| `Names.LexLessExactly` | src/route/nexthop-list.cpp:54-58 | one URI is less than another exactly if it is a proper beginning of it or has the smaller character where they first differ |
| `RoutingTables.RoutingTable.AddNextHop` | src/route/routing-table.cpp:179-192 | enters the hop under its destination, per face at the least cost, and changes no other destination |
| `RoutingTables.RoutingTable.FindRoutingTableEntry` | src/route/routing-table.cpp:195-205 | finds the destination's entry, or none exactly if it is not listed |
| `RoutingTables.RoutingTable.ClearRoutingTable` | src/route/routing-table.cpp:250-255 | nothing is listed afterwards |
| `RouteRefresh.Calculate` | src/route/routing-table.cpp:43-107 | recalculates if the own adjacency LSA is stored and no build is scheduled, after which every prefix is routed right; empties the table without an own LSA, and drops the request while a build is scheduled; what is listed stays listed and gets the new hops |
| `RouteRefresh.RouterCosts` | src/route/routing-table.cpp:43-107 | after a calculation the hops towards a router are empty exactly if it is out of reach, and the cheapest costs its distance |
| `RouteRefresh.PrefixRoutes` | src/route/name-prefix-table.cpp:160-182 | the forwarder has a route for a prefix exactly if a router listed under it is within reach, and its cheapest hop costs the distance of the nearest one |
| `RouteRefresh.OriginsAreAdvertisers` | src/lsdb.cpp:149-282 | the routers listed under a prefix are those whose stored Name LSA has it and, for a router's name, that router while it is listed under it, which it is as long as an LSA of it is stored if own prefixes are listed right; none for this router's own name |
| `RouteRefresh.AdvertisedPrefixRoutes` | src/route/routing-table.cpp:43-107 | from the database to the forwarder: any prefix has a route exactly if a router it leads to is within reach, at the nearest one's distance |
| `RouteRefresh.DatabaseRoutes` | src/route/routing-table.cpp:43-107 | so it is for every valid database whose routing table holds a calculation on its own LSAs, which Calculate ensures |
| `RouteRefresh.HeldAlike` | src/lsdb.cpp:549-563 | two databases holding the same links per origin give their calculations the same LSAs, whatever their order |
| `RouteRefresh.DeliveredAlike` | src/lsdb.cpp:603-650 | so do two routers that got the same adjacency LSAs in any order and number |
| `Fibs.Fib.Update` | src/route/fib.cpp:155-232 | the FIB has for the name the first max-faces hops by cost and URI, or no entry if there are none; the forwarder mirrors it; the entry records the lower of old and new cost per face and has exactly one pending expiration |
| `Fibs.Fib.Remove` | src/route/fib.cpp:68-87 | the entry goes with its expiration, and each of its faces is unregistered |
| `Fibs.Fib.Expire` | src/route/fib.cpp:58-65 | an expiration that comes due removes its name |
| `Fibs.EventPut` | src/route/fib.cpp:193-230 | creating or refreshing an entry leaves exactly one pending expiration per entry and none without one |
| `Fibs.RecordedAsChosen` | src/route/nexthop-list.cpp:80-82 | an entry records the registered costs exactly if no chosen face was recorded at a lower cost before |
| `Fibs.RisenCostIsNotRecorded` | src/route/nexthop-list.cpp:80-82 | a face whose cost rises from 1 to 2 stays recorded at 1 |
| `Fibs.LeastIsLower` | src/route/fib.cpp:96-152 | merging the chosen hops and dropping the other faces records, per chosen face, the lower cost |
| `Fibs.Fib.AddNextHopsToFibEntryAndNfd` | src/route/fib.cpp:96-115 | merges the hops into the entry and registers each at its own cost, unless the name is a neighbour's |
| `Fibs.Fib.RemoveOldNextHopsFromFibEntryAndNfd` | src/route/fib.cpp:118-152 | drops and unregisters exactly the faces not among those just installed |
| `Fibs.Fib.GetNumberOfFacesForName` | src/route/fib.cpp:255-267 | all faces if the limit is 0, otherwise at most the limit |
| `Fibs.ReplayRegisters` | src/route/fib.cpp:96-115 | replaying a run of registrations overrides the name's routes with the hops' costs and leaves other names alone |
| `Fibs.ReplayUnregisters` | src/route/fib.cpp:68-87 | replaying a run of unregistrations takes exactly those faces away from the name |
| `Fibs.MirrorsChoice` | src/route/fib.cpp:155-232 | installing a choice of hops keeps forwarder and table in line, whatever was installed before |
| `Fibs.MirrorsRemoval` | src/route/fib.cpp:68-87 | removing a name keeps them in line |
| `Fibs.ForwarderFollowsTable` | src/route/fib.cpp:155-232 | replaying all commands of any run gives, for every name that is not a neighbour's, exactly the entry's faces at the costs last chosen, and nothing without an entry |
| `Fibs.ChosenAreBest` | src/route/fib.cpp:255-267 | whatever is left out costs more than anything chosen, or as much over a larger face URI, and something is left out only if as many are chosen as the limit allows |
| `Fibs.ChosenAreAsMany` | src/route/fib.cpp:255-267 | all hops are chosen if the limit is 0; otherwise no more than the limit, and fewer only if there are no more |
| `NamePrefixes.NamePrefixTable.GenerateNhlFromRteList` | src/route/name-prefix-table-entry.cpp:33-46 | collects the hops of all origins, per face at the least cost |
| `NamePrefixes.NamePrefixTable.AddRoutingTableEntry` | src/route/name-prefix-table-entry.cpp:69-87 | adds the origin, or replaces a known origin's hops |
| `NamePrefixes.NamePrefixTable.RemoveRoutingTableEntry` | src/route/name-prefix-table-entry.cpp:57-66 | drops the origin if it is there |
| `NamePrefixes.NamePrefixTable.AddEntry` | src/route/name-prefix-table.cpp:43-87 | lists the origin under the prefix with its hops and keeps table and FIB in line |
| `NamePrefixes.NamePrefixTable.RemoveEntry` | src/route/name-prefix-table.cpp:90-125 | takes the origin off the prefix, the prefix off the table with its last origin, and keeps the FIB in line |
| `NamePrefixes.NamePrefixTable.AddOrigin` | src/route/name-prefix-table.cpp:128-141 | lists the router with the hops the routing table has for it now |
| `NamePrefixes.NamePrefixTable.RemoveOrigin` | src/route/name-prefix-table.cpp:144-157 | takes the router off the prefix |
| `NamePrefixes.NamePrefixTable.UpdateWithNewRoute` | src/route/name-prefix-table.cpp:160-182 | every origin of every prefix gets the routing table's current hops; no origin is added or lost |
| `NamePrefixes.CollectedIsBest` | src/route/name-prefix-table-entry.cpp:33-46 | the collected hops hold, per face, the least cost over the origins, each cost being some origin's |
| `NamePrefixes.PutFollows` | src/route/name-prefix-table.cpp:43-87 | changing one prefix and telling the FIB keeps every other prefix in line |
| `NamePrefixes.TablesAgree` | src/route/name-prefix-table.cpp:43-182 | between handlers each prefix has an origin and, per face, the least cost over its origins of the current hops; the FIB holds the best few, and no entry exactly if there are none |
| `Lsdbs.Lsdb.InstallNameLsa` | src/lsdb.cpp:149-237 | a first or newer Name LSA is stored with its timer and its names replace the old ones as a set; an older one changes nothing; the prefix table keeps matching the database, and own prefixes stay listed right unless the router's own name is among the names lost |
| `Lsdbs.Lsdb.UpdatedNames` | src/lsdb.cpp:179-216 | the two-way set difference brings the stored list to the delivered set and yields exactly the names gained and lost |
| `Lsdbs.Lsdb.RemoveNameLsa` | src/lsdb.cpp:256-282 | the LSA goes, its timer stays pending, and its router, if remote, leaves its names and its own prefix; own prefixes are listed right afterwards exactly if no other LSA of it stays |
| `Lsdbs.Lsdb.InstallAdjLsa` | src/lsdb.cpp:603-650 | a first or newer adjacency LSA is stored with its timer and holds the delivered links as a set, an older one changes nothing; a calculation is asked for exactly if the LSA is new or, being newer, has other links or replaces one with a fractional cost |
| `Lsdbs.Lsdb.UpdatedLinks` | src/lsdb.cpp:628-632 | the links read become the delivered ones, and count as changed exactly if they differ as sets or a stored cost is fractional |
| `Lsdbs.ChangeCounts` | src/lsdb.cpp:603-650 | a first LSA, or one that changes the links stored, always counts as changed; otherwise one counts only if it replaces a cost that rounding raises by the epsilon or more |
| `Lsdbs.Lsdb.RemoveAdjLsa` | src/lsdb.cpp:670-686 | the LSA goes and a remote router leaves its own prefix; own prefixes are listed right afterwards exactly if no other LSA of it stays |
| `Lsdbs.Lsdb.InstallCoordinateLsa` | src/lsdb.cpp:371-426 | a first coordinate LSA is stored with its timer; a newer one is stored under its number, the stored coordinates staying exactly if radius and angle are both within the machine epsilon of those delivered |
| `Lsdbs.Lsdb.RemoveCoordinateLsa` | src/lsdb.cpp:445-465 | the same for coordinate LSAs |
| `Lsdbs.CoordinateUpdates` | src/lsa.cpp:155-161 | a radius alone or an angle alone that is off by the epsilon has the coordinates replaced; half of it in both does not |
| `Lsdbs.Lsdb.AddNptEntries` | src/lsa.cpp:304-310 | enters a remote router under its own prefix and, for a Name LSA, under each name but this router's; this router's own LSAs touch nothing |
| `Lsdbs.Lsdb.RemoveNptEntries` | src/lsa.cpp:313-318 | the inverse withdrawal |
| `Lsdbs.FirstNames` | src/lsdb.cpp:154-168 | entering a first Name LSA keeps: a remote router is listed under a prefix other than its own and ours exactly if its stored LSA has it; and keeps own prefixes listed right |
| `Lsdbs.ChangedNames` | src/lsdb.cpp:179-216 | adding the names gained and removing those lost keeps the first, and the second exactly if the router's own name is not among those lost |
| `Lsdbs.NamesGone` | src/lsdb.cpp:256-282 | withdrawing a Name LSA keeps the first, and the second exactly if no other LSA of the router stays |
| `Lsdbs.RouterLeft` | src/lsdb.cpp:445-465 | removing an adjacency or coordinate LSA unlists the router's own prefix: own prefixes are listed right afterwards if and only if no other LSA of the router stays |
| `Lsdbs.OnePrefixForAll` | src/lsdb.cpp:670-686 | an input: a router with a Name and an adjacency LSA loses the latter, and is stored but not listed |
| `Lsdbs.Lsdb.BuildAndInstallOwnNameLsa` | src/lsdb.cpp:102-111 | the Name LSAs and their timers become what a build of the own one makes of them, under the next number of the counter, which keeps the published numbers growing; the own names are stored if that number counts as newer |
| `Lsdbs.Lsdb.BuildAndInstallOwnAdjLsa` | src/lsdb.cpp:653-667 | publishes the next number, above all published before while in range, and makes of the list and its timers what a build does; the given links are stored if the number counts as newer |
| `Lsdbs.Lsdb.BuildAndInstallOwnCoordinateLsa` | src/lsdb.cpp:321-332 | the same for the own coordinates |
| `Lsdbs.Lsdb.ExpireOrRefreshNameLsa` | src/lsdb.cpp:719-750 | a timer that matches renumbers, reschedules and publishes the own LSA, under a number above all published before, or removes another router's; otherwise it only goes |
| `Lsdbs.Lsdb.ExpireOrRefreshAdjLsa` | src/lsdb.cpp:753-786 | the same for adjacency LSAs; a calculation is asked for exactly if the timer matched |
| `Lsdbs.Lsdb.ExpireOrRefreshCoordinateLsa` | src/lsdb.cpp:789-825 | the same for coordinate LSAs |
| `Lsdbs.Lsdb.PublishRoutingUpdate` | src/communication/sync-logic-handler.cpp:266-277 | writes the combined number to the file and hands it to the sync protocol |
| `PrefixUpdates.PrefixUpdateProcessor.Advertise` | src/update/prefix-update-processor.cpp:141-158 | a name that is new is inserted, the own Name LSA rebuilt, all other Name LSAs and the timers being left as a build leaves them, and the number published; a known name changes nothing; published numbers keep growing |
| `PrefixUpdates.PrefixUpdateProcessor.Withdraw` | src/update/prefix-update-processor.cpp:161-178 | the same for a name that goes |
| `RoutingTables.CalculationSchedule.ScheduleRoutingTableCalculation` | src/route/routing-table.cpp:159-169 | at most one calculation event is pending, exactly while the flag is set |
| `LsaLists.LsaList.Add` | src/lsdb.cpp:149-177 | a first install stores a copy that knows no timer, and sets one up |
| `LsaLists.LsaList.Renew` | src/lsdb.cpp:179-232 | a renewal cancels the timer it knows of, sets up a new one and records it |
| `LsaLists.LsaList.Refresh` | src/lsdb.cpp:719-741 | a refresh moves the number on and sets up a timer for it |
| `LsaLists.LsaList.TakeTimer` | src/lsdb.cpp:719-726 | a fired timer is spent; it concerns a stored LSA exactly if its number is the stored one as the 64-bit parameter carries it |
| `LsaLists.CarriedExact` | src/lsdb.cpp:140-146 | a timer recognises the number it was set up with exactly below 2^31, because the number passes through a signed 32-bit parameter |
| `LsaLists.LargeNumbersNeverExpire` | src/lsdb.cpp:719-750 | so another router's LSA is removed by its timer if and only if its number is below 2^31 |
| `LsaLists.DeliveredOk` | src/lsdb.cpp:149-237 | installing keeps a pending timer for every stored LSA, though first installs store no event id |
| `LsaLists.FiredOk` | src/lsdb.cpp:719-750 | firing keeps it |
| `LsaLists.RenewalsCancel` | src/lsdb.cpp:179-232 | a first install leaves its timer untracked; a renewal leaves no more timers untracked than before, cancels just the one it knows of and tracks the new one |
| `LsaLists.OwnTimerRefreshes` | src/lsdb.cpp:719-741 | the own LSA's timer, while it recognises it, moves the number on by one and sets up and records a timer for that, touching no other timer or LSA |
| `LsaLists.OtherTimersDoNothing` | src/lsdb.cpp:719-726 | a timer for another number than the stored one changes no LSA |
| `LsaLists.FiringChanges` | src/lsdb.cpp:719-750 | a timer changes what is stored if and only if it matches, which is when a calculation is asked for |
| `LsaLists.CurrentIsNewer` | src/lsdb.cpp:622 | while the own LSA carries the counter's number, the next number counts as newer exactly if it is below 2^32 |
| `LsaLists.TimersKeepOwn` | src/lsdb.cpp:719-750 | no timer removes an own LSA or changes its content |
| `LsaLists.EventKeepsRunOk` | src/lsdb.cpp:149-237 | arrivals, own builds, withdrawals and timers all keep: own number equals counter, one own timer for it, a timer for every stored LSA |
| `LsaLists.StoredHaveTimers` | src/lsdb.cpp:719-825 | in every run: each stored LSA below 2^31 has a timer for its current number, the own LSA carries the counter's number and has exactly one such timer |
| `Convergence.NewestIsHeld` | src/lsdb.cpp:149-237 | whatever the order and repetition of deliveries, each key holds a delivery with the highest number, and only delivered keys are held |
| `Convergence.DatabasesConverge` | src/lsdb.cpp:603-650 | two databases that got the same deliveries in any order and number hold the same LSAs, if no origin has used its highest number for two contents |
| `Convergence.OrderMattersExactly` | src/lsdb.cpp:179-182 | that proviso is exact: order does not matter if and only if it holds |
| `Convergence.FirstTopStays` | src/lsdb.cpp:179-182 | of the deliveries with an origin's highest number, wherever they are in the list, the first stays |
| `AdjacencyLists.AdjacencyList.Insert` | src/adjacency-list.cpp:47-55 | appends unless the neighbour is there already |
| `AdjacencyLists.AdjacencyList.AddAdjacents` | src/adjacency-list.cpp:58-64 | copies a duplicate-free list into an emptied one |
| `AdjacencyLists.AdjacencyList.Equals` | src/adjacency-list.cpp:97-117 | the sort-based comparison is equality of the sets of links read, if and only if all costs of the left list are nearly whole; both lists keep their links |
| `AdjacencyLists.OrderedAreEqual` | src/adjacency-list.cpp:98-117 | two sorted lists that read as the same links are, as read, the same list |
| `AdjacencyLists.SameExactly` | src/adjacent.cpp:72-79 | operator== compares the raw cost with the rounded one: it is equality of what is read if and only if the own cost is within the machine epsilon of a whole number |
| `AdjacencyLists.FractionIsNotItself` | src/adjacent.hpp:75-80 | an adjacency configured at cost 1.5, or at one that rounding raises by just the epsilon, is not equal to itself |
| `AdjacencyLists.ReadRoundsUp` | src/adjacent.hpp:75-80 | what is read is the least whole number not below the configured cost |
| `AdjacencyLists.SideBySideExactly` | src/adjacency-list.cpp:103-116 | comparing two sorted lists entry by entry answers whether they read the same and the left one's costs are nearly whole |
| `NameLists.NamePrefixList.Insert` | src/name-prefix-list.cpp:52-63 | appends unless the name is there already |
| `NameLists.NamePrefixList.Remove` | src/name-prefix-list.cpp:66-78 | removes the name if it is there |
| `NameLists.NamePrefixList.Sort` | src/name-prefix-list.cpp:81-84 | increasing order; the same names |
| `NameLists.DifferenceExact` | src/lsdb.cpp:188-193 | on sorted duplicate-free lists the merge computes exactly the set difference |
| `Sequencing.SequencingManager.SplitSequenceNo` | src/sequencing-manager.cpp:39-45 | the fields become the three parts of the number |
| `Sequencing.SequencingManager.CombineSequenceNo` | src/sequencing-manager.cpp:48-54 | the packed number is the combination of the fields |
| `Sequencing.SequencingManager.InitiateSeqNoFromFile` | src/sequencing-manager.cpp:65-81 | each counter resumes ten above the file's, or from 0 without a file |
| `Sequencing.SequencingManager.IncreaseAdjLsaSeq` | src/sequencing-manager.hpp:103-108 | moves one counter on and recombines; the other setters and increments alike |
| `Sequencing.CombinedInRange` | src/sequencing-manager.cpp:48-54 | in range the bitwise combination is the sum of the shifted fields and fits 64 bits |
| `Sequencing.SplitUndoesCombine` | src/sequencing-manager.cpp:39-54 | splitting undoes combining if and only if the counters fit 24, 20 and 20 bits |
| `Sequencing.CombineUndoesSplit` | src/sequencing-manager.cpp:39-54 | combining undoes splitting for every 64-bit number |
| `Sequencing.CombinedGrows` | src/sequencing-manager.cpp:48-54 | in range, moving any counter on makes the published number strictly larger |
| `Sequencing.NextAdjGrows` | src/sequencing-manager.hpp:103-108 | from a state in range, the next adjacency number makes the combined number larger if and only if it fits its field or the lowest coordinate bit is clear |
| `Sequencing.NextCorGrows` | src/sequencing-manager.hpp:110-115 | the next coordinate number if and only if it fits or the lowest Name bit is clear |
| `Sequencing.NextNameGrows` | src/sequencing-manager.hpp:96-101 | the next Name number if and only if it fits |
| `Sequencing.PublishedGrow` | src/communication/sync-logic-handler.cpp:266-277 | over all lives of a router, while what it publishes is in range, each published number is larger than every earlier one |
| `Sequencing.MoveKeepsGrowing` | src/communication/sync-logic-handler.cpp:266-277 | what a running router has published grows strictly, and stays so with every counter moved and number published |
| `Sequencing.RestartExceeds` | src/sequencing-manager.cpp:65-81 | after a restart every counter is at least ten above every value published in earlier lives |
| `SyncUpdates.ProcessUpdateFromSync` | src/communication/sync-logic-handler.cpp:188-229 | asks, of another router only, for exactly the LSAs whose delivery under the Name part (above bit 40), coordinate part (above bit 20) or adjacency part of the reported number would change what is stored |
| `SyncUpdates.IsLsaNew` | src/lsdb.cpp:126-138 | not stored or stored under a smaller number, which is exactly when delivering that number would change what is stored |
| `SyncUpdates.NewWouldInstall` | src/lsdb.cpp:126-138 | the comparison made before fetching agrees with the one made when installing |
| `SyncUpdates.UpdateTellsCounters` | src/communication/sync-logic-handler.cpp:188-229 | through packing and splitting the receiver compares with the publisher's own counters, while they are in range |
| `SyncUpdates.ArrivedNotAskedAgain` | src/lsdb.cpp:126-138 | however much arrives, nothing that has arrived is asked for again under its number |
| `Hello.HelloProtocol.ProcessInterestTimedOut` | src/hello-protocol.cpp:149-182 | counts the miss, resends below the retry number, and gives an active neighbour up and asks for a build when it is reached |
| `Hello.HelloProtocol.OnContentValidated` | src/hello-protocol.cpp:200-227 | the neighbour is active with a zero counter; a build is asked for exactly if it was not active |
| `Hello.HelloProtocol.OnRegistrationFailure` | src/hello-protocol.cpp:281-306 | counted like a miss; reaching the retry number asks for a build whatever the status was |
| `Hello.HelloProtocol.OnRegistrationSuccess` | src/hello-protocol.cpp:249-277 | records the face, registers the shared prefixes over it at the link's cost, and says hello |
| `Hello.HelloProtocol.OnFaceEventNotification` | src/nlsr.cpp:349-387 | the first neighbour on the face loses it and, if active, is given up on at once and a build asked for |
| `Hello.HelloProtocol.ScheduleAdjLsaBuild` | src/lsdb.cpp:505-515 | one more request; an event is scheduled only if none is |
| `Hello.HelloProtocol.BuildAdjLsa` | src/lsdb.cpp:518-546 | with every neighbour decided the own LSA goes if none is active, and is otherwise built from exactly the active ones, other LSAs and all timers being left as that leaves them, and the requests are cleared; else the event is rescheduled; published numbers keep growing; a calculation is asked for exactly if the own LSA goes or counts as changed |
| `Hello.BuildTakesHold` | src/lsdb.cpp:653-667 | what a build leaves stored: nothing, the active links, or, if an own LSA is stored and the counter has run through all 32-bit numbers, what was stored; below 2^32 its number is the counter's |
| `Hello.ChangesDisturb` | src/lsdb.cpp:518-546 | whenever a build leaves other own links stored than before it asks for a calculation |
| `Hello.HelloProtocol.IsAdjLsaBuildable` | src/adjacency-list.cpp:200-219 | true exactly if each neighbour is active or has timed out the retry number of times |
| `Hello.HelloProtocol.GetNumOfActiveNeighbor` | src/adjacency-list.cpp:222-232 | the number of active neighbours |
| `Hello.HelloProtocol.ActiveAdjacents` | src/lsa.cpp:213-228 | the new LSA's links are exactly the active neighbours' |
| `Hello.EventKeepsOk` | src/hello-protocol.cpp:149-227 | every handler, build, arrival and timer keeps the invariant behind the next row: no status changes without a build request, and the own LSA's number is the counter's |
| `Hello.OwnLsaFollowsNeighbours` | src/lsdb.cpp:505-546 | in every run of these, while built numbers are below 2^32: an event is pending exactly if the flag is set, an outstanding request implies it, active neighbours' counters are below the retry number, and with no request outstanding the own LSA in the list has exactly the links (name, face, cost as read) of the active neighbours, or is absent if there are none |
| `Hello.SilentNeighbourIsDropped` | src/hello-protocol.cpp:169-181 | the equality tests never miss: a silent active neighbour is given up on by exactly the timeout that reaches the retry number, with a build then pending |
| `Hello.NeighbourAfter` | src/hello-protocol.cpp:149-306 | what one event does to one neighbour, field by field: misses and refusals count, the one reaching the retry number and the loss of an active neighbour's face make it inactive, a reply makes it active with a zero counter; every other neighbour is as before |
| `Hello.RequestsExactly` | src/lsdb.cpp:505-515 | a build is asked for by exactly the events that change a status, and by the refusal that reaches the retry number |
| `Hello.ActiveExactlyIfHeard` | src/hello-protocol.cpp:149-306 | in every run a neighbour is active exactly if it has replied and has since neither been missed or refused the retry number of times nor lost its face; its counter is then the number of misses since |
| `Hello.DecidedExactly` | src/adjacency-list.cpp:200-219 | in every run a neighbour no longer holds up a build exactly if it has ever replied or been missed or refused the retry number of times |
| `Hello.FaceIsLastGiven` | src/nlsr.cpp:349-387 | in every run a neighbour's face is the one last given, none if that was lost since, or the configured one if neither happened |
| `Hello.DueBuildSettles` | src/lsdb.cpp:518-546 | a build event with every neighbour decided leaves no request and no event, and the own LSA with exactly the active neighbours' links; with one undecided it is rescheduled and the LSA stays |
| `SyncStates.ComposedAppliesAll` | nsync/sync-diff-state.cc:40-73 | accumulating differential states does in one go what they do in turn |
| `SyncStates.MergeMatchesApply` | nsync/sync-full-state.cc:75-99 | merging a difference equals overriding with it if and only if it takes no name below the receiver's number |
| `SyncStates.LaterUpdateStays` | nsync/sync-full-state.cc:75-99 | of two updates, merged in either order, the one of the later session stays whatever the numbers, and within a session the one with the larger number |
| `SyncStates.MergeIsApplyEffective` | nsync/sync-logic.cc:394-462 | merging equals overriding with the part that has an effect, which is what gets logged |
| `SyncStates.LoggedIsWhatChanged` | nsync/sync-logic.cc:394-462 | and that part is exactly what changed: a name is in it if and only if merging brings it, takes it or gives it another number |
| `SyncStates.JoinIsLeast` | nsync/sync-full-state.cc:75-99 | the pointwise lexicographic maximum is the least upper bound |
| `SyncStates.FullReplyJoins` | nsync/sync-state.cc:67-95 | absorbing a whole state ends at the pointwise maximum |
| `SyncStates.DiffReplyJoins` | nsync/sync-diff-state.cc:40-52 | absorbing an update-only difference ends at the pointwise maximum, and exactly at the sender's state if the receiver has not changed since asking |
| `SyncStates.EqualDigestsEqualStates` | nsync/sync-full-state.cc:48-71 | root digests are equal exactly if states are, and the reserved one is the empty state's |
| `SyncNodes.DifferencesCompose` | nsync/sync-diff-state.cc:40-52 | the log law: overriding the state after any log entry with the accumulated later entries gives exactly the current state |
| `SyncNodes.AbsorbKeepsLaw` | nsync/sync-logic.cc:371-480 | received data keeps the law |
| `SyncNodes.RemoveKeepsLaw` | nsync/sync-logic.cc:601-628 | local removal keeps it, even of the forwarder's own name |
| `SyncNodes.PublishKeepsLaw` | nsync/sync-logic.cc:577-598 | a local publish keeps it if and only if its number is not below the stored one |
| `SyncNodes.LowPublishBreaksLaw` | nsync/sync-logic.cc:577-598 | an input for which it does not |
| `SyncNodes.RunsAreLawful` | nsync/sync-logic.cc:371-628 | every run of allowed publishes, removals and received data keeps the law |
| `SyncNodes.LastEntryIsTrue` | nsync/sync-logic.cc:524-560 | the last difference, which a pending interest for the current state gets, is true of the responder |
| `SyncNodes.AdvancingClimbs` | nsync/sync-logic.cc:371-628 | a step leaves the state alone or moves it up (forwarder number first, then all leaves pointwise) if and only if it is a publish, a removal of an ordinary name or of a forwarder leaf absent or at its first number, or data that raises the forwarder leaf or removes nothing held |
| `SyncNodes.ClimbsIsStrictOrder` | nsync/sync-logic.cc:601-628 | that is a strict order |
| `SyncNodes.DigestsDoNotRecur` | nsync/sync-logic.cc:563-574 | in a run of such steps two moments with one root digest have one state throughout between them, so erasing by digest never drops an entry for another state |
| `SyncNodes.ForwarderRemovalRecurs` | nsync/sync-logic.cc:601-628 | a run with another step, the removal of a raised forwarder leaf, in which an old digest returns for a state left in between |
| `SyncNodes.AbsorbKeepsCovered` | nsync/sync-logic.cc:402-446 | one message extends the reported ranges of a name to the new stored number |
| `SyncNodes.GapsCover` | nsync/sync-logic.cc:402-446 | for a remote name of one session the reported ranges are non-empty, start at 0, each begins one past the last, and cover 0 to the stored number |
| `SyncNodes.EachNumberReportedOnce` | nsync/sync-logic.cc:402-446 | so every number from 0 to the stored one is in exactly one reported range, and no other number is in any |
| `SyncNodes.ForwarderCountsRemovals` | nsync/sync-logic.cc:601-628 | after any number of removals the forwarder leaf has moved on by one for each, from 0 if it was absent, the names are gone and all other leaves as they were |
| `SyncLogic.FullState.GetDigest` | nsync/sync-full-state.cc:48-71 | the memoised digest is the digest of the current leaves |
| `SyncLogic.FullState.Update` | nsync/sync-full-state.cc:75-99 | keeps the larger number, resets the memo, and reports what happened |
| `SyncLogic.FullState.Remove` | nsync/sync-full-state.cc:102-116 | erases the leaf, resets the memo, reports whether it was there |
| `SyncLogic.DiffState.Update` | nsync/sync-diff-state.cc:77-85 | overrides |
| `SyncLogic.DiffState.Add` | nsync/sync-diff-state.cc:55-73 | the other state's leaves win |
| `SyncLogic.DiffState.Diff` | nsync/sync-diff-state.cc:40-52 | walking the m_next chain accumulates exactly the successors' differences in order |
| `SyncLogic.Encode` | nsync/sync-state.cc:67-95 | a message whose decoding is the differential state |
| `SyncLogic.EncodeFull` | nsync/sync-state.cc:67-95 | a full state is sent as an update of every leaf |
| `SyncLogic.Decode` | nsync/sync-state.cc:146-167 | rebuilds the differential state a message encodes |
| `SyncLogic.SyncNode.InsertToDiffLog` | nsync/sync-logic.cc:563-574 | links the newest entry to the new one and replaces any entry for the same digest, which stays in the chain |
| `SyncLogic.SyncNode.ProcessSyncInterest` | nsync/sync-logic.cc:306-368 | zero digest: the whole state; current digest: pends; any digest the node has ever been in: the exact difference; otherwise waits, then recovers |
| `SyncLogic.SyncNode.ProcessSyncRecoveryInterest` | nsync/sync-logic.cc:505-521 | answers with the whole state exactly if the digest is one the node has been in |
| `SyncLogic.SyncNode.ProcessSyncData` | nsync/sync-logic.cc:371-480 | merges leaf by leaf, logs what had an effect, reports exactly the gaps and removals; an unparsable message only drops the pending interest |
| `SyncLogic.ReportedExactly` | nsync/sync-logic.cc:402-446 | a gap is reported for a name exactly if it is not the forwarder's and its number rose, a later session counting as higher; it reaches from the number after the one held, or 0, to the new one |
| `SyncLogic.SyncNode.AddLocalNames` | nsync/sync-logic.cc:577-598 | publishes, logs and answers every pending interest |
| `SyncLogic.SyncNode.RemoveLocalName` | nsync/sync-logic.cc:601-628 | removes, moves the forwarder number on, logs and answers every pending interest |
| `SyncLogic.SyncNode.SatisfyPendingSyncInterests` | nsync/sync-logic.cc:524-560 | each pending interest is answered once: known ones with the last difference, unknown ones with the whole state; the next four rows say what that achieves |
| `SyncNetwork.EachAskerAnswered` | nsync/sync-logic.cc:524-560 | a packet is sent for a name exactly if an interest was pending under it, once, and carries its digest |
| `SyncNetwork.UnknownAskersJoin` | nsync/sync-logic.cc:526-552 | an interest for an unknown digest leads its sender, whatever it holds, to the maximum of both states, and from nothing to the responder's |
| `SyncNetwork.KnownAskersJoin` | nsync/sync-logic.cc:542-547 | one for what was the current state leads its sender, if it has not fallen back since, to the maximum, and from that state to the responder's |
| `SyncNetwork.KnownAskersOverride` | nsync/sync-logic.cc:542-547 | with removals too, overriding that state with what is sent gives exactly the responder's |
| `SyncLogic.BroughtUpToDate` | nsync/sync-logic.cc:333-341 | a log-hit answer turns exactly the asker's state into the responder's |
| `SyncLogic.HoldsNext` | nsync/sync-logic.cc:563-574 | after any insertion the log has one entry for each digest ever logged, the latest |
| `SyncNetwork.ActionKeeps` | nsync/sync-logic.cc:371-598 | publishing, sending or delivering keeps every node lawful, at the maximum of what it absorbed, with nothing unpublished anywhere, and lowers no number |
| `SyncNetwork.RunsKeep` | nsync/sync-logic.cc:371-598 | so does every run with loss, repetition and reordering |
| `SyncNetwork.NothingInvented` | nsync/sync-logic.cc:371-598 | every number in any state or packet was published for that name |
| `SyncNetwork.NodesAgree` | nsync/sync-logic.cc:371-480 | nodes that absorbed the same maxima hold equal states and digests |
| `SyncNetwork.UpdateOnlyKept` | nsync/sync-logic.cc:577-598 | without removals, publishing and absorbing keep all differences update-only |
| `SyncNetwork.RunsUpdateOnly` | nsync/sync-logic.cc:371-598 | so every node reached by a run without removals is update-only |
| `SyncNetwork.RunReplyJoins` | nsync/sync-logic.cc:333-341 | for every such run a log-hit reply leads the asker to the maximum, or to the responder's state |
| `SyncNetwork.LogReplyJoins` | nsync/sync-logic.cc:333-341 | a log-hit reply leads to the pointwise maximum, and to the responder's state if the asker has not changed |
| `SyncNetwork.FullReplyMerges` | nsync/sync-logic.cc:315-324 | zero-digest and recovery replies lead to the pointwise maximum, and an empty asker to the responder's state |
| `SyncNetwork.LowerRepublishIsIgnored` | nsync/sync-full-state.cc:90-93 | a name removed and published again under a lower number stays at the old one with a requester that missed the removal |
| `PublishingNetwork.AnnouncedIsNew` | src/communication/sync-logic-handler.cpp:266-296 | what a router publishes next is above whatever any sync node, its own included, stores under its update prefix |
| `PublishingNetwork.ActKeeps` | src/communication/sync-logic-handler.cpp:266-296 | counting, publishing, restarting from the file with an empty sync node, sending and receiving keep the network invariant, without any assumption on stored numbers |
| `PublishingNetwork.RoutersPublishLawfully` | nsync/sync-logic.cc:577-598 | in every run of such routers over a network that loses, repeats and reorders, while what is published is in range, each publish keeps the log law and every receiver takes it as new |

## Left out

- Networking, the forwarder's own behaviour, keys, signatures, validators and the certificate store: libraries. The
  commands sent to the forwarder are kept as a sequence, and every face URI is taken to resolve to its own face.
- SHA-256: a digest stands for what was hashed, with a reserved value for the empty state.
- Wall-clock time and jitter: timers are a set of pending events fired in any order; interests that expire in the
  pending table, the re-expressed sync interest and the recovery back-off are not modelled.
- That the prefix table learns of an expired FIB entry: it does not, in the code either; the next update enters it
  again.
- The hyperbolic calculator and the dry-run table, which rest on floating-point functions; link costs are natural
  numbers for whoever reads them through their getter, which rounds up. Configured costs are reals whose fraction, if
  any, is at least the machine epsilon, as that of every double is that is not itself below it; negative ones, whose
  conversion the language leaves undefined, are not modelled.
- Coordinates are real numbers; only the comparison that decides whether they changed is modelled.
- Face id resolution and the retry counters for registration.
- The TLV status dataset, the segment publisher and `nlsrc`: encoding primitives and display.
- The text form of LSAs: tokenising and number parsing are library code.
- Configuration, logging, statistics and start-up.
- That a routing calculation dropped for a scheduled build is made up for later: the code does not ensure it.
- Requests for a calculation by coordinate LSAs, which the hyperbolic modes alone make.
- A multi-path calculation for a router that no LSA mentions: the code would read a row before the matrix, and its
  caller rules the case out.
- Hop lists and origin lists inside table entries are values copied in and out, as assignment copies them in the
  source; an entry is put back whole where the source edits it through an iterator.
- The per-branch notification mode of sync; the order in which leaves are visited is left open.
- `SeqNo::operator <=`, which holds only within a session, and the invalid number: nothing modelled uses the former,
  and an absent number is an `Option`.
- 64-bit wrap-around of sync numbers, and of the time-out counter of a neighbour that stays silent for 2^32 hellos.
- Filtering of LSA interests by the highest number seen, and retransmission of them.
- Forwarding over routers that do not hold the same LSAs, or in multi-path mode.
- Convergence of coordinate LSAs: the code keeps stored coordinates that are close to those delivered, so what is
  held depends on the order of deliveries.
- The sequence number of a FIB entry, which the code only logs.
- Forwarding a packet for a prefix on from a router that advertises it: it is taken to have arrived there.
- SyncNodes.LastEntryIsTrue: soundness only, because a requester may have missed earlier entries.
