# Verification of the POINT forwarding, topology and rendezvous core

POINT/Blackadder is a source-routed information-centric network. A publisher's packets carry a
forwarding identifier (FID), the bitwise or of the link identifiers (LIDs) along chosen paths and of
the internal LIDs of the destinations; a node sends a packet over every link whose LID is contained
in the FID. This project models the parts of the repository that make this work and proves what they
promise. `dafny verify dfyconfig.toml` covers all of it.

| files | what they model |
|---|---|
| RealVectors, Growth, FlowNetwork, FlowAnalysis, SingleLink, MaxFlow, Approximation | the max-concurrent-flow approximation of the traffic-engineering topology manager: edge lengths, phases, rescaling by the logarithm, lambda and beta, weak duality, and how close the result is to the best flow |
| PathSampler | paths, probabilities and FIDs built from a solved flow, and the sampler that draws one |
| Combinatorics, FlowRules | the compilation of a node's forwarding table to OpenFlow, as one rule per port subset and as a table pipeline; rule selection follows sections 5.1 and 5.3 of the OpenFlow Switch Specification 1.3.0 |
| TopologyGraph, TopologyManager | link failures and recoveries: the renumbered graph, the freed LIDs and the three cached FID tables |
| Multicast, Forwarding, Delivery | assignment of subscribers to publishers, composition of FIDs, and what a network of forwarders does with them and with the cached ones |
| PendingTable, Reliability, ReliabilityNetwork, ControlElement | control-plane reliability: the pending table with its linked recency list, the timer, the receiver's ring, and a network that loses, duplicates and reorders |
| InfoGraph, IdTables, Removal, Rendezvous | the information graph of a rendezvous point: identifier sets and lookup indexes under publication and unpublication |
| DomainLabels, DomainMerge | adding and deleting nodes of a running deployment: labels, LIDs, connections |
| WordBits, BitVector, FidBits | the word-array bit vector under all identifiers, and the Forwarder working on it |

How things are modelled:

- A LID or FID is the set of its one-bits, except in WordBits and BitVector, where it is an array of
  32-bit words, and in FidBits, which relates the two.
- Arithmetic of the flow solver is over `real`; `pow` and `log` do not occur. The logarithm of 1/delta
  to the base 1+e is described by the fractions p/q above it, those with (1+e)^p delta^q at least one;
  the root behind delta is described in the same way.
  Shuffles and random draws are arbitrary choices.
- Shortest-path calls are functions with a stated contract. In the flow solver the contract is a
  locally checkable certificate (predecessors and distances), and optimality is derived from it. In
  the topology manager it is a shortest path if there is one and nothing otherwise.
- Clocks, ack ids and draws are parameters. Monitoring reports are taken to succeed.
- Node identifiers of the topology manager are vertex numbers; identifier fragments, hosts and
  addresses are numbers.
- Hash tables are maps, and objects the source links by pointers are references into one class in
  Rendezvous and real list nodes in PendingTable.

Where the code does not do what its documentation or the property at hand says, the code is followed
and the difference is stated as a result:

- Recovery of a link recalculates only nodes the TM could not reach, so nodes on the TM's side keep a
  zero RVFID when the RV comes back (`TopologyManager.RestorationKeepsRvIff`).
- A subscriber that no publisher reaches overwrites the entry of the publisher chosen last
  (`Multicast.ComposedIff`, `Multicast.UnreachedKeepsIff`).
- Republishing a scope at or below itself has no finite result
  (`IdTables.LinkBelowItselfNeverCloses`, reached in `Rendezvous.Point.ScopeUnderItself`).
- Unpublishing a scope ends the host's publications of all items in it, even if the host does not
  publish the scope and the call reports that (`Rendezvous.Point.UnpublishScope`).
- Deleting a testbed address that several nodes share can leave connections without an end
  (`DomainMerge.DeletedOkIff`).
- Scaling the flow by the logarithm can exceed a capacity, by at most one capacity times the scale
  (`MaxFlow.LogScaleOvershoots`, `MaxFlow.LogScaleOvershoot`, and exactly when on one link in
  `MaxFlow.LogScaleOnLinkIff`).
- An acknowledgement proves delivery only for ids that no ring held at the start
  (`ReliabilityNetwork.StaleIdIsLost`).
- A shrinking `resize` can leave bits behind that a later growth shows again, although added bits are
  documented as false (`BitVector.BABitvector.Resize`, `BitVector.BABitvector.StaleBitReturns`).
- `or_with_difference` with the vector itself as the place for the difference is a copy of the operand
  (`BitVector.BABitvector.OrWithDifference`).
- Subset priorities fit the 16-bit field up to 15 ports only (`FlowRules.PrioritiesFit16Bits`).

## Model

| member | source | states |
|---|---|---|
| `FlowNetwork.WeakDuality` | TopologyManager/tm_max_flow.cpp:159-174 | for any non-negative edge lengths, D is at least Alpha times the ratio of every multicommodity flow that respects the capacities |
| `FlowNetwork.TreeIsShortest` | TopologyManager/tm_max_flow.cpp:305-306 | a predecessor and distance table that is locally consistent is no longer than any path, so the Dijkstra result needs no other assumption |
| `FlowNetwork.OraclePath` | TopologyManager/tm_max_flow.cpp:308-325 | walking the predecessors back from the sink gives a simple path whose length is the reported distance |
| `FlowAnalysis.EdgePush` | TopologyManager/tm_max_flow.cpp:334-361 | one push keeps capacity times length at least delta times the growth of the load, and the load below p/q + 1 capacities for every p/q above the logarithm |
| `FlowAnalysis.BelowLevel` | TopologyManager/tm_max_flow.cpp:334-361 | an edge whose length times capacity is below one carries less than p/q capacities, for every p/q above the logarithm |
| `Growth.GBelowRatio` | TopologyManager/tm_max_flow.cpp:356-359 | pushes worth s capacities that have not yet multiplied delta up to one are worth less than every p/q above the logarithm, whatever their sizes |
| `FlowAnalysis.RaiseAlongVolume` | TopologyManager/tm_max_flow.cpp:334-361 | raising the lengths along a simple path by x raises D by exactly e times x times the length of the path |
| `FlowAnalysis.PushKeepsSolverOk` | TopologyManager/tm_max_flow.cpp:304-374 | every push keeps flow equal to the sum over its path flows, every path valid and simple, and every edge within its load bound |
| `FlowAnalysis.PushKeepsPhaseOk` | TopologyManager/tm_max_flow.cpp:304-374 | during a phase D has grown by at most e times the amounts pushed, priced at the current distances, which only increase |
| `FlowAnalysis.PhaseKeepsDualBound` | TopologyManager/tm_max_flow.cpp:282-378 | for every flow within the capacities that serves each demand r > e times, t phases multiply D by at most (1 - e/r)^-t |
| `FlowAnalysis.InitiallyOk` | TopologyManager/tm_max_flow.cpp:250-265 | lengths delta over capacity and no flow satisfy all invariants |
| `MaxFlow.GraphMf.CalcD` | TopologyManager/tm_max_flow.cpp:25-35 | D is the sum of length times capacity over all edges |
| `MaxFlow.GraphMf.MinCapacity` | TopologyManager/tm_max_flow.cpp:308-326 | the number found along the predecessors is the capacity of some edge of the path and fits every one of them |
| `MaxFlow.GraphMf.Lengthen` | TopologyManager/tm_max_flow.cpp:333-361 | the second backward walk lengthens exactly the edges of the path and returns it from source to sink |
| `MaxFlow.GraphMf.Push` | TopologyManager/tm_max_flow.cpp:304-374 | an iteration pushes the rest of the demand or the full capacity of a bottleneck edge along the path of the predecessors: that path gains the amount in this demand's path flows, exactly its edges become longer, D rises by exactly e times the amount times the distance, and no other demand changes |
| `MaxFlow.GraphMf.Route` | TopologyManager/tm_max_flow.cpp:296-375 | a step ends with the whole demand routed or D at least one |
| `MaxFlow.GraphMf.Phase` | TopologyManager/tm_max_flow.cpp:294-377 | a complete phase routes every demand once, in any order, and raises D by a fixed positive amount |
| `MaxFlow.GraphMf.RescaleFlows` | TopologyManager/tm_max_flow.cpp:185-195 | flow and every path flow are scaled alike |
| `MaxFlow.GraphMf.RescaleDemands` | TopologyManager/tm_max_flow.cpp:177-183 | only the demands are scaled |
| `MaxFlow.GraphMf.CalcLambda` | TopologyManager/tm_max_flow.cpp:67-76 | lambda is the least ratio of flow to demand, capped by the largest number |
| `MaxFlow.GraphMf.CalcBeta` | TopologyManager/tm_max_flow.cpp:159-174 | the value returned times Alpha is D, so it bounds every achievable concurrent ratio from above |
| `MaxFlow.LinkBeta` | TopologyManager/tm_max_flow.cpp:159-174 | on one link with one demand the bound is the capacity over the demand, whatever the lengths |
| `MaxFlow.GraphMf.Initialise` | TopologyManager/tm_max_flow.cpp:227-265 | the run starts with D equal to the number of edges times delta and nothing routed |
| `MaxFlow.GraphMf.Solve` | TopologyManager/tm_max_flow.cpp:282-378 | the nested loops end, with D at least one, every demand routed once per complete phase, and the dual bound for that number of phases |
| `MaxFlow.GraphMf.MaxConcurrentFlow` | TopologyManager/tm_max_flow.cpp:227-386 | the scaled result: loads below scale times p/q + 1 capacities for every p/q above the logarithm, and below scale times p/q where the edge's own length times capacity is still below one; every demand served scale times (phases - 1) times; (1 - e/r)^phases at most m delta for every feasible ratio r > e, so the phases are many when a good flow exists; on one link the exact number of pushes; lambda and beta as defined |
| `MaxFlow.GraphMf.MaxConcurrentFlowPrescaled` | TopologyManager/tm_max_flow.cpp:197-218 | the same for demands restored after both prescalings, with the second run for the demands times half the beta that the first one ended with |
| `MaxFlow.LinkPrescaled` | TopologyManager/tm_max_flow.cpp:197-218 | on one link with one demand the second run is for exactly half of the capacity |
| `MaxFlow.GraphMf.MinCongestionFlow` | TopologyManager/tm_max_flow.cpp:220-225 | lambda is above zero exactly when every demand received flow, and it is whenever some feasible ratio r > e of the scaled demands has 1 - e/r above m delta; then every flow is at least its demand, one is equal, each flow is still the sum of its path flows, and loads are bounded by capacity over lambda |
| `MaxFlow.Congestion` | TopologyManager/tm_max_flow.cpp:220-225 | scaling by one over lambda serves every demand, with equality for the one that set lambda |
| `MaxFlow.AchievedRatio` | TopologyManager/tm_max_flow.cpp:380-381 | scaling the accumulated flow by one over p/q + 1 gives a flow within the capacities with ratio (phases - 1)/(p/q + 1), for every p/q above the logarithm |
| `MaxFlow.RoomServes` | TopologyManager/tm_max_flow.cpp:282-378 | a feasible ratio r > e with 1 - e/r above m delta forces a second phase, so every demand receives flow |
| `Approximation.PhasesServe` | TopologyManager/tm_max_flow.cpp:282-381 | with the delta of the source, (phases - 1) times the scale is at least (1-e)^2 r for every feasible r from one on |
| `Approximation.ScaleAtMostEps` | TopologyManager/tm_max_flow.cpp:380-380 | with the delta of the source the logarithm is at least 1/e |
| `Approximation.ExactDelta` | TopologyManager/tm_max_flow.cpp:247-247 | for e = 1/n the delta of the source is the n-th power of (1-e)/m |
| `Approximation.Guarantee` | TopologyManager/tm_max_flow.cpp:197-386 | with the delta and the scale of the source every demand is served at least (1-e)^2 times as well as by any flow within the capacities that serves all of them, no edge carries more than 1/(1-e) capacities, and scaled by 1-e the result is a flow within the capacities whose ratio is at least (1-e)^3 of that one's |
| `SingleLink.LogScaleFitsIff` | TopologyManager/tm_max_flow.cpp:380-381 | the fewest whole-capacity pushes that end the phases fit one capacity after scaling by the logarithm exactly when they multiply delta to one and not beyond |
| `SingleLink.ExactLogScale` | TopologyManager/tm_max_flow.cpp:380-381 | where delta is the n-th power of 1/(1+e), the logarithm is n |
| `MaxFlow.LogScaleOvershoot` | TopologyManager/tm_max_flow.cpp:380-381 | scaled by the logarithm, every load is at most 1 + scale capacities, and at most one where the edge's own length times capacity stayed below one |
| `MaxFlow.LogScaleOnLinkIff` | TopologyManager/tm_max_flow.cpp:380-381 | the solver's result for one demand of whole capacities on one link keeps within the capacity exactly when delta is a power of 1/(1+e) |
| `MaxFlow.LogScaleOvershoots` | TopologyManager/tm_max_flow.cpp:227-386 | the solver itself on one unit edge with a demand of 4, e one half and delta one quarter: the load is 4 times the scale, which is above the capacity |
| `PathSampler.PathFid` | TopologyManager/te_graph_mf.cpp:299-331 | the FID of a path is the internal LID of the sink or-ed with the LID of every edge |
| `PathSampler.BuildDemand` | TopologyManager/te_graph_mf.cpp:297-338 | paths, flows, shares and FIDs line up, the shares are positive and sum to one, and every FID encodes a path from source to sink |
| `PathSampler.UpdatePaths` | TopologyManager/te_graph_mf.cpp:284-345 | every demand with a path gets an entry, and every entry comes from a demand |
| `PathSampler.GetFid` | TopologyManager/te_graph_mf.cpp:373-406 | the first index whose cumulative share covers the draw, else the last; no bits without an entry |
| `PathSampler.SelectsInterval` | TopologyManager/te_graph_mf.cpp:389-395 | each index is drawn by exactly the interval between its cumulative sums, whose length is its share of the flow |
| `Combinatorics.QuotientIsChoose` | deployment/network.cpp:1024-1030 | the quotient of factorials is the binomial coefficient, without remainder |
| `Combinatorics.CountIsChoose` | deployment/network.cpp:1040-1058 | exactly C(n,k) masks of n bits have k bits set |
| `Combinatorics.SmallerTotal` | deployment/network.cpp:1020-1032 | the binomial coefficients sum to 2^n |
| `FlowRules.WriteBridgeRules` | deployment/network.cpp:1014-1076 | the mask loop with its running counters writes the rule of every non-empty port subset with the priority given by size and rank, and the drop rule |
| `FlowRules.LargerSetsWin` | deployment/network.cpp:1020-1065 | a larger port subset always has the higher priority |
| `FlowRules.PrioritiesDistinct` | deployment/network.cpp:1020-1065 | no two subsets share a priority |
| `FlowRules.PrioritiesFill` | deployment/network.cpp:1020-1065 | the priorities used are exactly 1000 to 1000 + 2^n - 2 |
| `FlowRules.PrioritiesFit16Bits` | deployment/network.cpp:1020-1065 | they fit the 16-bit priority field exactly up to 15 ports |
| `FlowRules.BridgeSelects` | deployment/network.cpp:1014-1076 | for any LIDs, overlapping ones included, and any FID, the highest-priority matching rule outputs exactly the ports whose LID is contained in the FID |
| `FlowRules.WritePortTables` | deployment/network.cpp:1078-1125 | the per-port loop writes one table per connection: matching entry, then resubmit or drop |
| `FlowRules.PipelineFrom` | deployment/network.cpp:1078-1125 | processing from table t outputs exactly the matching ports from t on |
| `FlowRules.ForwarderMatch` | src/forwarder.cc:159-165 | the Forwarder's loop picks exactly the links whose LID is contained in the FID, each once and in table order |
| `FlowRules.MatchingIs` | src/forwarder.cc:159-165 | the list of matching links holds an index exactly when its LID is contained in the FID, in increasing order |
| `FlowRules.CompilationsAgree` | deployment/network.cpp:1014-1125 | the subset rules, the table pipeline and the Forwarder have the same output for every FID |
| `TopologyGraph.WithoutLive` | TopologyManager/tm_igraph.cpp:455-458 | deleting edges renumbers the rest and leaves every other edge with its LID |
| `TopologyGraph.UnmatchedSurvives` | TopologyManager/tm.cpp:579-588 | an FID that contains no freed LID encodes a path of links that are still live, whatever overlaps the LIDs have |
| `TopologyManager.UpdateConserves` | TopologyManager/tm_igraph.cpp:403-529 | every event keeps the union of live and freed links with their LIDs, and the two apart |
| `TopologyManager.RunConserves` | TopologyManager/tm_igraph.cpp:403-529 | the same over every sequence of events |
| `TopologyManager.RestoreUndoesRemove` | TopologyManager/tm_igraph.cpp:403-529 | removal followed by restoration gives back the same links and LIDs |
| `TopologyManager.UpdateExact` | TopologyManager/tm_igraph.cpp:403-529 | an event takes effect exactly when every link it names is in the state it needs; then exactly these links change sides with their LIDs, and otherwise nothing does |
| `TopologyManager.OutOfPlace` | TopologyManager/tm_igraph.cpp:403-529 | removing a link that is down or restoring one that was not freed does nothing |
| `TopologyManager.ReportedTwice` | TopologyManager/tm_igraph.cpp:403-529 | when both ends report an event the second report does nothing, in either order |
| `TopologyManager.LastEventDecides` | TopologyManager/tm_igraph.cpp:403-529 | over every run of bidirectional events a link is up at the end exactly when the last event about it was a restoration, or there was none and it was up at the start |
| `TopologyManager.IndexesInverse` | TopologyManager/tm_igraph.cpp:557-568 | with distinct LIDs the two edge indexes are inverse to each other |
| `TopologyManager.Manager.constructor` | TopologyManager/tm_igraph.cpp:796-812 | after start-up all three tables are exact |
| `TopologyManager.Manager.UpdateTMStates` | TopologyManager/tm_igraph.cpp:557-568 | the rebuilt indexes give each edge number its LID and each LID the first edge that carries it |
| `TopologyManager.Manager.UpdateGraph` | TopologyManager/tm_igraph.cpp:348-529 | one event, uni- or bidirectional: what becomes live and freed; when the link is not in the state the event needs, graph and indexes stay as they are |
| `TopologyManager.Manager.CalculateFID` | TopologyManager/tm_igraph.cpp:570-635 | zero exactly when there is no path, otherwise the code of a shortest path and the internal LID of its end |
| `TopologyManager.Manager.CalculateRVTMFIDs` | TopologyManager/tm_igraph.cpp:796-812 | all three tables are exact |
| `TopologyManager.Manager.RecheckToNode` | TopologyManager/tm.cpp:578-594 | the loop over the freed LIDs, with the entry updated in place, leaves an entry that is recalculated or contains no freed LID |
| `TopologyManager.Manager.RecheckWaysBack` | TopologyManager/tm.cpp:597-627 | the same for RVFID and TMFID together |
| `TopologyManager.Manager.RefreshNode` | TopologyManager/tm.cpp:576-636 | what a removal leaves in one node's three entries; an isolated node gets zero ways back |
| `TopologyManager.Manager.ReconnectNode` | TopologyManager/tm.cpp:655-681 | what a restoration leaves: only nodes without TM-to-node FID are recalculated |
| `TopologyManager.RemovalKeepsTables` | TopologyManager/tm.cpp:569-647 | a removal keeps TM-to-node zero exactly for unreachable nodes and otherwise the code of a live path, and no entry of the other tables stale |
| `TopologyManager.RemovalKeepsTm` | TopologyManager/tm.cpp:569-647 | on a symmetric topology a removal keeps TMFID exact |
| `TopologyManager.RemovalKeepsRv` | TopologyManager/tm.cpp:569-647 | a removal keeps an RVFID for every node that reaches the RV and is reached by the TM |
| `TopologyManager.RestorationKeepsTables` | TopologyManager/tm.cpp:648-685 | a restoration keeps TM-to-node exact and the other tables never stale |
| `TopologyManager.RestorationKeepsTm` | TopologyManager/tm.cpp:648-685 | on a symmetric topology a restoration keeps TMFID exact |
| `TopologyManager.RestorationKeepsRvIff` | TopologyManager/tm.cpp:648-685 | RVFID stays complete exactly when the event does not bring the RV back to the TM |
| `TopologyManager.ReturningRvIsMissed` | TopologyManager/tm.cpp:648-685 | two nodes and one link: after failure and recovery the TM's own RVFID is zero although the RV is reachable |
| `TopologyManager.Manager.HandleLinkState` | TopologyManager/tm.cpp:566-685 | all of the above for one notification; one that does not apply leaves graph and tables as they are |
| `TopologyManager.Manager.Run` | TopologyManager/tm.cpp:566-685 | after every run of bidirectional events live and freed links are the fold of the events, each link is up or down as the last event about it says, the tables keep their guarantees, and RVFID is complete if the TM never lost the RV; when no LID is empty, exactly then or when the TM does not reach the RV at the end |
| `Multicast.CalculateFID` | TopologyManager/tm_igraph.cpp:697-754 | code and hop count of the shortest path, the largest number without a path |
| `Multicast.HopsShortest` | TopologyManager/tm_igraph.cpp:697-754 | the hop count is that of some path and of no shorter one, and the largest number exactly without a path |
| `Multicast.BestIsNearest` | TopologyManager/tm_igraph.cpp:654-670 | the chosen publisher has the fewest hops of all, and one is chosen exactly when some publisher reaches the subscriber |
| `Multicast.BestIsFirst` | TopologyManager/tm_igraph.cpp:654-670 | of several publishers with the fewest hops it is the first in the list |
| `Multicast.CalculateFIDs` | TopologyManager/tm_igraph.cpp:638-696 | the nested loops compute the composition, and every publisher's FID is exactly the or of the codes to its nearest subscribers, none without subscribers |
| `Multicast.AllServed` | TopologyManager/tm_igraph.cpp:638-696 | the composition law for any list of reachable subscribers |
| `Multicast.EntriesSurvive` | TopologyManager/tm_igraph.cpp:653-696 | for any list of subscribers, each publisher's entry is exactly the or of the codes of those of its subscribers that no later unreached one has wiped out |
| `Multicast.ComposedIff` | TopologyManager/tm_igraph.cpp:653-696 | for any list, all entries are right exactly when each publisher's surviving subscribers carry the bits of all of its subscribers |
| `Multicast.AllLeftIff` | TopologyManager/tm_igraph.cpp:653-696 | when each subscriber is named once, nobody is wiped out exactly when no subscriber that an unreached one follows shares its publisher with an earlier one |
| `Multicast.UnreachedKeepsIff` | TopologyManager/tm_igraph.cpp:686-694 | one unreached subscriber at the end leaves the entries right exactly when the code of the last reached one contains the codes of all subscribers of the same publisher |
| `Multicast.LastIsAssigned` | TopologyManager/tm_igraph.cpp:653-696 | the choice carried over from earlier subscribers is always the code for one of that publisher's subscribers |
| `Multicast.CutOffSubscriberWipesOut` | TopologyManager/tm_igraph.cpp:686-688 | one publisher, two neighbours and a cut-off subscriber: the first neighbour's bits are lost, for any shortest paths |
| `Multicast.UcalculateFID` | TopologyManager/tm_igraph.cpp:756-794 | exactly the nearest reachable subscriber gets an FID, and one does if any is reachable |
| `Forwarding.PushLocal` | src/forwarder.cc:156-165 | a local packet leaves over every matching link, each once, in table order |
| `Forwarding.PushNetwork` | src/forwarder.cc:268-305 | a network packet leaves over every matching link that is not suppressed, over none for the all-ones FID, and is delivered locally exactly when the internal LID is contained |
| `FidBits.AllOnes` | src/forwarder.cc:268-270 | negating a copy of a 256-bit vector and asking for zero recognises exactly the set of all bits |
| `FidBits.Matches` | src/forwarder.cc:274-275 | comparing the bitwise and with the LID is containment of the sets of one-bits |
| `FidBits.PushNetwork` | src/forwarder.cc:268-305 | the loop on bit vectors makes the choices of the loop on sets, and leaves FID and table as they are |
| `Forwarding.PushIsSends` | src/forwarder.cc:270-297 | the forwarder's choice at a node is the step relation of the network |
| `Forwarding.OnlyBackIsSkipped` | src/forwarder.cc:275-294 | when no two nodes share an address, in Ethernet or IP mode, only the link back is suppressed |
| `Forwarding.JourneyOnPaths` | src/forwarder.cc:270-305 | with identifiers that share no bit, hop i of every copy is hop i of a chosen shortest path, so each crossing is one link further from the publisher |
| `Forwarding.JourneysEnd` | src/forwarder.cc:270-305 | no copy travels further than the longest chosen path |
| `Forwarding.DeliveryExact` | src/forwarder.cc:268-305 | away from the publisher a packet is delivered at v exactly when v is an intended subscriber and the FID is not all ones or v is a neighbour |
| `Forwarding.RequestIsServed` | TopologyManager/tm_igraph.cpp:638-696 | for a whole request every remote subscriber receives from its nearest publisher and from no other |
| `Forwarding.SpareRequestIsServed` | TopologyManager/tm_igraph.cpp:638-696 | if one bit is used by no link and no node, no composed FID is all ones, and every remote subscriber receives from its nearest publisher and from no other without exception |
| `Forwarding.ComposedIffAllSurvive` | TopologyManager/tm_igraph.cpp:653-696 | with identifiers that share no bit, all entries are right exactly when no subscriber has been wiped out |
| `Forwarding.ComposedIffNoneWiped` | TopologyManager/tm_igraph.cpp:653-696 | the same by position in the list of subscribers |
| `Forwarding.UnreachedKeepsIffAlone` | TopologyManager/tm_igraph.cpp:686-694 | and with one unreached subscriber at the end, exactly when the last publisher serves no other |
| `Delivery.EncodedIsDelivered` | src/forwarder.cc:268-305 | a packet with the code of a live path is delivered at its end for any overlap of the LIDs, exactly if the FID is not all ones or a matching link leads there at once; with identifiers that share no bit it is delivered nowhere else |
| `Delivery.CachedIsDelivered` | TopologyManager/tm.cpp:566-685 | while the tables keep their guarantees, which every run does, the cached TM-to-node FID delivers at the node exactly when the TM reaches it, and each non-zero RVFID and TMFID delivers at the RV and the TM, with the same exception for all ones |
| `Delivery.SpareIsDelivered` | src/forwarder.cc:268-305 | if one bit is used by no link and no node, the code of every live path delivers at its end |
| `Delivery.SpareCachedIsDelivered` | TopologyManager/tm.cpp:566-685 | and each cached FID delivers exactly when its node is reachable, or when it is not zero, without exception |
| `PendingTable.PendingLru.Insert` | src/controlreliability.cc:295-321 | a known id is refreshed, otherwise entries are evicted from the tail while more than max are held and the request is stored at the head |
| `PendingTable.PendingLru.Update` | src/controlreliability.cc:323-341 | the entry moves to the head with the new time; the stale next pointer of the head is never followed |
| `PendingTable.PendingLru.Remove` | src/controlreliability.cc:343-371 | the entry leaves list and both maps, from head, tail or middle; a missing id changes nothing |
| `PendingTable.PendingLru.Evict` | src/controlreliability.cc:303-305 | eviction removes the oldest entries until max are left |
| `PendingTable.PendingLru.Store` | src/controlreliability.cc:306-320 | list and both maps gain the entry |
| `PendingTable.PendingLru.CountRetransmission` | src/controlreliability.cc:284-284 | one more retransmission at the head |
| `ControlElement.ParseSent` | src/controlreliability.cc:108-129 | parsing a sent packet gives back its header fields, and the payload as prefix of what is delivered, followed by the extra bytes of the oversized packet |
| `ControlElement.HeaderLayout` | src/controlreliability.cc:108-129 | every field of the header is at its offset, and the id is in network byte order |
| `ControlElement.AckParses` | src/controlreliability.cc:193-204 | the acknowledgement built from a request parses to the same ack id with the reverse FID |
| `ControlElement.FailureNoticeCarriesPayload` | src/controlreliability.cc:258-268 | a failure notice is the header without FIDs and ack id, the status and the payload |
| `ControlElement.ControlReliability.PushRequest` | src/controlreliability.cc:131-141 | a request is stored, sent, and the timer is armed |
| `ControlElement.ControlReliability.IsAckIDStored` | src/controlreliability.cc:53-59 | membership in the ring |
| `ControlElement.ControlReliability.PushFromNetwork` | src/controlreliability.cc:207-215 | a request is acknowledged with its own id; it is passed up exactly when that id is not in the ring, with the data it arrived with, and then takes the next slot |
| `ControlElement.ControlReliability.PushAck` | src/controlreliability.cc:216-219 | an acknowledgement removes the entry |
| `ControlElement.ControlReliability.RunTimer` | src/controlreliability.cc:239-292 | nothing, a postponed timer, or a failure notice or a retransmission with id and data of the oldest entry, and which of them from its age and count |
| `Reliability.SubmitKeepsOk` | src/controlreliability.cc:131-141 | keys distinct, at most max + 1 entries, send times sorted from tail to head, retransmissions within bounds, timer armed while anything is pending |
| `Reliability.AckKeepsOk` | src/controlreliability.cc:216-219 | the same for acknowledgements |
| `Reliability.TimerKeepsOk` | src/controlreliability.cc:239-292 | the same for the timer |
| `Reliability.SubmitExact` | src/controlreliability.cc:295-321 | a submitted request is the newest entry; a known id keeps data and count, a new one drops only the oldest entries beyond the limit; ring and slot stay |
| `Reliability.AckExact` | src/controlreliability.cc:343-371 | an acknowledgement removes exactly the entry with its id |
| `Reliability.TimerExact` | src/controlreliability.cc:239-292 | the timer changes the oldest entry only, and only if that has timed out: removed at the limit of retransmissions, otherwise moved to the newest place with its id and data and one more retransmission |
| `Reliability.NoneTimedOut` | src/controlreliability.cc:246-253 | when the tail has not timed out, no entry has |
| `Reliability.TimeoutWork` | src/controlreliability.cc:253-290 | every timeout uses up one unit of remaining work |
| `Reliability.Drains` | src/controlreliability.cc:239-292 | without new requests at most the sum of (max_retrans + 1 - retransmissions) timeouts happen, and after that many the table is empty |
| `Reliability.PassUpKeepsRing` | src/controlreliability.cc:207-215 | the ring holds the most recent ids passed up |
| `Reliability.PassUpKeepsSpaced` | src/controlreliability.cc:53-59 | repeated ids stay at least a ring length apart |
| `ReliabilityNetwork.TablesStayOk` | src/controlreliability.cc:61-292 | over every run with loss, duplication and reordering each table stays in order, and every stored request is sent at most 1 + CPR_MAX_RETRANSMISSIONS times and leaves by exactly one of acknowledgement, failure notice or eviction |
| `ReliabilityNetwork.AcknowledgedMeansDelivered` | src/controlreliability.cc:184-219 | a request is acknowledged only after some receiver passed it up, if no ring held its id at the start |
| `ReliabilityNetwork.StaleIdIsLost` | src/controlreliability.cc:207-215 | if a ring does hold the id at the start, some run acknowledges it without anyone passing it up |
| `ReliabilityNetwork.DuplicatesAreFarApart` | src/controlreliability.cc:53-59 | a receiver passes the same id up twice only with CPR_STATE_SIZE other deliveries in between |
| `ReliabilityNetwork.PendingWasStored` | src/controlreliability.cc:131-141 | in every run each pending request holds the data it was stored with by a submission at that host |
| `ReliabilityNetwork.RequestsWereSubmitted` | src/controlreliability.cc:269-290 | in every run each request on the network, first sent or retransmitted, carries an id and data that some host submitted together |
| `ReliabilityNetwork.PassedUpWasSubmitted` | src/controlreliability.cc:207-215 | in every run each packet passed up is one that some host submitted under the id it arrived with |
| `ReliabilityNetwork.DeliveredIsAcknowledged` | src/controlreliability.cc:184-206 | every request that arrives is acknowledged, duplicate or not |
| `ReliabilityNetwork.AcknowledgedArrived` | src/controlreliability.cc:184-206 | every acknowledgement answers a request that arrived before |
| `ReliabilityNetwork.AckSettles` | src/controlreliability.cc:216-219 | after its acknowledgement a request is pending no more |
| `ReliabilityNetwork.StepFrame` | src/controlreliability.cc:131-292 | a step changes one host, and adds to the network only the request submitted, the acknowledgement of the request delivered, or the oldest pending request |
| `InfoGraph.ExactIffClosed` | src/scope.cc:86-112 | identifier sets are exactly the root-to-object path labels if and only if they hold only such labels and every father link is closed |
| `InfoGraph.LabelUnique` | src/scope.cc:93-97 | a label leads to one object, which is what makes the index well defined |
| `InfoGraph.CycleNeverCloses` | src/scope.cc:102-106 | below a cycle no finite identifier sets are closed |
| `InfoGraph.RanksForLink` | src/localrv.cc:321-323 | a link that makes no cycle leaves an order in which the walk descends |
| `IdTables.SweepClosesAll` | src/scope.cc:86-112 | a walk from the only object that is not closed closes everything |
| `IdTables.LinkBelowItselfNeverCloses` | src/localrv.cc:321-323 | republishing a scope at or below itself leaves nothing for the walk to reach: no finite closed sets exist |
| `IdTables.FreeMeansNoSibling` | src/localrv.cc:244-252 | an identifier absent from both indexes means that no object under that father ends in the fragment |
| `IdTables.StrategyForLife` | src/localrv.cc:203-885 | over every run of publications and unpublications, each of which is such a step, an object keeps the strategy it was created with, and one that is gone does not come back |
| `Rendezvous.Point.UpdateIDs` | src/informationitem.cc:38-53 | afterwards every identifier of every father, extended, is an identifier of the object and indexed to it; nothing else changes |
| `Rendezvous.Point.RecursivelyUpdateIDs` | src/scope.cc:87-112 | the walk ends on acyclic graphs, closes every link at or below its start, adds only path labels without hosts, touches nothing else and keeps both indexes exact |
| `Rendezvous.Point.UpdatePublishers` | src/scope.cc:43-60 | the publisher is recorded under the identifier, and whether it was new is reported; the identifier sets stay exact exactly when the object had the identifier |
| `Rendezvous.Point.PublishRootScope` | src/localrv.cc:203-235 | result, new root, its strategy, publisher; nothing changes without success; all identifier sets stay exact |
| `Rendezvous.Point.PublishInnerScope` | src/localrv.cc:237-301 | result in every case, with the strategy compared before the publisher; the link made, the publisher and the strategy recorded, all other hosts and strategies kept; nothing changes without success; all identifier sets exact |
| `Rendezvous.Point.PublishTwice` | src/localrv.cc:237-301 | after a successful publication the same call reports that it exists, and one with another strategy that the strategies differ |
| `Rendezvous.Point.RepublishInnerScope` | src/localrv.cc:303-372 | the same for an existing scope put elsewhere, unless at or below itself, with every strategy kept |
| `Rendezvous.Point.ScopeUnderItself` | src/localrv.cc:303-372 | two publications from the empty graph lead to a scope whose republication under itself is let through by every test, and no identifier sets are closed afterwards |
| `Rendezvous.Point.AdvertiseInfo` | src/localrv.cc:387-506 | the same for a new or known item |
| `Rendezvous.Point.ReadvertiseInfo` | src/localrv.cc:508-640 | the same for an existing item put elsewhere, with every strategy kept |
| `Removal.CutTables` | src/localrv.cc:832-845 | erasing the identifiers that lead through one father leaves exactly the path labels of the remaining graph, every object named and both indexes their inverse |
| `Removal.UserStep` | src/localrv.cc:653-662 | ending a host's publications of an item one identifier at a time finds it unused exactly if the host was its only user, in any order |
| `Removal.CutExactly` | src/localrv.cc:832-845 | a cut takes away the links from one father to the given objects and nothing else, and an object exactly with its last link |
| `Removal.LinkExactly` | src/localrv.cc:255-256 | a link adds itself, and the object it leads to if that is new |
| `Removal.IdleMeans` | src/informationitem.cc:91-100 | unused under a father: no host publishes or subscribes under any of its identifiers |
| `Removal.LastUseMeans` | src/localrv.cc:795-845 | last use under a father: apart from the publication that ends, no host publishes or subscribes there |
| `Removal.SoleUserMeans` | src/localrv.cc:653-662 | only user under a father: the host publishes there, no other host does, and nobody subscribes |
| `Rendezvous.Point.CheckForOtherPubSub` | src/informationitem.cc:91-100 | true exactly when somebody publishes or subscribes to the object under one of the father's identifiers, each of which it has |
| `Rendezvous.Point.Drop` | src/localrv.cc:795-845 | the link goes at both ends, and the object with it if it was the last; all identifier sets stay exact |
| `Rendezvous.Point.UnpublishInfo` | src/localrv.cc:779-885 | result in every case; the item loses its link under the father named by the prefix exactly when this was the last use of it there; no other host, identifier or strategy changes, nothing at all without success, all identifier sets stay exact |
| `Rendezvous.Point.UnpublishItem` | src/localrv.cc:653-662 | all publications of the host of one item under one scope end, and the link with them exactly if nobody else used it there |
| `Rendezvous.Point.UnpublishItems` | src/localrv.cc:653-662 | the same for all items of the scope |
| `Rendezvous.Point.UnpublishScope` | src/localrv.cc:642-777 | result in every case, the items first, then the scope loses its link exactly when it is empty and this was its last use under that father, or as a root at all; an unknown scope or another strategy changes nothing, objects that stay keep their strategy; identifier sets stay exact |
| `Rendezvous.Point.AdvertiseAndBack` | src/localrv.cc:387-885 | advertising a new item and unpublishing it restores the graph, all identifier sets with their hosts and both indexes |
| `Rendezvous.Point.PublishAndBack` | src/localrv.cc:237-777 | the same for a new scope |
| `DomainLabels.LabelsDiffer` | deployment/network.cpp:2142-2152 | different counters give different padded labels |
| `DomainLabels.PaddedShape` | deployment/network.cpp:2142-2152 | a label is the number with as many zeros in front as the width asks for, and none if it is longer |
| `DomainMerge.LabelExists` | deployment/network.cpp:2132-2137 | membership of the label |
| `DomainMerge.GenerateLabel` | deployment/network.cpp:2142-2152 | an unused label, found within one try more than there are nodes |
| `DomainMerge.Domain.CalculateLID` | deployment/network.cpp:145-157 | a one-bit LID not used before, recorded |
| `DomainMerge.Domain.Attach` | deployment/network.cpp:2026-2072 | a requested connection is made in both directions with two new LIDs, or dropped after drawing one |
| `DomainMerge.PeerLabelsOf` | deployment/network.cpp:2026-2072 | the labels connected to are found peer by peer, in the order of the requests |
| `DomainMerge.Domain.Delete` | deployment/network.cpp:2090-2124 | every node with the address goes, then every connection naming the last one's label, and the counter follows |
| `DomainMerge.OthersOf` | deployment/network.cpp:2090-2124 | deletion decides node by node and keeps the order of the others |
| `DomainMerge.OthersOfOne` | deployment/network.cpp:2090-2124 | one node goes exactly if it has the address |
| `DomainMerge.KeepConnsOf` | deployment/network.cpp:2090-2124 | connections are dropped one by one, by the label at either end |
| `DomainMerge.KeepConnsOfOne` | deployment/network.cpp:2090-2124 | one connection goes exactly if it names the label at either end |
| `DomainMerge.LastLabelIs` | deployment/network.cpp:2090-2124 | the label whose connections go is that of the last node with the address |
| `DomainMerge.DeletedOkIff` | deployment/network.cpp:2090-2124 | deletion keeps labels and LIDs distinct, and keeps every connection's ends exactly when no remaining node is connected to a deleted node other than the last |
| `DomainMerge.DistinctIpsSafe` | deployment/network.cpp:2090-2124 | with distinct testbed addresses nothing is left dangling |
| `DomainMerge.SharedIpDangles` | deployment/network.cpp:2090-2124 | two nodes with one address: a connection is left that ends nowhere |
| `DomainMerge.Domain.Merge` | deployment/network.cpp:2019-2127 | addition succeeds exactly when a requested peer is known, and draws exactly the LIDs counted for it; labels, counter, ends and LIDs stay in order |
| `DomainMerge.Domain.Run` | deployment/network.cpp:2019-2127 | every run with distinct testbed addresses: each state follows from the one before by its candidate, and in each labels, counter, ends and LIDs are in order |
| `WordBits.SameBits` | src/ba_bitvector.hh:158-165 | words with the same bits are equal |
| `WordBits.BitShl` | src/ba_bitvector.cc:202-202 | what a left shift does to every bit |
| `WordBits.BitShr` | src/ba_bitvector.cc:209-209 | what a right shift does to every bit |
| `BitVector.BABitvector.Get` | src/ba_bitvector.hh:413-417 | the bit at a position |
| `BitVector.BABitvector.Zero` | src/ba_bitvector.cc:77-84 | true exactly when no bit is set |
| `BitVector.BABitvector.Equals` | src/ba_bitvector.hh:158-165 | comparing words is comparing size and bits |
| `BitVector.BABitvector.ClearLast` | src/ba_bitvector.cc:103-111 | clears exactly the unused bits of the last word |
| `BitVector.BABitvector.Negate` | src/ba_bitvector.cc:148-155 | flips every bit and keeps the unused ones zero |
| `BitVector.BABitvector.AndWith` | src/ba_bitvector.cc:157-165 | bitwise and |
| `BitVector.BABitvector.OrWith` | src/ba_bitvector.cc:167-176 | bitwise or, after growing to the operand's size |
| `BitVector.BABitvector.OrWithDifference` | src/ba_bitvector.cc:217-230 | bitwise or, with the newly set bits in the other vector, which may be the operand; if it is the vector itself, the operand's bits, or none if all three are one |
| `BitVector.BABitvector.Set` | src/ba_bitvector.hh:322-328 | assigning a bit changes that bit only |
| `BitVector.BABitvector.Resize` | src/ba_bitvector.hh:399-405 | every bit is what the stored words held, up to those a move keeps; added bits are false exactly when nothing was left there, and unused bits are zero exactly when those beyond the new end were |
| `BitVector.BABitvector.ShrinkAndGrow` | src/ba_bitvector.hh:399-405 | shrinking and growing brings back exactly the dropped bits in the kept words |
| `BitVector.BABitvector.StaleBitReturns` | src/ba_bitvector.hh:399-405 | ten bits with the last one set, cut to five and extended to ten: the added bit is true |
| `BitVector.BABitvector.OffsetOr` | src/ba_bitvector.cc:188-215 | equals the loop over the operand's bits for every offset, across word boundaries |
| `BitVector.BABitvector.AllOnes` | src/forwarder.cc:268-270 | negating a copy and asking for zero recognises exactly the all-ones vector |

## Left out

- Rendezvous.Point.AdvertiseInfo: ends before the rendezvous itself; matching, notifications and the one-shot unpublication of IP and HTTP namespaces are not modelled.
- Rendezvous.Point.ReadvertiseInfo: the same.
- Rendezvous.Point.PublishInnerScope: notifications to subscribers and the per-host set of published scopes are not modelled.
- DomainMerge.Domain.CalculateLID: the random retry loop is a choice of an unused bit, so it says nothing about how many draws are needed.
- DomainMerge.Domain.Merge: nodes are values in a list, so the sharing of attachment nodes with the domain that is sent out for update is not captured.
- BitVector.BABitvector.OffsetOr: the word at the offset exists, which for an empty operand at the very end of a vector is not implied by the sizes; the source writes beyond its array there.
- MaxFlow.GraphMf.MaxConcurrentFlowPrescaled: the scale from `sp_concurrent_flow` is an arbitrary positive number, since that function does not add the last hop to its loads.
- MaxFlow.GraphMf.MinCongestionFlow: for lambda zero the source divides by zero; the model leaves the flows as they are and says when this does not happen.
- Approximation.Guarantee: for feasible ratios of at least one, which is what the prescaling is there for; that the prescaling reaches it is not shown, since the scale from `sp_concurrent_flow` is arbitrary.
- MaxFlow.LogScaleOnLinkIff: exact for one link and a demand of whole capacities; on other networks only how far the scaled load can exceed a capacity is stated (`MaxFlow.LogScaleOvershoot`).
- Multicast.CalculateFIDs: the path strings kept for resiliency are not modelled, and the first subscriber must be reached, since before that there is no publisher to write to.
- Initial LID allocation (`assignLIDs` and the indexed `calculateLID`): a domain is taken up with distinct identifiers already assigned.
- `assign_gflow` and `gamma`: the edge lookup there runs from later to earlier vertex.
- Rendezvous.Point.RepublishInnerScope: not at or below the scope itself, where the walk of the source does not end.
- Rendezvous.Point.UnpublishInfo: the rendezvous repeated for the remaining publishers and the per-host set of published items are not modelled.
- Rendezvous.Point.UnpublishScope: notifications and the per-host set of published scopes are not modelled; the items are those listed before the loop, while the source erases from the set it iterates over.
- Subscription in the rendezvous point, and the matching of publishers and subscribers itself.
- `handleLinkStateNotificationRM`: it changes the tables exactly as the modelled handler does and differs in the messages it sends.
- Weighted FID calculation and link-state monitoring: they repeat the modelled loops with other weights.
- Ethernet, IPv6 and UDP header rewriting, copying of packets per link and protocol types in the Forwarder.
- Message parsing of the topology and resilience managers, configuration files, remote commands, kernel and socket plumbing.
- Floating-point rounding.
