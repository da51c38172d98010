# Verification of the relay elections, the ting protocol and the data structures of protolib

This project models the most intricate logic of the library's example programs and of two of its containers, and
proves what that logic is for.

- **Relay elections** (`Network`, `Walks`, `Election`, `Backbone`, `Traversal`, `GraphRider`, `GraphExample`,
  `GraphExampleCounterexample`, `RelayRule`). Each node or interface decides by itself, from its two-hop
  neighbourhood, whether it becomes a relay: a leaf test, a comparison with its neighbours, and a queue-driven search
  from its best neighbour. `Election` says what one decision means on the graph alone; `Backbone` proves that the
  decisions together give a connected dominating set, exactly in the networks of three or more nodes; `GraphRider` and
  `GraphExample` run the elections on mutable flags and prove that the flags end up as `Election` says, whatever they
  held before and in whatever order the nodes are visited. GraphExample's variant is unsafe: a six-node network shows
  it, and the exact conditions under which it keeps every relay of the other, and under which its relays connect, are
  proved. `RelayRule` tells both rules once more in the priorities, links and addresses of the input alone and proves
  that the elections follow them.
- **The ting protocol** (`TingSession.dfy` with the modules `TingModel` and `Ting`, `TingRuns`, `TingNetwork`,
  `TingMessage`). A session object whose handlers refine a transition function; what holds on every run of one session
  (timer, number of messages sent); two sessions over a network that delays, drops, duplicates and reorders, with
  clocks a constant apart, and the truth of every round-trip time recorded; and the byte layout of the report list.
- **Loops over graphs and containers** (`PathCount`, `UnitDisk`, `FastReader`, `Histogram`, `SlidingMask`, `Bitmask`),
  each against a specification that does not mention its data structure: simple paths, links by distance, a plain file
  cursor, the values tallied, sets of indices.

Networks are typed `Net`: links are duplex, join different nodes and are listed once, and addresses are distinct. An
interface belongs to a node (`owner`); `Adjacent` is one hop, over a link or to another interface of the same node.
`Joined(net, via, a, b)` says that a walk leads from a to b whose interior lies in `via`.

Where the code departs from its purpose, the model follows the code and a lemma or method says exactly when:

- GraphExample's election can leave its relays apart (`NearElectionCanDisconnect`), because it turns down the lost
  tops: candidates that outrank all neighbours, but not all two-hop neighbours, and whose best neighbour is within one
  detour of all the others. It keeps every GraphRider relay exactly when the graph has none. Its relays connect and
  dominate the network exactly when they join the neighbours of every lost top (`NearElectionConnectsIff`). That a
  lost top exists does no harm by itself (`LosingATopCanBeHarmless`): its neighbours may still be joined by other
  relays, anywhere in the network, which is why the exact condition speaks of the relays.
- A ting session may attempt more than 24 messages once its 32-bit reply counter wraps, and only then
  (`WrappedCounterDrawsAnotherAttempt`, `MoreThan24Iff`), and is left active without a timer if the first send of a
  start fails (`TimerInStepIff`).
- The path count of graphXMLExample ends the program on long trails and counts paths of exactly maxdepth hops into
  the cell past its array (`CountPaths`, `CalculatePaths`).
- A report with an IPv6 address loses its port (`RoundTripIff`), and its round-trip-time field is written in seconds
  but read in microseconds (`RttSurvivesIff`).
- A refused seek of the buffered reader still drops what was buffered (`FastReader.Seek`).
- The sliding mask accepts an index too far before its first one and then loses that first one (`SlidingMask.Set`,
  `AnIndexIsLost`).

## Model

| member | source | states |
|---|---|---|
| `Network.RanksAreTotallyOrdered` | examples/graphRider.cpp:641-661 | with distinct addresses, the order by priority, degree and address is a strict total order |
| `Network.OutranksIff` | examples/graphRider.cpp:641-661 | who outranks whom, field by field: larger priority, then larger degree, then larger address |
| `Walks.BallIffShortWalk` | src/manet/manetGraph.cpp:982-1066 | the k-hop neighbourhood that the search levels count is exactly what walks of at most k hops reach |
| `Traversal.TakeFirst` | src/manet/manetGraph.cpp:982-1066 | yielding the head of the queue and appending its unseen neighbours keeps the queue split into the current and the next hop distance |
| `Traversal.SimpleTraversal.GetNextInterface` | src/manet/manetGraph.cpp:982-1066 | yields each reachable interface once, with its hop distance, in nondecreasing order, and ends when all are yielded |
| `Election.BestNeighbourExists` | examples/graphRider.cpp:942-999 | an interface with a neighbour has one that outranks all its other neighbours, from which the search can start |
| `Election.TurnedDownMeansCovered` | examples/graphRider.cpp:907-1083 | if a non-leaf is turned down, any two of its neighbours are joined by a walk whose interior outranks it |
| `Backbone.CutLeaves` | examples/graphRider.cpp:921-935 | a walk can be cut short so that it enters no leaf node other than those at its ends |
| `Backbone.RouteRound` | examples/graphRider.cpp:907-1083 | a walk can avoid one interface whose neighbours are pairwise joined without it |
| `Backbone.TakeOut` | examples/graphRider.cpp:907-1083 | all turned-down interfaces can be removed from the interiors of walks, lowest rank first |
| `Backbone.WalksNeedOnlyRelays` | examples/graphRider.cpp:907-1083 | any two connected interfaces are joined by a walk whose interior holds relays only, leaf nodes at its ends aside |
| `Backbone.DominatedIffInLargeComponent` | examples/graphRider.cpp:1458-1543 | a node is a relay node or linked to a relay if and only if its component has at least three nodes |
| `Backbone.LargeIffThreeNodes` | examples/graphRider.cpp:1458-1543 | in a connected network every interface lies in a component of three or more nodes if and only if there are three |
| `Backbone.RelaysAreConnected` | examples/graphRider.cpp:663-904 | two connected relays are joined by a walk over relays only |
| `Backbone.NonLeafInterfaceIsNextToRelay` | examples/graphRider.cpp:663-904 | every interface of a node with two neighbour nodes is a relay or one hop from one |
| `Backbone.InterfaceBackbone` | examples/graphRider.cpp:663-904 | if the interface graph is connected and no node is a leaf, the relay interfaces are a connected dominating set of it |
| `Backbone.ElectionIsConnectedDominating` | examples/graphRider.cpp:907-1083 | in a connected network the elected relays are a connected dominating set if and only if there are at least three nodes |
| `GraphRider.MarkOne` | examples/graphRider.cpp:942-999 | each yield of the traversal extends the marking: one- and two-hop unvisited, three-hop visited, running best neighbour |
| `GraphRider.VisitNext` | examples/graphRider.cpp:1024-1050 | visiting one more neighbour keeps the search sound and its queue complete |
| `GraphRider.SearchComplete` | examples/graphRider.cpp:1024-1050 | when the queue is empty the visited flags in the two-hop neighbourhood are exactly reachability through higher-ranked interfaces avoiding the candidate |
| `GraphRider.Step4Decides` | examples/graphRider.cpp:1008-1023 | comparing with the best neighbour decides whether the candidate outranks all of them |
| `GraphRider.Step9Decides` | examples/graphRider.cpp:1051-1079 | some neighbour's flag is unset if and only if the search misses a neighbour |
| `GraphRider.HasInterfaceNeighbour` | examples/graphRider.cpp:286-291 | links plus co-interfaces are nonzero if and only if the interface has a neighbour |
| `GraphRider.GraphRider.constructor` | examples/graphRider.cpp:641-661 | the ranks come from the node or interface priority, the neighbour count if asked for, and the address; flags start arbitrary |
| `GraphRider.GraphRider.MarkNeighbourhood` | examples/graphRider.cpp:942-999 | writes every flag that the search will read, whatever it held, and finds the best neighbour |
| `GraphRider.GraphRider.PathSearch` | examples/graphRider.cpp:1024-1050 | the queue loop terminates with exactly the reachable part of the two-hop neighbourhood visited |
| `GraphRider.GraphRider.SomeNeighbourUnvisited` | examples/graphRider.cpp:1051-1079 | finds an unvisited neighbour if and only if there is one |
| `GraphRider.GraphRider.GetDegree` | examples/graphRider.cpp:268-278 | the number of different nodes that a node has links to |
| `GraphRider.GraphRider.Elect` | examples/graphRider.cpp:938-1079 | Steps 3 to 9 give the decision defined on the graph alone, for any flags left by earlier candidates |
| `GraphRider.GraphRider.CalculateFullECDS` | examples/graphRider.cpp:907-1083 | every node's and interface's relay flag is the graph's decision, for any former flags and any node order; whoever has two links and wins against each neighbour by priority, degree and address is a relay; the count is the number of relays |
| `GraphRider.GraphRider.ElectInterfaces` | examples/graphRider.cpp:663-904 | all interfaces of one node are decided, its node flag says whether one is a relay, and no other flag changes |
| `GraphRider.GraphRider.CalculateFullMECDS` | examples/graphRider.cpp:663-904 | the same for every interface of every node; a node is flagged if and only if it has a relay interface |
| `GraphRider.GraphRider.Disconnected` | examples/graphRider.cpp:1458-1543 | what remains on the list is exactly the nodes that the relays do not dominate |
| `GraphRider.GraphRider.RunEpoch` | examples/graphRider.cpp:1452-1543 | after an election the list holds exactly the nodes of components with fewer than three nodes; in a connected network it is empty if and only if there are at least three |
| `RelayRule.RankOf` | examples/graphRider.cpp:268-291 | the rank of an interface holds the priority of its node or (MECDS) its own, the number of neighbour nodes or of links and co-interfaces if degrees are asked for, and its address, as they were read |
| `RelayRule.BeatsIsOutranks` | examples/graphRider.cpp:641-661 | outranking in a network is the lexicographic comparison of those fields of the input |
| `RelayRule.AroundIsSearched` | examples/graphRider.cpp:1024-1050 | what the search visits is what a path around the candidate reaches, within two hops, passing only what beats it |
| `RelayRule.ElectedIff` | examples/graphRider.cpp:907-1083 | the elections name exactly those that the rule, told in priorities, links and addresses only, names |
| `RelayRule.Elect` | examples/graphRider.cpp:1452-1543 | a whole E-CDS or MECDS election from the input sets exactly the flags of that rule; whoever beats all neighbours is a relay |
| `RelayRule.IdElectedIff` | examples/graphExample.cpp:572-721 | the same for the rule of graphExample, with ids in place of degrees and addresses, both hops in its first test and links next to the candidate only |
| `RelayRule.ElectById` | examples/graphExample.cpp:572-721 | a whole election of graphExample sets exactly the flags of its rule and lists those nodes once |
| `GraphExample.NearSearchVisitsLess` | examples/graphExample.cpp:657-698 | the search over links that touch a one-hop neighbour visits only what GraphRider's visits |
| `GraphExample.NearSearchComplete` | examples/graphExample.cpp:657-698 | when its queue is empty, the flags of all one- and two-hop nodes are exactly what is reachable in that restricted way |
| `GraphExample.SearchAroundTop` | examples/graphExample.cpp:601-698 | around a candidate that outranks its neighbours, the search visits exactly the neighbours that are the best one, linked to it, or one higher-ranked node away from it |
| `GraphExample.LosesExactlyTheLostTops` | examples/graphExample.cpp:601-698 | the GraphRider relays that this election turns down are exactly the lost tops, a condition on the graph alone |
| `GraphExample.KeepsEveryRelayIff` | examples/graphExample.cpp:601-698 | it elects every GraphRider relay if and only if the graph has no lost top |
| `GraphExample.LargerSetStillConnects` | examples/graphExample.cpp:572-721 | more members leave a connected dominating set one |
| `GraphExample.TakeOutLost` | examples/graphExample.cpp:572-721 | lost tops can be taken out of the interior of walks when the neighbours of each are joined without them |
| `GraphExample.NearElectionConnectsIff` | examples/graphExample.cpp:572-721 | in a connected network of three or more nodes its relays are a connected dominating set if and only if they join the neighbours of every lost top |
| `GraphExample.TwoHopTopsConnect` | examples/graphExample.cpp:572-721 | where whoever outranks all neighbours also outranks all two-hop neighbours, its relays are a connected dominating set and include every GraphRider relay |
| `GraphExample.GraphExample.constructor` | examples/graphExample.cpp:572-590 | nodes are ranked by priority and then by id; flags start arbitrary |
| `GraphExample.GraphExample.Scan` | examples/graphExample.cpp:601-655 | Step 4 finds the best neighbour, decides whether the candidate outranks both hops, and clears the flags of both |
| `GraphExample.GraphExample.PathSearch` | examples/graphExample.cpp:657-698 | the restricted queue loop terminates with exactly the restricted reachability on the flags of both hops |
| `GraphExample.GraphExample.CalculateFullECDS` | examples/graphExample.cpp:572-721 | flags, list and count are exactly the relays that the decision on the graph gives, for any former flags |
| `GraphExampleCounterexample.NearElectionCanDisconnect` | examples/graphExample.cpp:572-721 | in a network of six nodes that is connected, the elected relays are two nodes that no walk over relays joins, and a top is lost |
| `GraphExampleCounterexample.LosingATopCanBeHarmless` | examples/graphExample.cpp:572-721 | in a connected network of seven nodes a top is lost and the relays are still a connected dominating set, so having no lost top is not necessary |
| `UnitDisk.CutOffIsComplete` | examples/graphExample.cpp:506-560 | what a nearest-first scan saw before the first node out of range is every node in range |
| `UnitDisk.InRangeIff` | examples/graphExample.cpp:524-524 | in range is a distance of at most 300 |
| `UnitDisk.OneMoreSettled` | examples/graphExample.cpp:464-569 | relinking one more node leaves the nodes before it with the right links |
| `UnitDisk.ExampleGraph.UpdateNode` | examples/graphExample.cpp:472-566 | one node ends up linked to exactly the nodes in range, and no other pair changes |
| `UnitDisk.ExampleGraph.UpdateGraphFromSpace` | examples/graphExample.cpp:464-569 | two nodes end up linked if and only if they are within range, whatever the links were |
| `PathCount.PathsIffSimple` | examples/graphXMLExample.cpp:758-801 | what the recursion enumerates is exactly the simple paths past the visited nodes |
| `PathCount.OneMoreNeighbour` | examples/graphXMLExample.cpp:770-795 | each unvisited neighbour adds paths that were not counted before, for every number of hops |
| `PathCount.TooDeepIffTrail` | examples/graphXMLExample.cpp:763-763 | the recursion runs past its depth limit if and only if some trail that has not met the destination is that long |
| `PathCount.FewNodesAreSafe` | examples/graphXMLExample.cpp:758-801 | with no more nodes than maxdepth it neither ends the program nor counts into the cell past the array |
| `PathCount.PathCounter.CountPaths` | examples/graphXMLExample.cpp:758-801 | ends the program exactly when some trail is too deep; otherwise returns the number of simple paths, adds to each cell the number with that many hops (those of maxdepth hops to the cell past the array), and restores the flags |
| `PathCount.CalculatePaths` | examples/graphXMLExample.cpp:723-757 | from fresh flags and an array of twenty: exits if and only if some trail takes 21 hops, else counts all simple paths and writes past the array if and only if some path takes 20; with twenty nodes or fewer neither happens |
| `Ting.TingSession.SendMessage` | examples/ting.cpp:1162-1205 | a REQUEST or REPLY reports, in order, on exactly the first ten observations that concern the peer (any, in a group), each with its five fields; a HAIL on none; time and round are remembered only if the send succeeds, and nothing else changes |
| `TingModel.FirstReported` | examples/ting.cpp:1172-1190 | the reports are those of the first so many observations that concern the peer, in order |
| `Ting.TingSession.RecordObservation` | examples/ting.cpp:1046-1159 | adds one observation with source, round and both times; its round-trip time is that of the last report on this host (in a unicast session, on its round and last message), and undetermined if there is none |
| `TingModel.LastFeedback` | examples/ting.cpp:1088-1127 | among the reports of a message the last one that is valid feedback decides the round-trip time |
| `Ting.TingSession.HandleHail` | examples/ting.cpp:910-935 | answers with one REPLY; an idle session becomes CONNECTED with no retries left, an active one stays as it is, and a failing send leaves it idle; timer and budget invariants are kept |
| `Ting.TingSession.HandleReply` | examples/ting.cpp:937-973 | an accepted REPLY adds its observation and, in the first three rounds, draws one REQUEST with fresh retries, later none; any other changes nothing; invariants are kept |
| `Ting.TingSession.HandleUnicastRequest` | examples/ting.cpp:975-1007 | a CONNECTED session records the requests of its round and answers with a REPLY exactly those that report on its own last message; invariants are kept |
| `Ting.TingSession.HandleMulticastRequest` | examples/ting.cpp:1009-1044 | an idle session takes up the round, becomes CONNECTED and starts its timer, an active one records requests of its own round only; the mark of the one message sent is kept |
| `Ting.TingSession.HandleMessage` | examples/ting.cpp:1896-1970 | a message with round 0 or of the other kind of session changes nothing; a HAIL or REQUEST draws a REPLY and a REPLY a REQUEST; which arrivals are recorded; all invariants are kept |
| `Ting.TingSession.OnSessionTimeout` | examples/ting.cpp:1208-1247 | makes one of at most five attempts, a HAIL while HAILING and else a REQUEST, in a group only if nothing was sent; otherwise the session is idle again; all invariants are kept |
| `Ting.TingSession.Start` | examples/ting.cpp:1460-1493 | refused while active; otherwise a unicast session becomes HAILING with a HAIL, a group session CONNECTED with a REQUEST, and timer and state stay in step if and only if it got through |
| `TingRuns.TimerInStepIff` | examples/ting.cpp:1460-1493 | along a run, the session is idle exactly when its timer is inactive if and only if no start fails to send |
| `TingRuns.AssertionsHold` | examples/ting.cpp:1208-1211 | then a timeout always finds the session active and an arriving HAIL finds an active session's timer running |
| `TingRuns.StepKeeps` | examples/ting.cpp:905-1247 | every event keeps the timer, budget and mark invariants, a failing start aside |
| `TingRuns.SilenceEnds` | examples/ting.cpp:1208-1247 | left alone, a session is idle again after at most six timeouts |
| `TingRuns.AttemptsWithinBudget` | examples/ting.cpp:937-973 | messages attempted so far, plus the retries the counters still allow, stay within the budget of the replies accepted |
| `TingRuns.AttemptsAreBounded` | examples/ting.cpp:1208-1247 | one unicast activity attempts at most 24 HAILs and REQUESTs for each wrap of its reply counter |
| `TingRuns.AtMost24Attempts` | examples/ting.cpp:553-556 | so at most 24 while fewer than 2^32 replies are accepted |
| `TingRuns.WrappedCounterDrawsAnotherAttempt` | examples/ting.cpp:956-958 | and a run with 2^32 replies that attempts 25 |
| `TingRuns.MoreThan24Iff` | examples/ting.cpp:956-958 | an activity that accepts r replies may attempt more than 24 messages if and only if r is at least 2^32 |
| `TingRuns.AtMostOneMulticast` | examples/ting.cpp:1009-1044 | one multicast activity with a nonzero round succeeds in sending at most one message |
| `TingNetwork.HandlingIsTruthful` | examples/ting.cpp:1046-1205 | any handler keeps true what packets and observations say about deliveries |
| `TingNetwork.ReachedIsTruthful` | examples/ting.cpp:1046-1205 | that holds in every state that waiting, starting, delivering and timing out can reach |
| `TingNetwork.RoundTripTimesAreReal` | examples/ting.cpp:1103-1107 | every round-trip time on record is the sum of two delays that occurred, hence never negative, and the offset computed from it is within half of it of the true one |
| `TingNetwork.ExchangeMeasures` | examples/ting.cpp:910-1159 | for all clocks and delays, HAIL, REPLY, REQUEST and REPLY arriving in turn leave each host with a round-trip time that is the sum of the two delays in question |
| `TingMessage.ReportAt` | examples/ting.cpp:169-178 | the bytes between two consecutive report offsets are exactly that report |
| `TingMessage.EncodeLayout` | examples/ting.cpp:216-306 | where each field of a report lies, most significant byte first |
| `TingMessage.RoundTripIff` | examples/ting.cpp:838-886 | a report is read back as written if and only if its address is IPv4 or its port is 0 |
| `TingMessage.TenReportsFit` | examples/ting.cpp:1172-1190 | the reports of one session message always fit |
| `TingMessage.RttSurvivesIff` | examples/ting.cpp:246-271 | which round-trip times survive being written in seconds and read in microseconds |
| `TingMessage.Message.WriteReport` | examples/ting.cpp:821-867 | the setters together write one report's bytes and leave what precedes it |
| `TingMessage.Message.AppendReport` | examples/ting.cpp:775-794 | appends if and only if there is room; a refused report changes nothing |
| `TingMessage.Message.GetNextReport` | examples/ting.cpp:169-178 | after i reports of a built message it stands at the next one if and only if i is not all of them, else it stops; a report it finds lies inside the message |
| `TingMessage.Message.ReadAll` | examples/ting.cpp:169-178 | iterating over a message yields exactly the reports appended, in order, and stops |
| `FastReader.FastReader.Read` | examples/graphRider.cpp:1117-1206 | returns and moves as an unbuffered reader would; reports the end only when nothing could be read |
| `FastReader.FastReader.Readline` | examples/graphRider.cpp:1211-1265 | returns the characters before the next line end and consumes the end; error when the line fills the buffer |
| `FastReader.FastReader.Seek` | examples/graphRider.cpp:1267-1307 | moves by the offset, inside or beyond the buffer, unless that is before the file; then the buffered part is skipped |
| `Histogram.IndexIsCeiling` | examples/timerTest.cpp:463-542 | the index computed for a value of the range is the bin whose stretch holds it |
| `Histogram.MeanOfPlaced` | examples/timerTest.cpp:463-542 | the mean of a nonempty bin lies inside the bin's own stretch |
| `Histogram.MeansIncrease` | examples/timerTest.cpp:604-628 | means grow with the bin index |
| `Histogram.InRangeIsCount` | examples/timerTest.cpp:604-628 | the count in range is the whole count of the bins whose total lies between the bounds times their count |
| `Histogram.StopsHere` | examples/timerTest.cpp:604-628 | after the first bin beyond the range no further one counts |
| `Histogram.Histogram.Rescale` | examples/timerTest.cpp:489-514 | moving the old bins to the wider range keeps total count and total sum; each new bin holds exactly the old ones whose means lie in its stretch |
| `Histogram.Histogram.Tally` | examples/timerTest.cpp:463-542 | adds the count and value times count to the totals and to the one bin in whose stretch the value lies; a value below the range becomes its minimum, one above puts the maximum at twice the value, or half of it if negative, with the old bins moved by their means |
| `Histogram.Histogram.Count` | examples/timerTest.cpp:559-574 | the sum over all bins |
| `Histogram.Histogram.CountInRange` | examples/timerTest.cpp:604-628 | the early break gives the same count as a scan of all bins |
| `Histogram.Histogram.PercentageInRange` | examples/timerTest.cpp:576-602 | the count in range over the whole count, in per cent |
| `Histogram.Histogram.Percentile` | examples/timerTest.cpp:631-651 | the upper edge of a bin up to which lie more values than the fraction p of all less one half, and up to any earlier edge no more |
| `Histogram.PercentileIsMonotone` | examples/timerTest.cpp:631-651 | a larger p never gives a smaller percentile, nor one beyond the maximum |
| `Histogram.PercentileReachesGoal` | examples/timerTest.cpp:631-651 | the same of the function that the method computes |
| `SlidingMask.DifferenceIsCircular` | include/protoBitmask.h:208-253 | the difference is congruent to a - b, within half the range, and antisymmetric also at exactly half of it |
| `SlidingMask.CompareOrdersWindow` | include/protoBitmask.h:208-253 | on a window narrower than half the range, comparing is ordering by position in the window |
| `SlidingMask.SetAhead` | src/common/protoBitmask.cpp:668-735 | setting a bit ahead in the ring adds exactly that index |
| `SlidingMask.AcceptedBehind` | src/common/protoBitmask.cpp:668-735 | which distances before the first index the range tests let through |
| `SlidingMask.SlidingMask.Test` | src/common/protoBitmask.cpp:1041-1068 | true exactly for the members |
| `SlidingMask.SlidingMask.GetFirstSet` | include/protoBitmask.h:164-170 | fails only when empty, and gives the member from which all others lie ahead |
| `SlidingMask.SlidingMask.GetLastSet` | include/protoBitmask.h:171-177 | fails only when empty, and gives the member furthest ahead |
| `SlidingMask.SlidingMask.Reset` | include/protoBitmask.h:153-162 | the members are the index and the ones after it, as many as the ring has bits |
| `SlidingMask.SlidingMask.Set` | src/common/protoBitmask.cpp:668-735 | adds exactly the index when the span fits, refuses without change otherwise, and exactly when too far back takes it and loses the first one |
| `SlidingMask.AnIndexIsLost` | src/common/protoBitmask.cpp:668-735 | a run of three accepted indices after which one that was set reads as unset |
| `Bitmask.LeastIsLeast` | include/protoBitmask.h:44-48 | first_set is num_bits exactly when the set is empty and its least member otherwise |
| `Bitmask.LookUp` | src/common/protoBitmask.cpp:272-301 | the first table entry of a nonzero byte is the least index from there on, and a zero byte holds none |
| `Bitmask.ProtoBitmask.Reset` | include/protoBitmask.h:36-41 | the set of all indices, padding bits zero |
| `Bitmask.ProtoBitmask.Test` | include/protoBitmask.h:55-60 | true exactly for the members |
| `Bitmask.ProtoBitmask.GetFirstSet` | include/protoBitmask.h:44-48 | the least member, or failure when there is none |
| `Bitmask.ProtoBitmask.GetNextSet` | src/common/protoBitmask.cpp:272-301 | the least member at or after the index, also while first_set is only a lower bound |
| `Bitmask.ProtoBitmask.Set` | include/protoBitmask.h:64-76 | adds the index to the set and keeps first_set least and the padding zero; refuses an index out of range |
| `Bitmask.ProtoBitmask.Unset` | include/protoBitmask.h:77-85 | removes the index, finding the new least member if it was the least |
| `Bitmask.ProtoBitmask.Invert` | include/protoBitmask.h:86-87 | toggles membership |

## Left out

- GraphRider.GraphRider.CalculateFullECDS: nodes with one interface each, where the default interface stands for the node; with several, the traversal from the default interface alone is not modelled.
- GraphExample.GraphExample.CalculateFullECDS: nodes with one interface each.
- GraphRider.GraphRider.Elect: shared by E-CDS and MECDS; the one-hop traversal that MECDS starts in its Step 8 for each queued interface is modelled by the list of adjacent interfaces it yields.
- Traversal.SimpleTraversal.GetNextInterface: whole nodes are not collapsed, which is how the elections call it; allocation failures are not modelled.
- One-way links, links of a node to itself and equal addresses in the elections; degrees are taken once, as the graph does not change during an election.
- The third copy of the election, in examples/graphXMLExample.cpp: its node ids are sums of characters, which can collide, so ranks are not a total order.
- UnitDisk.ExampleGraph.UpdateGraphFromSpace: the graph and the space hold the same nodes, as the program's main loop keeps it; positions are exact reals; the nearest-first order of the space is a parameter; failures of the pools are left out.
- PathCount.PathCounter.CountPaths: nodes have one interface each; the memory past the array is modelled as one more cell of it; when the program ends, what it had counted by then is not described.
- PathCount.CalculatePaths: a graph has at least two interfaces; with fewer the program dereferences a null pointer.
- Ting.TingSession.RecordObservation: the other party's reports kept per observer, and reports with an invalid address, are left out; so are Summarize's output, log lines and the termination callback.
- Ting.TingSession.HandleMulticastRequest: the random backoff is left out; timers are active or not, and may expire at any moment.
- TingNetwork.RoundTripTimesAreReal: times are whole numbers of one unit, without the 32-bit wrap of the seconds on the wire; each host has one address and one session with the other.
- TingMessage.Message.ReadAll: messages built by AppendReport; malformed report lists are left out.
- TingMessage.RttSurvivesIff: the field is modelled over exact reals, below 4294 seconds.
- The quantised backoff of a ting message, its table, and the header flags.
- FastReader.FastReader.Read: the file is printable text; timeouts of select and the rule that discards a chunk with a non-printable first byte are left out.
- Histogram.Histogram.Tally: linear scale (q = 1) over exact reals and unbounded counts; tallying the first value again while it is the only one divides zero by zero in the code and is excluded.
- Histogram.Histogram.PercentageInRange: an existing histogram without any count divides by zero in the code and is excluded.
- SlidingMask.SlidingMask.Set: one array element per bit (the packing is modelled in Bitmask), a range mask of 2^k - 1 with k at most 31 and a ring no larger than half the range; range mask 0 is left out.
- SlidingMask.DifferenceIsCircular: k at most 31; at k = 32 antisymmetry fails at exactly half the range.
- Unset, SetBits, UnsetBits and the set operations of the sliding mask; SetBits, UnsetBits, GetPrevSet, GetNextUnset and the set operations of the plain one.
- Bitmask.ProtoBitmask.Reset: a mask without bits is excluded; the code would write before its first byte.
- Bitmask.LookUp: the table of bit locations is modelled by the list of places that it holds for a byte.
- Sockets, pipes, threads, timers, trees, XML, the RFC 5444 packet formats and the platform code of the library.
