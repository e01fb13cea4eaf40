# Multicast membership agent and OpenFlow 1.0 switch: a verified model

This project models the two stateful example programs of the repository and its frame parser, and
proves properties of them over whole runs.

**The membership agent** (`examples/controller/mc-agent`) runs beside each switch. For each
multicast source it keeps the interfaces that have joined, one group bucket for each of them, and
sends GroupMod and FlowMod messages to the switch. The first join and the last leave are also sent
on towards the source, so that the agents of a tree of switches build a delivery tree together.

- `OpenFlow13.dfy`: the messages, and a switch that replays them. `Standard` has these rules of
  sections 6.4 and 6.5 of the OpenFlow Switch Specification 1.3.1: ADD of a present group, or with
  an id above 0xffffff00, and MODIFY of an absent one are rejected; DELETE of a group removes the
  flows that use it; ADD of a flow that names an absent group is rejected, and otherwise replaces
  the entry of the same match and priority; DELETE of flows is non-strict and filtered by output
  port and group. `RejectedIff`, `GroupDeleteTakes` and `FlowDeleteTakes` state them by their
  numbers, and `StandardNeverDangles` that they leave no flow without its group. `Lenient` has the
  first of these rules alone and deletes flows by their match.
- `McGroup.dfy`, `McAgentSpec.dfy`: one group and one agent as values. `McAgent.dfy`: the same as
  classes that are updated in place (`OFConnection` records what was sent), proved against them.
- `McRequests.dfy`: one event told by addresses, ports and protocol numbers, the groups that a run
  leads to, and what goes over the wire.
- `McHistory.dfy`: the bucket vector after any interleaving of joins and leaves.
- `McReplay.dfy`, `McReplayRuns.dfy`: the whole message stream, replayed on a switch.
- `McTree.dfy`, `McLosses.dfy`, `McTreeRuns.dfy`: a tree of agents over FIFO links, stepped by
  commands, host packets and deliveries; requests that arrive before the group does; whole runs.
- `McDelivery.dfy`, `McExactDelivery.dfy`: a frame of the source, copied through the tree by the
  replayed tables.

**The switch** (`examples/switch`) has a match algebra, a flow table, a packet buffer and a parser.

- `Match10.dfy`, `MatchFields.dfy`, `MatchReadings.dfy`: strict, non-strict and packet match, what
  they say about each header field, and their laws.
- `FlowTable.dfy`: the table over every run of ADD and DELETE, and lookup.
- `FrameParser.dfy`: `extract_flow_fields` against the layouts of packets.h.
- `Datapath.dfy`: the datapath as a class, and the packet buffer over every run.
- `Forwarding.dfy`: what it puts out on which port, and what it reports to the controller.

## How the code is read

- Events of one agent are serialised and each runs to completion; a group's source address,
  ports, interfaces and ids have the widths of the code.
- `~wc(..)` in flow.hh complements a promoted bool and is always true, where the comments of
  flow.hh:16-21 and 69-76 mean a negation. The match lemmas take a `Reading`: `Documented` or
  `AsWritten`. The content of the table, lookup and the effect of an ADD are stated for both readings
  and every run. What holds under `Documented` alone has its exact condition for the code as
  written; where a lemma needs `AdmissibleRun`, it covers the documented reading, and the code as
  written when wildcarded fields hold zero.
- The comparator of the table is `<=`, so an insertion always succeeds and the table is a sequence
  in ascending priority value, newest first among equals. The code looks up the least value first,
  where section 3.4 of the OpenFlow Switch Specification 1.0.0 wants the highest.
- The masks of the match lemmas are general. The `Flow` constructor sets both to all ones, with
  which the network addresses are never compared (`AddressesAreIgnored`).
- In a tree, switches are numbered so that a parent comes before its children; every finite tree
  has such a numbering. A network state is each switch's history of events and what is on each
  link; agents and tables are computed from the histories. Other groups on the same agents are
  unrestricted.

## What was found false, and when it holds

- The switch rejects a second ADD of a group id, and an ADD of an id above 0xffffff00, which are
  reserved. The id generator is 32 bits wide and is moved by every UDP and IGMP packet that an agent
  sees, so it reaches the reserved ids and then comes round. The stream is accepted if and only if no
  two active groups ever share an id and none has a reserved one (`ReplayAccepted`). 0xffffff00
  events or fewer guarantee both (`ShortRunsUsable`), and one more can break the second
  (`ReservedIdRejected`); 2^32 or fewer guarantee the first (`ShortRunsNeverShare`), and one more can
  break it (`SharedIdRejected`).
- A group can be joined if and only if its two ports differ: the test for a leave overrides the one
  for a join (`JoinableIffPortsDiffer`).
- The agent's command to delete its downstream flow deletes nothing on a standard switch, because
  its output port 0 is a filter there (`FlowDeleteIsFiltered`). Deleting the group removes the flow.
- A parent follows its children at every moment if and only if no request arrives before the
  parent's group exists (`ConsistentUntilLoss`). Such a request is lost (`LossHappens`), and the
  parent does not serve the child until the child's next leave arrives, which sets the link right
  (`LossLeavesBehind`, `BehindUntilLeave`). In any run a link is behind in this way if and only if
  the last packet delivered on it was a lost join (`BehindIff`). At rest, the members are everywhere
  the interfaces with a joined host below if and only if no link is behind (`ExactIffNoneBehind`);
  what a link that is behind cuts off is said for each interface (`MemberIffReceiverBelow`).
  Creating the group top-down is enough to prevent losses (`ParentsFirstLosesNothing`).
- A joined host gets the source's frames if and only if no link on the way is behind and no switch
  on the way, the root included, finds them addressed to the source of a group that it knows, this
  group's own source among them: that group's hook flow takes such frames (`ExactDelivery`). At the
  root the address is the frame's own; further down it is the one that the bucket above has put in.
- Interfaces are narrowed to eight bits (`OutputIsInterface`). What each place gets is stated for all
  interfaces, modulo 256 (`SpreadExact`); nothing arrives behind one from 256 on (`WideIsNotServed`).
  Exact delivery is for ways on which each interface taken is below 256 and no other member of its
  switch is congruent to it modulo 256; for one switch, that is when it sends each frame to the
  interface as it should (`OneToMemberIff`). Where all members are below 256, it holds everywhere
  (`SmallDelivery`).
- As written, strict match is not transitive (`AsWrittenStrictNotTransitive`): a chain of two strict
  matches is closed if and only if no field is wildcarded in the middle and at one end only, with
  different values at the ends (`StrictTransitiveIff`).
- As written, the table can hold two strictly matching entries (`AsWrittenKeepsDuplicate`). It never
  does if and only if no ADD meets a second flow that it strictly matches (`NeverPairedIff`), and
  under the same condition the flows in force are at all times those that no later ADD strictly
  matches and no later DELETE covers (`AlwaysSurviveIff`). It refines the map from priority and
  class of accepted packets at all times if and only if every ADD replaces only a flow of its own
  class (`RefinesMapIff` with keys `Documented`), which can fail even when wildcarded fields hold
  zero (`AsWrittenLosesClass`); in that case it still refines the map from priority and stored
  values (`TableRefinesMap`).
- As written, an ADD can unmatch packets that the new flow rejects (`AsWrittenAddIsNotLocal`). It
  does so if and only if the entry that it erases is the one selected and no equal flow is found
  behind it (`AddIsLocalIff`).
- The selected flow has the highest priority if and only if all accepting flows have the same
  (`LookupIsHighestIff`).
- `match_std_overlap` is to hold when a common packet exists (flow.hh:173-174). As documented it
  decides an inclusion (`OverlapIffInclusion`), as written whether one match accepts the values
  stored in the other and masks what it masks (`AsWrittenOverlapIsAcceptance`). Either way it
  implies a common packet, whatever mask is passed last (`OverlapHasCommonPacket`). The promise is
  met if and only if there is no common packet, or one match wildcards and masks all that the other
  does, where for the code as written a field may instead hold the same value in both
  (`OverlapMeetsPromiseIff`; `CommonPacketWithoutOverlap` is an instance where it is not met). The
  mask that the code passes last can miss an inclusion and can report one that does not hold
  (`OverlapArgumentMatters`); `PassedMaskMeetsPromiseIff` and `OverlapArgumentIff` say exactly when
  the promise is met with it, and when it makes no difference. All of this is for both readings.
- A message that names the id of the n-th stored packet acts on that packet, by its serial number, if
  and only if n is at most 2^32 and not 2^32 - 1 (`IdDenotesPacket`): later ids come round, and the
  id 0xffffffff is issued but means no buffer to the code (`NoBufferIsIssued`).
- The VLAN loop tests a condition that it never changes, so tagged frames never get network or
  transport fields (`TaggedHasNoNetwork`); for SNAP frames the source is overwritten with the
  destination (`SnapRoundTrip`); a frame cut inside its tag reports the tag's own type
  (`TruncationKeepsFields`).

## Model

| member | source | states |
|---|---|---|
| `McAgent.MCGroupOpenFlowContext.AddBucket` | examples/controller/mc-agent/MCGroup.cc:22-57 | with a member, appends its bucket to both lists and makes its index the old length; without one only prepares the command and id |
| `McAgent.MCGroupOpenFlowContext.RemoveBucket` | examples/controller/mc-agent/MCGroup.cc:59-73 | erases the indexed bucket from both lists, or changes only the command if the index is out of range |
| `McAgent.MCGroupOpenFlowContext.DeleteDownstreamFlow` | examples/controller/mc-agent/MCGroup.cc:75-80 | sends the downstream flow with command DELETE and keeps that command |
| `McAgent.MCGroupOpenFlowContext.InsertDownstreamFlow` | examples/controller/mc-agent/MCGroup.cc:82-87 | sends the downstream flow with command ADD and keeps that command |
| `McAgent.MCGroupOpenFlowContext.constructor` | examples/controller/mc-agent/MCGroup.cc:89-124 | the downstream flow of the group: priority 10, source address and ports, action to the group, output port 0 |
| `McAgent.MCGroupOpenFlowContext.SendUpstream` | examples/controller/mc-agent/MCGroup.cc:176-187 | sends the packet out of the upstream interface |
| `McAgent.GroupSession.constructor` | examples/controller/mc-agent/MCApps.hh:292-325 | a new group has no members; the root sends its empty group and its flow, and every switch its hook flow, in this order |
| `McAgent.GroupSession.JoinMember` | examples/controller/mc-agent/MCApps.hh:327-366 | the in-place join equals the join on values: state, message stream, and the index invariant kept; a member that joins again changes nothing |
| `McAgent.GroupSession.Renumber` | examples/controller/mc-agent/MCApps.hh:393-396 | every index above the removed one moves up by one and no other changes |
| `McAgent.GroupSession.LeaveMember` | examples/controller/mc-agent/MCApps.hh:368-405 | the in-place leave equals the leave on values: state, message stream, and the index invariant kept; a non-member changes nothing |
| `McAgent.MembershipApp.CreateGroup` | examples/controller/mc-agent/MCApps.hh:407-431 | the agent makes the step of the value model; class-D and existing groups add nothing |
| `McAgent.MembershipApp.HandleUdpPacket` | examples/controller/mc-agent/MCApps.hh:231-280 | the group filed under the destination address is updated, every other is unchanged, and a group id is taken in any case |
| `McAgent.MembershipApp.HandlePacketIn` | examples/controller/mc-agent/MCApps.hh:282-290 | the agent makes the step of the value model on every packet |
| `McGroup.PacketKeepsOrdered` | examples/controller/mc-agent/MCApps.hh:327-405 | every packet keeps the bucket index a bijection from the members to 0..n-1, each bucket its member's, and both bucket lists equal |
| `McGroup.ClassifyByPorts` | examples/controller/mc-agent/MCApps.hh:256-264 | a packet is a leave iff it has the two ports of the group exchanged, and a join iff it has them as they are and is no leave |
| `McGroup.JoinKeepsOrdered` | examples/controller/mc-agent/MCGroup.cc:49-51 | a join appends the interface to the order of the buckets |
| `McGroup.LeaveKeepsOrdered` | examples/controller/mc-agent/MCApps.hh:392-398 | a leave erases the interface from the order, and renumbering restores the bijection |
| `McGroup.JoinableIffPortsDiffer` | examples/controller/mc-agent/MCApps.hh:256-260 | some packet gives a new group a member iff the two ports of the group differ |
| `McGroup.OutputIsInterface` | examples/controller/mc-agent/MCGroupMember.hh:73-79 | a bucket outputs on its member's interface if and only if that is below 256 |
| `McHistory.BucketsFollowStarts` | examples/controller/mc-agent/MCApps.hh:335-398 | after any packets, bucket k is built from the k-th oldest join that began a present membership, and an interface is a member iff some join on it was not followed by a leave |
| `McHistory.StartStep` | examples/controller/mc-agent/MCApps.hh:335-339 | a membership's beginning stays its beginning until its interface leaves, duplicate joins notwithstanding |
| `McHistory.AgentBucketsFollowStarts` | examples/controller/mc-agent/MCApps.hh:231-280 | the same for every group in every run of an agent that serves many groups |
| `McHistory.GroupIsItsOwnRun` | examples/controller/mc-agent/MCApps.hh:255-279 | in every run a group depends on the packets that reached it alone |
| `McAgentSpec.RunKeepsInv` | examples/controller/mc-agent/MCApps.hh:282-431 | in every run each group is filed under its own address and keeps the index invariant |
| `McAgentSpec.BucketIndexInRange` | examples/controller/mc-agent/MCGroup.cc:62-70 | in every run each member's index is in range and its bucket is there, so the error return is never taken |
| `McAgentSpec.GroupsStay` | examples/controller/mc-agent/MCApps.hh:296-303 | groups are never removed and keep their parameters |
| `McAgentSpec.IdsStayDistinct` | examples/controller/mc-agent/MCGroup.hh:85 | group ids are distinct as long as 2^32 events or fewer were handled |
| `McRequests.PacketTakesEffect` | examples/controller/mc-agent/MCApps.hh:231-290 | a packet takes an id and changes at most the membership of its interface in the group of its destination, by its ports; IGMP, an unknown destination and other ports change no group and send nothing; something is sent iff the membership changes |
| `McRequests.CreationTakesEffect` | examples/controller/mc-agent/MCApps.hh:407-431 | a creation for 224.0.0.0 to 239.255.255.255 is ignored; any other takes an id, and adds a group with the given parameters iff its source has none |
| `McRequests.GroupsAreFirstCreations` | examples/controller/mc-agent/MCApps.hh:292-303 | in every run, a source has a group iff some event asked for it; the group is what the first such event asked for, and its id is the number of ids taken until then, modulo 2^32 |
| `McRequests.RequestOnWire` | examples/controller/mc-agent/MCApps.hh:343-401 | a change of members sends the new entry; the first join and the last leave away from the root send three messages, the request first; nothing else is sent |
| `McRequests.LogOnWire` | examples/controller/mc-agent/MCGroup.cc:28-158 | every message of every run is a hook of priority 1000, a flow of priority 10, an entry whose buckets readdress to one interface each, or a request on its way up, for a group of the agent, field by field |
| `McReplay.SentEffect` | examples/controller/mc-agent/MCApps.hh:343-401 | what the messages of one packet do to a switch, under both rule sets, with no rejection and no dangling flow in between |
| `McReplay.LeaveLast` | examples/controller/mc-agent/MCApps.hh:383-400 | the last leave: the flow and then the group go; under the standard rules by cascade, under the lenient ones by the flow DELETE |
| `McReplay.CreateReplayed` | examples/controller/mc-agent/MCApps.hh:305-324 | what the messages of a new group do to a switch, with no rejection and no dangling flow in between |
| `McReplay.StepAgrees` | examples/controller/mc-agent/MCApps.hh:282-431 | one event keeps the switch equal to what the agent's groups call for |
| `McReplay.AgreesIsTidy` | examples/controller/mc-agent/MCGroup.cc:89-118 | deleting one group's flow or group never touches a flow of another group |
| `McReplayRuns.ReplayAccepted` | examples/controller/mc-agent/MCApps.hh:292-405 | the whole stream is accepted iff no two active groups ever share an id and none has a reserved one, and then the switch holds exactly the active groups with their buckets and flows, and the hooks |
| `McReplayRuns.PrefixSafety` | examples/controller/mc-agent/MCApps.hh:306-315 | after every prefix of the stream nothing was rejected and no flow names a missing group, even on a switch that neither checks nor cascades |
| `McReplayRuns.HeldForGroup` | examples/controller/mc-agent/MCApps.hh:343-400 | the downstream flow is present iff the switch is root or has members; then the group entry has one bucket for each member |
| `McReplayRuns.ShortRunsNeverShare` | examples/controller/mc-agent/MCGroup.hh:85 | runs of 2^32 events or fewer never share an id |
| `McReplayRuns.ShortRunsUsable` | examples/controller/mc-agent/MCGroup.hh:85 | runs of 0xffffff00 events or fewer neither share ids nor use reserved ones |
| `McReplayRuns.DistinctAtEnd` | examples/controller/mc-agent/MCGroup.hh:85 | groups that have distinct ids at the end of a run never shared one |
| `McReplayRuns.StepRejected` | examples/controller/mc-agent/MCApps.hh:343-345 | the event that makes two active groups share an id, or one have a reserved id, is the one that is rejected |
| `McReplayRuns.SharedIdRejected` | examples/controller/mc-agent/MCApps.hh:231-234 | a run of 2^32 + 1 events, two of them creations of groups, that shares an id, and whose second group is rejected |
| `McReplayRuns.ReservedIdRejected` | examples/controller/mc-agent/MCApps.hh:231-234 | a run of 0xffffff00 + 1 events whose only group gets a reserved id and is rejected |
| `McReplayRuns.FlowDeleteIsFiltered` | examples/controller/mc-agent/MCGroup.cc:75-80 | the flow DELETE changes nothing on a standard switch, because its output port 0 is a filter |
| `McTree.SentUpward` | examples/controller/mc-agent/MCApps.hh:343-346 | a packet goes up exactly when it makes the group of a non-root switch empty or non-empty, and is then a leave or a join |
| `McTree.DeliverOnLink` | examples/controller/mc-agent/MCApps.hh:256-279 | an arriving packet keeps its link consistent iff the switch it arrives at has the group |
| `McTree.ConsistentUntilLoss` | examples/controller/mc-agent/MCApps.hh:243-246 | at every moment of a run every link is consistent iff no request met a switch without the group |
| `McTreeRuns.MembershipFollowsChild` | examples/controller/mc-agent/MCApps.hh:383-390 | in every run the joins and leaves on a link alternate, and the parent's membership updated by those in flight says whether the child has members, iff the link is not both behind and empty |
| `McTreeRuns.ParentsFirstLosesNothing` | examples/controller/mc-agent/MCApps.hh:292-325 | creating the group on a parent before its children is enough for nothing to be lost |
| `McTreeRuns.ComesToRest` | examples/controller/mc-agent/MCApps.hh:343-390 | from every reachable state, delivering what is in flight comes to an end |
| `McTreeRuns.DeliveryReducesWeight` | examples/controller/mc-agent/MCApps.hh:343-390 | every delivery brings the network closer to rest, although it may send a packet on |
| `McTreeRuns.MemberIffJoined` | examples/controller/mc-agent/MCApps.hh:335-398 | an interface is a member iff, among the packets since the group exists, a join came in there and no leave after it |
| `McTreeRuns.MemberFromJoin` | examples/controller/mc-agent/MCApps.hh:340-341 | a member is addressed as the join asked that began its present membership, the first on its interface after the latest leave there |
| `McTreeRuns.MemberIffReceiverBelow` | examples/controller/mc-agent/MCApps.hh:256-279 | after any run, with nothing in flight, an interface with a switch behind it is a member iff some host below has joined and not left and no link between that host and the interface is behind |
| `McTreeRuns.ExactIffNoneBehind` | examples/controller/mc-agent/MCApps.hh:243-279 | after any run, with nothing in flight, each interface with a switch behind it is a member iff some host below has joined and not left: so it is everywhere iff no link is behind |
| `McTreeRuns.EventuallyExact` | examples/controller/mc-agent/MCApps.hh:292-405 | after any run that creates the group top-down, deliveries alone lead to a state where each interface with a switch behind it is a member iff some host below has joined and not left |
| `McLosses.LossLeavesBehind` | examples/controller/mc-agent/MCApps.hh:243-246 | a lost join, whatever follows it on the link, leaves the parent one request behind: not serving a child that has joined |
| `McLosses.BehindUntilLeave` | examples/controller/mc-agent/MCApps.hh:231-280 | a link that is behind stays so through every step but the delivery of its next packet, which is a leave and sets it right |
| `McLosses.BehindIff` | examples/controller/mc-agent/MCApps.hh:231-280 | in every run, with losses or without, each link is either consistent or one request behind, and it is behind iff the last packet delivered on it was a lost join |
| `McLosses.LossHappens` | examples/controller/mc-agent/MCApps.hh:243-246 | a run in which a join is lost |
| `McDelivery.FromSourceCopies` | examples/controller/mc-agent/MCGroup.cc:104-123 | a UDP frame of the source that is addressed to no source is copied to every bucket while the group is active and dropped otherwise |
| `McDelivery.AddressedToSource` | examples/controller/mc-agent/MCGroup.cc:143-158 | a UDP frame addressed to a source is handed to the agent, before any downstream flow |
| `McDelivery.OthersAreDropped` | examples/controller/mc-agent/MCGroup.cc:104-158 | every other frame is dropped: one that is not UDP over IPv4, or is neither to a source nor from one with its ports |
| `McDelivery.EmitBucket` | examples/controller/mc-agent/MCGroup.cc:28-47 | a bucket sends one copy, readdressed to its member's port, address and hardware address |
| `McDelivery.SpreadExact` | examples/controller/mc-agent/MCGroup.cc:28-51 | at any time and for any interfaces, a frame from the root arrives at each host interface as often as the agents' buckets on the way ask, modulo 256, and nowhere else |
| `McDelivery.WideIsNotServed` | examples/controller/mc-agent/MCGroupMember.hh:73-79 | nothing arrives behind an interface from 256 on |
| `McExactDelivery.OneToMemberIff` | examples/controller/mc-agent/MCGroup.cc:28-51 | a switch sends a frame to an interface once if it is a member and not otherwise, iff no other member is congruent to it modulo 256 and no member is on it from 256 on |
| `McExactDelivery.ExactDelivery` | examples/controller/mc-agent/MCGroup.cc:104-123 | at rest after any run, with each interface taken on the way below 256 and congruent to no other member of its switch, a joined host gets a frame from the root exactly once iff the way is clear and no link on it is behind, as its bucket sends it, and otherwise nothing |
| `McExactDelivery.JoinedHostIsServed` | examples/controller/mc-agent/MCGroup.cc:28-51 | at rest after any run, a joined host with no such alias on its way gets one copy of one form if the way is clear and no link on it is behind, and otherwise no copy at all |
| `McExactDelivery.SmallDelivery` | examples/controller/mc-agent/MCGroupMember.hh:73-79 | when all members are on interfaces below 256, exact delivery holds at every place of the network |
| `McExactDelivery.OwnAddress` | examples/controller/mc-agent/MCApps.hh:340-341 | the copy carries the hardware and IP address of the join that began the membership of the host's interface, and the source's address and ports |
| `McExactDelivery.RequestReachesAgent` | examples/controller/mc-agent/MCGroup.cc:133-158 | a request that arrives at a switch with the group is handed to its agent by the replayed table |
| `Match10.CoversIffInclusion` | examples/switch/flow.hh:77-121 | non-strict match is inclusion of packet sets, for any masks, in both directions |
| `Match10.AdversaryEscapes` | examples/switch/flow.hh:126-172 | a match that accepts one particular packet of another covers it |
| `Match10.DlAddrIsOneField` | examples/switch/flow.hh:100-104 | comparing a hardware address as 32 and 16 bits is comparing it whole |
| `Match10.NwWitnessBits` | examples/switch/flow.hh:95-98 | the bit formula of nonstrict_nw is pkt_nw on the address farthest from the other |
| `MatchFields.AcceptsIffAgrees` | examples/switch/flow.hh:126-171 | a packet is accepted iff it holds the stored value in each field whose own flag is not set, and the stored bit of each address wherever the mask does not ignore it |
| `MatchFields.FlagDecides` | examples/switch/flow.hh:10-13 | changing one field of an accepted packet leaves it accepted iff the flag of that field is set or the value is the same |
| `MatchFields.PktNwByBits` | examples/switch/flow.hh:141-144 | the address comparison is agreement in every single bit outside the mask |
| `Match10.StrictIffMutualCovers` | examples/switch/flow.hh:22-66 | under both readings, strict match is non-strict match both ways |
| `Match10.StrictIffSamePackets` | examples/switch/flow.hh:22-66 | strict match is equality of packet sets |
| `MatchReadings.SameClassIff` | examples/switch/flow.hh:22-38 | for any matches and both readings, classes are equal iff the matches strictly match and no field that both wildcard holds different values |
| `MatchReadings.StrictIffSameClass` | examples/switch/flow.hh:22-38 | as documented, and as written when wildcarded fields hold zero, strict match is equality of classes |
| `MatchReadings.CoversReadings` | examples/switch/flow.hh:77-93 | the documented non-strict match is the one as written and inclusion of wildcards |
| `MatchReadings.StrictReadings` | examples/switch/flow.hh:22-38 | the documented strict match is the one as written and equality of wildcards |
| `MatchReadings.AsWrittenCoversIsAcceptance` | examples/switch/flow.hh:77-121 | as written, a match covers another iff it accepts the stored values and masks what the other masks |
| `MatchReadings.StrictTransitiveIff` | examples/switch/flow.hh:22-66 | under both readings, a chain of two strict matches is closed iff no field is wildcarded in the middle and at one end only with different values |
| `MatchReadings.AsWrittenStrictNotTransitive` | examples/switch/flow.hh:22-38 | three matches on which the chain is not closed as written |
| `MatchReadings.CommonPacketIffCompatible` | examples/switch/flow.hh:173-175 | two matches have a common packet iff no field is pinned to two values |
| `MatchReadings.OverlapIffInclusion` | examples/switch/flow.hh:175-180 | as documented, match_std_overlap holds iff one packet set includes the other, for any last mask |
| `MatchReadings.AsWrittenOverlapIsAcceptance` | examples/switch/flow.hh:175-180 | as written, it holds iff one match accepts the values stored in the other and masks what the other masks, for any last mask |
| `MatchReadings.OverlapHasCommonPacket` | examples/switch/flow.hh:175-180 | under both readings, match_std_overlap implies a common packet, for any last mask |
| `MatchReadings.OverlapMeetsPromiseIff` | examples/switch/flow.hh:173-180 | under both readings, overlap is existence of a common packet iff there is none or one match masks all that the other does and wildcards every field that the other does; as written a field may instead store the same value in both |
| `MatchReadings.PassedMaskMeetsPromiseIff` | examples/switch/flow.hh:173-180 | under both readings, the same for the mask that the code passes last |
| `MatchReadings.CommonPacketWithoutOverlap` | examples/switch/flow.hh:173-180 | an instance for both readings and both masks: two matches with a common packet that do not overlap |
| `MatchReadings.OverlapIffMask` | examples/switch/flow.hh:175-180 | under both readings, the last mask decides only whether its bits lie within those of b's destination mask |
| `MatchReadings.OverlapArgumentIff` | examples/switch/flow.hh:179 | under both readings, exactly when the mask passed gives the answer of the mask meant |
| `MatchReadings.OverlapArgumentMatters` | examples/switch/flow.hh:179 | under both readings, matches on which the mask passed misses an inclusion, and matches on which it reports one that does not hold |
| `MatchReadings.AddressesAreIgnored` | examples/switch/flow.hh:199 | with the masks of the Flow constructor the addresses decide nothing |
| `FlowTable.TableListsSurvivors` | examples/switch/datapath.cc:63-110 | after every run and under both readings, the table is the list of the flows in force, ascending by priority value and newest first among equals; an ADD takes the newest strict match out of force |
| `FlowTable.AlwaysSurviveIff` | examples/switch/datapath.cc:63-110 | under both readings, the flows in force are throughout a run those that no later ADD strictly matches and no later DELETE covers, iff every ADD of the run may break at its first strict match |
| `FlowTable.InForceIffSurvives` | examples/switch/datapath.cc:63-110 | as documented, and as written when wildcarded fields hold zero, a flow is in force iff no later ADD strictly matches it and no later DELETE covers it |
| `FlowTable.SortedUnique` | examples/switch/datapath.hh:12-16 | that description determines the table |
| `FlowTable.AddNoPair` | examples/switch/datapath.cc:68-75 | an ADD keeps a table free of strictly matching pairs iff nothing behind the first strict match strictly matches |
| `FlowTable.NeverPairedIff` | examples/switch/datapath.cc:68-74 | under both readings, no table of a run holds a strictly matching pair iff every ADD of the run may break at its first strict match |
| `FlowTable.DocumentedKeyIsPackets` | examples/switch/flow.hh:22-66 | documented keys are equal iff priority and accepted packets are |
| `FlowTable.RefinesMapIff` | examples/switch/datapath.cc:63-110 | under both readings, for keys that are classes of accepted packets and for those that the code compares, table and map are equal, entry for entry, throughout a run iff every ADD replaces nothing but its own key |
| `FlowTable.KeysDistinct` | examples/switch/datapath.cc:68-75 | as documented, and as written when wildcarded fields hold zero, no two flows in force have one key or strictly match |
| `FlowTable.TableRefinesMap` | examples/switch/datapath.cc:63-110 | as documented, the table equals, entry for entry, a map from priority and packet class, updated by ADD and filtered by DELETE; as written when wildcarded fields hold zero, a map from priority and stored values |
| `FlowTable.LookupIsNewestOfLeast` | examples/switch/port.cc:49-63 | in every run and under both readings, lookup finds the newest of the accepting flows of least priority value, and one if there is one |
| `FlowTable.LookupIsHighestIff` | examples/switch/port.cc:49-63 | in every run and under both readings, it has the highest priority iff all accepting flows have the same |
| `FlowTable.AddIsLocalIff` | examples/switch/datapath.cc:68-75 | in every run and under both readings, an ADD does no more than prefer the new flow where it accepts, iff it does not erase the selected entry, reject the packet and leave no equal flow to be found |
| `FlowTable.AddIsLocalIffAdmissible` | examples/switch/datapath.cc:68-75 | as documented, and as written when wildcarded fields hold zero, the condition is that the selected flow does not strictly match a new one that rejects the packet |
| `FlowTable.AddIsLocal` | examples/switch/datapath.cc:63-75 | as documented, an ADD changes the selected flow only for packets that the new flow accepts |
| `FlowTable.AsWrittenKeepsDuplicate` | examples/switch/datapath.cc:68-74 | as written, a run whose last ADD meets two strict matches and leaves one of them |
| `FlowTable.AsWrittenAddIsNotLocal` | examples/switch/datapath.cc:68-75 | as written, an ADD after which a packet that the new flow rejects is no longer matched |
| `FlowTable.AsWrittenLosesClass` | examples/switch/datapath.cc:68-74 | as written, a zero-normalised run after which the table has lost a flow that the map from packet classes holds |
| `FrameParser.ExtractFlowFields` | examples/switch/flow.cc:22-194 | the imperative parser computes the declarative one, reads inside every frame, and ends |
| `FrameParser.ReadNetwork` | examples/switch/flow.cc:115-150 | the network part in place computes the declarative one; ARP, IPv4 and fragments return where the source does |
| `FrameParser.ReadTransport` | examples/switch/flow.cc:152-192 | the same for ICMP, TCP and UDP |
| `FrameParser.ArpRoundTrip` | examples/switch/flow.cc:116-128 | parsing inverts the layout of an ARP frame; the opcode modulo 256 |
| `FrameParser.TransportRoundTrip` | examples/switch/flow.cc:130-192 | parsing inverts the layout of an unfragmented IPv4 frame with TCP, UDP or ICMP; the TOS shifted by two |
| `FrameParser.PortsReadIff` | examples/switch/packets.h:155-159 | the ports of a complete frame are read iff no more fragments follow and the offset is 0, whatever the reserved and the don't-fragment bit are |
| `FrameParser.NetworkRoundTrip` | examples/switch/flow.cc:131-192 | a fragment, another protocol, or a transport header that is cut, yields the network fields alone |
| `FrameParser.EthernetRoundTrip` | examples/switch/flow.cc:38-42 | other Ethernet II types, and ARP and IPv4 packets whose header is cut, yield the Ethernet fields alone |
| `FrameParser.ShortFrame` | examples/switch/flow.cc:29-33 | a frame without a whole Ethernet header yields nothing |
| `FrameParser.TaggedRoundTrip` | examples/switch/flow.cc:80-114 | a tagged frame yields the parts of its first tag and nothing of what follows |
| `FrameParser.TagParts` | examples/switch/packets.h:98-101 | identifier and priority rebuild the tag up to bit 12 |
| `FrameParser.TagFields` | examples/switch/packets.h:98-101 | identifier and priority are the twelve and the three bits of the tag that are laid out for them |
| `FrameParser.CutTagRoundTrip` | examples/switch/flow.cc:84-87 | a frame cut inside its tag yields the Ethernet fields without an identifier |
| `FrameParser.SnapRoundTrip` | examples/switch/flow.cc:75-77 | an 802.3 SNAP frame yields its destination as source and its length as type |
| `FrameParser.PlainRoundTrip` | examples/switch/flow.cc:44-74 | an 802.3 frame without a whole SNAP header of the Ethernet organisation yields nothing |
| `FrameParser.TaggedHasNoNetwork` | examples/switch/flow.cc:104-114 | no tagged frame of any length gets network or transport fields |
| `FrameParser.TruncationKeepsFields` | examples/switch/flow.cc:30-192 | a field set from a prefix of a frame has the same value from the whole, except the type iff the cut is in the tag |
| `FrameParser.PacketOfTransport` | examples/switch/port.cc:43-46 | the packet that the flow table sees of a complete IPv4 frame, header field by header field |
| `FrameParser.PacketOfTagged` | examples/switch/port.cc:43-46 | the packet that it sees of a tagged frame: nothing behind the tag is set |
| `FrameParser.PacketOfUnread` | examples/switch/port.cc:43-46 | of a frame from which nothing is read it sees the ingress port alone |
| `Datapath.Datapath.FlowModAdd` | examples/switch/datapath.cc:63-93 | the loop erases the first strict match, inserts, and runs the actions on the named buffered packet if it matches |
| `Datapath.Datapath.FlowModDelete` | examples/switch/datapath.cc:95-108 | the erasing walk filters the table |
| `Datapath.Datapath.ActionHandler` | examples/switch/datapath.cc:21-57 | one action, in place: state and effects are those of the action on values, of which `Forwarding.ActionsPutOut` tells the ports |
| `Datapath.Datapath.PacketOut` | examples/switch/datapath.cc:113-133 | the actions run on the inline packet or on the named buffered one |
| `Datapath.Datapath.HandlePacket` | examples/switch/port.cc:37-76 | the first accepting entry decides; a miss is buffered under the next id, and reported if connected |
| `Datapath.FloodReachesOtherPorts` | examples/switch/datapath.cc:31-38 | a flood sends on every port but the one the packet came in by |
| `Datapath.FloodSendsOnce` | examples/switch/datapath.cc:31-38 | and on each at most once |
| `Datapath.BufferHoldsIssued` | examples/switch/port.cc:64-66 | in every run the buffer holds exactly the ids issued, each with the packet that was first given it |
| `Datapath.IdDenotesPacket` | examples/switch/datapath.cc:113-133 | after every run, a PACKET_OUT naming the id of the n-th stored packet acts on that one, by serial number, iff n is at most 2^32 and not 2^32 - 1; what it acts on is stated in every case |
| `Datapath.IdOfAddDenotesPacket` | examples/switch/datapath.cc:76-91 | the same for an ADD, which acts on the packet if the new flow accepts it |
| `Datapath.FetchesIff` | examples/switch/datapath.cc:119-127 | naming the id always has the effect of acting on the n-th packet iff the id is not 0xffffffff and was first given to an equal packet |
| `Datapath.NoBufferIsIssued` | examples/switch/port.cc:64-66 | a run that issues 0xffffffff, and a message naming it does not reach the packet |
| `Datapath.BindingIsPermanent` | examples/switch/datapath.cc:77 | an id stays bound to its packet through every continuation |
| `Datapath.TableIsRunOfMods` | examples/switch/datapath.cc:59-111 | in every run of messages and frames the table is the run of the flow modifications alone |
| `Datapath.PacketMeetsNewestOfLeast` | examples/switch/port.cc:44-63 | in every run and under both readings, a packet meets the newest of the flows in force of least priority value that accept it |
| `Forwarding.ActionsPutOut` | examples/switch/datapath.cc:21-57 | a list of actions puts out, in order: one frame on a physical port; one on the ingress port for 0xfff8; one on every other port for 0xfffb and 0xfffc; one PACKET_IN with at most max_len bytes and no id for 0xfffd; nothing for other actions |
| `Forwarding.ActionOkIff` | examples/switch/datapath.cc:28-51 | what the methods require of an action is that all that it puts out can leave: on a port that there is, or to a controller that there is |
| `Forwarding.FrameIsForwarded` | examples/switch/port.cc:44-63 | after every run and under both readings, a frame that some flow in force accepts is put out as the actions of the newest such flow of least priority value ask |
| `Forwarding.PacketOutPutsOut` | examples/switch/datapath.cc:113-133 | a PACKET_OUT puts out what its actions ask for the packet that it carries or names |
| `Forwarding.AddPutsOut` | examples/switch/datapath.cc:76-91 | an ADD puts out what the actions of the new flow ask for the packet named, iff one is named and the flow accepts it |
| `Forwarding.DeleteIsQuiet` | examples/switch/datapath.cc:95-108 | a DELETE changes the table and puts out nothing |
| `Forwarding.MissIsReported` | examples/switch/port.cc:64-75 | after every run, a frame that no flow in force accepts is stored as the n-th packet; with a controller one PACKET_IN and nothing else is put out, with the frame, its port and wire length, and n modulo 2^32 as id |
| `Forwarding.ReportedIdFetches` | examples/switch/port.cc:64-70 | after every continuation, a PACKET_OUT that names the id reported acts on the frame reported, by its serial number n, iff n is at most 2^32 and not 2^32 - 1 |
| `Forwarding.LearnedFlowAccepts` | examples/controller/raw/RawApps.hh:85-87 | a flow of the learning switches accepts an Ethernet II frame iff its two hardware addresses are those pinned |

## Left out

- Memory management: values stand for pointers, so `delete pkt` while the entry stays in `pkt_buffer`, the use of `mcgm_iter` after its erasure, and `malloc` and `free` in the parser are not modelled.
- `Datapath.Datapath.FlowModAdd`, `Datapath.Datapath.PacketOut`: messages that name a buffer never issued are excluded by `requires`, because the code dereferences a null pointer there; so are action ports outside the port vector and output to an absent controller.
- `FrameParser.Raw32`, `Match10.Load32`: addresses are loaded as on a little-endian host.
- `OpenFlow13.ApplyGroup`: the rule that only buckets of SELECT groups have a weight is not modelled; the agent sends weight 0xffff with type ALL.
- libfluid is not part of this model: messages are records without xid, cookie and timeouts, `OFConnection` is the list of what was sent, and what a fresh match object holds is the parameter `blank`.
- The wildcard word is a set of flags; the address wildcard counts that it also holds are not used by the code, which takes the masks instead.
- Decoding in `event_callback` (examples/controller/mc-agent/MCApps.hh:126-203): the packets that the agent handles are given as records.
- IGMP and class-D groups: stubs in the code; they only take a group id, or are ignored, as modelled.
- The unserialised call of `create_group` from the network client thread, and the uninitialised connection.
- Sockets, pcap, threads, TLS, start-up, the OFClient handshake, barrier replies, logging, and the learning-switch controllers.
- Frames in the tree carry only the fields that the agent's flows and buckets use; links are FIFO and lose nothing.
- The order in which a switch sends the copies of a frame is not modelled: arrivals are a multiset.
