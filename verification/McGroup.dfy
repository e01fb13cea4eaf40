/** One multicast group of the membership agent in examples/controller/mc-agent, as values:
    the member map, the two bucket lists, and the messages that a join or a leave sends. */
module McGroup {
  import opened Wrappers
  import opened OpenFlow13

  const ETH_TYPE_IP: uint16 := 0x0800
  const PROTOCOL_TYPE_IGMP: uint16 := 0x02
  const PROTOCOL_TYPE_UDP: uint16 := 0x11
  const HOOK_PRIORITY: uint16 := 1000
  const DOWNSTREAM_PRIORITY: uint16 := 10

  /** A group: the source's address and ports, the interface towards the source, and whether
      this switch is the one the source is attached to. */
  datatype MCGroup = MCGroup(
    groupIp: uint32, srcPort: uint16, dstPort: uint16, upstreamIntf: uint16, groupId: uint32, isRoot: bool)

  /** A member, with the index of its bucket; the interface is kept in eight bits. */
  datatype Member = Member(destMac: nat, destIp: uint32, udpPort: uint16, intf: uint8, bucketIndex: nat)

  datatype Session = Session(mcg: MCGroup, groupMod: GroupMod, buckets: seq<Bucket>, members: map<uint16, Member>)

  // ---------- messages ----------

  function BucketFor(m: Member): Bucket {
    Bucket(0xffff, 0xffff_ffff, 0xffff_ffff,
           [SetUdpDst(m.udpPort), SetIpv4Dst(m.destIp), SetEthDst(m.destMac), Output(m.intf)])
  }

  function DownstreamFields(g: MCGroup): set<Oxm> {
    {EthType(ETH_TYPE_IP), IpProto(17), Ipv4Src(g.groupIp), UdpSrc(g.srcPort), UdpDst(g.dstPort)}
  }

  function HookFields(g: MCGroup): set<Oxm> {
    {EthType(ETH_TYPE_IP), IpProto(17), Ipv4Dst(g.groupIp)}
  }

  /** The flow that sends the source's packets to the group. */
  function DownstreamFlow(g: MCGroup, c: FlowCommand): FlowMod {
    FlowMod(c, DOWNSTREAM_PRIORITY, 0, g.groupId, DownstreamFields(g), [ToGroup(g.groupId)])
  }

  /** The flow that hands joins and leaves to the agent. */
  function HookFlow(g: MCGroup): FlowMod {
    FlowMod(FlowAdd, HOOK_PRIORITY, 0, 0, HookFields(g), [Output(OFPP_CONTROLLER)])
  }

  // ---------- classification of packets ----------

  datatype Request = Join | Leave | Other

  /** A leave has the two ports of the group exchanged. */
  predicate LeavePorts(g: MCGroup, pk: PacketIn) { pk.srcPort == g.dstPort && pk.dstPort == g.srcPort }

  /** A join has the ports of the group, and is no leave at the same time. */
  predicate JoinPorts(g: MCGroup, pk: PacketIn) {
    pk.srcPort == g.srcPort && pk.dstPort == g.dstPort && !LeavePorts(g, pk)
  }

  /** MCApps.hh:255-264.  The second test overrides the first. */
  function Classify(g: MCGroup, pk: PacketIn): Request {
    if g.srcPort == pk.dstPort && g.dstPort == pk.srcPort then Leave
    else if g.srcPort == pk.srcPort && g.dstPort == pk.dstPort then Join
    else Other
  }

  lemma ClassifyByPorts(g: MCGroup, pk: PacketIn)
    ensures Classify(g, pk) == Leave <==> LeavePorts(g, pk)
    ensures Classify(g, pk) == Join <==> JoinPorts(g, pk)
  {}

  // ---------- creating, joining, leaving ----------

  function NewSession(g: MCGroup): Session {
    Session(g, GroupMod(GroupAdd, if g.isRoot then g.groupId else 0, []), [], map[])
  }

  function CreateMsgs(g: MCGroup): seq<Msg> {
    (if g.isRoot then [Group(GroupMod(GroupAdd, g.groupId, [])), Flow(DownstreamFlow(g, FlowAdd))] else []) +
    [Flow(HookFlow(g))]
  }

  function AfterJoin(s: Session, pk: PacketIn): Session {
    if pk.inIntf in s.members then s
    else
      var m := Member(pk.smac, pk.sip, pk.dstPort, pk.inIntf % 0x100, |s.buckets|);
      var command := if s.members == map[] && !s.mcg.isRoot then GroupAdd else GroupModify;
      s.(groupMod := GroupMod(command, s.mcg.groupId, s.groupMod.buckets + [BucketFor(m)]),
         buckets := s.buckets + [BucketFor(m)],
         members := s.members[pk.inIntf := m])
  }

  function JoinMsgs(s: Session, pk: PacketIn): seq<Msg> {
    if pk.inIntf in s.members then []
    else if s.members == map[] && !s.mcg.isRoot then
      [PacketOut(pk, s.mcg.upstreamIntf), Group(AfterJoin(s, pk).groupMod), Flow(DownstreamFlow(s.mcg, FlowAdd))]
    else [Group(AfterJoin(s, pk).groupMod)]
  }

  /** The members that stay, with the indices behind the removed bucket moved up by one. */
  function Renumbered(members: map<uint16, Member>, intf: uint16, removed: nat): map<uint16, Member> {
    map i | i in members && i != intf :: MovedUp(members[i], removed)
  }

  function MovedUp(m: Member, removed: nat): Member {
    if m.bucketIndex > removed then m.(bucketIndex := m.bucketIndex - 1) else m
  }

  predicate LastLeaves(s: Session) { |s.members| == 1 && !s.mcg.isRoot }

  function AfterLeave(s: Session, pk: PacketIn): Session {
    if pk.inIntf !in s.members then s
    else
      var bi := s.members[pk.inIntf].bucketIndex;
      var command := if LastLeaves(s) then GroupDelete else GroupModify;
      var inRange := bi < |s.buckets|;
      s.(groupMod := GroupMod(command, s.groupMod.groupId,
                              if inRange then Erase(s.groupMod.buckets, bi) else s.groupMod.buckets),
         buckets := if inRange then Erase(s.buckets, bi) else s.buckets,
         members := Renumbered(s.members, pk.inIntf, bi))
  }

  function LeaveMsgs(s: Session, pk: PacketIn): seq<Msg> {
    if pk.inIntf !in s.members then []
    else
      (if LastLeaves(s) then [PacketOut(pk, s.mcg.upstreamIntf), Flow(DownstreamFlow(s.mcg, FlowDelete))] else []) +
      [Group(AfterLeave(s, pk).groupMod)]
  }

  /** The effect on a group of a UDP packet sent to the source's address. */
  function After(s: Session, pk: PacketIn): Session {
    match Classify(s.mcg, pk)
    case Join => AfterJoin(s, pk)
    case Leave => AfterLeave(s, pk)
    case Other => s
  }

  function Sent(s: Session, pk: PacketIn): seq<Msg> {
    match Classify(s.mcg, pk)
    case Join => JoinMsgs(s, pk)
    case Leave => LeaveMsgs(s, pk)
    case Other => []
  }

  function JoinRequest(g: MCGroup): PacketIn {
    PacketIn(PROTOCOL_TYPE_UDP, 0, 0, g.groupIp, g.srcPort, g.dstPort, 0)
  }

  /** A group can be joined exactly when its two ports differ: otherwise the second test takes
      every request for a leave. */
  lemma JoinableIffPortsDiffer(g: MCGroup)
    ensures (exists pk :: After(NewSession(g), pk).members != map[]) <==> g.srcPort != g.dstPort
  {
    hide BucketFor;
    if g.srcPort != g.dstPort { assert 0 in After(NewSession(g), JoinRequest(g)).members; }
  }

  // ---------- the invariant of a group ----------

  /** `order` lists the member interfaces by bucket index: the index is a bijection from the
      members to 0..n-1, every bucket is its member's, and both bucket lists agree. */
  ghost predicate Ordered(s: Session, order: seq<uint16>) {
    && |s.buckets| == |order| && |s.members| == |order|
    && s.groupMod.buckets == s.buckets
    && (forall k :: 0 <= k < |order| ==> MemberAt(s, order, k))
    && (forall i :: i in s.members ==>
          s.members[i].bucketIndex < |order| && order[s.members[i].bucketIndex] == i)
    && (s.mcg.isRoot || s.members != map[] ==> s.groupMod.groupId == s.mcg.groupId)
  }

  predicate MemberAt(s: Session, order: seq<uint16>, k: nat)
    requires k < |order| && k < |s.buckets|
  {
    && order[k] in s.members
    && s.members[order[k]].bucketIndex == k
    && s.members[order[k]].intf == order[k] % 0x100
    && s.members[order[k]].udpPort == s.mcg.dstPort
    && s.buckets[k] == BucketFor(s.members[order[k]])
  }

  /** How a packet changes the order: a join appends, a leave erases. */
  function OrderAfter(s: Session, order: seq<uint16>, pk: PacketIn): seq<uint16> {
    if JoinPorts(s.mcg, pk) && pk.inIntf !in s.members then order + [pk.inIntf]
    else if LeavePorts(s.mcg, pk) && pk.inIntf in s.members then Erase(order, s.members[pk.inIntf].bucketIndex)
    else order
  }

  lemma NewIsOrdered(g: MCGroup)
    ensures Ordered(NewSession(g), [])
  {}

  lemma JoinKeepsOrdered(s: Session, order: seq<uint16>, pk: PacketIn)
    requires Ordered(s, order) && JoinPorts(s.mcg, pk)
    ensures Ordered(AfterJoin(s, pk), OrderAfter(s, order, pk))
  {
    hide BucketFor;
    if pk.inIntf !in s.members {
      var s', order' := AfterJoin(s, pk), order + [pk.inIntf];
      forall k | 0 <= k < |order'| ensures MemberAt(s', order', k) {
        if k < |order| { assert MemberAt(s, order, k); }
      }
    }
  }

  lemma RenumberedSize(members: map<uint16, Member>, intf: uint16, removed: nat)
    requires intf in members
    ensures |Renumbered(members, intf, removed)| == |members| - 1
  {
    assert Renumbered(members, intf, removed).Keys == members.Keys - {intf};
  }

  /** A member in front of the erased bucket keeps its place. */
  lemma MemberInFront(s: Session, order: seq<uint16>, pk: PacketIn, k: nat)
    requires Ordered(s, order) && pk.inIntf in s.members && k < s.members[pk.inIntf].bucketIndex
    ensures var order' := Erase(order, s.members[pk.inIntf].bucketIndex);
            k < |order'| && k < |AfterLeave(s, pk).buckets| && MemberAt(AfterLeave(s, pk), order', k)
  {
    hide BucketFor;
    assert MemberAt(s, order, k);
  }

  /** A member behind the erased bucket moves up by one. */
  lemma MemberBehind(s: Session, order: seq<uint16>, pk: PacketIn, k: nat)
    requires Ordered(s, order) && pk.inIntf in s.members && s.members[pk.inIntf].bucketIndex <= k < |order| - 1
    ensures var order' := Erase(order, s.members[pk.inIntf].bucketIndex);
            k < |order'| && k < |AfterLeave(s, pk).buckets| && MemberAt(AfterLeave(s, pk), order', k)
  {
    hide BucketFor, Ordered;
    assert MemberAt(s, order, k + 1) && |s.buckets| == |order| by { OrderedAt(s, order, k + 1); }
    var bi, i := s.members[pk.inIntf].bucketIndex, order[k + 1];
    assert i != pk.inIntf && MovedUp(s.members[i], bi) == s.members[i].(bucketIndex := k);
    SameBucket(s.members[i], k);
  }

  lemma OrderedAt(s: Session, order: seq<uint16>, k: nat)
    requires Ordered(s, order) && k < |order|
    ensures |s.buckets| == |order| && MemberAt(s, order, k)
  {
    hide MemberAt;
  }

  lemma SameBucket(m: Member, k: nat)
    ensures BucketFor(m.(bucketIndex := k)) == BucketFor(m)
  {}

  lemma ErasedMemberAt(s: Session, order: seq<uint16>, pk: PacketIn, k: nat)
    requires Ordered(s, order) && pk.inIntf in s.members
    requires k < |order| - 1
    ensures var order' := Erase(order, s.members[pk.inIntf].bucketIndex);
            k < |order'| && k < |AfterLeave(s, pk).buckets| && MemberAt(AfterLeave(s, pk), order', k)
  {
    hide Ordered, MemberAt, AfterLeave, Erase;
    if k < s.members[pk.inIntf].bucketIndex { MemberInFront(s, order, pk, k); } else { MemberBehind(s, order, pk, k); }
  }

  lemma LeaveKeepsOrdered(s: Session, order: seq<uint16>, pk: PacketIn)
    requires Ordered(s, order) && LeavePorts(s.mcg, pk)
    ensures Ordered(AfterLeave(s, pk), OrderAfter(s, order, pk))
  {
    hide BucketFor, MemberAt;
    if pk.inIntf in s.members {
      var bi := s.members[pk.inIntf].bucketIndex;
      var s', order' := AfterLeave(s, pk), Erase(order, bi);
      RenumberedSize(s.members, pk.inIntf, bi);
      forall k | 0 <= k < |order'| ensures MemberAt(s', order', k) {
        ErasedMemberAt(s, order, pk, k);
      }
      forall i | i in s'.members
        ensures s'.members[i].bucketIndex < |order'| && order'[s'.members[i].bucketIndex] == i
      {
        ErasedIndex(s, order, pk, i);
      }
    }
  }

  lemma ErasedIndex(s: Session, order: seq<uint16>, pk: PacketIn, i: uint16)
    requires Ordered(s, order) && pk.inIntf in s.members && i in s.members && i != pk.inIntf
    ensures var bi := s.members[pk.inIntf].bucketIndex;
            var m := MovedUp(s.members[i], bi);
            m.bucketIndex < |Erase(order, bi)| && Erase(order, bi)[m.bucketIndex] == i
  {
    assert s.members[i].bucketIndex != s.members[pk.inIntf].bucketIndex;
  }

  /** Every packet keeps the index bijection, the buckets and the agreement of the two lists. */
  lemma PacketKeepsOrdered(s: Session, order: seq<uint16>, pk: PacketIn)
    requires Ordered(s, order)
    ensures Ordered(After(s, pk), OrderAfter(s, order, pk))
  {
    hide Ordered;
    match Classify(s.mcg, pk)
    case Join => JoinKeepsOrdered(s, order, pk);
    case Leave => LeaveKeepsOrdered(s, order, pk);
    case Other =>
  }

  /** A bucket's output is its member's interface exactly when that is below 256. */
  lemma OutputIsInterface(s: Session, order: seq<uint16>, i: uint16)
    requires Ordered(s, order) && i in s.members
    ensures var bi := s.members[i].bucketIndex;
            bi < |s.buckets| && (Output(i) in s.buckets[bi].actions <==> i < 0x100)
  {
    assert MemberAt(s, order, s.members[i].bucketIndex);
  }
}
