/** What the agent does with one event, told by addresses, ports and protocol numbers; which
    groups a run leads to; and what goes over the wire. */
module McRequests {
  import opened Wrappers
  import opened OpenFlow13
  import opened McGroup
  import opened McAgentSpec

  // ---------- one event ----------

  /** Whether interface i is a member after a request pk, when `was` says it was before. */
  predicate MemberAfter(g: MCGroup, pk: PacketIn, i: uint16, was: bool) {
    if i == pk.inIntf then JoinPorts(g, pk) || (was && !LeavePorts(g, pk)) else was
  }

  lemma RequestOnGroup(s: Session, pk: PacketIn)
    ensures forall i :: i in After(s, pk).members <==> MemberAfter(s.mcg, pk, i, i in s.members)
    ensures Sent(s, pk) == [] <==> After(s, pk).members.Keys == s.members.Keys
    ensures Sent(s, pk) == [] ==> After(s, pk) == s
    ensures After(s, pk).mcg == s.mcg
  {
    hide BucketFor, LeavePorts, Classify, DownstreamFlow;
    ClassifyByPorts(s.mcg, pk);
    if Classify(s.mcg, pk) == Join && pk.inIntf !in s.members {
      assert pk.inIntf in After(s, pk).members;
    } else if Classify(s.mcg, pk) == Leave && pk.inIntf in s.members {
      assert pk.inIntf !in After(s, pk).members;
    }
  }

  /** A packet is no request when it is IGMP (protocol 2), goes to no source, or has neither the
      ports of the source's group nor these exchanged. */
  predicate NoRequest(a: Agent, pk: PacketIn) {
    || pk.protocol == 2 || pk.dip !in a.store
    || !(JoinPorts(a.store[pk.dip].mcg, pk) || LeavePorts(a.store[pk.dip].mcg, pk))
  }

  /** A packet takes an id.  It changes at most the group of its destination, and there at most
      the membership of its interface, as its ports say; it sends something exactly when it
      does change that. */
  lemma PacketTakesEffect(a: Agent, pk: PacketIn)
    ensures var b := Step(a, Packet(pk));
            && b.groupIdGen == (a.groupIdGen + 1) % 0x1_0000_0000
            && b.store.Keys == a.store.Keys
            && (forall ip :: ip in a.store && ip != pk.dip ==> b.store[ip] == a.store[ip])
            && (NoRequest(a, pk) ==> b.store == a.store && StepMsgs(a, Packet(pk)) == [])
            && (pk.protocol != 2 && pk.dip in a.store ==>
                  var s, t := a.store[pk.dip], b.store[pk.dip];
                  && t.mcg == s.mcg
                  && (forall i :: i in t.members <==> MemberAfter(s.mcg, pk, i, i in s.members))
                  && (StepMsgs(a, Packet(pk)) == [] <==> t.members.Keys == s.members.Keys))
  {
    hide After, Sent, JoinPorts, LeavePorts;
    if Reaches(a, pk) {
      var s := a.store[pk.dip];
      RequestOnGroup(s, pk);
      if NoRequest(a, pk) {
        assert After(s, pk).members.Keys == s.members.Keys;
        assert a.store[pk.dip := s] == a.store;
      }
    }
  }

  /** The addresses 224.0.0.0 to 239.255.255.255. */
  predicate Multicast(ip: uint32) { 0xe000_0000 <= ip <= 0xefff_ffff }

  lemma ClassDIsMulticast(ip: uint32)
    ensures IsClassD(ip) <==> Multicast(ip)
  {}

  /** A creation for a multicast address is ignored; any other takes an id, and adds a group
      without members when its source has none. */
  lemma CreationTakesEffect(a: Agent, ev: Event)
    requires ev.CreateGroup?
    ensures var b := Step(a, ev);
            if Multicast(ev.dip) then b == a && StepMsgs(a, ev) == []
            else
              && b.groupIdGen == (a.groupIdGen + 1) % 0x1_0000_0000
              && (ev.sip in a.store ==> b.store == a.store && StepMsgs(a, ev) == [])
              && (ev.sip !in a.store ==>
                    && b.store.Keys == a.store.Keys + {ev.sip}
                    && (forall ip :: ip in a.store ==> b.store[ip] == a.store[ip])
                    && b.store[ev.sip].members == map[]
                    && b.store[ev.sip].mcg ==
                       MCGroup(ev.sip, ev.srcPort, ev.dstPort, ev.upIntf, b.groupIdGen, ev.isRoot != 0))
  {
    ClassDIsMulticast(ev.dip);
  }

  // ---------- the groups of a run ----------

  /** Everything takes an id but the creation of a group for a multicast address. */
  predicate TakesId(ev: Event) { ev.CreateGroup? ==> !Multicast(ev.dip) }

  function IdsTakenBy(evs: seq<Event>): nat {
    if evs == [] then 0 else IdsTakenBy(evs[..|evs| - 1]) + if TakesId(evs[|evs| - 1]) then 1 else 0
  }

  /** The event at position k asks for a group of source ip. */
  predicate Creates(evs: seq<Event>, ip: uint32, k: int) {
    0 <= k < |evs| && evs[k].CreateGroup? && evs[k].sip == ip && !Multicast(evs[k].dip)
  }

  ghost predicate CreatesFirst(evs: seq<Event>, ip: uint32, k: int) {
    Creates(evs, ip, k) && forall j :: j < k ==> !Creates(evs, ip, j)
  }

  /** What the group of source ip is, when the event at position k creates it. */
  predicate CreatedAt(a: Agent, evs: seq<Event>, ip: uint32, k: int)
    requires 0 <= k < |evs| && evs[k].CreateGroup?
  {
    var ev := evs[k];
    && ip in a.store
    && a.store[ip].mcg ==
       MCGroup(ip, ev.srcPort, ev.dstPort, ev.upIntf, IdsTakenBy(evs[..k + 1]) % 0x1_0000_0000, ev.isRoot != 0)
  }

  lemma {:induction false} GeneratorCounts(evs: seq<Event>)
    ensures Run(evs).groupIdGen == IdsTakenBy(evs) % 0x1_0000_0000
  {
    hide Step, StepMsgs;
    if evs != [] {
      var init, ev := evs[..|evs| - 1], evs[|evs| - 1];
      GeneratorCounts(init);
      match ev
      case CreateGroup(_, _, _, _, _, _) => CreationTakesEffect(Run(init), ev);
      case Packet(pk) => PacketTakesEffect(Run(init), pk);
    }
  }

  lemma GroupsAfterStep(evs: seq<Event>, ev: Event, ip: uint32)
    ensures var a, b := Run(evs), Run(evs + [ev]);
            && (ip in a.store ==> ip in b.store && b.store[ip].mcg == a.store[ip].mcg)
            && (ip !in a.store ==>
                  (ip in b.store <==> Creates(evs + [ev], ip, |evs|)) &&
                  (ip in b.store ==> CreatedAt(b, evs + [ev], ip, |evs|)))
  {
    hide Step, StepMsgs, JoinPorts, LeavePorts;
    var all := evs + [ev];
    assert all[..|all| - 1] == evs && all[..|evs| + 1] == all;
    GeneratorCounts(evs);
    GeneratorCounts(all);
    match ev
    case CreateGroup(_, _, _, _, _, _) => CreationTakesEffect(Run(evs), ev);
    case Packet(pk) =>
      PacketTakesEffect(Run(evs), pk);
      if ip in Run(evs).store { GroupsStay(Run(evs), ev, ip); }
  }

  /** In every run, a source has a group exactly when some event has asked for it; the group is
      what the first of these events asked for, and its id is the number of the ids taken up to
      that event, modulo 2^32. */
  lemma {:induction false} GroupsAreFirstCreations(evs: seq<Event>, ip: uint32)
    ensures ip in Run(evs).store <==> exists k :: Creates(evs, ip, k)
    ensures forall k :: CreatesFirst(evs, ip, k) ==> CreatedAt(Run(evs), evs, ip, k)
  {
    hide Run, CreatedAt;
    if evs == [] {
      NoGroups();
    } else {
      var init, ev := evs[..|evs| - 1], evs[|evs| - 1];
      assert evs == init + [ev];
      GroupsAreFirstCreations(init, ip);
      GroupsAfterStep(init, ev, ip);
      assert forall k :: k < |init| ==> (Creates(evs, ip, k) <==> Creates(init, ip, k));
      if ip in Run(init).store {
        var j :| Creates(init, ip, j);
        assert Creates(evs, ip, j);
        forall k | CreatesFirst(evs, ip, k) ensures CreatedAt(Run(evs), evs, ip, k) {
          assert k <= j;
          assert CreatesFirst(init, ip, k);
          CreatedStays(init, ev, ip, k);
        }
      } else {
        assert forall k :: Creates(evs, ip, k) ==> k == |init|;
      }
    }
  }

  lemma NoGroups()
    ensures Run([]).store == map[]
  {}

  lemma CreatedStays(init: seq<Event>, ev: Event, ip: uint32, k: nat)
    requires k < |init| && init[k].CreateGroup? && CreatedAt(Run(init), init, ip, k)
    ensures CreatedAt(Run(init + [ev]), init + [ev], ip, k)
  {
    hide Run;
    GroupsAfterStep(init, ev, ip);
    assert (init + [ev])[..k + 1] == init[..k + 1];
  }

  // ---------- what goes over the wire ----------

  /** A bucket that readdresses a frame to one host, without a watched port or group. */
  predicate BucketOnWire(g: MCGroup, b: Bucket) {
    && b.weight == 0xffff && b.watchPort == 0xffff_ffff && b.watchGroup == 0xffff_ffff
    && |b.actions| == 4
    && b.actions[0] == SetUdpDst(g.dstPort) && b.actions[1].SetIpv4Dst? && b.actions[2].SetEthDst?
    && b.actions[3].Output? && b.actions[3].port < 0x100
  }

  /** What is sent for group g: its hook of priority 1000, its flow of priority 10, its entry,
      or a request for it on its way up. */
  predicate OnWire(g: MCGroup, m: Msg) {
    match m
    case Group(gm) => gm.groupId == g.groupId && forall k :: 0 <= k < |gm.buckets| ==> BucketOnWire(g, gm.buckets[k])
    case Flow(fm) =>
      || fm == FlowMod(FlowAdd, 1000, 0, 0, {EthType(0x0800), IpProto(17), Ipv4Dst(g.groupIp)}, [Output(0xffff_fffd)])
      || fm == FlowMod(fm.command, 10, 0, g.groupId,
                       {EthType(0x0800), IpProto(17), Ipv4Src(g.groupIp), UdpSrc(g.srcPort), UdpDst(g.dstPort)},
                       [ToGroup(g.groupId)])
    case PacketOut(pk, port) =>
      !g.isRoot && pk.dip == g.groupIp && port == g.upstreamIntf && (JoinPorts(g, pk) || LeavePorts(g, pk))
  }

  lemma BucketsOnWire(s: Session, order: seq<uint16>)
    requires Ordered(s, order)
    ensures forall k :: 0 <= k < |s.groupMod.buckets| ==> BucketOnWire(s.mcg, s.groupMod.buckets[k])
  {
    forall k | 0 <= k < |s.groupMod.buckets| ensures BucketOnWire(s.mcg, s.groupMod.buckets[k]) {
      assert MemberAt(s, order, k);
    }
  }

  lemma FlowsOnWire(g: MCGroup)
    ensures OnWire(g, Flow(HookFlow(g))) && forall c :: OnWire(g, Flow(DownstreamFlow(g, c)))
  {}

  /** A new group sends its hook last: alone, or at the root after its entry and its flow. */
  lemma CreationOnWire(g: MCGroup)
    ensures forall m :: m in CreateMsgs(g) ==> OnWire(g, m)
    ensures |CreateMsgs(g)| == if g.isRoot then 3 else 1
    ensures CreateMsgs(g)[|CreateMsgs(g)| - 1] == Flow(HookFlow(g))
  {
    hide HookFlow, DownstreamFlow, BucketOnWire;
    FlowsOnWire(g);
  }

  /** Whether a change of the members is the first join or the last leave, away from the root. */
  predicate TurnsActive(s: Session, t: Session) { !s.mcg.isRoot && (s.members == map[]) != (t.members == map[]) }

  /** A change of the members sends the new entry of the group.  The first join and the last
      leave send the request up first, and with the entry a change of the flow. */
  lemma RequestOnWire(s: Session, order: seq<uint16>, pk: PacketIn)
    requires Ordered(s, order) && pk.dip == s.mcg.groupIp
    ensures forall m :: m in Sent(s, pk) ==> OnWire(s.mcg, m)
    ensures |Sent(s, pk)| == if TurnsActive(s, After(s, pk)) then 3 else if After(s, pk) != s then 1 else 0
    ensures forall k :: 0 <= k < |Sent(s, pk)| ==>
              (Sent(s, pk)[k].PacketOut? <==> k == 0 && TurnsActive(s, After(s, pk)))
  {
    hide Ordered, BucketFor, DownstreamFlow, BucketOnWire, Classify, JoinPorts, LeavePorts;
    ClassifyByPorts(s.mcg, pk);
    FlowsOnWire(s.mcg);
    PacketKeepsOrdered(s, order, pk);
    BucketsOnWire(After(s, pk), OrderAfter(s, order, pk));
    if Sent(s, pk) != [] { EntryId(s, order, pk); }
    CountSent(s, pk);
  }

  lemma CountSent(s: Session, pk: PacketIn)
    ensures |Sent(s, pk)| == if TurnsActive(s, After(s, pk)) then 3 else if After(s, pk) != s then 1 else 0
    ensures forall k :: 0 <= k < |Sent(s, pk)| ==>
              (Sent(s, pk)[k].PacketOut? <==> k == 0 && TurnsActive(s, After(s, pk)))
  {
    hide BucketFor, DownstreamFlow, Classify;
    if Classify(s.mcg, pk) == Leave && pk.inIntf in s.members {
      RenumberedSize(s.members, pk.inIntf, s.members[pk.inIntf].bucketIndex);
      assert pk.inIntf !in After(s, pk).members;
    } else if Classify(s.mcg, pk) == Join && pk.inIntf !in s.members {
      assert pk.inIntf in After(s, pk).members;
    }
  }

  lemma EntryId(s: Session, order: seq<uint16>, pk: PacketIn)
    requires Ordered(s, order) && Sent(s, pk) != []
    ensures After(s, pk).groupMod.groupId == s.mcg.groupId && After(s, pk).mcg == s.mcg
  {
    hide BucketFor, MemberAt;
  }

  /** Everything that the agent sends in any run is of one of these forms, for a group that it
      then has. */
  lemma {:induction false} LogOnWire(evs: seq<Event>, m: Msg) returns (ip: uint32)
    requires m in Log(evs)
    ensures ip in Run(evs).store && Run(evs).store[ip].mcg.groupIp == ip && OnWire(Run(evs).store[ip].mcg, m)
  {
    hide OnWire, Step, StepMsgs, Ordered;
    var init, ev := evs[..|evs| - 1], evs[|evs| - 1];
    RunKeepsInv(evs);
    if m in Log(init) {
      ip := LogOnWire(init, m);
      GroupsStay(Run(init), ev, ip);
    } else {
      RunKeepsInv(init);
      ip := StepOnWire(Run(init), ev, m);
    }
  }

  lemma StepOnWire(a: Agent, ev: Event, m: Msg) returns (ip: uint32)
    requires Inv(a) && m in StepMsgs(a, ev)
    ensures ip in Step(a, ev).store && OnWire(Step(a, ev).store[ip].mcg, m)
  {
    hide OnWire, Ordered, CreateMsgs, Sent, After;
    match ev
    case CreateGroup(sip, _, _, _, _, _) =>
      ip := sip;
      CreationOnWire(GroupOf(ev, NextGroupId(a.groupIdGen)));
    case Packet(pk) =>
      ip := pk.dip;
      var order :| Ordered(a.store[ip], order);
      RequestOnWire(a.store[ip], order, pk);
      AfterKeepsGroup(a.store[ip], pk);
  }
}
