/** The membership agent as classes: MCGroupMember, MCGroupOpenFlowContext, and the methods of
    MulticastGroupMembershipApp, proved against the functions on values. */
module McAgent {
  import opened Wrappers
  import opened OpenFlow13
  import opened McGroup
  import opened McAgentSpec

  /** The connection to the switch, as the record of what was sent. */
  class OFConnection {
    var sent: seq<Msg>

    constructor ()
      ensures sent == []
    {
      sent := [];
    }

    method Send(m: Msg)
      modifies this
      ensures sent == old(sent) + [m]
    {
      sent := sent + [m];
    }
  }

  class MCGroupMember {
    const destMac: nat
    const destIp: uint32
    const udpPort: uint16
    const intf: uint8
    var bucketIndex: nat

    constructor (destMac: nat, destIp: uint32, udpPort: uint16, intf: uint8)
      ensures this.destMac == destMac && this.destIp == destIp && this.udpPort == udpPort && this.intf == intf
    {
      this.destMac, this.destIp, this.udpPort, this.intf := destMac, destIp, udpPort, intf;
    }

    function Abs(): Member
      reads this
    {
      Member(destMac, destIp, udpPort, intf, bucketIndex)
    }
  }

  class MCGroupOpenFlowContext {
    const mcgroup: MCGroup
    var ofgroupmod: GroupMod
    var offlowmod: FlowMod
    var memberBuckets: seq<Bucket>

    constructor (g: MCGroup)
      ensures mcgroup == g && memberBuckets == []
      ensures ofgroupmod == GroupMod(GroupAdd, 0, []) && offlowmod == DownstreamFlow(g, FlowAdd)
    {
      mcgroup := g;
      ofgroupmod := GroupMod(GroupAdd, 0, []);
      offlowmod := DownstreamFlow(g, FlowAdd);
      memberBuckets := [];
    }

    /** Without a member this only prepares an empty group. */
    method AddBucket(member: MCGroupMember?, command: GroupCommand)
      modifies this`ofgroupmod, this`memberBuckets, member
      ensures member == null ==>
                memberBuckets == old(memberBuckets) &&
                ofgroupmod == GroupMod(command, mcgroup.groupId, old(ofgroupmod.buckets))
      ensures member != null ==>
                && member.bucketIndex == |old(memberBuckets)|
                && memberBuckets == old(memberBuckets) + [BucketFor(member.Abs())]
                && ofgroupmod == GroupMod(command, mcgroup.groupId, old(ofgroupmod.buckets) + [BucketFor(member.Abs())])
    {
      ofgroupmod := ofgroupmod.(command := command);
      ofgroupmod := ofgroupmod.(groupId := mcgroup.groupId);
      if member != null {
        var bucket := BucketFor(member.Abs());
        ofgroupmod := ofgroupmod.(buckets := ofgroupmod.buckets + [bucket]);
        member.bucketIndex := |memberBuckets|;
        memberBuckets := memberBuckets + [bucket];
      }
    }

    method RemoveBucket(member: MCGroupMember, command: GroupCommand)
      modifies this`ofgroupmod, this`memberBuckets
      ensures var bi := member.bucketIndex;
              if bi < |old(memberBuckets)| then
                memberBuckets == Erase(old(memberBuckets), bi) &&
                ofgroupmod == GroupMod(command, old(ofgroupmod.groupId), Erase(old(ofgroupmod.buckets), bi))
              else
                memberBuckets == old(memberBuckets) && ofgroupmod == old(ofgroupmod).(command := command)
    {
      ofgroupmod := ofgroupmod.(command := command);
      var bi := member.bucketIndex;
      if |memberBuckets| <= bi {
        return;
      }
      memberBuckets := memberBuckets[..bi] + memberBuckets[bi + 1..];
      ofgroupmod := ofgroupmod.(buckets := Erase(ofgroupmod.buckets, bi));
    }

    method DeleteDownstreamFlow(conn: OFConnection)
      modifies this`offlowmod, conn
      ensures offlowmod == old(offlowmod).(command := FlowDelete) && conn.sent == old(conn.sent) + [Flow(offlowmod)]
    {
      offlowmod := offlowmod.(command := FlowDelete);
      conn.Send(Flow(offlowmod));
    }

    method InsertDownstreamFlow(conn: OFConnection)
      modifies this`offlowmod, conn
      ensures offlowmod == old(offlowmod).(command := FlowAdd) && conn.sent == old(conn.sent) + [Flow(offlowmod)]
    {
      offlowmod := offlowmod.(command := FlowAdd);
      conn.Send(Flow(offlowmod));
    }

    method SendUpstream(pk: PacketIn, conn: OFConnection)
      modifies conn
      ensures conn.sent == old(conn.sent) + [OpenFlow13.PacketOut(pk, mcgroup.upstreamIntf)]
    {
      conn.Send(OpenFlow13.PacketOut(pk, mcgroup.upstreamIntf));
    }
  }

  /** An entry of the session store: a group, its context and its member map. */
  class GroupSession {
    const mcg: MCGroup
    const context: MCGroupOpenFlowContext
    var members: map<uint16, MCGroupMember>
    ghost var order: seq<uint16>  // the member interfaces by bucket index
    ghost var Repr: set<object>

    /** The parts fit together, and no two interfaces share a member object. */
    ghost predicate Linked()
      reads `members, `Repr, context
      ensures Linked() ==> this in Repr && context in Repr && members.Values <= Repr && context.mcgroup == mcg
    {
      && this in Repr && context in Repr && members.Values <= Repr
      && context.mcgroup == mcg
      && context.offlowmod == DownstreamFlow(mcg, context.offlowmod.command)
      && (forall i, j :: i in members && j in members && i != j ==> members[i] != members[j])
    }

    ghost predicate Valid()
      reads this, Repr, context
      ensures Valid() ==> this in Repr && context in Repr && members.Values <= Repr
    {
      Linked() && Ordered(Abs(), order)
    }

    ghost function Abs(): (s: Session)
      reads `members, context, members.Values
      ensures s.mcg == mcg && s.members.Keys == members.Keys
    {
      Session(mcg, context.ofgroupmod, context.memberBuckets, AbsMembers())
    }

    ghost function AbsMembers(): map<uint16, Member>
      reads `members, members.Values
    {
      map i | i in members :: members[i].Abs()
    }

    constructor (g: MCGroup, conn: OFConnection)
      modifies conn
      ensures Valid() && fresh(Repr) && mcg == g
      ensures Abs() == NewSession(g) && conn.sent == old(conn.sent) + CreateMsgs(g)
    {
      hide HookFlow, DownstreamFields;
      mcg := g;
      context := new MCGroupOpenFlowContext(g);
      members, order := map[], [];
      Repr := {this, context};
      new;
      if g.isRoot {
        context.AddBucket(null, GroupAdd);
        conn.Send(Group(context.ofgroupmod));
        context.InsertDownstreamFlow(conn);
      }
      assert conn.sent + [Flow(HookFlow(g))] == old(conn.sent) + CreateMsgs(g);
      conn.Send(Flow(HookFlow(g)));
      NewIsOrdered(g);
      assert AbsMembers() == map[];
    }

    method InsertMember(intf: uint16, member: MCGroupMember)
      requires Linked() && intf !in members && member !in members.Values
      modifies `members, `Repr
      ensures Linked() && Repr == old(Repr) + {member}
      ensures AbsMembers() == old(AbsMembers())[intf := member.Abs()]
    {
      members := members[intf := member];
      Repr := Repr + {member};
    }

    /** The first member of a switch that is not the root: the packet goes upstream, and the
        group exists before the flow that uses it. */
    method AnnounceFirst(pk: PacketIn, member: MCGroupMember, conn: OFConnection)
      requires Linked() && member !in members.Values
      modifies context, conn, member
      ensures Linked() && AbsMembers() == old(AbsMembers())
      ensures member.Abs() == old(member.Abs()).(bucketIndex := |old(context.memberBuckets)|)
      ensures context.memberBuckets == old(context.memberBuckets) + [BucketFor(member.Abs())]
      ensures context.ofgroupmod ==
              GroupMod(GroupAdd, mcg.groupId, old(context.ofgroupmod.buckets) + [BucketFor(member.Abs())])
      ensures conn.sent == old(conn.sent) + [OpenFlow13.PacketOut(pk, mcg.upstreamIntf), Group(context.ofgroupmod),
                                             Flow(DownstreamFlow(mcg, FlowAdd))]
    {
      hide BucketFor, DownstreamFields;
      context.SendUpstream(pk, conn);
      context.AddBucket(member, GroupAdd);
      conn.Send(Group(context.ofgroupmod));
      context.InsertDownstreamFlow(conn);
    }

    /** A further member, or any member of the root. */
    method AnnounceFurther(member: MCGroupMember, conn: OFConnection)
      requires Linked() && member !in members.Values
      modifies context, conn, member
      ensures Linked() && AbsMembers() == old(AbsMembers())
      ensures member.Abs() == old(member.Abs()).(bucketIndex := |old(context.memberBuckets)|)
      ensures context.memberBuckets == old(context.memberBuckets) + [BucketFor(member.Abs())]
      ensures context.ofgroupmod ==
              GroupMod(GroupModify, mcg.groupId, old(context.ofgroupmod.buckets) + [BucketFor(member.Abs())])
      ensures conn.sent == old(conn.sent) + [Group(context.ofgroupmod)]
    {
      hide BucketFor, DownstreamFields;
      context.AddBucket(member, GroupModify);
      conn.Send(Group(context.ofgroupmod));
    }

    /** The bucket and the messages of a join. */
    method AnnounceJoin(pk: PacketIn, member: MCGroupMember, conn: OFConnection)
      requires Linked() && member !in members.Values && pk.inIntf !in members
      requires member.Abs() == Member(pk.smac, pk.sip, pk.dstPort, pk.inIntf % 0x100, member.bucketIndex)
      modifies context, conn, member
      ensures Linked() && AbsMembers() == old(AbsMembers())
      ensures member.Abs() == NewMember(old(Abs()), pk)
      ensures context.ofgroupmod == AfterJoin(old(Abs()), pk).groupMod
      ensures context.memberBuckets == AfterJoin(old(Abs()), pk).buckets
      ensures conn.sent == old(conn.sent) + JoinMsgs(old(Abs()), pk)
    {
      hide BucketFor, DownstreamFlow, AfterJoin, JoinMsgs, AbsMembers, Linked;
      ghost var before := Abs();
      SameSize(before.members, members);
      JoinFresh(before, pk, |members| == 0 && !mcg.isRoot);
      if |members| == 0 && !mcg.isRoot {
        AnnounceFirst(pk, member, conn);
      } else {
        AnnounceFurther(member, conn);
      }
    }

    method JoinNewMember(pk: PacketIn, conn: OFConnection)
      requires Linked() && conn !in Repr && pk.inIntf !in members
      modifies `members, `Repr, context, conn
      ensures Linked() && old(Repr) <= Repr && fresh(Repr - old(Repr))
      ensures Abs() == AfterJoin(old(Abs()), pk)
      ensures conn.sent == old(conn.sent) + JoinMsgs(old(Abs()), pk)
    {
      hide BucketFor, DownstreamFlow, AfterJoin, JoinMsgs, NewMember, Linked, AbsMembers;
      ghost var before := Abs();
      JoinFresh(before, pk, |before.members| == 0 && !mcg.isRoot);
      var member := new MCGroupMember(pk.smac, pk.sip, pk.dstPort, pk.inIntf % 0x100);
      AnnounceJoin(pk, member, conn);
      InsertMember(pk.inIntf, member);
      assert AbsMembers() == AfterJoin(before, pk).members;
    }

    /** join_member_to_group: an interface that is a member already is left alone. */
    method JoinMember(pk: PacketIn, conn: OFConnection)
      requires Valid() && conn !in Repr && JoinPorts(mcg, pk)
      modifies Repr, conn
      ensures Valid() && fresh(Repr - old(Repr))
      ensures Abs() == AfterJoin(old(Abs()), pk)
      ensures conn.sent == old(conn.sent) + JoinMsgs(old(Abs()), pk)
    {
      hide Ordered, JoinPorts, OrderAfter, DownstreamFlow;
      if pk.inIntf in members {
        return;
      }
      ghost var before := Abs();
      JoinNewMember(pk, conn);
      JoinKeepsOrdered(before, order, pk);
      order := OrderAfter(before, order, pk);
    }

    /** The renumbering loop of leave_member_from_group. */
    method Renumber(removed: nat)
      requires forall i, j :: i in members && j in members && i != j ==> members[i] != members[j]
      modifies members.Values
      ensures forall i :: i in members ==> members[i].Abs() == MovedUp(old(members[i].Abs()), removed)
    {
      var todo := members.Keys;
      while todo != {}
        invariant todo <= members.Keys
        invariant forall i :: i in todo ==> members[i].bucketIndex == old(members[i].bucketIndex)
        invariant forall i :: i in members && i !in todo ==> members[i].Abs() == MovedUp(old(members[i].Abs()), removed)
        decreases todo
      {
        var i :| i in todo;
        if members[i].bucketIndex > removed {
          members[i].bucketIndex := members[i].bucketIndex - 1;
        }
        todo := todo - {i};
      }
    }

    /** The renumbering loop followed by the erasure of the member. */
    method RemoveMember(intf: uint16, removed: nat)
      requires forall i, j :: i in members && j in members && i != j ==> members[i] != members[j]
      modifies `members, members.Values
      ensures members == Without(old(members), intf) && members.Values <= old(members.Values)
      ensures AbsMembers() == Renumbered(old(AbsMembers()), intf, removed)
      ensures forall i, j :: i in members && j in members && i != j ==> members[i] != members[j]
    {
      hide MovedUp;
      Renumber(removed);
      ghost var all := members;
      members := Without(members, intf);
      forall i | i in members ensures members[i].Abs() == MovedUp(old(all[i].Abs()), removed) {
        assert members[i] == all[i];
      }
    }

    /** The bucket and the messages of a leave, apart from the group modification: the packet
        goes upstream, and the flow is deleted before the group. */
    method AnnounceLeave(pk: PacketIn, member: MCGroupMember, conn: OFConnection)
      requires Linked() && pk.inIntf in members && member == members[pk.inIntf]
      modifies context, conn
      ensures Linked()
      ensures context.ofgroupmod == AfterLeave(old(Abs()), pk).groupMod
      ensures context.memberBuckets == AfterLeave(old(Abs()), pk).buckets
      ensures conn.sent + [Group(context.ofgroupmod)] == old(conn.sent) + LeaveMsgs(old(Abs()), pk)
    {
      hide DownstreamFields, AfterLeave, LeaveMsgs, Renumbered, Erase;
      ghost var before := Abs();
      SameSize(before.members, members);
      LeavePresent(before, pk, |members| == 1 && !mcg.isRoot);
      var command := GroupModify;
      if |members| == 1 && !mcg.isRoot {
        command := GroupDelete;
        context.SendUpstream(pk, conn);
        context.DeleteDownstreamFlow(conn);
      }
      context.RemoveBucket(member, command);
    }

    method LeavePresentMember(pk: PacketIn, conn: OFConnection)
      requires Linked() && conn !in Repr && pk.inIntf in members
      modifies `members, context, members.Values, conn
      ensures Linked()
      ensures Abs() == AfterLeave(old(Abs()), pk)
      ensures conn.sent + [Group(context.ofgroupmod)] == old(conn.sent) + LeaveMsgs(old(Abs()), pk)
    {
      hide DownstreamFlow, AfterLeave, LeaveMsgs, Renumbered, Without;
      ghost var before := Abs();
      LeavePresent(before, pk, |before.members| == 1 && !mcg.isRoot);
      var removed := members[pk.inIntf].bucketIndex;
      AnnounceLeave(pk, members[pk.inIntf], conn);
      assert AbsMembers() == before.members;
      RemoveMember(pk.inIntf, removed);
      assert AbsMembers() == AfterLeave(before, pk).members;
    }

    /** leave_member_from_group: an interface that is not a member is left alone. */
    method LeaveMember(pk: PacketIn, conn: OFConnection)
      requires Valid() && conn !in Repr && LeavePorts(mcg, pk)
      modifies Repr, conn
      ensures Valid() && Repr == old(Repr)
      ensures Abs() == AfterLeave(old(Abs()), pk)
      ensures conn.sent == old(conn.sent) + LeaveMsgs(old(Abs()), pk)
    {
      hide Ordered, LeavePorts, OrderAfter, DownstreamFlow, Linked, Abs;
      if pk.inIntf !in members {
        return;
      }
      ghost var before, was := Abs(), order;
      LeavePresentMember(pk, conn);
      LeaveKeepsOrdered(before, was, pk);
      order := OrderAfter(before, was, pk);
      conn.Send(Group(context.ofgroupmod));
    }
  }

  /** MulticastGroupMembershipApp. */
  class MembershipApp {
    const conn: OFConnection
    var store: map<uint32, GroupSession>
    var groupIdGen: uint32
    ghost var Repr: set<object>

    /** Sessions are consistent, filed under their own address, and share no object, with each
        other, with the application or with the connection. */
    ghost predicate Valid()
      reads `store, `Repr, Repr
      ensures Valid() ==> this !in Repr && conn !in Repr && forall ip :: ip in store ==> Owns(ip)
    {
      && this !in Repr && conn !in Repr
      && (forall ip :: ip in store ==> Owns(ip))
      && (forall x, y {:trigger Apart(x, y)} :: x in store && y in store ==> Apart(x, y))
    }

    ghost predicate Apart(x: uint32, y: uint32)
      requires x in store && y in store && store[x] in Repr && store[y] in Repr
      reads `store, `Repr, Repr
    {
      x != y ==> NoShare(store[x].Repr, store[y].Repr)
    }

    ghost predicate Owns(ip: uint32)
      requires ip in store
      reads `store, `Repr, Repr
    {
      && store[ip] in Repr && store[ip].Repr <= Repr && store[ip].context in Repr
      && store[ip].Valid() && store[ip].mcg.groupIp == ip
    }

    ghost function AbsStore(): (m: map<uint32, Session>)
      requires Valid()
      reads `store, `Repr, Repr
      ensures m.Keys == store.Keys && forall ip :: ip in m ==> m[ip] == store[ip].Abs()
    {
      map ip | ip in store :: assert Owns(ip); store[ip].Abs()
    }

    lemma AbsStoreIs(m: map<uint32, Session>)
      requires Valid() && m.Keys == store.Keys
      requires forall ip :: ip in store ==> store[ip].Abs() == m[ip]
      ensures AbsStore() == m
    {
      hide Valid, Owns, GroupSession.Valid, GroupSession.Abs, AbsStore;
      assert forall ip :: ip in store ==> AbsStore()[ip] == m[ip];
    }

    ghost function Abs(): Agent
      requires Valid()
      reads this, Repr
    {
      Agent(AbsStore(), groupIdGen)
    }

    constructor ()
      ensures Valid() && Abs() == NEW_AGENT && fresh(conn) && conn.sent == []
    {
      conn := new OFConnection();
      store, groupIdGen, Repr := map[], 0, {};
    }

    method NextId()
      requires Valid()
      modifies `groupIdGen
      ensures Valid() && AbsStore() == old(AbsStore()) && groupIdGen == NextGroupId(old(groupIdGen))
    {
      hide Valid, AbsStore, Owns, GroupSession.Valid, GroupSession.Abs;
      groupIdGen := (groupIdGen + 1) % GROUP_IDS;
    }

    method EnterSession(session: GroupSession)
      requires Valid() && session.Valid() && session.mcg.groupIp !in store
      requires session.Repr !! Repr && this !in session.Repr && conn !in session.Repr
      modifies `store, `Repr
      ensures Valid() && Repr == old(Repr) + session.Repr
      ensures AbsStore() == old(AbsStore())[session.mcg.groupIp := session.Abs()]
    {
      hide GroupSession.Valid, GroupSession.Abs, AbsStore, NoShare;
      store := store[session.mcg.groupIp := session];
      Repr := Repr + session.Repr;
      forall x | x in old(store) ensures NoShare(store[x].Repr, session.Repr) && NoShare(session.Repr, store[x].Repr) {
        assert old(Owns(x));
        NothingShared(store[x].Repr, old(Repr), session.Repr);
      }
      forall x, y | x in store && y in store ensures Apart(x, y) {
        assert x in old(store) && y in old(store) ==> old(Apart(x, y));
      }
      AbsStoreIs(old(AbsStore())[session.mcg.groupIp := session.Abs()]);
    }

    method AddSession(g: MCGroup)
      requires Valid() && g.groupIp !in store
      modifies `store, `Repr, conn
      ensures Valid() && fresh(Repr - old(Repr))
      ensures AbsStore() == old(AbsStore())[g.groupIp := NewSession(g)]
      ensures conn.sent == old(conn.sent) + CreateMsgs(g)
    {
      hide CreateMsgs, NewSession, GroupSession.Valid, GroupSession.Abs, AbsStore, Valid, Apart, Owns;
      var session := new GroupSession(g, conn);
      EnterSession(session);
    }

    /** create_group. */
    method CreateGroup(sip: uint32, dip: uint32, srcPort: uint16, dstPort: uint16, upIntf: uint16, isRoot: uint16)
      requires Valid()
      modifies this, conn
      ensures Valid() && fresh(Repr - old(Repr))
      ensures var ev := Event.CreateGroup(sip, dip, srcPort, dstPort, upIntf, isRoot);
              Abs() == Step(old(Abs()), ev) && conn.sent == old(conn.sent) + StepMsgs(old(Abs()), ev)
    {
      hide CreateMsgs, NewSession, Valid, AbsStore, Owns, GroupSession.Valid, GroupSession.Abs;
      if IsClassD(dip) {
        return;
      }
      NextId();
      if sip in store {
        return;
      }
      AddSession(MCGroup(sip, srcPort, dstPort, upIntf, groupIdGen, isRoot != 0));
    }

    /** The part of handle_UDP_packet that acts on the group found. */
    method Dispatch(session: GroupSession, pk: PacketIn)
      requires session.Valid() && conn !in session.Repr
      modifies session.Repr, conn
      ensures session.Valid() && fresh(session.Repr - old(session.Repr))
      ensures session.Abs() == After(old(session.Abs()), pk)
      ensures conn.sent == old(conn.sent) + Sent(old(session.Abs()), pk)
    {
      hide Ordered, JoinMsgs, LeaveMsgs, AfterJoin, AfterLeave;
      var mflag := 0;
      if session.mcg.srcPort == pk.srcPort && session.mcg.dstPort == pk.dstPort {
        mflag := 1;
      }
      if session.mcg.srcPort == pk.dstPort && session.mcg.dstPort == pk.srcPort {
        mflag := 2;
      }
      if mflag == 1 {
        session.JoinMember(pk, conn);
      }
      if mflag == 2 {
        session.LeaveMember(pk, conn);
      }
    }

    /** The group found is updated, and the others are untouched. */
    method UpdateGroup(pk: PacketIn)
      requires Valid() && pk.dip in store
      modifies conn, store[pk.dip].Repr
      ensures var s := store[pk.dip];
              && s.Valid() && s.Abs() == After(old(s.Abs()), pk)
              && fresh(s.Repr - old(s.Repr)) && this !in s.Repr && conn !in s.Repr
      ensures conn.sent == old(conn.sent) + Sent(old(store[pk.dip].Abs()), pk)
      ensures forall ip :: ip in store && ip != pk.dip ==>
                && store[ip].Valid() && store[ip].Abs() == old(store[ip].Abs())
                && store[ip].Repr == old(store[ip].Repr) && NoShare(store[ip].Repr, store[pk.dip].Repr)
    {
      hide After, Sent, GroupSession.Valid, GroupSession.Abs;
      Dispatch(store[pk.dip], pk);
      forall ip | ip in store && ip != pk.dip
        ensures store[ip].Valid() && store[ip].Abs() == old(store[ip].Abs())
        ensures store[ip].Repr == old(store[ip].Repr) && NoShare(store[ip].Repr, store[pk.dip].Repr)
      {
        assert old(Owns(ip) && Apart(ip, pk.dip));
      }
    }

    /** A session may have gained objects; the others kept theirs. */
    ghost method AdoptObjects(dip: uint32, before: map<uint32, set<object>>)
      requires this !in Repr && conn !in Repr && dip in store && before.Keys == store.Keys
      requires this !in store[dip].Repr && conn !in store[dip].Repr
      requires forall ip :: ip in store ==> store[ip] in Repr && store[ip].Valid() && store[ip].mcg.groupIp == ip
      requires forall ip :: ip in store && ip != dip ==>
                 before[ip] <= Repr && store[ip].Repr == before[ip] && NoShare(before[ip], store[dip].Repr)
      requires forall x, y :: x in store && y in store && x != y ==> NoShare(before[x], before[y])
      modifies `Repr
      ensures Valid() && Repr == old(Repr) + store[dip].Repr
      ensures forall ip :: ip in store ==> store[ip].Abs() == old(store[ip].Abs())
    {
      hide GroupSession.Valid, GroupSession.Abs, NoShare;
      Repr := Repr + store[dip].Repr;
      forall x, y | x in store && y in store ensures Apart(x, y) {
        NoShareSymmetric(store[x].Repr, store[y].Repr);
      }
    }

    method UpdateSession(pk: PacketIn)
      requires Valid() && pk.dip in store
      modifies `Repr, conn, store[pk.dip].Repr
      ensures Valid() && fresh(Repr - old(Repr))
      ensures forall ip :: ip in store ==>
                store[ip].Abs() == if ip == pk.dip then After(old(store[ip].Abs()), pk) else old(store[ip].Abs())
      ensures conn.sent == old(conn.sent) + Sent(old(store[pk.dip].Abs()), pk)
    {
      hide After, Sent, GroupSession.Valid, GroupSession.Abs, AbsStore, Valid, NoShare;
      ghost var reprs := map ip | ip in store :: store[ip].Repr;
      assert forall x, y :: x in store && y in store && x != y ==> NoShare(reprs[x], reprs[y]) by { AllApart(); }
      UpdateGroup(pk);
      AdoptObjects(pk.dip, reprs);
    }

    lemma AllApart()
      requires Valid()
      ensures forall x, y :: x in store && y in store && x != y ==> NoShare(store[x].Repr, store[y].Repr)
    {
      hide GroupSession.Valid;
      forall x, y | x in store && y in store && x != y ensures NoShare(store[x].Repr, store[y].Repr) {
        assert Apart(x, y);
      }
    }

    /** The part of handle_UDP_packet behind the search that found the group. */
    method UpdateFound(pk: PacketIn)
      requires Valid() && pk.dip in store
      modifies `Repr, conn, Repr
      ensures Valid() && fresh(Repr - old(Repr))
      ensures AbsStore() == old(AbsStore())[pk.dip := After(old(AbsStore())[pk.dip], pk)]
      ensures conn.sent == old(conn.sent) + Sent(old(AbsStore())[pk.dip], pk)
    {
      hide After, Sent, GroupSession.Valid, GroupSession.Abs, AbsStore, Valid, Apart;
      ghost var before := AbsStore();
      UpdateSession(pk);
      AbsStoreIs(before[pk.dip := After(before[pk.dip], pk)]);
    }

    /** handle_IGMP_packet: a stub, but the object it builds for the search takes an id. */
    method HandleIgmpPacket(pk: PacketIn)
      requires Valid()
      modifies `groupIdGen
      ensures Valid() && AbsStore() == old(AbsStore()) && groupIdGen == NextGroupId(old(groupIdGen))
    {
      hide Valid, AbsStore;
      NextId();
    }

    /** handle_UDP_packet: the object built for the search takes an id before the store is
        searched. */
    method HandleUdpPacket(pk: PacketIn)
      requires Valid()
      modifies this, conn, Repr
      ensures Valid() && fresh(Repr - old(Repr)) && groupIdGen == NextGroupId(old(groupIdGen))
      ensures var found := pk.dip in old(store);
              && AbsStore() ==
                 (if found then old(AbsStore())[pk.dip := After(old(AbsStore())[pk.dip], pk)] else old(AbsStore()))
              && conn.sent == old(conn.sent) + (if found then Sent(old(AbsStore())[pk.dip], pk) else [])
    {
      hide After, Sent, GroupSession.Valid, GroupSession.Abs, AbsStore, Valid, Apart, Owns;
      NextId();
      if pk.dip in store {
        UpdateFound(pk);
      }
    }

    /** handle_packet_in. */
    method HandlePacketIn(pk: PacketIn)
      requires Valid()
      modifies this, conn, Repr
      ensures Valid() && fresh(Repr - old(Repr))
      ensures Abs() == Step(old(Abs()), Packet(pk)) && conn.sent == old(conn.sent) + StepMsgs(old(Abs()), Packet(pk))
    {
      hide After, Sent, GroupSession.Valid, GroupSession.Abs, AbsStore, Valid;
      if pk.protocol == PROTOCOL_TYPE_IGMP {
        HandleIgmpPacket(pk);
      } else {
        HandleUdpPacket(pk);
      }
    }
  }

  ghost predicate NoShare(a: set<object>, b: set<object>)
  {
    a !! b
  }

  lemma NothingShared(a: set<object>, all: set<object>, b: set<object>)
    requires a <= all && b !! all
    ensures NoShare(a, b) && NoShare(b, a)
  {}

  lemma NoShareSymmetric(a: set<object>, b: set<object>)
    ensures NoShare(a, b) <==> NoShare(b, a)
  {}

  lemma SameSize<V, W>(a: map<uint16, V>, b: map<uint16, W>)
    requires a.Keys == b.Keys
    ensures |a| == |b|
  {
    assert |a| == |a.Keys| && |b| == |b.Keys|;
  }

  // The value functions, spelled out for the branch that a method took.

  function NewMember(s: Session, pk: PacketIn): Member {
    Member(pk.smac, pk.sip, pk.dstPort, pk.inIntf % 0x100, |s.buckets|)
  }

  lemma JoinFresh(s: Session, pk: PacketIn, first: bool)
    requires pk.inIntf !in s.members && first == (|s.members| == 0 && !s.mcg.isRoot)
    ensures AfterJoin(s, pk).mcg == s.mcg && AfterJoin(s, pk).members == s.members[pk.inIntf := NewMember(s, pk)]
    ensures AfterJoin(s, pk).buckets == s.buckets + [BucketFor(NewMember(s, pk))]
    ensures AfterJoin(s, pk).groupMod == GroupMod(if first then GroupAdd else GroupModify, s.mcg.groupId,
                                                  s.groupMod.buckets + [BucketFor(NewMember(s, pk))])
    ensures JoinMsgs(s, pk) ==
            if first then [OpenFlow13.PacketOut(pk, s.mcg.upstreamIntf), Group(AfterJoin(s, pk).groupMod),
                           Flow(DownstreamFlow(s.mcg, FlowAdd))]
            else [Group(AfterJoin(s, pk).groupMod)]
  {}

  lemma LeavePresent(s: Session, pk: PacketIn, last: bool)
    requires pk.inIntf in s.members && last == (|s.members| == 1 && !s.mcg.isRoot)
    ensures var bi := s.members[pk.inIntf].bucketIndex;
            var inRange := bi < |s.buckets|;
            && AfterLeave(s, pk).mcg == s.mcg && AfterLeave(s, pk).members == Renumbered(s.members, pk.inIntf, bi)
            && AfterLeave(s, pk).buckets == (if inRange then Erase(s.buckets, bi) else s.buckets)
            && AfterLeave(s, pk).groupMod ==
               GroupMod(if last then GroupDelete else GroupModify, s.groupMod.groupId,
                        if inRange then Erase(s.groupMod.buckets, bi) else s.groupMod.buckets)
    ensures LeaveMsgs(s, pk) ==
            (if last then [OpenFlow13.PacketOut(pk, s.mcg.upstreamIntf), Flow(DownstreamFlow(s.mcg, FlowDelete))]
             else []) +
            [Group(AfterLeave(s, pk).groupMod)]
  {}
}
