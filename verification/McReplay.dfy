/** What a switch holds after it has replayed everything that the agent sent. */
module McReplay {
  import opened Wrappers
  import opened OpenFlow13
  import opened McGroup
  import opened McAgentSpec

  /** A group is on the switch of the source, and elsewhere while it has members. */
  predicate Active(s: Session) { s.mcg.isRoot || s.members != map[] }

  function DownKey(g: MCGroup): FlowKey { FlowKey(DOWNSTREAM_PRIORITY, DownstreamFields(g)) }

  function HookKey(g: MCGroup): FlowKey { FlowKey(HOOK_PRIORITY, HookFields(g)) }

  // ---------- agreement of switch and agent ----------

  /** An active group has its group entry, with one bucket for each member, and its downstream
      flow; every group has its hook flow. */
  predicate Serves(sw: Switch, s: Session) {
    var g := s.mcg;
    && (Active(s) ==>
          && g.groupId in sw.groups && sw.groups[g.groupId] == s.buckets
          && DownKey(g) in sw.flows && sw.flows[DownKey(g)] == [ToGroup(g.groupId)])
    && HookKey(g) in sw.flows && sw.flows[HookKey(g)] == [Output(OFPP_CONTROLLER)]
  }

  predicate OwnsGroup(a: Agent, gid: uint32, ip: uint32) {
    ip in a.store && Active(a.store[ip]) && a.store[ip].mcg.groupId == gid
  }

  predicate OwnsFlow(a: Agent, k: FlowKey, ip: uint32) {
    ip in a.store && (k == HookKey(a.store[ip].mcg) || (Active(a.store[ip]) && k == DownKey(a.store[ip].mcg)))
  }

  /** The switch holds what the agent's groups call for, and nothing else. */
  ghost predicate Agrees(sw: Switch, a: Agent) {
    && sw.ok
    && (forall ip :: ip in a.store ==> Serves(sw, a.store[ip]))
    && (forall gid :: gid in sw.groups ==> exists ip :: OwnsGroup(a, gid, ip))
    && (forall k :: k in sw.flows ==> exists ip :: OwnsFlow(a, k, ip))
  }

  /** No two active groups share a group id. */
  ghost predicate ActiveIdsDistinct(a: Agent) {
    forall x, y :: x in a.store && y in a.store && x != y && Active(a.store[x]) && Active(a.store[y]) ==>
      a.store[x].mcg.groupId != a.store[y].mcg.groupId
  }

  /** An active group has no reserved id. */
  ghost predicate ActiveIdsValid(a: Agent) {
    forall ip :: ip in a.store && Active(a.store[ip]) ==> a.store[ip].mcg.groupId <= 0xffff_ff00
  }

  ghost predicate IdsUsable(a: Agent) { ActiveIdsDistinct(a) && ActiveIdsValid(a) }

  lemma ServedFlowKnown(sw: Switch, s: Session, k: FlowKey)
    requires Serves(sw, s) && (k == HookKey(s.mcg) || (Active(s) && k == DownKey(s.mcg)))
    ensures k in sw.flows && GroupsKnown(sw, sw.flows[k])
  {}

  lemma AgreesIsSafe(sw: Switch, a: Agent)
    requires Agrees(sw, a)
    ensures NoDangling(sw)
  {
    hide DownKey, HookKey, Serves, Active;
    forall k | k in sw.flows ensures GroupsKnown(sw, sw.flows[k]) {
      var ip :| OwnsFlow(a, k, ip);
      ServedFlowKnown(sw, a.store[ip], k);
    }
  }

  // ---------- the effect of one event on the switch ----------

  /** What the messages about one group do when that group goes from s to t. */
  function Effect(sw: Switch, s: Session, t: Session): Switch {
    var g := s.mcg;
    if Active(t) then
      Switch(sw.ok, sw.groups[g.groupId := t.buckets],
             if Active(s) then sw.flows else sw.flows[DownKey(g) := [ToGroup(g.groupId)]])
    else if Active(s) then Switch(sw.ok, Without(sw.groups, g.groupId), Without(sw.flows, DownKey(g)))
    else sw
  }

  /** No other flow is in the way when the flow of g is deleted. */
  ghost predicate Tidy(sw: Switch, g: MCGroup) {
    forall k :: k in sw.flows ==>
      && Output(0) !in sw.flows[k]
      && (k != DownKey(g) ==> !UsesGroup(sw.flows[k], g.groupId) && !(DownstreamFields(g) <= k.fields))
  }

  /** A message in front of others. */
  lemma Cons(r: Rules, sw: Switch, m: Msg, rest: seq<Msg>)
    requires sw.ok && NoDangling(sw)
    ensures Replay(r, sw, [m] + rest) == Replay(r, Apply(r, sw, m), rest)
    ensures SafeThroughout(r, Apply(r, sw, m), rest) ==> SafeThroughout(r, sw, [m] + rest)
  {
    assert ([m] + rest)[1..] == rest;
  }

  lemma JoinFirst(r: Rules, sw: Switch, s: Session, pk: PacketIn)
    requires sw.ok && NoDangling(sw) && s.mcg.groupId !in sw.groups && s.mcg.groupId <= OFPG_MAX
    requires pk.inIntf !in s.members && !Active(s) && s.groupMod.buckets == s.buckets
    ensures SafeThroughout(r, sw, JoinMsgs(s, pk)) && Replay(r, sw, JoinMsgs(s, pk)) == Effect(sw, s, AfterJoin(s, pk))
  {
    hide BucketFor, DownstreamFields;
    var g, t := s.mcg, AfterJoin(s, pk);
    var up, gm, fm := Msg.PacketOut(pk, g.upstreamIntf), Group(t.groupMod), Flow(DownstreamFlow(g, FlowAdd));
    var sw1 := sw.(groups := sw.groups[g.groupId := t.buckets]);
    assert JoinMsgs(s, pk) == [up] + ([gm] + ([fm] + []));
    Cons(r, sw, up, [gm] + ([fm] + []));
    Cons(r, sw, gm, [fm] + []);
    assert NoDangling(sw1);
    Cons(r, sw1, fm, []);
  }

  lemma JoinActive(r: Rules, sw: Switch, s: Session, pk: PacketIn)
    requires sw.ok && NoDangling(sw) && Serves(sw, s)
    requires pk.inIntf !in s.members && Active(s) && s.groupMod.buckets == s.buckets
    ensures SafeThroughout(r, sw, JoinMsgs(s, pk)) && Replay(r, sw, JoinMsgs(s, pk)) == Effect(sw, s, AfterJoin(s, pk))
  {
    hide BucketFor, DownKey, HookKey;
    assert JoinMsgs(s, pk) == [Group(AfterJoin(s, pk).groupMod)] + [];
    Cons(r, sw, Group(AfterJoin(s, pk).groupMod), []);
  }

  lemma LeaveActive(r: Rules, sw: Switch, s: Session, order: seq<uint16>, pk: PacketIn)
    requires sw.ok && NoDangling(sw) && Serves(sw, s) && Ordered(s, order)
    requires pk.inIntf in s.members && !LastLeaves(s)
    ensures SafeThroughout(r, sw, LeaveMsgs(s, pk))
    ensures Replay(r, sw, LeaveMsgs(s, pk)) == Effect(sw, s, AfterLeave(s, pk))
  {
    hide BucketFor, DownKey, HookKey, MemberAt;
    var t := AfterLeave(s, pk);
    assert LeaveMsgs(s, pk) == [Group(t.groupMod)] + [];
    RenumberedSize(s.members, pk.inIntf, s.members[pk.inIntf].bucketIndex);
    assert Active(t) by { assert |t.members| == |s.members| - 1; }
    Cons(r, sw, Group(t.groupMod), []);
  }

  /** Under the standard rules the deletion of the flow is filtered out, because no flow
      outputs to port 0, and the deletion of the group takes the flow with it.  Under the
      lenient rules the flow is deleted first and the group after it. */
  lemma LeaveLast(r: Rules, sw: Switch, s: Session, order: seq<uint16>, pk: PacketIn)
    requires sw.ok && NoDangling(sw) && Serves(sw, s) && Ordered(s, order) && Tidy(sw, s.mcg)
    requires pk.inIntf in s.members && LastLeaves(s) && s.mcg.groupId <= OFPG_MAX
    ensures SafeThroughout(r, sw, LeaveMsgs(s, pk))
    ensures Replay(r, sw, LeaveMsgs(s, pk)) == Effect(sw, s, AfterLeave(s, pk))
  {
    hide BucketFor, HookKey, MemberAt, DownstreamFields, NoDangling, AfterLeave;
    var g, t := s.mcg, AfterLeave(s, pk);
    var up, fm, gm := Msg.PacketOut(pk, g.upstreamIntf), Flow(DownstreamFlow(g, FlowDelete)), Group(t.groupMod);
    var sw1 := Apply(r, sw, fm);
    LastLeft(s, order, pk);
    assert LeaveMsgs(s, pk) == [up] + ([fm] + ([gm] + []));
    Cons(r, sw, up, [fm] + ([gm] + []));
    Cons(r, sw, fm, [gm] + []);
    assert sw1.flows == if r == Standard then sw.flows else Without(sw.flows, DownKey(g));
    FewerFlows(sw, sw1);
    Cons(r, sw1, gm, []);
    assert Apply(r, sw1, gm).flows == Without(sw.flows, DownKey(g));
    GroupUnused(sw, g, Apply(r, sw1, gm));
  }

  lemma LastLeft(s: Session, order: seq<uint16>, pk: PacketIn)
    requires Ordered(s, order) && pk.inIntf in s.members && LastLeaves(s)
    ensures var t := AfterLeave(s, pk);
            !Active(t) && Active(s) && t.groupMod.command == GroupDelete && t.groupMod.groupId == s.mcg.groupId
  {
    hide MemberAt, BucketFor;
    RenumberedSize(s.members, pk.inIntf, s.members[pk.inIntf].bucketIndex);
  }

  lemma FewerFlows(sw: Switch, less: Switch)
    requires NoDangling(sw) && less.groups == sw.groups
    requires forall k :: k in less.flows ==> k in sw.flows && less.flows[k] == sw.flows[k]
    ensures NoDangling(less)
  {
    forall k | k in less.flows ensures GroupsKnown(less, less.flows[k]) { assert GroupsKnown(sw, sw.flows[k]); }
  }

  lemma GroupUnused(sw: Switch, g: MCGroup, less: Switch)
    requires NoDangling(sw) && Tidy(sw, g)
    requires less.groups == Without(sw.groups, g.groupId) && less.flows == Without(sw.flows, DownKey(g))
    ensures NoDangling(less)
  {
    hide DownKey, DownstreamFields;
    forall k | k in less.flows ensures GroupsKnown(less, less.flows[k]) { assert GroupsKnown(sw, sw.flows[k]); }
  }

  /** The messages that a packet causes, replayed. */
  lemma SentEffect(r: Rules, sw: Switch, s: Session, order: seq<uint16>, pk: PacketIn)
    requires sw.ok && NoDangling(sw) && Serves(sw, s) && Ordered(s, order)
    requires Active(s) ==> Tidy(sw, s.mcg)
    requires !Active(s) && Active(After(s, pk)) ==> s.mcg.groupId !in sw.groups
    requires Active(s) || Active(After(s, pk)) ==> s.mcg.groupId <= OFPG_MAX
    ensures SafeThroughout(r, sw, Sent(s, pk)) && Replay(r, sw, Sent(s, pk)) == Effect(sw, s, After(s, pk))
  {
    hide BucketFor, DownKey, HookKey, MemberAt, NoDangling, Tidy, JoinMsgs, LeaveMsgs, Classify, Apply;
    match Classify(s.mcg, pk)
    case Join =>
      if pk.inIntf in s.members { QuietJoin(s, pk); Unchanged(r, sw, s); }
      else if Active(s) { JoinActive(r, sw, s, pk); }
      else { JoinFirst(r, sw, s, pk); }
    case Leave =>
      if pk.inIntf !in s.members { QuietLeave(s, pk); Unchanged(r, sw, s); }
      else if LastLeaves(s) { LeaveLast(r, sw, s, order, pk); }
      else { LeaveActive(r, sw, s, order, pk); }
    case Other => Unchanged(r, sw, s);
  }

  lemma QuietJoin(s: Session, pk: PacketIn)
    requires pk.inIntf in s.members
    ensures JoinMsgs(s, pk) == []
  {}

  lemma QuietLeave(s: Session, pk: PacketIn)
    requires pk.inIntf !in s.members
    ensures LeaveMsgs(s, pk) == []
  {}

  lemma Unchanged(r: Rules, sw: Switch, s: Session)
    requires sw.ok && NoDangling(sw) && Serves(sw, s)
    ensures SafeThroughout(r, sw, []) && Replay(r, sw, []) == Effect(sw, s, s)
  {
    hide DownKey, HookKey;
    if Active(s) { assert sw.groups[s.mcg.groupId := s.buckets] == sw.groups; }
  }

  // ---------- groups of different sources do not meet ----------

  lemma KeysApart(g: MCGroup, h: MCGroup)
    ensures HookKey(g) != DownKey(h)
    ensures !(DownstreamFields(g) <= HookFields(h))
    ensures g.groupIp != h.groupIp ==> HookKey(g) != HookKey(h) && DownKey(g) != DownKey(h)
    ensures g.groupIp != h.groupIp ==> !(DownstreamFields(g) <= DownstreamFields(h))
  {
    assert Ipv4Src(g.groupIp) in DownstreamFields(g) && UdpSrc(g.srcPort) in DownstreamFields(g);
    assert Ipv4Dst(g.groupIp) in HookFields(g);
    assert g.groupIp != h.groupIp ==>
             Ipv4Src(g.groupIp) !in DownstreamFields(h) && Ipv4Dst(g.groupIp) !in HookFields(h);
    assert UdpSrc(g.srcPort) !in HookFields(h);
  }

  ghost predicate Filed(a: Agent) { forall ip :: ip in a.store ==> a.store[ip].mcg.groupIp == ip }

  /** What the flow of one group means for the deletion of another's. */
  lemma TidyAt(sw: Switch, g: MCGroup, owner: Session, k: FlowKey)
    requires Serves(sw, owner) && (k == HookKey(owner.mcg) || (Active(owner) && k == DownKey(owner.mcg)))
    requires owner.mcg == g || (owner.mcg.groupIp != g.groupIp && (Active(owner) ==> owner.mcg.groupId != g.groupId))
    ensures k in sw.flows && Output(0) !in sw.flows[k]
    ensures k != DownKey(g) ==> !UsesGroup(sw.flows[k], g.groupId) && !(DownstreamFields(g) <= k.fields)
  {
    hide DownstreamFields, HookFields;
    KeysApart(g, owner.mcg);
    KeysApart(owner.mcg, g);
  }

  lemma AgreesIsTidy(sw: Switch, a: Agent, ip: uint32)
    requires Agrees(sw, a) && Filed(a) && ActiveIdsDistinct(a)
    requires ip in a.store && Active(a.store[ip])
    ensures Tidy(sw, a.store[ip].mcg)
  {
    hide DownstreamFields, HookFields, DownKey, HookKey, Serves, Active;
    var g := a.store[ip].mcg;
    forall k | k in sw.flows
      ensures Output(0) !in sw.flows[k]
      ensures k != DownKey(g) ==> !UsesGroup(sw.flows[k], g.groupId) && !(DownstreamFields(g) <= k.fields)
    {
      var x :| OwnsFlow(a, k, x);
      TidyAt(sw, g, a.store[x], k);
    }
  }

  /** A group of another source is served as before. */
  lemma OthersServed(sw: Switch, s: Session, t: Session, other: Session)
    requires Serves(sw, other) && other.mcg.groupIp != s.mcg.groupIp
    requires Active(other) && (Active(s) || Active(t)) ==> other.mcg.groupId != s.mcg.groupId
    ensures Serves(Effect(sw, s, t), other)
  {
    hide DownstreamFields, HookFields, DownKey, HookKey;
    KeysApart(s.mcg, other.mcg);
    KeysApart(other.mcg, s.mcg);
  }

  lemma OwnServed(sw: Switch, s: Session, t: Session)
    requires Serves(sw, s) && t.mcg == s.mcg
    ensures Serves(Effect(sw, s, t), t)
  {
    hide DownstreamFields, HookFields, DownKey, HookKey;
    KeysApart(s.mcg, s.mcg);
  }

  lemma EffectGroupOwned(sw: Switch, a: Agent, b: Agent, ip: uint32, t: Session, gid: uint32)
    requires ip in a.store && t.mcg == a.store[ip].mcg && b.store == a.store[ip := t]
    requires forall i :: i in sw.groups ==> exists x :: OwnsGroup(a, i, x)
    requires gid in Effect(sw, a.store[ip], t).groups
    ensures exists x :: OwnsGroup(b, gid, x)
  {
    hide DownKey, HookKey;
    if Active(t) && gid == t.mcg.groupId {
      assert OwnsGroup(b, gid, ip);
    } else {
      var x :| OwnsGroup(a, gid, x);
      assert OwnsGroup(b, gid, x);
    }
  }

  lemma EffectFlowOwned(sw: Switch, a: Agent, b: Agent, ip: uint32, t: Session, k: FlowKey)
    requires ip in a.store && t.mcg == a.store[ip].mcg && b.store == a.store[ip := t]
    requires forall i :: i in sw.flows ==> exists x :: OwnsFlow(a, i, x)
    requires k in Effect(sw, a.store[ip], t).flows
    ensures exists x :: OwnsFlow(b, k, x)
  {
    hide DownKey, HookKey;
    if (Active(t) && k == DownKey(t.mcg)) || k == HookKey(t.mcg) {
      assert OwnsFlow(b, k, ip);
    } else {
      var x :| OwnsFlow(a, k, x);
      assert OwnsFlow(b, k, x);
    }
  }

  lemma EffectAgrees(sw: Switch, a: Agent, b: Agent, ip: uint32, t: Session)
    requires Agrees(sw, a) && Filed(a) && ActiveIdsDistinct(a) && ActiveIdsDistinct(b)
    requires ip in a.store && t.mcg == a.store[ip].mcg && b.store == a.store[ip := t]
    ensures Agrees(Effect(sw, a.store[ip], t), b)
  {
    hide Active, DownKey, HookKey, Serves, OwnsGroup, OwnsFlow, Effect;
    var s, sw' := a.store[ip], Effect(sw, a.store[ip], t);
    assert sw'.ok by { EffectOk(sw, s, t); }
    forall x | x in b.store ensures Serves(sw', b.store[x]) {
      if x == ip { OwnServed(sw, s, t); }
      else {
        assert Active(a.store[x]) && Active(t) ==> b.store[x].mcg.groupId != b.store[ip].mcg.groupId;
        OthersServed(sw, s, t, a.store[x]);
      }
    }
    forall gid | gid in sw'.groups ensures exists x :: OwnsGroup(b, gid, x) { EffectGroupOwned(sw, a, b, ip, t, gid); }
    forall k | k in sw'.flows ensures exists x :: OwnsFlow(b, k, x) { EffectFlowOwned(sw, a, b, ip, t, k); }
  }

  lemma EffectOk(sw: Switch, s: Session, t: Session)
    ensures Effect(sw, s, t).ok == sw.ok
  {}

  // ---------- a new group ----------

  function CreateEffect(sw: Switch, g: MCGroup): Switch {
    var flows := if g.isRoot then sw.flows[DownKey(g) := [ToGroup(g.groupId)]] else sw.flows;
    Switch(sw.ok, if g.isRoot then sw.groups[g.groupId := []] else sw.groups,
           flows[HookKey(g) := [Output(OFPP_CONTROLLER)]])
  }

  lemma AddedFlowSafe(sw: Switch, k: FlowKey, acts: seq<Action>)
    requires NoDangling(sw) && GroupsKnown(sw, acts)
    ensures NoDangling(sw.(flows := sw.flows[k := acts]))
  {
    var more := sw.(flows := sw.flows[k := acts]);
    forall j | j in more.flows ensures GroupsKnown(more, more.flows[j]) {
      if j != k { assert GroupsKnown(sw, sw.flows[j]); }
    }
  }

  lemma HookIsLast(r: Rules, sw: Switch, g: MCGroup)
    requires sw.ok && NoDangling(sw)
    ensures Replay(r, sw, [Flow(HookFlow(g))]) == sw.(flows := sw.flows[HookKey(g) := [Output(OFPP_CONTROLLER)]])
    ensures SafeThroughout(r, sw, [Flow(HookFlow(g))])
  {
    hide HookFields, NoDangling;
    assert [Flow(HookFlow(g))] == [Flow(HookFlow(g))] + [];
    assert GroupsKnown(sw, HookFlow(g).actions);
    AddedFlowSafe(sw, HookKey(g), HookFlow(g).actions);
    Cons(r, sw, Flow(HookFlow(g)), []);
  }

  lemma CreateReplayed(r: Rules, sw: Switch, g: MCGroup)
    requires sw.ok && NoDangling(sw) && (g.isRoot ==> g.groupId !in sw.groups && g.groupId <= OFPG_MAX)
    ensures SafeThroughout(r, sw, CreateMsgs(g)) && Replay(r, sw, CreateMsgs(g)) == CreateEffect(sw, g)
  {
    hide HookFields, DownstreamFields, HookFlow, HookKey, NoDangling;
    var hook := [Flow(HookFlow(g))];
    if g.isRoot {
      var gm, fm := Group(GroupMod(GroupAdd, g.groupId, [])), Flow(DownstreamFlow(g, FlowAdd));
      var sw1 := sw.(groups := sw.groups[g.groupId := []]);
      var sw2 := sw1.(flows := sw1.flows[DownKey(g) := [ToGroup(g.groupId)]]);
      assert CreateMsgs(g) == [gm] + ([fm] + hook);
      assert NoDangling(sw1) by { MoreGroupsSafe(sw, sw1); }
      AddedFlowSafe(sw1, DownKey(g), [ToGroup(g.groupId)]);
      HookIsLast(r, sw2, g);
      Cons(r, sw1, fm, hook);
      Cons(r, sw, gm, [fm] + hook);
    } else {
      assert CreateMsgs(g) == hook;
      HookIsLast(r, sw, g);
    }
  }

  lemma MoreGroupsSafe(sw: Switch, more: Switch)
    requires NoDangling(sw) && more.flows == sw.flows && sw.groups.Keys <= more.groups.Keys
    ensures NoDangling(more)
  {
    forall k | k in more.flows ensures GroupsKnown(more, more.flows[k]) { assert GroupsKnown(sw, sw.flows[k]); }
  }

  lemma CreatedServed(sw: Switch, g: MCGroup)
    ensures Serves(CreateEffect(sw, g), NewSession(g))
  {
    hide HookFields, DownstreamFields;
    KeysApart(g, g);
  }

  lemma CreatedOthersServed(sw: Switch, g: MCGroup, other: Session)
    requires Serves(sw, other) && other.mcg.groupIp != g.groupIp
    requires Active(other) && g.isRoot ==> other.mcg.groupId != g.groupId
    ensures Serves(CreateEffect(sw, g), other)
  {
    hide HookFields, DownstreamFields, HookKey, DownKey;
    KeysApart(g, other.mcg);
    KeysApart(other.mcg, g);
  }

  lemma CreatedOwned(sw: Switch, a: Agent, b: Agent, g: MCGroup)
    requires g.groupIp !in a.store && b.store == a.store[g.groupIp := NewSession(g)]
    requires Agrees(sw, a)
    ensures forall gid :: gid in CreateEffect(sw, g).groups ==> exists x :: OwnsGroup(b, gid, x)
    ensures forall k :: k in CreateEffect(sw, g).flows ==> exists x :: OwnsFlow(b, k, x)
  {
    hide HookKey, DownKey, Serves;
    var sw' := CreateEffect(sw, g);
    forall gid | gid in sw'.groups ensures exists x :: OwnsGroup(b, gid, x) {
      if g.isRoot && gid == g.groupId { assert OwnsGroup(b, gid, g.groupIp); }
      else {
        var x :| OwnsGroup(a, gid, x);
        assert OwnsGroup(b, gid, x);
      }
    }
    forall k | k in sw'.flows ensures exists x :: OwnsFlow(b, k, x) {
      if (g.isRoot && k == DownKey(g)) || k == HookKey(g) { assert OwnsFlow(b, k, g.groupIp); }
      else {
        var x :| OwnsFlow(a, k, x);
        assert OwnsFlow(b, k, x);
      }
    }
  }

  lemma CreateAgrees(sw: Switch, a: Agent, b: Agent, g: MCGroup)
    requires Agrees(sw, a) && Filed(a) && ActiveIdsDistinct(b)
    requires g.groupIp !in a.store && b.store == a.store[g.groupIp := NewSession(g)]
    ensures Agrees(CreateEffect(sw, g), b)
  {
    hide Serves, OwnsGroup, OwnsFlow;
    CreatedOwned(sw, a, b, g);
    assert Active(b.store[g.groupIp]) == g.isRoot && b.store[g.groupIp].mcg == g;
    forall x | x in b.store ensures Serves(CreateEffect(sw, g), b.store[x]) {
      if x == g.groupIp { CreatedServed(sw, g); } else { CreatedOthersServed(sw, g, a.store[x]); }
    }
  }

  // ---------- one event, then all events ----------

  lemma IdFree(sw: Switch, a: Agent, b: Agent, ip: uint32)
    requires Agrees(sw, a) && ActiveIdsDistinct(b) && ip in b.store && Active(b.store[ip])
    requires ip in a.store ==> !Active(a.store[ip])
    requires forall x :: x in a.store && x != ip ==> x in b.store && b.store[x] == a.store[x]
    ensures b.store[ip].mcg.groupId !in sw.groups
  {
    hide Serves, OwnsFlow;
    var gid := b.store[ip].mcg.groupId;
    forall x ensures !OwnsGroup(a, gid, x) {}
  }

  lemma OnlyStoreMatters(sw: Switch, a: Agent, b: Agent)
    requires Agrees(sw, a) && a.store == b.store
    ensures Agrees(sw, b)
  {
    hide Serves, Active, HookKey, DownKey;
    forall gid, ip ensures OwnsGroup(a, gid, ip) == OwnsGroup(b, gid, ip) {}
    forall k, ip ensures OwnsFlow(a, k, ip) == OwnsFlow(b, k, ip) {}
  }

  lemma StepAgrees(r: Rules, sw: Switch, a: Agent, ev: Event)
    requires Agrees(sw, a) && Inv(a) && IdsUsable(a) && IdsUsable(Step(a, ev))
    ensures SafeThroughout(r, sw, StepMsgs(a, ev)) && Agrees(Replay(r, sw, StepMsgs(a, ev)), Step(a, ev))
  {
    hide Ordered, Effect, CreateEffect, NoDangling, CreateMsgs, Sent, Serves, OwnsGroup, OwnsFlow, Tidy;
    var b := Step(a, ev);
    AgreesIsSafe(sw, a);
    match ev
    case CreateGroup(sip, dip, _, _, _, _) =>
      if !IsClassD(dip) && sip !in a.store {
        var g := GroupOf(ev, NextGroupId(a.groupIdGen));
        if g.isRoot { IdFree(sw, a, b, sip); }
        CreateReplayed(r, sw, g);
        CreateAgrees(sw, a, b, g);
      } else {
        OnlyStoreMatters(sw, a, b);
      }
    case Packet(pk) =>
      if Reaches(a, pk) {
        var s := a.store[pk.dip];
        var t := After(s, pk);
        var order :| Ordered(s, order);
        AfterKeepsGroup(s, pk);
        hide After;
        if Active(s) { AgreesIsTidy(sw, a, pk.dip); }
        else if Active(t) { IdFree(sw, a, b, pk.dip); }
        SentEffect(r, sw, s, order, pk);
        EffectAgrees(sw, a, b, pk.dip, t);
      } else {
        OnlyStoreMatters(sw, a, b);
      }
  }
}