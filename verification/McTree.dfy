/** The agents of a tree of switches, one multicast source at its root, and the links that
    carry forwarded joins and leaves towards it. */
module McTree {
  import opened Wrappers
  import opened OpenFlow13
  import opened McGroup
  import opened McAgentSpec

  /** Where a switch hangs: its parent, the parent's interface, and its own interface upwards. */
  datatype Attach = Attach(parent: nat, port: uint16, up: uint16)

  /** Switch 0 is the root, and parents have smaller numbers than their children. */
  datatype Tree = Tree(ip: uint32, srcPort: uint16, dstPort: uint16, attach: seq<Attach>)

  ghost predicate TreeOk(t: Tree) {
    && t.attach != []
    && (forall c :: 0 < c < |t.attach| ==> t.attach[c].parent < c)
    && (forall c, d :: 0 < c < |t.attach| && 0 < d < |t.attach| && c != d ==> !SamePort(t, c, d))
    && (forall c, d :: 0 < c < |t.attach| && 0 < d < |t.attach| ==> !UpwardPort(t, c, d))
  }

  predicate SamePort(t: Tree, c: nat, d: nat)
    requires c < |t.attach| && d < |t.attach|
  {
    t.attach[c].parent == t.attach[d].parent && t.attach[c].port == t.attach[d].port
  }

  /** Switch d hangs on the interface that its parent c uses upwards. */
  predicate UpwardPort(t: Tree, c: nat, d: nat)
    requires c < |t.attach| && d < |t.attach|
  {
    t.attach[d].parent == c && t.attach[d].port == t.attach[c].up
  }

  /** An interface of switch n with neither the parent nor a child behind it. */
  predicate HostPort(t: Tree, n: nat, i: uint16)
    requires n < |t.attach|
  {
    && (n > 0 ==> i != t.attach[n].up)
    && forall c :: 0 < c < |t.attach| && t.attach[c].parent == n ==> t.attach[c].port != i
  }

  /** What every switch handled, in order, and the packets on the way up from each switch. */
  datatype Net = Net(hist: seq<seq<Event>>, links: seq<seq<PacketIn>>)

  predicate Sized(t: Tree, net: Net) { |net.hist| == |net.links| == |t.attach| }

  function NewNet(t: Tree): Net {
    Net(seq(|t.attach|, n => []), seq(|t.attach|, n => []))
  }

  function AgentAt(net: Net, n: nat): Agent
    requires n < |net.hist|
  {
    Run(net.hist[n])
  }

  // ---------- steps of the network ----------

  datatype NetStep =
    | Local(n: nat, ev: Event)  // a command, or a packet from a host
    | Deliver(c: nat)           // the oldest packet on the link above switch c arrives

  /** Creations of the group use the source's ports and the tree's interfaces, and packets
      for it come in on host ports.  All else, such as other groups, is free. */
  predicate Allowed(t: Tree, n: nat, ev: Event)
    requires n < |t.attach|
  {
    match ev
    case CreateGroup(sip, _, srcPort, dstPort, upIntf, isRoot) =>
      sip == t.ip ==>
        && srcPort == t.srcPort && dstPort == t.dstPort
        && (isRoot != 0 <==> n == 0) && (n > 0 ==> upIntf == t.attach[n].up)
    case Packet(pk) => pk.dip == t.ip ==> HostPort(t, n, pk.inIntf)
  }

  predicate Goes(t: Tree, n: nat, m: Msg)
    requires n < |t.attach|
  {
    m.PacketOut? && m.pk.dip == t.ip && m.outPort == t.attach[n].up
  }

  /** The packets for the source that leave switch n upwards. */
  function Upward(t: Tree, n: nat, msgs: seq<Msg>): seq<PacketIn>
    requires n < |t.attach|
  {
    if msgs == [] then [] else (if Goes(t, n, msgs[0]) then [msgs[0].pk] else []) + Upward(t, n, msgs[1..])
  }

  /** Switch n handles an event. */
  function Handle(t: Tree, net: Net, n: nat, ev: Event): (net': Net)
    requires Sized(t, net) && n < |t.attach|
    ensures Sized(t, net')
  {
    Net(net.hist[n := net.hist[n] + [ev]],
        net.links[n := net.links[n] + Upward(t, n, StepMsgs(AgentAt(net, n), ev))])
  }

  function Arrival(t: Tree, c: nat, pk: PacketIn): Event
    requires c < |t.attach|
  {
    Packet(pk.(inIntf := t.attach[c].port))
  }

  predicate Enabled(t: Tree, net: Net, st: NetStep)
    requires Sized(t, net)
  {
    match st
    case Local(n, ev) => n < |t.attach| && Allowed(t, n, ev)
    case Deliver(c) => 0 < c < |t.attach| && net.links[c] != []
  }

  /** A step that is not enabled has no effect. */
  function Exec(t: Tree, net: Net, st: NetStep): (net': Net)
    requires Sized(t, net) && TreeOk(t)
    ensures Sized(t, net')
  {
    if !Enabled(t, net, st) then net
    else
      match st
      case Local(n, ev) => Handle(t, net, n, ev)
      case Deliver(c) =>
        Handle(t, net.(links := net.links[c := net.links[c][1..]]), t.attach[c].parent, Arrival(t, c, net.links[c][0]))
  }

  function RunNet(t: Tree, steps: seq<NetStep>): (net: Net)
    requires TreeOk(t)
    ensures Sized(t, net)
  {
    if steps == [] then NewNet(t) else Exec(t, RunNet(t, steps[..|steps| - 1]), steps[|steps| - 1])
  }

  // ---------- what is kept ----------

  predicate MemberOf(a: Agent, ip: uint32, i: uint16) { ip in a.store && i in a.store[ip].members }

  predicate HasMembers(a: Agent, ip: uint32) { ip in a.store && a.store[ip].members != map[] }

  function Asks(t: Tree, pk: PacketIn): Request {
    if LeavePorts(SourceGroup(t), pk) then Leave else if JoinPorts(SourceGroup(t), pk) then Join else Other
  }

  /** The source's group, as far as the classification of packets goes. */
  function SourceGroup(t: Tree): MCGroup { MCGroup(t.ip, t.srcPort, t.dstPort, 0, 0, false) }

  predicate ForSource(t: Tree, pk: PacketIn) { pk.dip == t.ip && pk.protocol != PROTOCOL_TYPE_IGMP }

  /** Starting from membership `before`, the packets alternate between join and leave and end
      in membership `after`. */
  predicate Chain(t: Tree, before: bool, link: seq<PacketIn>, after: bool)
    decreases |link|
  {
    if link == [] then before == after
    else
      && ForSource(t, link[0]) && Asks(t, link[0]) == (if before then Leave else Join)
      && Chain(t, !before, link[1..], after)
  }

  /** A switch's group for the source is set up as the tree says. */
  predicate NodeOk(t: Tree, n: nat, a: Agent)
    requires n < |t.attach|
  {
    t.ip in a.store ==>
      var s := a.store[t.ip];
      && s.mcg.srcPort == t.srcPort && s.mcg.dstPort == t.dstPort && (s.mcg.isRoot <==> n == 0)
      && (n > 0 ==> s.mcg.upstreamIntf == t.attach[n].up && t.attach[n].up !in s.members)
  }

  ghost predicate NodesOk(t: Tree, net: Net)
    requires Sized(t, net)
  {
    net.links != [] && net.links[0] == [] && forall n :: 0 <= n < |t.attach| ==> NodeOk(t, n, AgentAt(net, n))
  }

  /** The parent's membership of the child's interface is `member`, and the packets in flight
      lead from the membership `seen` to whether the child has members. */
  predicate LinkAt(t: Tree, net: Net, c: nat, member: bool, seen: bool)
    requires Sized(t, net) && 0 < c < |t.attach| && t.attach[c].parent < |t.attach|
  {
    && MemberOf(AgentAt(net, t.attach[c].parent), t.ip, t.attach[c].port) == member
    && Chain(t, seen, net.links[c], HasMembers(AgentAt(net, c), t.ip))
  }

  /** The parent's membership of the child's interface, once the packets in flight have
      arrived, says whether the child has members. */
  predicate LinkOk(t: Tree, net: Net, c: nat)
    requires Sized(t, net) && 0 < c < |t.attach| && t.attach[c].parent < |t.attach|
  {
    LinkAt(t, net, c, false, false) || LinkAt(t, net, c, true, true)
  }

  /** The parent has missed a join: it is one request behind. */
  predicate Behind(t: Tree, net: Net, c: nat)
    requires Sized(t, net) && 0 < c < |t.attach| && t.attach[c].parent < |t.attach|
  {
    LinkAt(t, net, c, false, true)
  }

  ghost predicate LinksOk(t: Tree, net: Net)
    requires Sized(t, net) && TreeOk(t)
  {
    forall c :: 0 < c < |t.attach| ==> LinkOk(t, net, c)
  }

  // ---------- one event at one switch ----------

  /** The interface on which an event can change the membership. */
  predicate Touches(t: Tree, ev: Event, i: uint16) { ev.Packet? && ForSource(t, ev.pk) && ev.pk.inIntf == i }

  lemma {:induction false} ChainAppend(t: Tree, before: bool, link: seq<PacketIn>, after: bool, pk: PacketIn)
    requires Chain(t, before, link, after) && ForSource(t, pk) && Asks(t, pk) == (if after then Leave else Join)
    ensures Chain(t, before, link + [pk], !after)
    decreases |link|
  {
    hide Asks, ForSource;
    if link == [] {
      assert (link + [pk])[1..] == [];
    } else {
      assert (link + [pk])[1..] == link[1..] + [pk];
      ChainAppend(t, !before, link[1..], after, pk);
    }
  }

  lemma AsksIsClassify(t: Tree, g: MCGroup, pk: PacketIn)
    requires g.srcPort == t.srcPort && g.dstPort == t.dstPort
    ensures Asks(t, pk) == Classify(g, pk)
  {}

  /** A packet goes up exactly when it makes the group of a non-root switch empty or non-empty. */
  lemma SentUpward(t: Tree, n: nat, s: Session, pk: PacketIn)
    requires n < |t.attach| && pk.dip == t.ip
    requires s.mcg.srcPort == t.srcPort && s.mcg.dstPort == t.dstPort && (s.mcg.isRoot <==> n == 0)
    requires n > 0 ==> s.mcg.upstreamIntf == t.attach[n].up
    ensures var was, now := s.members != map[], After(s, pk).members != map[];
            && Upward(t, n, Sent(s, pk)) == (if was != now && n > 0 then [pk] else [])
            && (was != now ==> Asks(t, pk) == (if was then Leave else Join))
  {
    hide DownstreamFields, BucketFor, Classify, Renumbered;
    AsksIsClassify(t, s.mcg, pk);
    if Classify(s.mcg, pk) == Leave && pk.inIntf in s.members {
      RenumberedSize(s.members, pk.inIntf, s.members[pk.inIntf].bucketIndex);
      var rest := [Group(AfterLeave(s, pk).groupMod)];
      if LastLeaves(s) {
        var fm := Flow(DownstreamFlow(s.mcg, FlowDelete));
        assert Sent(s, pk) == [Msg.PacketOut(pk, s.mcg.upstreamIntf)] + ([fm] + rest);
        UpwardCons(t, n, fm, rest);
        UpwardCons(t, n, Msg.PacketOut(pk, s.mcg.upstreamIntf), [fm] + rest);
      } else {
        assert Sent(s, pk) == rest;
      }
    } else if Classify(s.mcg, pk) == Join && pk.inIntf !in s.members {
      var gm := Group(AfterJoin(s, pk).groupMod);
      if s.members == map[] && !s.mcg.isRoot {
        var fm := Flow(DownstreamFlow(s.mcg, FlowAdd));
        assert Sent(s, pk) == [Msg.PacketOut(pk, s.mcg.upstreamIntf)] + ([gm] + [fm]);
        UpwardCons(t, n, gm, [fm]);
        UpwardCons(t, n, Msg.PacketOut(pk, s.mcg.upstreamIntf), [gm] + [fm]);
      } else {
        assert Sent(s, pk) == [gm];
      }
    } else {
      assert Sent(s, pk) == [];
    }
  }

  lemma UpwardCons(t: Tree, n: nat, m: Msg, rest: seq<Msg>)
    requires n < |t.attach|
    ensures Upward(t, n, [m] + rest) == (if Goes(t, n, m) then [m.pk] else []) + Upward(t, n, rest)
  {
    assert ([m] + rest)[1..] == rest;
  }

  /** Events at switch n: those allowed, and arrivals from a child. */
  predicate Fits(t: Tree, n: nat, ev: Event)
    requires n < |t.attach|
  {
    match ev
    case CreateGroup(_, _, _, _, _, _) => Allowed(t, n, ev)
    case Packet(pk) => pk.dip == t.ip && n > 0 ==> pk.inIntf != t.attach[n].up
  }

  lemma AllowedFits(t: Tree, n: nat, ev: Event)
    requires n < |t.attach| && Allowed(t, n, ev)
    ensures Fits(t, n, ev)
  {}

  lemma ArrivalFits(t: Tree, c: nat, pk: PacketIn)
    requires TreeOk(t) && 0 < c < |t.attach|
    ensures t.attach[c].parent < |t.attach| && Fits(t, t.attach[c].parent, Arrival(t, c, pk))
  {
    assert t.attach[c].parent > 0 ==> !UpwardPort(t, t.attach[c].parent, c);
  }

  lemma MembersAfter(s: Session, pk: PacketIn)
    ensures After(s, pk).mcg == s.mcg
    ensures forall i :: i != pk.inIntf ==> (i in After(s, pk).members <==> i in s.members)
    ensures pk.inIntf in After(s, pk).members <==>
            (match Classify(s.mcg, pk) case Join => true case Leave => false case Other => pk.inIntf in s.members)
  {
    hide Classify, BucketFor;
  }

  lemma StepAtNode(t: Tree, n: nat, a: Agent, ev: Event)
    requires n < |t.attach| && NodeOk(t, n, a) && Fits(t, n, ev)
    ensures NodeOk(t, n, Step(a, ev))
    ensures forall i :: !Touches(t, ev, i) ==> MemberOf(Step(a, ev), t.ip, i) == MemberOf(a, t.ip, i)
    ensures t.ip in a.store ==> t.ip in Step(a, ev).store
  {
    hide After, Sent;
    if ev.Packet? && Reaches(a, ev.pk) && ev.pk.dip == t.ip {
      MembersAfter(a.store[t.ip], ev.pk);
    }
  }

  lemma StepTouched(t: Tree, n: nat, a: Agent, pk: PacketIn)
    requires n < |t.attach| && NodeOk(t, n, a) && ForSource(t, pk) && t.ip in a.store
    ensures MemberOf(Step(a, Packet(pk)), t.ip, pk.inIntf) <==>
            (match Asks(t, pk) case Join => true case Leave => false case Other => MemberOf(a, t.ip, pk.inIntf))
  {
    hide After, Sent, Classify;
    MembersAfter(a.store[t.ip], pk);
    AsksIsClassify(t, a.store[t.ip].mcg, pk);
  }

  lemma StepUpward(t: Tree, n: nat, a: Agent, ev: Event)
    requires n < |t.attach| && NodeOk(t, n, a) && Inv(a) && Fits(t, n, ev)
    ensures var was, now, out := HasMembers(a, t.ip), HasMembers(Step(a, ev), t.ip), Upward(t, n, StepMsgs(a, ev));
            && (was == now || n == 0 ==> out == [])
            && (was != now ==> ev.Packet? && ForSource(t, ev.pk) && Asks(t, ev.pk) == (if was then Leave else Join))
            && (was != now && n > 0 ==> out == [ev.pk])
  {
    hide After, Sent, Asks, Ordered, CreateMsgs;
    match ev
    case CreateGroup(sip, _, _, _, _, _) => CreateStaysHere(t, n, GroupOf(ev, NextGroupId(a.groupIdGen)));
    case Packet(pk) =>
      if Reaches(a, pk) {
        if pk.dip == t.ip { SentUpward(t, n, a.store[t.ip], pk); }
        else { SentElsewhere(t, n, a.store[pk.dip], pk); }
      }
  }

  lemma CreateStaysHere(t: Tree, n: nat, g: MCGroup)
    requires n < |t.attach|
    ensures Upward(t, n, CreateMsgs(g)) == []
  {
    hide HookFlow, DownstreamFlow;
    var hook := [Flow(HookFlow(g))];
    if g.isRoot {
      var gm, fm := Group(GroupMod(GroupAdd, g.groupId, [])), Flow(DownstreamFlow(g, FlowAdd));
      assert CreateMsgs(g) == [gm] + ([fm] + hook);
      UpwardCons(t, n, fm, hook);
      UpwardCons(t, n, gm, [fm] + hook);
    } else { assert CreateMsgs(g) == hook; }
  }

  lemma {:induction false} NothingGoes(t: Tree, n: nat, msgs: seq<Msg>)
    requires n < |t.attach| && forall m :: m in msgs ==> !Goes(t, n, m)
    ensures Upward(t, n, msgs) == []
  {
    if msgs != [] { NothingGoes(t, n, msgs[1..]); }
  }

  lemma SentElsewhere(t: Tree, n: nat, s: Session, pk: PacketIn)
    requires n < |t.attach| && pk.dip != t.ip
    ensures Upward(t, n, Sent(s, pk)) == []
  {
    hide Classify, DownstreamFlow, AfterJoin, AfterLeave;
    NothingGoes(t, n, Sent(s, pk));
  }

  // ---------- one event in the network ----------

  /** An event at switch n keeps the state of a link, unless it touches the interface at its
      upper end. */
  lemma HandleKeepsLink(t: Tree, net: Net, n: nat, ev: Event, c: nat, member: bool, seen: bool)
    requires Sized(t, net) && TreeOk(t) && n < |t.attach| && 0 < c < |t.attach|
    requires NodeOk(t, n, AgentAt(net, n)) && Inv(AgentAt(net, n)) && Fits(t, n, ev)
    requires LinkAt(t, net, c, member, seen)
    requires t.attach[c].parent == n ==> !Touches(t, ev, t.attach[c].port)
    ensures LinkAt(t, Handle(t, net, n, ev), c, member, seen)
  {
    hide Run, Step, StepMsgs, MemberOf, HasMembers, Upward, Asks, ForSource, Inv, NodeOk, Fits, TreeOk;
    var net', a, p := Handle(t, net, n, ev), AgentAt(net, n), t.attach[c].parent;
    assert p < c by { hide *; ParentBefore(t, c); }
    RunOneMore(net.hist[n], ev);
    StepAtNode(t, n, a, ev);
    StepUpward(t, n, a, ev);
    if n == c {
      if HasMembers(a, t.ip) != HasMembers(Step(a, ev), t.ip) {
        ChainAppend(t, seen, net.links[c], HasMembers(a, t.ip), ev.pk);
      } else {
        assert net.links[c] + [] == net.links[c];
      }
    } else if p == n {
      assert !Touches(t, ev, t.attach[c].port);
    }
  }

  lemma ParentBefore(t: Tree, c: nat)
    requires TreeOk(t) && 0 < c < |t.attach|
    ensures t.attach[c].parent < c
  {}

  lemma RunOneMore(h: seq<Event>, ev: Event)
    ensures Run(h + [ev]) == Step(Run(h), ev)
  {
    hide Step;
    assert (h + [ev])[..|h|] == h;
  }

  lemma HandleKeepsNodes(t: Tree, net: Net, n: nat, ev: Event)
    requires Sized(t, net) && n < |t.attach| && NodesOk(t, net) && Fits(t, n, ev)
    ensures NodesOk(t, Handle(t, net, n, ev))
  {
    hide Run, Step, StepMsgs, Upward, NodeOk, Fits, Inv;
    var net' := Handle(t, net, n, ev);
    RunKeepsInv(net.hist[n]);
    RunOneMore(net.hist[n], ev);
    StepAtNode(t, n, AgentAt(net, n), ev);
    StepUpward(t, n, AgentAt(net, n), ev);
    forall m | 0 <= m < |t.attach| ensures NodeOk(t, m, AgentAt(net', m)) {
      assert NodeOk(t, m, AgentAt(net, m));
    }
  }

  lemma ExecKeepsNodes(t: Tree, net: Net, st: NetStep)
    requires Sized(t, net) && TreeOk(t) && NodesOk(t, net)
    ensures NodesOk(t, Exec(t, net, st))
  {
    hide Run, NodeOk, Fits, Handle, Allowed;
    if Enabled(t, net, st) {
      match st
      case Local(n, ev) =>
        AllowedFits(t, n, ev);
        HandleKeepsNodes(t, net, n, ev);
      case Deliver(c) =>
        ArrivalFits(t, c, net.links[c][0]);
        PoppedAgents(t, net, c);
        HandleKeepsNodes(t, Popped(net, c), t.attach[c].parent, Arrival(t, c, net.links[c][0]));
    }
  }

  function Popped(net: Net, c: nat): Net
    requires c < |net.links| && net.links[c] != []
  {
    net.(links := net.links[c := net.links[c][1..]])
  }

  lemma PoppedAgents(t: Tree, net: Net, c: nat)
    requires Sized(t, net) && NodesOk(t, net) && 0 < c < |net.links| && net.links[c] != []
    ensures Sized(t, Popped(net, c)) && NodesOk(t, Popped(net, c))
    ensures forall n :: 0 <= n < |net.hist| ==> AgentAt(Popped(net, c), n) == AgentAt(net, n)
  {
    hide NodeOk, Run;
    forall m | 0 <= m < |t.attach| ensures NodeOk(t, m, AgentAt(Popped(net, c), m)) {
      assert NodeOk(t, m, AgentAt(net, m));
    }
  }

  lemma {:induction false} NodesStayOk(t: Tree, steps: seq<NetStep>)
    requires TreeOk(t)
    ensures NodesOk(t, RunNet(t, steps))
  {
    hide Exec, NodeOk;
    if steps == [] {
      forall n | 0 <= n < |t.attach| ensures NodeOk(t, n, AgentAt(NewNet(t), n)) { NewNodeOk(t, n); }
    } else {
      NodesStayOk(t, steps[..|steps| - 1]);
      ExecKeepsNodes(t, RunNet(t, steps[..|steps| - 1]), steps[|steps| - 1]);
    }
  }

  lemma NewNodeOk(t: Tree, n: nat)
    requires n < |t.attach|
    ensures AgentAt(NewNet(t), n) == NEW_AGENT && NodeOk(t, n, NEW_AGENT)
  {}

  // ---------- losses ----------

  /** A packet for the source arrives at a switch that has no group for it yet. */
  predicate Lost(t: Tree, net: Net, st: NetStep)
    requires Sized(t, net) && TreeOk(t)
  {
    st.Deliver? && Enabled(t, net, st) && t.ip !in AgentAt(net, t.attach[st.c].parent).store
  }

  lemma LocalKeepsLinks(t: Tree, net: Net, n: nat, ev: Event)
    requires Sized(t, net) && TreeOk(t) && NodesOk(t, net) && LinksOk(t, net)
    requires n < |t.attach| && Allowed(t, n, ev)
    ensures LinksOk(t, Handle(t, net, n, ev))
  {
    hide LinkOk, LinkAt, NodeOk, Handle, Fits;
    AllowedFits(t, n, ev);
    RunKeepsInv(net.hist[n]);
    forall c | 0 < c < |t.attach| ensures LinkOk(t, Handle(t, net, n, ev), c) {
      assert LinkOk(t, net, c);
      var m := OkState(t, net, c);
      HandleKeepsLink(t, net, n, ev, c, m, m);
      StateOk(t, Handle(t, net, n, ev), c, m);
    }
  }

  lemma OkState(t: Tree, net: Net, c: nat) returns (m: bool)
    requires Sized(t, net) && 0 < c < |t.attach| && t.attach[c].parent < |t.attach| && LinkOk(t, net, c)
    ensures LinkAt(t, net, c, m, m)
  {
    hide LinkAt;
    m := LinkAt(t, net, c, true, true);
  }

  lemma StateOk(t: Tree, net: Net, c: nat, m: bool)
    requires Sized(t, net) && 0 < c < |t.attach| && t.attach[c].parent < |t.attach| && LinkAt(t, net, c, m, m)
    ensures LinkOk(t, net, c)
  {
    hide LinkAt;
  }

  /** The other links when a packet from switch c arrives. */
  lemma DeliverKeepsOthers(t: Tree, net: Net, c: nat, d: nat, member: bool, seen: bool)
    requires Sized(t, net) && TreeOk(t) && NodesOk(t, net) && Enabled(t, net, Deliver(c))
    requires 0 < d < |t.attach| && d != c && LinkAt(t, net, d, member, seen)
    ensures LinkAt(t, Exec(t, net, Deliver(c)), d, member, seen)
  {
    hide NodeOk, Handle, Fits, Run, Chain;
    var p, ev := t.attach[c].parent, Arrival(t, c, net.links[c][0]);
    ArrivalFits(t, c, net.links[c][0]);
    RunKeepsInv(net.hist[p]);
    assert !SamePort(t, c, d);
    PoppedAgents(t, net, c);
    HandleKeepsLink(t, Popped(net, c), p, ev, d, member, seen);
  }

  lemma {:induction false} ChainStart(t: Tree, b: bool, c: bool, link: seq<PacketIn>, after: bool)
    requires Chain(t, b, link, after) && Chain(t, c, link, after)
    ensures b == c
  {
    hide Asks, ForSource;
  }

  /** The link on which a packet arrives stays consistent exactly when the packet is not lost. */
  lemma DeliverOnLink(t: Tree, net: Net, c: nat)
    requires Sized(t, net) && TreeOk(t) && NodesOk(t, net) && Enabled(t, net, Deliver(c)) && LinkOk(t, net, c)
    ensures LinkOk(t, Exec(t, net, Deliver(c)), c) <==> !Lost(t, net, Deliver(c))
  {
    hide Run, Step, StepMsgs, HasMembers, Upward, Inv, NodeOk, Fits, TreeOk, Classify;
    var p, head, rest := t.attach[c].parent, net.links[c][0], net.links[c][1..];
    ParentBefore(t, c);
    var a, pk, net' := AgentAt(net, p), head.(inIntf := t.attach[c].port), Exec(t, net, Deliver(c));
    RunOneMore(net.hist[p], Packet(pk));
    assert AgentAt(net', p) == Step(a, Packet(pk)) && AgentAt(net', c) == AgentAt(net, c) && net'.links[c] == rest;
    SameAsks(t, head, pk);
    var was, now := MemberOf(a, t.ip, t.attach[c].port), MemberOf(Step(a, Packet(pk)), t.ip, t.attach[c].port);
    if t.ip in a.store {
      StepTouched(t, p, a, pk);
      assert now == !was;
    } else {
      NoGroupNoMember(t, a, pk);
      if Chain(t, now, rest, HasMembers(AgentAt(net, c), t.ip)) {
        ChainStart(t, now, !was, rest, HasMembers(AgentAt(net, c), t.ip));
      }
    }
  }

  lemma SameAsks(t: Tree, pk: PacketIn, qk: PacketIn)
    requires qk == pk.(inIntf := qk.inIntf)
    ensures Asks(t, qk) == Asks(t, pk) && ForSource(t, qk) == ForSource(t, pk)
  {}

  lemma NoGroupNoMember(t: Tree, a: Agent, pk: PacketIn)
    requires t.ip !in a.store
    ensures forall i :: !MemberOf(a, t.ip, i) && !MemberOf(Step(a, Packet(pk)), t.ip, i)
  {}

  lemma StepKeepsLinks(t: Tree, net: Net, st: NetStep)
    requires Sized(t, net) && TreeOk(t) && NodesOk(t, net) && LinksOk(t, net)
    ensures LinksOk(t, Exec(t, net, st)) <==> !Lost(t, net, st)
  {
    hide LinkAt, Handle, NodesOk, Run, Allowed;
    if Enabled(t, net, st) {
      match st
      case Local(n, ev) => LocalKeepsLinks(t, net, n, ev);
      case Deliver(c) =>
        DeliverOnLink(t, net, c);
        forall d | 0 < d < |t.attach| && d != c ensures LinkOk(t, Exec(t, net, Deliver(c)), d) {
          assert LinkOk(t, net, d);
          var m := OkState(t, net, d);
          DeliverKeepsOthers(t, net, c, d, m, m);
          StateOk(t, Exec(t, net, Deliver(c)), d, m);
        }
    }
  }

  ghost predicate NothingLost(t: Tree, steps: seq<NetStep>)
    requires TreeOk(t)
  {
    forall k :: 0 <= k < |steps| ==> !Lost(t, RunNet(t, steps[..k]), steps[k])
  }

  ghost predicate AlwaysConsistent(t: Tree, steps: seq<NetStep>)
    requires TreeOk(t)
  {
    forall k :: 0 <= k <= |steps| ==> LinksOk(t, RunNet(t, steps[..k]))
  }

  lemma NewLinksOk(t: Tree)
    requires TreeOk(t)
    ensures LinksOk(t, NewNet(t))
  {
    forall c | 0 < c < |t.attach| ensures LinkOk(t, NewNet(t), c) {
      NewNodeOk(t, c);
      NewNodeOk(t, t.attach[c].parent);
    }
  }

  lemma PrefixOfPrefix<T>(s: seq<T>)
    requires s != []
    ensures forall k :: 0 <= k < |s| ==> s[..|s| - 1][..k] == s[..k]
    ensures s[..|s|] == s
  {}

  lemma OneMoreStep(t: Tree, steps: seq<NetStep>)
    requires TreeOk(t) && steps != []
    ensures var init, st := steps[..|steps| - 1], steps[|steps| - 1];
            && (AlwaysConsistent(t, steps) <==> AlwaysConsistent(t, init) && LinksOk(t, RunNet(t, steps)))
            && (NothingLost(t, steps) <==> NothingLost(t, init) && !Lost(t, RunNet(t, init), st))
  {
    hide RunNet, LinksOk, Lost, TreeOk;
    var init := steps[..|steps| - 1];
    PrefixOfPrefix(steps);
    if AlwaysConsistent(t, init) && LinksOk(t, RunNet(t, steps)) {
      forall k | 0 <= k <= |steps| ensures LinksOk(t, RunNet(t, steps[..k])) {
        if k < |steps| { assert init[..k] == steps[..k]; }
      }
    }
    if AlwaysConsistent(t, steps) {
      forall k | 0 <= k <= |init| ensures LinksOk(t, RunNet(t, init[..k])) { assert init[..k] == steps[..k]; }
      assert LinksOk(t, RunNet(t, steps[..|steps|]));
    }
  }

  lemma {:induction false} ConsistentUntilLoss(t: Tree, steps: seq<NetStep>)
    requires TreeOk(t)
    ensures AlwaysConsistent(t, steps) <==> NothingLost(t, steps)
    ensures AlwaysConsistent(t, steps) ==> LinksOk(t, RunNet(t, steps))
  {
    hide Exec, LinksOk, NodesOk, Lost;
    if steps == [] {
      NewLinksOk(t);
      assert forall k :: 0 <= k <= |steps| ==> steps[..k] == [];
    } else {
      var init, st := steps[..|steps| - 1], steps[|steps| - 1];
      OneMoreStep(t, steps);
      ConsistentUntilLoss(t, init);
      NodesStayOk(t, init);
      hide AlwaysConsistent, NothingLost;
      if AlwaysConsistent(t, init) { StepKeepsLinks(t, RunNet(t, init), st); }
    }
  }
}
