/** What happens to a frame of the source in a tree of switches: the tables replayed from the
    agents' messages, the copies that the group buckets make, and who gets them. */
module McDelivery {
  import opened Wrappers
  import opened OpenFlow13
  import opened McGroup
  import opened McAgentSpec
  import opened McReplay
  import opened McReplayRuns
  import opened McTree
  import opened McTreeRuns

  /** The parts of a frame that the agent's flows and buckets look at or change. */
  datatype Frame = Frame(
    ethType: uint16, proto: uint8, ethDst: nat, srcIp: uint32, dstIp: uint32, srcPort: uint16, dstPort: uint16)

  /** IPv4 and UDP, by their assigned numbers. */
  predicate IsUdp(f: Frame) { f.ethType == 0x0800 && f.proto == 17 }

  // ---------- one switch ----------

  predicate MatchesField(o: Oxm, f: Frame) {
    match o
    case EthType(e) => e == f.ethType
    case IpProto(p) => p == f.proto
    case Ipv4Src(a) => a == f.srcIp
    case Ipv4Dst(a) => a == f.dstIp
    case UdpSrc(p) => p == f.srcPort
    case UdpDst(p) => p == f.dstPort
  }

  ghost predicate Matches(k: FlowKey, f: Frame) { forall o :: o in k.fields ==> MatchesField(o, f) }

  /** Section 5.3 of the OpenFlow Switch Specification 1.3.1: the matching entry of the highest
      priority is selected. */
  ghost predicate Best(sw: Switch, f: Frame, k: FlowKey) {
    k in sw.flows && Matches(k, f) && forall j :: j in sw.flows && Matches(j, f) ==> j.priority <= k.priority
  }

  ghost function Lookup(sw: Switch, f: Frame): seq<Action> {
    if exists k :: Best(sw, f, k) then var k :| Best(sw, f, k); sw.flows[k] else []
  }

  datatype Copy = Copy(port: uint32, frame: Frame)

  /** The actions of a bucket, in order. */
  function Emit(acts: seq<Action>, f: Frame): seq<Copy> {
    if acts == [] then []
    else
      match acts[0]
      case SetUdpDst(p) => Emit(acts[1..], f.(dstPort := p))
      case SetIpv4Dst(a) => Emit(acts[1..], f.(dstIp := a))
      case SetEthDst(e) => Emit(acts[1..], f.(ethDst := e))
      case Output(p) => [Copy(p, f)] + Emit(acts[1..], f)
      case ToGroup(_) => Emit(acts[1..], f)
  }

  /** A group of type ALL executes every bucket on its own copy. */
  function EmitAll(buckets: seq<Bucket>, f: Frame): seq<Copy> {
    if buckets == [] then [] else Emit(buckets[0].actions, f) + EmitAll(buckets[1..], f)
  }

  /** What leaves a switch. */
  ghost function Copies(sw: Switch, f: Frame): seq<Copy> {
    var acts := Lookup(sw, f);
    if |acts| == 1 && acts[0].ToGroup? then
      if acts[0].groupId in sw.groups then EmitAll(sw.groups[acts[0].groupId], f) else []
    else Emit(acts, f)
  }

  // ---------- what the agent's tables do with a frame ----------

  lemma HookMatches(g: MCGroup, f: Frame)
    ensures Matches(HookKey(g), f) <==> IsUdp(f) && f.dstIp == g.groupIp
  {
    assert EthType(0x0800) in HookKey(g).fields && IpProto(17) in HookKey(g).fields;
    assert Ipv4Dst(g.groupIp) in HookKey(g).fields;
  }

  lemma DownMatches(g: MCGroup, f: Frame)
    ensures Matches(DownKey(g), f) <==>
            IsUdp(f) && f.srcIp == g.groupIp && f.srcPort == g.srcPort && f.dstPort == g.dstPort
  {
    assert EthType(0x0800) in DownKey(g).fields && IpProto(17) in DownKey(g).fields;
    assert Ipv4Src(g.groupIp) in DownKey(g).fields && UdpSrc(g.srcPort) in DownKey(g).fields
      && UdpDst(g.dstPort) in DownKey(g).fields;
  }

  lemma KeyPriorities(g: MCGroup)
    ensures HookKey(g).priority == HOOK_PRIORITY && DownKey(g).priority == DOWNSTREAM_PRIORITY
  {}

  lemma LookupIs(sw: Switch, f: Frame, k: FlowKey)
    requires Best(sw, f, k) && forall j :: Best(sw, f, j) ==> sw.flows[j] == sw.flows[k]
    ensures Lookup(sw, f) == sw.flows[k]
  {
    hide Best;
  }

  /** A flow of the switch is some group's hook, or its downstream flow. */
  lemma FlowOf(sw: Switch, a: Agent, k: FlowKey) returns (x: uint32)
    requires Agrees(sw, a) && k in sw.flows
    ensures x in a.store
    ensures || (k == HookKey(a.store[x].mcg) && k.priority == HOOK_PRIORITY && sw.flows[k] == [Output(OFPP_CONTROLLER)])
            || (k == DownKey(a.store[x].mcg) && k.priority == DOWNSTREAM_PRIORITY && Active(a.store[x]))
  {
    hide HookKey, DownKey, Active;
    x :| OwnsFlow(a, k, x);
    KeyPriorities(a.store[x].mcg);
    assert Serves(sw, a.store[x]);
  }

  lemma BestHook(sw: Switch, a: Agent, f: Frame, k: FlowKey)
    requires Agrees(sw, a) && Filed(a) && IsUdp(f) && f.dstIp in a.store && Best(sw, f, k)
    ensures sw.flows[k] == [Output(OFPP_CONTROLLER)]
  {
    hide HookKey, DownKey, Active, Matches;
    var own := a.store[f.dstIp];
    assert Serves(sw, own);
    HookMatches(own.mcg, f);
    KeyPriorities(own.mcg);
    assert k.priority >= HookKey(own.mcg).priority;
    var x := FlowOf(sw, a, k);
  }

  /** A UDP frame addressed to the source of some group is handed to the agent. */
  lemma AddressedToSource(sw: Switch, a: Agent, f: Frame)
    requires Agrees(sw, a) && Filed(a) && IsUdp(f) && f.dstIp in a.store
    ensures Copies(sw, f) == [Copy(OFPP_CONTROLLER, f)]
  {
    hide HookKey, DownKey, Matches, Active, Lookup, Serves, OwnsFlow, OwnsGroup;
    var k := HookKey(a.store[f.dstIp].mcg);
    HookMatches(a.store[f.dstIp].mcg, f);
    KeyPriorities(a.store[f.dstIp].mcg);
    assert k in sw.flows by { HookPresent(sw, a.store[f.dstIp]); }
    forall j | j in sw.flows ensures j.priority <= k.priority { var x := FlowOf(sw, a, j); }
    assert Best(sw, f, k);
    forall j | Best(sw, f, j) ensures sw.flows[j] == sw.flows[k] {
      BestHook(sw, a, f, j);
      BestHook(sw, a, f, k);
    }
    LookupIs(sw, f, k);
    BestHook(sw, a, f, k);
    EmitOutput(OFPP_CONTROLLER, f);
  }

  lemma EmitOutput(p: uint32, f: Frame)
    ensures Emit([Output(p)], f) == [Copy(p, f)]
  {
    assert [Output(p)][1..] == [];
  }

  lemma HookPresent(sw: Switch, s: Session)
    requires Serves(sw, s)
    ensures HookKey(s.mcg) in sw.flows
  {}

  predicate FromSource(g: MCGroup, f: Frame) {
    IsUdp(f) && f.srcIp == g.groupIp && f.srcPort == g.srcPort && f.dstPort == g.dstPort
  }

  lemma BestDown(sw: Switch, a: Agent, ip: uint32, f: Frame, k: FlowKey)
    requires Agrees(sw, a) && Filed(a) && f.dstIp !in a.store && ip in a.store && FromSource(a.store[ip].mcg, f)
    requires k in sw.flows && Matches(k, f)
    ensures Active(a.store[ip]) && k == DownKey(a.store[ip].mcg)
  {
    hide HookKey, DownKey, Active, Matches;
    var x := FlowOf(sw, a, k);
    HookMatches(a.store[x].mcg, f);
    DownMatches(a.store[x].mcg, f);
  }

  /** A frame from the source that is addressed to no source is copied to every bucket of the
      group while the group is active, and dropped otherwise. */
  lemma FromSourceCopies(sw: Switch, a: Agent, ip: uint32, f: Frame)
    requires Agrees(sw, a) && Filed(a) && f.dstIp !in a.store && ip in a.store && FromSource(a.store[ip].mcg, f)
    ensures Copies(sw, f) == if Active(a.store[ip]) then EmitAll(a.store[ip].buckets, f) else []
  {
    hide HookKey, DownKey, Matches, Active, Lookup, EmitAll;
    var s := a.store[ip];
    var k := DownKey(s.mcg);
    forall j | j in sw.flows && Matches(j, f) ensures Active(s) && j == k { BestDown(sw, a, ip, f, j); }
    assert Serves(sw, s);
    DownMatches(s.mcg, f);
    if Active(s) {
      assert Best(sw, f, k);
      LookupIs(sw, f, k);
    } else {
      NoMatch(sw, f);
    }
  }

  lemma NoMatch(sw: Switch, f: Frame)
    requires forall j :: j in sw.flows ==> !Matches(j, f)
    ensures Lookup(sw, f) == [] && Emit([], f) == []
  {}

  /** Any other frame is dropped: one that is not UDP, or from and to no source with its ports. */
  lemma OthersAreDropped(sw: Switch, a: Agent, f: Frame)
    requires Agrees(sw, a) && Filed(a)
    requires !IsUdp(f) || (f.dstIp !in a.store && (f.srcIp in a.store ==> !FromSource(a.store[f.srcIp].mcg, f)))
    ensures Copies(sw, f) == []
  {
    hide HookKey, DownKey, Matches, Active, Lookup, Serves, OwnsFlow, OwnsGroup;
    forall k | k in sw.flows ensures !Matches(k, f) {
      var x := FlowOf(sw, a, k);
      HookMatches(a.store[x].mcg, f);
      DownMatches(a.store[x].mcg, f);
    }
    NoMatch(sw, f);
  }

  /** The copy that a member's bucket makes. */
  function CopyFor(m: Member, f: Frame): Copy {
    Copy(m.intf, Frame(f.ethType, f.proto, m.destMac, f.srcIp, m.destIp, f.srcPort, m.udpPort))
  }

  lemma EmitBucket(m: Member, f: Frame)
    ensures Emit(BucketFor(m).actions, f) == [CopyFor(m, f)]
  {
    var acts := BucketFor(m).actions;
    var f1, f2, f3 := f.(dstPort := m.udpPort), f.(dstPort := m.udpPort, dstIp := m.destIp), CopyFor(m, f).frame;
    assert acts[1..][1..] == acts[2..] && acts[2..][1..] == acts[3..] && acts[3..] == [Output(m.intf)];
    EmitOutput(m.intf, f3);
    assert Emit(acts[2..], f2) == Emit(acts[3..], f3);
    assert Emit(acts[1..], f1) == Emit(acts[2..], f2);
  }

  function CopiesTo(members: map<uint16, Member>, order: seq<uint16>, f: Frame): seq<Copy>
    requires forall i :: i in order ==> i in members
  {
    if order == [] then [] else [CopyFor(members[order[0]], f)] + CopiesTo(members, order[1..], f)
  }

  lemma {:induction false} EmitAllOrdered(members: map<uint16, Member>, order: seq<uint16>, buckets: seq<Bucket>,
                                          f: Frame)
    requires forall i :: i in order ==> i in members
    requires |buckets| == |order| && forall k :: 0 <= k < |order| ==> buckets[k] == BucketFor(members[order[k]])
    ensures EmitAll(buckets, f) == CopiesTo(members, order, f)
    decreases |order|
  {
    hide BucketFor, Emit, CopyFor;
    if order != [] {
      EmitBucket(members[order[0]], f);
      EmitAllOrdered(members, order[1..], buckets[1..], f);
    }
  }

  // ---------- the tree ----------

  /** A frame that has arrived at an interface with no switch behind it. */
  datatype Arrived = Arrived(n: nat, port: uint16, frame: Frame)

  ghost function SwitchAt(net: Net, n: nat): Switch
    requires n < |net.hist|
  {
    Replay(Standard, EMPTY, Log(net.hist[n]))
  }

  predicate HangsOn(t: Tree, c: nat, n: nat, p: uint32) {
    0 < c < |t.attach| && t.attach[c].parent == n && t.attach[c].port == p
  }

  /** All arrivals that come of a frame entering switch n.  A copy is not sent back to the
      interface that the frame came from, nor to one that does not exist. */
  ghost function Spread(t: Tree, net: Net, n: nat, ingress: uint16, f: Frame): multiset<Arrived>
    requires TreeOk(t) && Sized(t, net) && n < |t.attach|
    decreases |t.attach| - n, 1, 0
  {
    SpreadCopies(t, net, n, ingress, Copies(SwitchAt(net, n), f))
  }

  ghost function SpreadCopies(t: Tree, net: Net, n: nat, ingress: uint16, copies: seq<Copy>): multiset<Arrived>
    requires TreeOk(t) && Sized(t, net) && n < |t.attach|
    decreases |t.attach| - n, 0, |copies|
  {
    if copies == [] then multiset{}
    else SpreadCopy(t, net, n, ingress, copies[0]) + SpreadCopies(t, net, n, ingress, copies[1..])
  }

  ghost function SpreadCopy(t: Tree, net: Net, n: nat, ingress: uint16, copy: Copy): multiset<Arrived>
    requires TreeOk(t) && Sized(t, net) && n < |t.attach|
    decreases |t.attach| - n, 0, 0
  {
    if copy.port == ingress || copy.port >= 0x1_0000 then multiset{}
    else if c: nat :| HangsOn(t, c, n, copy.port) then Spread(t, net, c, t.attach[c].up, copy.frame)
    else multiset{Arrived(n, copy.port, copy.frame)}
  }

  /** The tables follow the agents. */
  ghost predicate Ready(t: Tree, net: Net)
    ensures Ready(t, net) ==> Sized(t, net) && TreeOk(t)
  {
    && Sized(t, net) && TreeOk(t)
    && forall n :: 0 <= n < |t.attach| ==>
         NodeOk(t, n, AgentAt(net, n)) && Inv(AgentAt(net, n)) && Agrees(SwitchAt(net, n), AgentAt(net, n))
  }

  lemma ReadyAt(t: Tree, net: Net, n: nat)
    requires Ready(t, net) && n < |t.attach|
    ensures NodeOk(t, n, AgentAt(net, n)) && Inv(AgentAt(net, n)) && Agrees(SwitchAt(net, n), AgentAt(net, n))
    ensures Filed(AgentAt(net, n))
  {
    hide Run, SwitchAt, Agrees, Ordered;
  }

  // ---------- what the agents ask for ----------

  predicate OfTree(t: Tree, f: Frame) {
    IsUdp(f) && f.srcIp == t.ip && f.srcPort == t.srcPort && f.dstPort == t.dstPort
  }

  /** The copies that the agent's group calls for: one for each bucket, unless the frame is
      addressed to a source of one of the agent's groups. */
  function CopiesOut(a: Agent, ip: uint32, f: Frame): seq<Copy> {
    if ip in a.store && f.dstIp !in a.store then EmitAll(a.store[ip].buckets, f) else []
  }

  /** The frames among the copies for port p. */
  function SentTo(copies: seq<Copy>, p: uint16): seq<Frame> {
    if copies == [] then []
    else (if copies[0].port == p then [copies[0].frame] else []) + SentTo(copies[1..], p)
  }

  function AllSentTo(a: Agent, ip: uint32, fs: seq<Frame>, p: uint16): seq<Frame> {
    if fs == [] then [] else SentTo(CopiesOut(a, ip, fs[0]), p) + AllSentTo(a, ip, fs[1..], p)
  }

  /** The frames that enter switch m, when f enters the root. */
  function FramesAt(t: Tree, net: Net, f: Frame, m: nat): seq<Frame>
    requires TreeOk(t) && Sized(t, net) && m < |t.attach|
    decreases m
  {
    if m == 0 then [f]
    else AllSentTo(AgentAt(net, t.attach[m].parent), t.ip, FramesAt(t, net, f, t.attach[m].parent), t.attach[m].port)
  }

  // ---------- the tables do what the agents ask for ----------

  /** The buckets of a group stand for its members, in some order. */
  lemma MembersInOrder(t: Tree, n: nat, a: Agent) returns (order: seq<uint16>)
    requires n < |t.attach| && NodeOk(t, n, a) && Inv(a) && t.ip in a.store
    ensures forall i :: i in order <==> i in a.store[t.ip].members
    ensures forall k, l :: 0 <= k < l < |order| ==> order[k] != order[l]
    ensures forall f :: EmitAll(a.store[t.ip].buckets, f) == CopiesTo(a.store[t.ip].members, order, f)
    ensures forall i :: i in order ==>
              a.store[t.ip].members[i].intf == i % 0x100 && a.store[t.ip].members[i].udpPort == t.dstPort
  {
    hide BucketFor, EmitAll, CopiesTo;
    var s := a.store[t.ip];
    order :| Ordered(s, order);
    forall k | 0 <= k < |order|
      ensures order[k] in s.members && s.members[order[k]].bucketIndex == k
      ensures s.buckets[k] == BucketFor(s.members[order[k]])
    {
      assert MemberAt(s, order, k);
    }
    forall f ensures EmitAll(s.buckets, f) == CopiesTo(s.members, order, f) {
      EmitAllOrdered(s.members, order, s.buckets, f);
    }
    forall i | i in order ensures s.members[i].intf == i % 0x100 && s.members[i].udpPort == t.dstPort {
      assert MemberAt(s, order, s.members[i].bucketIndex);
    }
  }

  lemma {:induction false} CopiesKeepSource(members: map<uint16, Member>, order: seq<uint16>, t: Tree, f: Frame)
    requires OfTree(t, f) && forall i :: i in order ==> i in members && members[i].udpPort == t.dstPort
    ensures forall c :: c in CopiesTo(members, order, f) ==> OfTree(t, c.frame) && c.port < 0x100
  {
    if order != [] { CopiesKeepSource(members, order[1..], t, f); }
  }

  lemma CopiesOutKeepSource(t: Tree, n: nat, a: Agent, f: Frame)
    requires n < |t.attach| && NodeOk(t, n, a) && Inv(a) && OfTree(t, f)
    ensures forall c :: c in CopiesOut(a, t.ip, f) ==> OfTree(t, c.frame) && c.port < 0x100
  {
    hide EmitAll, CopiesTo, OfTree, NodeOk, Inv;
    if t.ip in a.store && f.dstIp !in a.store {
      var order := MembersInOrder(t, n, a);
      CopiesKeepSource(a.store[t.ip].members, order, t, f);
    }
  }

  lemma {:induction false} CopiesHavePorts(members: map<uint16, Member>, order: seq<uint16>, f: Frame)
    requires forall i :: i in order ==> i in members
    ensures forall c :: c in CopiesTo(members, order, f) ==> c.port < 0x100
  {
    if order != [] { CopiesHavePorts(members, order[1..], f); }
  }

  lemma CopiesOutKeepPorts(t: Tree, n: nat, a: Agent, f: Frame)
    requires n < |t.attach| && NodeOk(t, n, a) && Inv(a)
    ensures forall c :: c in CopiesOut(a, t.ip, f) ==> c.port < 0x100
  {
    hide EmitAll, CopiesTo, NodeOk, Inv;
    if t.ip in a.store && f.dstIp !in a.store {
      var order := MembersInOrder(t, n, a);
      CopiesHavePorts(a.store[t.ip].members, order, f);
    }
  }

  lemma InactiveIsEmpty(a: Agent, ip: uint32)
    requires Inv(a) && ip in a.store && !Active(a.store[ip])
    ensures a.store[ip].buckets == []
  {}

  /** A frame of the source spreads as the agent's group asks. */
  lemma SpreadAsAsked(t: Tree, net: Net, n: nat, ingress: uint16, f: Frame)
    requires Ready(t, net) && n < |t.attach| && OfTree(t, f)
    ensures Spread(t, net, n, ingress, f) == SpreadCopies(t, net, n, ingress, CopiesOut(AgentAt(net, n), t.ip, f))
  {
    hide Run, SwitchAt, Copies, Agrees, Inv, EmitAll, Ready, SpreadCopy, NodeOk;
    var a := AgentAt(net, n);
    ReadyAt(t, net, n);
    assert SpreadCopies(t, net, n, ingress, []) == multiset{};
    if f.dstIp in a.store {
      AddressedToSource(SwitchAt(net, n), a, f);
      OffTheWire(t, net, n, ingress, Copy(OFPP_CONTROLLER, f));
    } else if t.ip !in a.store {
      OthersAreDropped(SwitchAt(net, n), a, f);
    } else {
      SamePortsFromSource(t, n, a, f);
      FromSourceCopies(SwitchAt(net, n), a, t.ip, f);
      if !Active(a.store[t.ip]) {
        InactiveIsEmpty(a, t.ip);
        EmitNone(f);
      }
    }
  }

  lemma EmitNone(f: Frame)
    ensures EmitAll([], f) == []
  {}

  lemma SamePortsFromSource(t: Tree, n: nat, a: Agent, f: Frame)
    requires n < |t.attach| && NodeOk(t, n, a) && Filed(a) && t.ip in a.store && OfTree(t, f)
    ensures FromSource(a.store[t.ip].mcg, f)
  {}

  lemma OffTheWire(t: Tree, net: Net, n: nat, ingress: uint16, copy: Copy)
    requires Sized(t, net) && TreeOk(t) && n < |t.attach| && copy.port >= 0x1_0000
    ensures SpreadCopies(t, net, n, ingress, [copy]) == multiset{}
  {
    assert [copy][1..] == [];
  }

  // ---------- where copies arrive ----------

  lemma {:induction false} UnderIsAbove(t: Tree, n: nat, m: nat)
    requires TreeOk(t) && m < |t.attach| && Under(t, n, m)
    ensures n <= m
    decreases m
  {
    if m != n { UnderIsAbove(t, n, t.attach[m].parent); }
  }

  /** A switch is below one child only. */
  lemma {:induction false} UnderOneChild(t: Tree, n: nat, c: nat, d: nat, m: nat)
    requires TreeOk(t) && 0 < c < |t.attach| && 0 < d < |t.attach| && m < |t.attach|
    requires t.attach[c].parent == n && t.attach[d].parent == n && Under(t, c, m) && Under(t, d, m)
    ensures c == d
    decreases m
  {
    if m == c {
      if d != c { UnderIsAbove(t, d, n); }
    } else if m == d {
      UnderIsAbove(t, c, n);
    } else {
      UnderOneChild(t, n, c, d, t.attach[m].parent);
    }
  }

  /** Whatever comes of a copy arrives at a host interface of the switch or below it. */
  lemma {:induction false} ArrivesBelow(t: Tree, net: Net, n: nat, ingress: uint16, f: Frame, x: Arrived)
    requires TreeOk(t) && Sized(t, net) && n < |t.attach| && (n > 0 ==> ingress == t.attach[n].up)
    requires x in Spread(t, net, n, ingress, f)
    ensures x.n < |t.attach| && Under(t, n, x.n) && HostPort(t, x.n, x.port) && (x.n == n ==> x.port != ingress)
    decreases |t.attach| - n, 2, 0
  {
    hide Run, Copies, SwitchAt;
    CopiesArriveBelow(t, net, n, ingress, Copies(SwitchAt(net, n), f), x);
  }

  lemma {:induction false} CopiesArriveBelow(t: Tree, net: Net, n: nat, ingress: uint16, copies: seq<Copy>, x: Arrived)
    requires TreeOk(t) && Sized(t, net) && n < |t.attach| && (n > 0 ==> ingress == t.attach[n].up)
    requires x in SpreadCopies(t, net, n, ingress, copies)
    ensures x.n < |t.attach| && Under(t, n, x.n) && HostPort(t, x.n, x.port) && (x.n == n ==> x.port != ingress)
    decreases |t.attach| - n, 1, |copies|
  {
    hide Spread, SpreadCopy, HostPort, TreeOk;
    if x in SpreadCopy(t, net, n, ingress, copies[0]) { CopyArrivesBelow(t, net, n, ingress, copies[0], x); }
    else { CopiesArriveBelow(t, net, n, ingress, copies[1..], x); }
  }

  lemma {:induction false} CopyArrivesBelow(t: Tree, net: Net, n: nat, ingress: uint16, copy: Copy, x: Arrived)
    requires TreeOk(t) && Sized(t, net) && n < |t.attach| && (n > 0 ==> ingress == t.attach[n].up)
    requires x in SpreadCopy(t, net, n, ingress, copy)
    ensures x.n < |t.attach| && Under(t, n, x.n) && HostPort(t, x.n, x.port) && (x.n == n ==> x.port != ingress)
    decreases |t.attach| - n, 0, 0
  {
    hide Spread;
    if c: nat :| HangsOn(t, c, n, copy.port) {
      forall d: nat | HangsOn(t, d, n, copy.port) ensures d == c { OnlyChild(t, c, d); }
      ArrivesBelow(t, net, c, t.attach[c].up, copy.frame, x);
      UnderChild(t, n, c, x.n);
      UnderIsAbove(t, c, x.n);
    } else {
      forall d | 0 < d < |t.attach| && t.attach[d].parent == n ensures t.attach[d].port != x.port {
        assert !HangsOn(t, d, n, copy.port);
      }
    }
  }

  /** The arrivals of several frames that enter switch n. */
  ghost function SpreadAll(t: Tree, net: Net, n: nat, ingress: uint16, fs: seq<Frame>): multiset<Arrived>
    requires TreeOk(t) && Sized(t, net) && n < |t.attach|
  {
    if fs == [] then multiset{} else Spread(t, net, n, ingress, fs[0]) + SpreadAll(t, net, n, ingress, fs[1..])
  }

  lemma {:induction false} SpreadAllConcat(t: Tree, net: Net, n: nat, ingress: uint16, fs: seq<Frame>, gs: seq<Frame>)
    requires TreeOk(t) && Sized(t, net) && n < |t.attach|
    ensures SpreadAll(t, net, n, ingress, fs + gs) ==
            SpreadAll(t, net, n, ingress, fs) + SpreadAll(t, net, n, ingress, gs)
    decreases |fs|
  {
    hide Spread, TreeOk;
    if fs == [] {
      assert fs + gs == gs;
    } else {
      assert (fs + gs)[1..] == fs[1..] + gs;
      SpreadAllConcat(t, net, n, ingress, fs[1..], gs);
    }
  }

  /** What one copy brings to a place below child c. */
  lemma CopyBelowChild(t: Tree, net: Net, n: nat, ingress: uint16, copy: Copy, c: nat, x: Arrived)
    requires TreeOk(t) && Sized(t, net) && n < |t.attach| && 0 < c < |t.attach| && t.attach[c].parent == n
    requires ingress != t.attach[c].port && x.n < |t.attach| && Under(t, c, x.n)
    ensures SpreadCopy(t, net, n, ingress, copy)[x] ==
            if copy.port == t.attach[c].port then Spread(t, net, c, t.attach[c].up, copy.frame)[x] else 0
  {
    hide Spread;
    UnderIsAbove(t, c, x.n);
    if copy.port == t.attach[c].port {
      assert HangsOn(t, c, n, copy.port);
      forall d: nat | HangsOn(t, d, n, copy.port) ensures d == c { OnlyChild(t, c, d); }
    } else {
      forall d: nat | HangsOn(t, d, n, copy.port) ensures x !in Spread(t, net, d, t.attach[d].up, copy.frame) {
        if x in Spread(t, net, d, t.attach[d].up, copy.frame) {
          ArrivesBelow(t, net, d, t.attach[d].up, copy.frame, x);
          UnderOneChild(t, n, c, d, x.n);
        }
      }
    }
  }

  /** What the copies bring to a place below child c is what those for its port bring there. */
  lemma {:induction false} CopiesBelowChild(t: Tree, net: Net, n: nat, ingress: uint16, copies: seq<Copy>, c: nat,
                                            x: Arrived)
    requires TreeOk(t) && Sized(t, net) && n < |t.attach| && 0 < c < |t.attach| && t.attach[c].parent == n
    requires ingress != t.attach[c].port && x.n < |t.attach| && Under(t, c, x.n)
    ensures SpreadCopies(t, net, n, ingress, copies)[x] ==
            SpreadAll(t, net, c, t.attach[c].up, SentTo(copies, t.attach[c].port))[x]
    decreases |copies|
  {
    hide Spread, SpreadCopy, TreeOk, Under;
    if copies != [] {
      CopyBelowChild(t, net, n, ingress, copies[0], c, x);
      CopiesBelowChild(t, net, n, ingress, copies[1..], c, x);
      if copies[0].port == t.attach[c].port {
        var rest := SentTo(copies[1..], t.attach[c].port);
        assert ([copies[0].frame] + rest)[1..] == rest;
      } else {
        assert SentTo(copies, t.attach[c].port) == SentTo(copies[1..], t.attach[c].port);
      }
    }
  }

  /** What one copy brings to a host interface of the switch itself. */
  lemma CopyAtHost(t: Tree, net: Net, n: nat, ingress: uint16, copy: Copy, x: Arrived)
    requires TreeOk(t) && Sized(t, net) && x.n == n < |t.attach| && HostPort(t, n, x.port) && x.port != ingress
    ensures SpreadCopy(t, net, n, ingress, copy)[x] == if copy.port == x.port && copy.frame == x.frame then 1 else 0
  {
    hide Spread;
    forall d: nat | HangsOn(t, d, n, copy.port) ensures x !in Spread(t, net, d, t.attach[d].up, copy.frame) {
      if x in Spread(t, net, d, t.attach[d].up, copy.frame) {
        ArrivesBelow(t, net, d, t.attach[d].up, copy.frame, x);
        UnderIsAbove(t, d, n);
      }
    }
  }

  lemma {:induction false} CopiesAtHost(t: Tree, net: Net, n: nat, ingress: uint16, copies: seq<Copy>, x: Arrived)
    requires TreeOk(t) && Sized(t, net) && x.n == n < |t.attach| && HostPort(t, n, x.port) && x.port != ingress
    ensures SpreadCopies(t, net, n, ingress, copies)[x] == multiset(SentTo(copies, x.port))[x.frame]
    decreases |copies|
  {
    hide Spread, SpreadCopy, TreeOk, HostPort;
    if copies != [] {
      CopyAtHost(t, net, n, ingress, copies[0], x);
      CopiesAtHost(t, net, n, ingress, copies[1..], x);
    }
  }

  // ---------- from the root to every place ----------

  function Ingress(t: Tree, n: nat, from: uint16): uint16
    requires n < |t.attach|
  {
    if n == 0 then from else t.attach[n].up
  }

  lemma {:induction false} SentToMembers(copies: seq<Copy>, p: uint16, g: Frame)
    requires g in SentTo(copies, p)
    ensures exists c :: c in copies && c.frame == g
  {
    if copies[0].port == p && copies[0].frame == g { assert copies[0] in copies; }
    else {
      SentToMembers(copies[1..], p, g);
      assert forall c :: c in copies[1..] ==> c in copies;
    }
  }

  lemma {:induction false} AllOfTree(t: Tree, n: nat, a: Agent, fs: seq<Frame>, p: uint16)
    requires n < |t.attach| && NodeOk(t, n, a) && Inv(a) && forall f :: f in fs ==> OfTree(t, f)
    ensures forall g :: g in AllSentTo(a, t.ip, fs, p) ==> OfTree(t, g)
  {
    hide NodeOk, Inv, CopiesOut, OfTree;
    if fs != [] {
      AllOfTree(t, n, a, fs[1..], p);
      CopiesOutKeepSource(t, n, a, fs[0]);
      forall g | g in SentTo(CopiesOut(a, t.ip, fs[0]), p) ensures OfTree(t, g) {
        SentToMembers(CopiesOut(a, t.ip, fs[0]), p, g);
      }
    }
  }

  lemma {:induction false} FramesOfTree(t: Tree, net: Net, f: Frame, m: nat)
    requires Ready(t, net) && m < |t.attach| && OfTree(t, f)
    ensures forall g :: g in FramesAt(t, net, f, m) ==> OfTree(t, g)
    decreases m
  {
    hide Run, NodeOk, Inv, Agrees, OfTree, AllSentTo, Ready, SwitchAt;
    if m > 0 {
      var up := t.attach[m].parent;
      ReadyAt(t, net, up);
      FramesOfTree(t, net, f, up);
      AllOfTree(t, up, AgentAt(net, up), FramesAt(t, net, f, up), t.attach[m].port);
    }
  }

  /** Frames that enter switch n bring to a place below child c what they send to it. */
  lemma {:induction false} FramesBelowChild(t: Tree, net: Net, n: nat, ingress: uint16, fs: seq<Frame>, c: nat,
                                            x: Arrived)
    requires Ready(t, net) && n < |t.attach| && 0 < c < |t.attach| && t.attach[c].parent == n
    requires ingress != t.attach[c].port && x.n < |t.attach| && Under(t, c, x.n)
    requires forall f :: f in fs ==> OfTree(t, f)
    ensures SpreadAll(t, net, n, ingress, fs)[x] ==
            SpreadAll(t, net, c, t.attach[c].up, AllSentTo(AgentAt(net, n), t.ip, fs, t.attach[c].port))[x]
    decreases |fs|
  {
    hide Run, Spread, SpreadCopies, Ready, TreeOk, OfTree, CopiesOut, SentTo, Under;
    if fs != [] {
      var copies := CopiesOut(AgentAt(net, n), t.ip, fs[0]);
      SpreadAsAsked(t, net, n, ingress, fs[0]);
      CopiesBelowChild(t, net, n, ingress, copies, c, x);
      FramesBelowChild(t, net, n, ingress, fs[1..], c, x);
      SpreadAllConcat(t, net, c, t.attach[c].up, SentTo(copies, t.attach[c].port),
                      AllSentTo(AgentAt(net, n), t.ip, fs[1..], t.attach[c].port));
    }
  }

  lemma {:induction false} FramesAtHost(t: Tree, net: Net, n: nat, ingress: uint16, fs: seq<Frame>, x: Arrived)
    requires Ready(t, net) && x.n == n < |t.attach| && HostPort(t, n, x.port) && x.port != ingress
    requires forall f :: f in fs ==> OfTree(t, f)
    ensures SpreadAll(t, net, n, ingress, fs)[x] ==
            multiset(AllSentTo(AgentAt(net, n), t.ip, fs, x.port))[x.frame]
    decreases |fs|
  {
    hide Run, Spread, SpreadCopies, Ready, TreeOk, OfTree, CopiesOut, SentTo, HostPort;
    if fs != [] {
      SpreadAsAsked(t, net, n, ingress, fs[0]);
      CopiesAtHost(t, net, n, ingress, CopiesOut(AgentAt(net, n), t.ip, fs[0]), x);
      FramesAtHost(t, net, n, ingress, fs[1..], x);
    }
  }

  /** What arrives at a place below m is what the frames that enter m bring there. */
  lemma {:induction false} FramesCarryOn(t: Tree, net: Net, f: Frame, from: uint16, m: nat, x: Arrived)
    requires Ready(t, net) && OfTree(t, f) && HostPort(t, 0, from)
    requires m < |t.attach| && x.n < |t.attach| && Under(t, m, x.n)
    ensures Spread(t, net, 0, from, f)[x] == SpreadAll(t, net, m, Ingress(t, m, from), FramesAt(t, net, f, m))[x]
    decreases m
  {
    hide Run, Spread, Ready, OfTree, AllSentTo;
    if m > 0 {
      var up := t.attach[m].parent;
      UnderChild(t, up, m, x.n);
      FramesCarryOn(t, net, f, from, up, x);
      FramesOfTree(t, net, f, up);
      assert up > 0 ==> !UpwardPort(t, up, m);
      FramesBelowChild(t, net, up, Ingress(t, up, from), FramesAt(t, net, f, up), m, x);
    } else {
      assert [f][1..] == [];
    }
  }

  /** At any time and for members on any interfaces: a frame of the source that enters the root
      on interface `from` arrives at a host interface as often as the agents on the way to it
      ask for, each bucket sending to its member's interface modulo 256, and nowhere else. */
  lemma SpreadExact(t: Tree, net: Net, f: Frame, from: uint16, x: Arrived)
    requires Ready(t, net) && OfTree(t, f) && HostPort(t, 0, from)
    ensures Spread(t, net, 0, from, f)[x] ==
            if x.n < |t.attach| && HostPort(t, x.n, x.port) && (x.n == 0 ==> x.port != from)
            then multiset(AllSentTo(AgentAt(net, x.n), t.ip, FramesAt(t, net, f, x.n), x.port))[x.frame]
            else 0
  {
    hide Run, Spread, Ready, OfTree, AllSentTo, FramesAt, Under;
    if x in Spread(t, net, 0, from, f) { ArrivesBelow(t, net, 0, from, f, x); }
    if x.n < |t.attach| && HostPort(t, x.n, x.port) && (x.n == 0 ==> x.port != from) {
      UnderRoot(t, x.n);
      UnderItself(t, x.n);
      FramesCarryOn(t, net, f, from, x.n, x);
      FramesOfTree(t, net, f, x.n);
      FramesAtHost(t, net, x.n, Ingress(t, x.n, from), FramesAt(t, net, f, x.n), x);
    }
  }

  lemma UnderItself(t: Tree, m: nat)
    requires TreeOk(t) && m < |t.attach|
    ensures Under(t, m, m)
  {}

  lemma {:induction false} UnderRoot(t: Tree, m: nat)
    requires TreeOk(t) && m < |t.attach|
    ensures Under(t, 0, m)
  {
    if m > 0 { UnderRoot(t, t.attach[m].parent); }
  }

  // ---------- interfaces from 256 on ----------

  lemma {:induction false} NothingSentTo(copies: seq<Copy>, p: uint16)
    requires forall c :: c in copies ==> c.port != p
    ensures SentTo(copies, p) == []
  {
    if copies != [] {
      assert copies[0] in copies;
      NothingSentTo(copies[1..], p);
    }
  }

  lemma {:induction false} NothingSentWide(t: Tree, n: nat, a: Agent, fs: seq<Frame>, p: uint16)
    requires n < |t.attach| && NodeOk(t, n, a) && Inv(a) && p >= 0x100 && forall f :: f in fs ==> OfTree(t, f)
    ensures AllSentTo(a, t.ip, fs, p) == []
  {
    hide NodeOk, Inv, CopiesOut, OfTree;
    if fs != [] {
      CopiesOutKeepSource(t, n, a, fs[0]);
      NothingSentTo(CopiesOut(a, t.ip, fs[0]), p);
      NothingSentWide(t, n, a, fs[1..], p);
    }
  }

  /** Some interface on the way to interface p of switch m does not fit in eight bits. */
  predicate WideOnTheWay(t: Tree, m: nat, p: uint16)
    requires TreeOk(t) && m < |t.attach|
    decreases m
  {
    p >= 0x100 || (m > 0 && WideOnTheWay(t, t.attach[m].parent, t.attach[m].port))
  }

  lemma {:induction false} WideWayIsEmpty(t: Tree, net: Net, f: Frame, m: nat, p: uint16)
    requires Ready(t, net) && OfTree(t, f) && m < |t.attach| && WideOnTheWay(t, m, p)
    ensures AllSentTo(AgentAt(net, m), t.ip, FramesAt(t, net, f, m), p) == []
    decreases m
  {
    hide Run, Ready, OfTree, NodeOk, Inv, SwitchAt, Agrees;
    if p >= 0x100 {
      ReadyAt(t, net, m);
      FramesOfTree(t, net, f, m);
      NothingSentWide(t, m, AgentAt(net, m), FramesAt(t, net, f, m), p);
    } else {
      WideWayIsEmpty(t, net, f, t.attach[m].parent, t.attach[m].port);
    }
  }

  /** Nothing ever arrives behind an interface from 256 on, whoever joined there. */
  lemma WideIsNotServed(t: Tree, net: Net, f: Frame, from: uint16, x: Arrived)
    requires Ready(t, net) && OfTree(t, f) && HostPort(t, 0, from) && x.n < |t.attach| && WideOnTheWay(t, x.n, x.port)
    ensures x !in Spread(t, net, 0, from, f)
  {
    hide Run, Spread, Ready, OfTree, AllSentTo, FramesAt, WideOnTheWay, HostPort;
    SpreadExact(t, net, f, from, x);
    WideWayIsEmpty(t, net, f, x.n, x.port);
  }
}
