/** Delivery once the network is at rest: every joined host gets its own copy, once, and nobody
    else gets anything, except where a frame is taken for a request to another source or an
    interface on the way does not fit in eight bits. */
module McExactDelivery {
  import opened Wrappers
  import opened OpenFlow13
  import opened McGroup
  import opened McAgentSpec
  import opened McReplay
  import opened McReplayRuns
  import opened McHistory
  import opened McTree
  import opened McLosses
  import opened McTreeRuns
  import opened McDelivery

  // ---------- one frame at a time ----------

  /** Interface i is a member, and the frame is not addressed to a source of the switch's own
      groups, so that the buckets see it. */
  predicate Passes(a: Agent, ip: uint32, i: uint16, f: Frame) { MemberOf(a, ip, i) && f.dstIp !in a.store }

  /** The frame as the bucket of interface i sends it: addressed as the join asked. */
  function Readdressed(a: Agent, ip: uint32, i: uint16, f: Frame): Frame
    requires MemberOf(a, ip, i)
  {
    CopyFor(a.store[ip].members[i], f).frame
  }

  function PassedOn(a: Agent, ip: uint32, i: uint16, f: Option<Frame>): Option<Frame> {
    if f.Some? && Passes(a, ip, i, f.value) then Some(Readdressed(a, ip, i, f.value)) else None
  }

  /** The frame that is meant to enter switch m, when f enters the root. */
  function FrameAt(t: Tree, net: Net, f: Frame, m: nat): Option<Frame>
    requires TreeOk(t) && Sized(t, net) && m < |t.attach|
    decreases m
  {
    if m == 0 then Some(f)
    else PassedOn(AgentAt(net, t.attach[m].parent), t.ip, t.attach[m].port, FrameAt(t, net, f, t.attach[m].parent))
  }

  function Frames(f: Option<Frame>): seq<Frame> { if f.Some? then [f.value] else [] }

  /** The member on interface p, if any, is the only one whose bucket sends to p. */
  ghost predicate Unaliased(a: Agent, ip: uint32, p: uint16) {
    forall i: uint16 :: MemberOf(a, ip, i) ==> (i % 0x100 == p <==> i == p)
  }

  /** So it is on the whole way to interface p of switch m, at the interfaces that it takes. */
  ghost predicate WayUnaliased(t: Tree, net: Net, m: nat, p: uint16)
    requires TreeOk(t) && Sized(t, net) && m < |t.attach|
    decreases m
  {
    Unaliased(AgentAt(net, m), t.ip, p) && (m > 0 ==> WayUnaliased(t, net, t.attach[m].parent, t.attach[m].port))
  }

  lemma {:induction false} OneForMember(members: map<uint16, Member>, order: seq<uint16>, f: Frame, p: uint16)
    requires forall i :: i in order ==> i in members && members[i].intf == i % 0x100 && (i % 0x100 == p <==> i == p)
    requires forall k, l :: 0 <= k < l < |order| ==> order[k] != order[l]
    ensures SentTo(CopiesTo(members, order, f), p) == if p in order then [CopyFor(members[p], f).frame] else []
  {
    if order != [] {
      var head, rest := CopyFor(members[order[0]], f), CopiesTo(members, order[1..], f);
      OneForMember(members, order[1..], f, p);
      assert ([head] + rest)[1..] == rest;
      assert p in order <==> p == order[0] || p in order[1..];
    }
  }

  /** Each member whose bucket sends to p adds a frame. */
  lemma {:induction false} SomeForMember(members: map<uint16, Member>, order: seq<uint16>, f: Frame, p: uint16,
                                        i: uint16)
    requires i in order && i % 0x100 == p
    requires forall j :: j in order ==> j in members && members[j].intf == j % 0x100
    ensures |SentTo(CopiesTo(members, order, f), p)| >= 1
  {
    var head, rest := CopyFor(members[order[0]], f), CopiesTo(members, order[1..], f);
    assert ([head] + rest)[1..] == rest;
    if order[0] != i { SomeForMember(members, order[1..], f, p, i); }
  }

  lemma {:induction false} TwoForMembers(members: map<uint16, Member>, order: seq<uint16>, f: Frame, p: uint16,
                                         i: uint16, j: uint16)
    requires i in order && j in order && i != j && i % 0x100 == p && j % 0x100 == p
    requires forall k :: k in order ==> k in members && members[k].intf == k % 0x100
    ensures |SentTo(CopiesTo(members, order, f), p)| >= 2
  {
    var head, rest := CopyFor(members[order[0]], f), CopiesTo(members, order[1..], f);
    assert ([head] + rest)[1..] == rest;
    if order[0] == i { SomeForMember(members, order[1..], f, p, j); }
    else if order[0] == j { SomeForMember(members, order[1..], f, p, i); }
    else { TwoForMembers(members, order[1..], f, p, i, j); }
  }

  /** A switch sends a frame that its buckets see to the member on p once, or to p not at all
      without such a member, exactly when no other member's bucket sends there and p is no
      interface from 256 on with a member. */
  lemma OneToMemberIff(t: Tree, n: nat, a: Agent, f: Frame, p: uint16)
    requires n < |t.attach| && NodeOk(t, n, a) && Inv(a) && t.ip in a.store && f.dstIp !in a.store
    ensures SentTo(CopiesOut(a, t.ip, f), p) == Frames(PassedOn(a, t.ip, p, Some(f))) <==> Unaliased(a, t.ip, p)
  {
    hide EmitAll, CopiesTo, SentTo, NodeOk, Inv, CopyFor;
    var order := MembersInOrder(t, n, a);
    var members := a.store[t.ip].members;
    if Unaliased(a, t.ip, p) {
      forall i | i in order ensures i % 0x100 == p <==> i == p { assert MemberOf(a, t.ip, i); }
      OneForMember(members, order, f, p);
    } else {
      var i: uint16 :| MemberOf(a, t.ip, i) && !(i % 0x100 == p <==> i == p);
      if i == p {
        CopiesOutKeepPorts(t, n, a, f);
        NothingSentTo(CopiesOut(a, t.ip, f), p);
      } else if p in members {
        if p < 0x100 { TwoForMembers(members, order, f, p, i, p); }
      } else {
        SomeForMember(members, order, f, p, i);
      }
    }
  }

  lemma UnaliasedSentTo(t: Tree, n: nat, a: Agent, f: Option<Frame>, p: uint16)
    requires n < |t.attach| && NodeOk(t, n, a) && Inv(a) && Unaliased(a, t.ip, p)
    ensures AllSentTo(a, t.ip, Frames(f), p) == Frames(PassedOn(a, t.ip, p, f))
  {
    hide NodeOk, Inv, Unaliased, CopiesOut, SentTo, PassedOn;
    if f.Some? {
      assert AllSentTo(a, t.ip, [f.value][1..], p) == [];
      if t.ip in a.store && f.value.dstIp !in a.store { OneToMemberIff(t, n, a, f.value, p); }
      else { UnseenIsNotSent(a, t.ip, f.value, p); }
    } else {
      assert PassedOn(a, t.ip, p, f) == None by { NonePassedOn(a, t.ip, p); }
    }
  }

  lemma UnseenIsNotSent(a: Agent, ip: uint32, f: Frame, p: uint16)
    requires ip !in a.store || f.dstIp in a.store
    ensures SentTo(CopiesOut(a, ip, f), p) == [] && PassedOn(a, ip, p, Some(f)) == None
  {}

  lemma NonePassedOn(a: Agent, ip: uint32, i: uint16)
    ensures PassedOn(a, ip, i, None) == None
  {}

  /** With no alias on the way, one frame at most enters a switch. */
  lemma {:induction false} OneFrameAt(t: Tree, net: Net, f: Frame, m: nat)
    requires Ready(t, net) && m < |t.attach|
    requires m > 0 ==> WayUnaliased(t, net, t.attach[m].parent, t.attach[m].port)
    ensures FramesAt(t, net, f, m) == Frames(FrameAt(t, net, f, m))
    decreases m
  {
    hide Run, Ready, NodeOk, Inv, AllSentTo, PassedOn, Unaliased;
    if m > 0 {
      var up := t.attach[m].parent;
      ReadyAt(t, net, up);
      OneFrameAt(t, net, f, up);
      UnaliasedSentTo(t, up, AgentAt(net, up), FrameAt(t, net, f, up), t.attach[m].port);
    }
  }

  /** All members are on interfaces below 256. */
  ghost predicate SmallMembers(t: Tree, net: Net)
    requires Sized(t, net)
  {
    forall n, i: uint16 :: 0 <= n < |t.attach| && MemberOf(AgentAt(net, n), t.ip, i) ==> i < 0x100
  }

  lemma {:induction false} SmallWayUnaliased(t: Tree, net: Net, m: nat, p: uint16)
    requires TreeOk(t) && Sized(t, net) && m < |t.attach| && SmallMembers(t, net)
    ensures WayUnaliased(t, net, m, p)
    decreases m
  {
    hide Run;
    if m > 0 { SmallWayUnaliased(t, net, t.attach[m].parent, t.attach[m].port); }
  }

  // ---------- at rest ----------

  /** Host interface i of switch m has joined and not left, and is not where the source is. */
  ghost predicate Receiver(t: Tree, net: Net, from: uint16, m: nat, i: uint16)
    requires Sized(t, net)
  {
    m < |t.attach| && HostPort(t, m, i) && HasJoined(t, net.hist[m], i) && (m == 0 ==> i != from)
  }

  /** The destination address with which the frame comes to switch m. */
  function AddressAt(t: Tree, net: Net, f: Frame, m: nat): uint32
    requires Sized(t, net) && TreeOk(t) && m < |t.attach|
  {
    if m == 0 then f.dstIp
    else
      var up := t.attach[m].parent;
      if MemberOf(AgentAt(net, up), t.ip, t.attach[m].port)
      then AgentAt(net, up).store[t.ip].members[t.attach[m].port].destIp else 0
  }

  /** On its way to switch m and there, the frame is never addressed to a source of which the
      switch knows: it would match the hook flow of that source's group. */
  predicate Clear(t: Tree, net: Net, f: Frame, m: nat)
    requires Sized(t, net) && TreeOk(t) && m < |t.attach|
    decreases m
  {
    AddressAt(t, net, f, m) !in AgentAt(net, m).store && (m > 0 ==> Clear(t, net, f, t.attach[m].parent))
  }

  /** No link on the way from the root to switch m is behind. */
  predicate NoneBehind(t: Tree, net: Net, m: nat)
    requires Sized(t, net) && TreeOk(t) && m < |t.attach|
    decreases m
  {
    m > 0 ==> !Behind(t, net, m) && NoneBehind(t, net, t.attach[m].parent)
  }

  /** At rest, a switch with members is reached, by a frame that its buckets see, exactly when
      the way is clear and no link on it is behind. */
  lemma {:induction false} ReachedIffClear(t: Tree, net: Net, f: Frame, m: nat)
    requires Sized(t, net) && TreeOk(t) && Settled(t, net) && m < |t.attach| && HasMembers(AgentAt(net, m), t.ip)
    ensures var g := FrameAt(t, net, f, m);
            && (Clear(t, net, f, m) && NoneBehind(t, net, m) <==>
                g.Some? && g.value.dstIp !in AgentAt(net, m).store)
            && (g.Some? ==> g.value.dstIp == AddressAt(t, net, f, m))
    decreases m
  {
    hide Run, Settled, Behind;
    if m > 0 {
      AtRestLink(t, net, m);
      if !Behind(t, net, m) { ReachedIffClear(t, net, f, t.attach[m].parent); }
    }
  }

  /** What the bucket of interface i of switch m makes of the source's frame. */
  ghost predicate AsBucketSends(net: Net, ip: uint32, f: Frame, x: Arrived)
    requires x.n < |net.hist|
  {
    var a := AgentAt(net, x.n);
    MemberOf(a, ip, x.port) && x.frame == Readdressed(a, ip, x.port, f)
  }

  /** The frame is to come to place x, in the form that x says: a host there has joined and not
      left, the way is clear, and no link on it is behind. */
  ghost predicate Due(t: Tree, net: Net, from: uint16, f: Frame, x: Arrived)
    requires Sized(t, net) && TreeOk(t)
  {
    && Receiver(t, net, from, x.n, x.port)
    && Clear(t, net, f, x.n) && NoneBehind(t, net, x.n) && AsBucketSends(net, t.ip, f, x)
  }

  lemma PassedOnIffClear(t: Tree, net: Net, f: Frame, x: Arrived)
    requires Sized(t, net) && TreeOk(t) && Settled(t, net) && x.n < |t.attach|
    ensures PassedOn(AgentAt(net, x.n), t.ip, x.port, FrameAt(t, net, f, x.n)) == Some(x.frame) <==>
            Clear(t, net, f, x.n) && NoneBehind(t, net, x.n) && AsBucketSends(net, t.ip, f, x)
  {
    hide Run, Settled, Clear, NoneBehind, FrameAt;
    if MemberOf(AgentAt(net, x.n), t.ip, x.port) {
      ReachedIffClear(t, net, f, x.n);
      KeepsSource(t, net, f, x.n);
    }
  }

  lemma {:induction false} KeepsSource(t: Tree, net: Net, f: Frame, m: nat)
    requires Sized(t, net) && TreeOk(t) && m < |t.attach|
    ensures var g := FrameAt(t, net, f, m);
            g.Some? ==>
              && g.value.ethType == f.ethType && g.value.proto == f.proto
              && g.value.srcIp == f.srcIp && g.value.srcPort == f.srcPort
    decreases m
  {
    hide Run;
    if m > 0 { KeepsSource(t, net, f, t.attach[m].parent); }
  }

  /** No switch ever had two active groups with one id, or one with a reserved id. */
  ghost predicate IdsHold(t: Tree, net: Net)
    requires Sized(t, net)
  {
    forall n :: 0 <= n < |t.attach| ==> AlwaysUsable(net.hist[n])
  }

  lemma RunIsReady(t: Tree, steps: seq<NetStep>)
    requires TreeOk(t) && IdsHold(t, RunNet(t, steps))
    ensures Ready(t, RunNet(t, steps))
  {
    hide RunNet, Run, Log, AlwaysUsable, Agrees, Inv, NodeOk;
    var net := RunNet(t, steps);
    NodesStayOk(t, steps);
    forall n | 0 <= n < |t.attach|
      ensures NodeOk(t, n, AgentAt(net, n)) && Inv(AgentAt(net, n)) && Agrees(SwitchAt(net, n), AgentAt(net, n))
    {
      RunKeepsInv(net.hist[n]);
      ReplayAccepted(Standard, net.hist[n]);
    }
  }

  lemma JustOne(f: Option<Frame>, g: Frame)
    ensures multiset(Frames(f))[g] == if f == Some(g) then 1 else 0
  {}

  /** A frame of the source that enters the root on host interface `from`, at rest after any
      run, and a place with no alias on the way to it: the frame arrives there exactly once if
      it is due, in the form in which the bucket of that interface sends it, and in no other
      form or number. */
  lemma ExactDelivery(t: Tree, steps: seq<NetStep>, f: Frame, from: uint16, x: Arrived)
    requires TreeOk(t) && Quiet(RunNet(t, steps)) && IdsHold(t, RunNet(t, steps))
    requires OfTree(t, f) && HostPort(t, 0, from)
    requires x.n < |t.attach| ==> WayUnaliased(t, RunNet(t, steps), x.n, x.port)
    ensures var net := RunNet(t, steps);
            Spread(t, net, 0, from, f)[x] == if Due(t, net, from, f, x) then 1 else 0
  {
    hide RunNet, Run, HasJoined, Spread, Settled, HostPort, IdsHold, Ready, Clear, NoneBehind, Quiet;
    hide OfTree, AllSentTo, FramesAt, FrameAt, PassedOn, Unaliased, NodeOk, Inv, AsBucketSends, Frames;
    var net := RunNet(t, steps);
    RestIsSettled(t, steps);
    RunIsReady(t, steps);
    SpreadExact(t, net, f, from, x);
    if x.n < |t.attach| {
      ReadyAt(t, net, x.n);
      OneFrameAt(t, net, f, x.n);
      UnaliasedSentTo(t, x.n, AgentAt(net, x.n), FrameAt(t, net, f, x.n), x.port);
      JustOne(PassedOn(AgentAt(net, x.n), t.ip, x.port, FrameAt(t, net, f, x.n)), x.frame);
      PassedOnIffClear(t, net, f, x);
      if AsBucketSends(net, t.ip, f, x) { SettledMember(t, net, f, x); }
    }
  }

  lemma SettledMember(t: Tree, net: Net, f: Frame, x: Arrived)
    requires Sized(t, net) && TreeOk(t) && Settled(t, net) && x.n < |t.attach| && AsBucketSends(net, t.ip, f, x)
    ensures HasJoined(t, net.hist[x.n], x.port)
  {
    hide Run, HasJoined;
  }

  /** The copy that a joined host gets carries the source's address and ports, and is addressed
      to the sender of the join that began the present membership of its interface. */
  lemma OwnAddress(t: Tree, steps: seq<NetStep>, f: Frame, m: nat, i: uint16) returns (p: int)
    requires TreeOk(t) && OfTree(t, f) && m < |t.attach| && MemberOf(AgentAt(RunNet(t, steps), m), t.ip, i)
    ensures var h := RequestsAt(t, RunNet(t, steps).hist[m]);
            && IsStart(SourceGroup(t), h, p) && h[p].inIntf == i
            && Readdressed(AgentAt(RunNet(t, steps), m), t.ip, i, f) ==
               Frame(0x0800, 17, h[p].smac, t.ip, h[p].sip, t.srcPort, t.dstPort)
  {
    hide RunNet, Run, IsStart, PacketsFor;
    AllEventsFit(t, steps, m);
    p := MemberFromJoin(t, m, RunNet(t, steps).hist[m], i);
  }

  /** Every joined host without an alias on its way gets exactly one copy, of its own, if the way
      is clear and no link on it is behind, and otherwise nothing. */
  lemma JoinedHostIsServed(t: Tree, steps: seq<NetStep>, f: Frame, from: uint16, m: nat, i: uint16) returns (x: Arrived)
    requires TreeOk(t) && Quiet(RunNet(t, steps)) && IdsHold(t, RunNet(t, steps))
    requires OfTree(t, f) && HostPort(t, 0, from) && Receiver(t, RunNet(t, steps), from, m, i)
    requires WayUnaliased(t, RunNet(t, steps), m, i)
    ensures x.n == m && x.port == i
    ensures var net := RunNet(t, steps);
            forall y: Arrived :: y.n == m && y.port == i ==>
              Spread(t, net, 0, from, f)[y] == if y == x && Clear(t, net, f, m) && NoneBehind(t, net, m) then 1 else 0
  {
    hide RunNet, Run, HasJoined, Spread, HostPort, IdsHold, Clear, NoneBehind, Quiet, WayUnaliased, OfTree;
    var net := RunNet(t, steps);
    AllEventsFit(t, steps, m);
    MemberIffJoined(t, m, net.hist[m], i);
    x := Arrived(m, i, Readdressed(AgentAt(net, m), t.ip, i, f));
    forall y: Arrived | y.n == m && y.port == i
      ensures Spread(t, net, 0, from, f)[y] == if y == x && Clear(t, net, f, m) && NoneBehind(t, net, m) then 1 else 0
    {
      ExactDelivery(t, steps, f, from, y);
    }
  }

  /** In a network without members on interfaces from 256 on, this is so at every place. */
  lemma SmallDelivery(t: Tree, steps: seq<NetStep>, f: Frame, from: uint16)
    requires TreeOk(t) && Quiet(RunNet(t, steps)) && IdsHold(t, RunNet(t, steps))
    requires OfTree(t, f) && HostPort(t, 0, from) && SmallMembers(t, RunNet(t, steps))
    ensures var net := RunNet(t, steps);
            forall x :: Spread(t, net, 0, from, f)[x] == if Due(t, net, from, f, x) then 1 else 0
  {
    hide RunNet, Run, HasJoined, Spread, HostPort, IdsHold, Clear, NoneBehind, Quiet, WayUnaliased, OfTree;
    hide SmallMembers, Due;
    var net := RunNet(t, steps);
    forall x ensures Spread(t, net, 0, from, f)[x] == if Due(t, net, from, f, x) then 1 else 0 {
      if x.n < |t.attach| { SmallWayUnaliased(t, net, x.n, x.port); }
      ExactDelivery(t, steps, f, from, x);
    }
  }

  /** A request that arrives at a switch with the group is taken off the wire and handed to the
      agent, whatever else the switch's flows would do with it. */
  lemma RequestReachesAgent(t: Tree, steps: seq<NetStep>, c: nat, f: Frame)
    requires TreeOk(t) && IdsHold(t, RunNet(t, steps)) && Enabled(t, RunNet(t, steps), Deliver(c))
    requires IsUdp(f) && f.dstIp == t.ip && !Lost(t, RunNet(t, steps), Deliver(c))
    ensures t.attach[c].parent < |t.attach|
    ensures Copies(SwitchAt(RunNet(t, steps), t.attach[c].parent), f) == [Copy(OFPP_CONTROLLER, f)]
  {
    hide RunNet, Run, SwitchAt, Copies, Ready, IdsHold;
    ParentBefore(t, c);
    RunIsReady(t, steps);
    ReadyAt(t, RunNet(t, steps), t.attach[c].parent);
    AddressedToSource(SwitchAt(RunNet(t, steps), t.attach[c].parent), AgentAt(RunNet(t, steps), t.attach[c].parent), f);
  }
}
