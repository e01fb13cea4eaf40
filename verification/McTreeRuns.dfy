/** Whole runs of the tree: what a link holds, when nothing is lost, that the traffic of
    joins and leaves dies out, and who is a member once it has. */
module McTreeRuns {
  import opened Wrappers
  import opened OpenFlow13
  import opened McGroup
  import opened McAgentSpec
  import opened McHistory
  import opened McTree
  import opened McLosses

  // ---------- the packets on a link ----------

  /** A membership, updated by requests in their order. */
  function Updated(t: Tree, member: bool, link: seq<PacketIn>): bool
    decreases |link|
  {
    if link == [] then member
    else Updated(t, match Asks(t, link[0]) case Join => true case Leave => false case Other => member, link[1..])
  }

  predicate Alternates(t: Tree, link: seq<PacketIn>) {
    && (forall k :: 0 <= k < |link| ==> Asks(t, link[k]) != Other)
    && (forall k :: 0 < k < |link| ==> Asks(t, link[k - 1]) != Asks(t, link[k]))
  }

  lemma {:induction false} ChainMeaning(t: Tree, before: bool, link: seq<PacketIn>, after: bool)
    requires Chain(t, before, link, after)
    ensures Updated(t, before, link) == after && Alternates(t, link)
    ensures link != [] ==> Asks(t, link[0]) == if before then Leave else Join
    decreases |link|
  {
    hide Asks, ForSource;
    if link != [] {
      ChainMeaning(t, !before, link[1..], after);
      forall k | 0 < k < |link| ensures Asks(t, link[k - 1]) != Asks(t, link[k]) {
        if k > 1 { assert Asks(t, link[1..][k - 2]) != Asks(t, link[1..][k - 1]); }
      }
      forall k | 0 <= k < |link| ensures Asks(t, link[k]) != Other {
        if k > 0 { assert Asks(t, link[1..][k - 1]) != Other; }
      }
    }
  }

  /** In every run the joins and leaves on a link alternate.  The parent's membership of the
      interface below, updated by them, says whether the child has members, except when the
      link is behind and empty. */
  lemma MembershipFollowsChild(t: Tree, steps: seq<NetStep>, c: nat)
    requires TreeOk(t) && 0 < c < |t.attach|
    ensures t.attach[c].parent < |t.attach|
    ensures var net, p := RunNet(t, steps), t.attach[c].parent;
            && Alternates(t, net.links[c])
            && ((Updated(t, MemberOf(AgentAt(net, p), t.ip, t.attach[c].port), net.links[c]) <==>
                 HasMembers(AgentAt(net, c), t.ip)) <==>
                !(Behind(t, net, c) && net.links[c] == []))
  {
    hide RunNet, Chain, Updated, Alternates, MemberOf, HasMembers;
    BehindIff(t, steps, c);
    var net, p := RunNet(t, steps), t.attach[c].parent;
    var member, link, has := MemberOf(AgentAt(net, p), t.ip, t.attach[c].port), net.links[c],
                             HasMembers(AgentAt(net, c), t.ip);
    if LinkOk(t, net, c) {
      ChainMeaning(t, member, link, has);
    } else {
      ChainMeaning(t, true, link, has);
      LeaveDecides(t, link);
    }
  }

  /** A leave at the front makes an update forget where it started. */
  lemma LeaveDecides(t: Tree, link: seq<PacketIn>)
    requires link != [] ==> Asks(t, link[0]) == Leave
    ensures Updated(t, false, link) == Updated(t, true, link) <==> link != []
  {
    hide Asks;
  }

  // ---------- when nothing is lost ----------

  predicate CreatesAt(t: Tree, st: NetStep, n: nat) {
    st.Local? && st.n == n && st.ev.CreateGroup? && st.ev.sip == t.ip
  }

  /** The group is created on a switch only after its parent has it. */
  ghost predicate ParentsFirst(t: Tree, steps: seq<NetStep>)
    requires TreeOk(t)
  {
    forall k, n :: 0 <= k < |steps| && 0 < n < |t.attach| && CreatesAt(t, steps[k], n) ==>
      t.attach[n].parent < |t.attach| && t.ip in AgentAt(RunNet(t, steps[..k]), t.attach[n].parent).store
  }

  /** Switches with the group have it all the way up, and only they have packets on the way. */
  predicate Rooted(t: Tree, net: Net, c: nat)
    requires Sized(t, net) && 0 < c < |t.attach| && t.attach[c].parent < |t.attach|
  {
    && (t.ip in AgentAt(net, c).store ==> t.ip in AgentAt(net, t.attach[c].parent).store)
    && (net.links[c] != [] ==> t.ip in AgentAt(net, c).store)
  }

  lemma HandleKeepsRooted(t: Tree, net: Net, n: nat, ev: Event, c: nat)
    requires Sized(t, net) && TreeOk(t) && n < |t.attach| && 0 < c < |t.attach|
    requires NodeOk(t, n, AgentAt(net, n)) && Fits(t, n, ev) && Rooted(t, net, c)
    requires n == c && ev.CreateGroup? && ev.sip == t.ip ==> t.ip in AgentAt(net, t.attach[c].parent).store
    ensures Rooted(t, Handle(t, net, n, ev), c)
  {
    hide Run, Step, StepMsgs, Upward, NodeOk, Fits, Inv, TreeOk;
    ParentBefore(t, c);
    RunKeepsInv(net.hist[n]);
    RunOneMore(net.hist[n], ev);
    StepAtNode(t, n, AgentAt(net, n), ev);
    StepUpward(t, n, AgentAt(net, n), ev);
    GroupAppears(t, AgentAt(net, n), ev);
  }

  lemma GroupAppears(t: Tree, a: Agent, ev: Event)
    ensures t.ip in Step(a, ev).store ==> t.ip in a.store || (ev.CreateGroup? && ev.sip == t.ip)
  {}

  lemma ExecKeepsRooted(t: Tree, net: Net, st: NetStep, c: nat)
    requires Sized(t, net) && TreeOk(t) && NodesOk(t, net) && 0 < c < |t.attach| && Rooted(t, net, c)
    requires CreatesAt(t, st, c) ==> t.ip in AgentAt(net, t.attach[c].parent).store
    ensures Rooted(t, Exec(t, net, st), c)
  {
    hide Run, Handle, NodeOk, Fits, Allowed;
    if Enabled(t, net, st) {
      match st
      case Local(n, ev) =>
        AllowedFits(t, n, ev);
        HandleKeepsRooted(t, net, n, ev, c);
      case Deliver(d) =>
        ArrivalFits(t, d, net.links[d][0]);
        PoppedAgents(t, net, d);
        HandleKeepsRooted(t, Popped(net, d), t.attach[d].parent, Arrival(t, d, net.links[d][0]), c);
    }
  }

  lemma {:induction false} RunsRooted(t: Tree, steps: seq<NetStep>, c: nat)
    requires TreeOk(t) && ParentsFirst(t, steps) && 0 < c < |t.attach|
    ensures Rooted(t, RunNet(t, steps), c)
  {
    hide Exec, NodesOk, Run, TreeOk;
    ParentBefore(t, c);
    if steps == [] {
      NewNodeOk(t, c);
    } else {
      var init, st := steps[..|steps| - 1], steps[|steps| - 1];
      PrefixOfPrefix(steps);
      assert ParentsFirst(t, init);
      RunsRooted(t, init, c);
      NodesStayOk(t, init);
      ExecKeepsRooted(t, RunNet(t, init), st, c);
    }
  }

  /** Creating the group top-down is enough for nothing to be lost. */
  lemma ParentsFirstLosesNothing(t: Tree, steps: seq<NetStep>)
    requires TreeOk(t) && ParentsFirst(t, steps)
    ensures NothingLost(t, steps)
  {
    hide RunNet, Run;
    forall k | 0 <= k < |steps| ensures !Lost(t, RunNet(t, steps[..k]), steps[k]) {
      if steps[k].Deliver? && 0 < steps[k].c < |t.attach| {
        assert forall j :: 0 <= j <= k ==> steps[..k][..j] == steps[..j];
        RunsRooted(t, steps[..k], steps[k].c);
      }
    }
  }

  // ---------- the traffic dies out ----------

  /** Packets in flight, each counted by the number of the switch it comes from. */
  function Weight(links: seq<seq<PacketIn>>, k: nat): nat
    requires k <= |links|
  {
    if k == 0 then 0 else Weight(links, k - 1) + (k - 1) * |links[k - 1]|
  }

  lemma {:induction false} WeightUpdate(links: seq<seq<PacketIn>>, c: nat, link: seq<PacketIn>, k: nat)
    requires c < |links| && k <= |links|
    ensures Weight(links[c := link], k) == Weight(links, k) + (if c < k then c * (|link| - |links[c]|) else 0)
  {
    if k > 0 {
      WeightUpdate(links, c, link, k - 1);
      if c == k - 1 { assert c * |link| == c * |links[c]| + c * (|link| - |links[c]|); }
    }
  }

  lemma UpwardAtMostOne(t: Tree, net: Net, n: nat, ev: Event)
    requires Sized(t, net) && n < |t.attach| && NodeOk(t, n, AgentAt(net, n)) && Fits(t, n, ev)
    ensures |Upward(t, n, StepMsgs(AgentAt(net, n), ev))| <= 1
  {
    hide Run, Upward, StepMsgs, NodeOk, Fits;
    RunKeepsInv(net.hist[n]);
    StepUpward(t, n, AgentAt(net, n), ev);
  }

  lemma OneLess(c: int, k: int)
    ensures c * ((k - 1) - k) == -c
  {}

  lemma AtMostOne(p: nat, k: nat)
    requires k <= 1
    ensures p * k <= p
  {
    if k == 0 { assert p * k == 0; } else { assert p * k == p; }
  }

  /** Every delivery brings the network closer to rest, whatever it sets off. */
  lemma DeliveryReducesWeight(t: Tree, net: Net, c: nat)
    requires Sized(t, net) && TreeOk(t) && NodesOk(t, net) && Enabled(t, net, Deliver(c))
    ensures Weight(Exec(t, net, Deliver(c)).links, |t.attach|) < Weight(net.links, |t.attach|)
  {
    hide NodeOk, Fits, Weight, Upward, StepMsgs, Run, TreeOk, Inv;
    var p, head := t.attach[c].parent, net.links[c][0];
    var popped := Popped(net, c);
    ArrivalFits(t, c, head);
    PoppedAgents(t, net, c);
    UpwardAtMostOne(t, popped, p, Arrival(t, c, head));
    WeightUpdate(net.links, c, net.links[c][1..], |t.attach|);
    var out := Upward(t, p, StepMsgs(AgentAt(popped, p), Arrival(t, c, head)));
    WeightUpdate(popped.links, p, popped.links[p] + out, |t.attach|);
    OneLess(c, |net.links[c]|);
    AtMostOne(p, |out|);
    ParentBefore(t, c);
  }

  ghost predicate Quiet(net: Net) { forall c :: 0 < c < |net.links| ==> net.links[c] == [] }

  /** From every reachable state, delivering what is in flight comes to an end. */
  lemma {:induction false} ComesToRest(t: Tree, steps: seq<NetStep>) returns (more: seq<NetStep>)
    requires TreeOk(t)
    ensures Quiet(RunNet(t, steps + more)) && forall k :: 0 <= k < |more| ==> more[k].Deliver?
    decreases Weight(RunNet(t, steps).links, |t.attach|)
  {
    hide RunNet, Exec, Weight, NodesOk, TreeOk;
    var net := RunNet(t, steps);
    if Quiet(net) {
      more := [];
      assert steps + more == steps;
    } else {
      var c :| 0 < c < |net.links| && net.links[c] != [];
      NodesStayOk(t, steps);
      DeliveryReducesWeight(t, net, c);
      var longer := steps + [Deliver(c)];
      StepAdded(t, steps, Deliver(c));
      var rest := ComesToRest(t, longer);
      more := [Deliver(c)] + rest;
      assert steps + more == longer + rest;
    }
  }

  // ---------- who has joined ----------

  /** The packets for the source that the switch handled since it has the group. */
  function RequestsAt(t: Tree, h: seq<Event>): seq<PacketIn> { PacketsFor(h, t.ip) }

  /** Among these, a join came in on interface i, and no leave after it. */
  ghost predicate HasJoined(t: Tree, h: seq<Event>, i: uint16) { Joined(SourceGroup(t), RequestsAt(t, h), i) }

  lemma SamePorts(g: MCGroup, g': MCGroup, h: seq<PacketIn>, i: uint16)
    requires g.srcPort == g'.srcPort && g.dstPort == g'.dstPort
    ensures Joined(g, h, i) <==> Joined(g', h, i)
    ensures forall p :: IsStart(g, h, p) <==> IsStart(g', h, p)
  {
    forall pk ensures Classify(g, pk) == Classify(g', pk) {}
    hide Classify;
    forall q, j ensures JoinedAt(g, h, j, q) == JoinedAt(g', h, j, q) && LeftAt(g, h, j, q) == LeftAt(g', h, j, q) {}
  }

  ghost predicate EventsFit(t: Tree, n: nat, h: seq<Event>)
    requires n < |t.attach|
  {
    forall q :: 0 <= q < |h| ==> Fits(t, n, h[q])
  }

  lemma {:induction false} FittingNodeOk(t: Tree, n: nat, h: seq<Event>)
    requires n < |t.attach| && EventsFit(t, n, h)
    ensures NodeOk(t, n, Run(h))
  {
    hide Step, Fits;
    if h != [] {
      FittingNodeOk(t, n, h[..|h| - 1]);
      StepAtNode(t, n, Run(h[..|h| - 1]), h[|h| - 1]);
    }
  }

  /** An interface is a member exactly when it has joined and not left. */
  lemma MemberIffJoined(t: Tree, n: nat, h: seq<Event>, i: uint16)
    requires n < |t.attach| && EventsFit(t, n, h)
    ensures NodeOk(t, n, Run(h))
    ensures MemberOf(Run(h), t.ip, i) <==> HasJoined(t, h, i)
  {
    hide Run, PacketsFor, SessionRun, FollowsStarts, Joined, IsStart, Fits;
    FittingNodeOk(t, n, h);
    if t.ip in Run(h).store {
      var order, at := AgentBucketsFollowStarts(h, t.ip);
      SamePorts(Run(h).store[t.ip].mcg, SourceGroup(t), RequestsAt(t, h), i);
    } else {
      GroupIsItsOwnRun(h, t.ip);
      NobodyJoined(SourceGroup(t), i);
    }
  }

  lemma NobodyJoined(g: MCGroup, i: uint16)
    ensures !Joined(g, [], i)
  {}

  /** The addresses to which a member's bucket sends are those of the join packet. */
  predicate AsAsked(m: Member, pk: PacketIn) { m.destMac == pk.smac && m.destIp == pk.sip && m.udpPort == pk.dstPort }

  lemma BucketTellsAddress(m: Member, pk: PacketIn)
    requires BucketFor(m) == BucketFrom(pk)
    ensures AsAsked(m, pk)
  {
    var a, b := BucketFor(m).actions, BucketFrom(pk).actions;
    assert a[0] == b[0] && a[1] == b[1] && a[2] == b[2];
  }

  /** A member's bucket is addressed as the join asked that began its membership: the first one
      on its interface after the latest leave there, if any. */
  lemma MemberFromJoin(t: Tree, n: nat, h: seq<Event>, i: uint16) returns (p: int)
    requires n < |t.attach| && EventsFit(t, n, h) && MemberOf(Run(h), t.ip, i)
    ensures IsStart(SourceGroup(t), RequestsAt(t, h), p)
    ensures var pk := RequestsAt(t, h)[p];
            pk.inIntf == i && pk.dstPort == t.dstPort && AsAsked(Run(h).store[t.ip].members[i], pk)
  {
    hide Run, PacketsFor, Joined, IsStart, Fits, BucketFor, AsAsked, BucketFrom, Classify;
    FittingNodeOk(t, n, h);
    var s, h' := Run(h).store[t.ip], RequestsAt(t, h);
    var order, at := AgentBucketsFollowStarts(h, t.ip);
    var k := s.members[i].bucketIndex;
    assert MemberAt(s, order, k) && StartOf(h', s, order, at, k);
    p := at[k];
    assert p in at;
    SamePorts(s.mcg, SourceGroup(t), h', i);
    BucketTellsAddress(s.members[i], h'[p]);
    StartAsksJoin(t, h', p);
  }

  lemma StartAsksJoin(t: Tree, h: seq<PacketIn>, p: int)
    requires IsStart(SourceGroup(t), h, p)
    ensures h[p].dstPort == t.dstPort
  {}

  lemma HandledFits(t: Tree, net: Net, n: nat, ev: Event, m: nat)
    requires Sized(t, net) && n < |t.attach| && m < |t.attach| && Fits(t, n, ev) && EventsFit(t, m, net.hist[m])
    ensures EventsFit(t, m, Handle(t, net, n, ev).hist[m])
  {}

  lemma {:induction false} AllEventsFit(t: Tree, steps: seq<NetStep>, m: nat)
    requires TreeOk(t) && m < |t.attach|
    ensures EventsFit(t, m, RunNet(t, steps).hist[m])
  {
    hide Handle, Fits, TreeOk;
    if steps != [] {
      var init, st := steps[..|steps| - 1], steps[|steps| - 1];
      AllEventsFit(t, init, m);
      var net := RunNet(t, init);
      if Enabled(t, net, st) {
        match st
        case Local(n, ev) =>
          AllowedFits(t, n, ev);
          HandledFits(t, net, n, ev, m);
        case Deliver(c) =>
          ArrivalFits(t, c, net.links[c][0]);
          HandledFits(t, Popped(net, c), t.attach[c].parent, Arrival(t, c, net.links[c][0]), m);
      }
    }
  }

  // ---------- at rest ----------

  /** Switch m is switch n or below it. */
  ghost predicate Under(t: Tree, n: nat, m: nat)
    requires TreeOk(t) && m < |t.attach|
    decreases m
  {
    m == n || (m > 0 && Under(t, n, t.attach[m].parent))
  }

  /** Some host below switch n, at a host interface of switch m, has joined and not left. */
  ghost predicate ReceiverUnder(t: Tree, net: Net, n: nat, m: nat, i: uint16)
    requires Sized(t, net) && TreeOk(t)
  {
    m < |t.attach| && Under(t, n, m) && HostPort(t, m, i) && HasJoined(t, net.hist[m], i)
  }

  /** Nothing is in flight, a link that is not consistent is behind, and the members are the
      interfaces that have joined. */
  ghost predicate Settled(t: Tree, net: Net)
    requires Sized(t, net) && TreeOk(t)
  {
    && Quiet(net) && NodesOk(t, net)
    && (forall c :: 0 < c < |t.attach| ==> (LinkOk(t, net, c) <==> !Behind(t, net, c)))
    && forall m, i :: 0 <= m < |t.attach| ==> (MemberOf(AgentAt(net, m), t.ip, i) <==> HasJoined(t, net.hist[m], i))
  }

  /** A parent serves a child exactly when the child has members and the link is not behind. */
  lemma AtRestLink(t: Tree, net: Net, c: nat)
    requires Sized(t, net) && TreeOk(t) && Settled(t, net) && 0 < c < |t.attach|
    ensures MemberOf(AgentAt(net, t.attach[c].parent), t.ip, t.attach[c].port) <==>
            HasMembers(AgentAt(net, c), t.ip) && !Behind(t, net, c)
    ensures Behind(t, net, c) ==> HasMembers(AgentAt(net, c), t.ip)
  {
    hide Run, HasJoined, NodesOk, MemberOf, HasMembers;
    assert LinkOk(t, net, c) <==> !Behind(t, net, c);
  }

  /** Switch m is switch n or below it, and no link between them is behind. */
  ghost predicate Linked(t: Tree, net: Net, n: nat, m: nat)
    requires Sized(t, net) && TreeOk(t) && m < |t.attach|
    decreases m
  {
    m == n || (m > 0 && !Behind(t, net, m) && Linked(t, net, n, t.attach[m].parent))
  }

  /** Some host at switch m has joined and not left, and m is linked with switch n above it. */
  ghost predicate LinkedReceiver(t: Tree, net: Net, n: nat, m: nat, i: uint16)
    requires Sized(t, net) && TreeOk(t)
  {
    m < |t.attach| && Linked(t, net, n, m) && HostPort(t, m, i) && HasJoined(t, net.hist[m], i)
  }

  lemma {:induction false} LinkedIsUnder(t: Tree, net: Net, n: nat, m: nat)
    requires Sized(t, net) && TreeOk(t) && m < |t.attach| && Linked(t, net, n, m)
    ensures Under(t, n, m)
    decreases m
  {
    hide Behind;
    if m != n { LinkedIsUnder(t, net, n, t.attach[m].parent); }
  }

  lemma {:induction false} UnderIsLinked(t: Tree, net: Net, n: nat, m: nat)
    requires Sized(t, net) && TreeOk(t) && m < |t.attach| && Under(t, n, m)
    requires forall c :: 0 < c < |t.attach| ==> !Behind(t, net, c)
    ensures Linked(t, net, n, m)
    decreases m
  {
    hide Behind;
    if m != n { UnderIsLinked(t, net, n, t.attach[m].parent); }
  }

  lemma {:induction false} UnderChild(t: Tree, n: nat, c: nat, m: nat)
    requires TreeOk(t) && 0 < c < |t.attach| && m < |t.attach| && t.attach[c].parent == n && Under(t, c, m)
    ensures Under(t, n, m)
    decreases m
  {
    if m != c { UnderChild(t, n, c, t.attach[m].parent); }
  }

  /** A host that joined has made every switch above it, as far as it is linked, have members. */
  lemma {:induction false} ReceiverFillsPath(t: Tree, net: Net, n: nat, m: nat, i: uint16)
    requires Sized(t, net) && TreeOk(t) && Settled(t, net) && n < |t.attach| && m < |t.attach| && Linked(t, net, n, m)
    requires MemberOf(AgentAt(net, m), t.ip, i)
    ensures HasMembers(AgentAt(net, n), t.ip)
    decreases m
  {
    hide Run, HasJoined, Settled, HostPort, Behind;
    if m != n {
      AtRestLink(t, net, m);
      ReceiverFillsPath(t, net, n, t.attach[m].parent, t.attach[m].port);
    }
  }

  lemma {:induction false} LinkedChild(t: Tree, net: Net, c: nat, m: nat)
    requires Sized(t, net) && TreeOk(t) && 0 < c < |t.attach| && m < |t.attach|
    requires !Behind(t, net, c) && Linked(t, net, c, m)
    ensures Linked(t, net, t.attach[c].parent, m)
    decreases m
  {
    hide Behind;
    if m != c { LinkedChild(t, net, c, t.attach[m].parent); }
  }

  /** A member of switch n leads to a host that joined and is linked with n. */
  lemma {:induction false} MemberHasReceiver(t: Tree, net: Net, n: nat, i: uint16) returns (m: nat, j: uint16)
    requires Sized(t, net) && TreeOk(t) && Settled(t, net) && n < |t.attach|
    requires MemberOf(AgentAt(net, n), t.ip, i)
    ensures LinkedReceiver(t, net, n, m, j)
    decreases |t.attach| - n
  {
    hide Run, HasJoined, LinkOk, Behind;
    assert NodeOk(t, n, AgentAt(net, n));
    if HostPort(t, n, i) {
      m, j := n, i;
    } else {
      var c :| 0 < c < |t.attach| && t.attach[c].parent == n && t.attach[c].port == i;
      AtRestLink(t, net, c);
      var k :| k in AgentAt(net, c).store[t.ip].members;
      m, j := MemberHasReceiver(t, net, c, k);
      LinkedChild(t, net, c, m);
    }
  }

  /** A switch has members exactly when it is linked with some host that joined. */
  lemma HasMembersIffReceiver(t: Tree, net: Net, n: nat)
    requires Sized(t, net) && TreeOk(t) && Settled(t, net) && n < |t.attach|
    ensures HasMembers(AgentAt(net, n), t.ip) <==> exists m, i :: LinkedReceiver(t, net, n, m, i)
  {
    hide Run, HasJoined, HostPort, Linked, LinkOk, Behind;
    if HasMembers(AgentAt(net, n), t.ip) {
      var k :| k in AgentAt(net, n).store[t.ip].members;
      var m, i := MemberHasReceiver(t, net, n, k);
    }
    if m, i :| LinkedReceiver(t, net, n, m, i) {
      ReceiverFillsPath(t, net, n, m, i);
    }
  }

  lemma OnlyChild(t: Tree, c: nat, d: nat)
    requires TreeOk(t) && 0 < c < |t.attach| && 0 < d < |t.attach|
    ensures SamePort(t, c, d) ==> c == d
  {}

  lemma RestIsSettled(t: Tree, steps: seq<NetStep>)
    requires TreeOk(t) && Quiet(RunNet(t, steps))
    ensures Settled(t, RunNet(t, steps))
  {
    hide RunNet, Run, HasJoined, MemberOf, LinkOk, Behind, NodeOk;
    NodesStayOk(t, steps);
    forall c | 0 < c < |t.attach| ensures LinkOk(t, RunNet(t, steps), c) <==> !Behind(t, RunNet(t, steps), c) {
      BehindIff(t, steps, c);
    }
    forall m, i | 0 <= m < |t.attach|
      ensures MemberOf(AgentAt(RunNet(t, steps), m), t.ip, i) <==> HasJoined(t, RunNet(t, steps).hist[m], i)
    {
      AllEventsFit(t, steps, m);
      MemberIffJoined(t, m, RunNet(t, steps).hist[m], i);
    }
  }

  /** When no packet is in flight, after any run, an interface with a switch behind it is a
      member exactly when some host below that switch has joined and not left, and no link
      from that host up to this interface is behind. */
  lemma MemberIffReceiverBelow(t: Tree, steps: seq<NetStep>, c: nat)
    requires TreeOk(t) && Quiet(RunNet(t, steps)) && 0 < c < |t.attach|
    ensures t.attach[c].parent < |t.attach|
    ensures MemberOf(AgentAt(RunNet(t, steps), t.attach[c].parent), t.ip, t.attach[c].port) <==>
            !Behind(t, RunNet(t, steps), c) && exists m, i :: LinkedReceiver(t, RunNet(t, steps), c, m, i)
  {
    hide RunNet, Run, LinkedReceiver, Settled, MemberOf, HasMembers, Behind, Quiet;
    RestIsSettled(t, steps);
    AtRestLink(t, RunNet(t, steps), c);
    HasMembersIffReceiver(t, RunNet(t, steps), c);
  }

  /** The interface above switch c is a member exactly when some host below has joined and not
      left. */
  ghost predicate ExactAt(t: Tree, net: Net, c: nat)
    requires Sized(t, net) && TreeOk(t) && 0 < c < |t.attach|
  {
    MemberOf(AgentAt(net, t.attach[c].parent), t.ip, t.attach[c].port) <==>
    exists m, i :: ReceiverUnder(t, net, c, m, i)
  }

  /** When no packet is in flight, after any run, the members are everywhere exactly the
      interfaces with a joined host below if and only if no link is behind. */
  lemma ExactIffNoneBehind(t: Tree, steps: seq<NetStep>)
    requires TreeOk(t) && Quiet(RunNet(t, steps))
    ensures (forall c :: 0 < c < |t.attach| ==> ExactAt(t, RunNet(t, steps), c)) <==>
            (forall c :: 0 < c < |t.attach| ==> !Behind(t, RunNet(t, steps), c))
  {
    hide RunNet, Run, MemberOf, HasMembers, Behind, Quiet, ExactAt, Settled;
    var net := RunNet(t, steps);
    RestIsSettled(t, steps);
    forall c | 0 < c < |t.attach| && Behind(t, net, c) ensures !ExactAt(t, net, c) { BehindIsInexact(t, net, c); }
    if forall c :: 0 < c < |t.attach| ==> !Behind(t, net, c) {
      forall c | 0 < c < |t.attach| ensures ExactAt(t, net, c) { NoneBehindIsExact(t, net, c); }
    }
  }

  lemma BehindIsInexact(t: Tree, net: Net, c: nat)
    requires Sized(t, net) && TreeOk(t) && Settled(t, net) && 0 < c < |t.attach| && Behind(t, net, c)
    ensures !ExactAt(t, net, c)
  {
    hide Run, HasJoined, HostPort, Settled, Behind, Linked, Under, MemberOf, HasMembers;
    AtRestLink(t, net, c);
    HasMembersIffReceiver(t, net, c);
    var m, i :| LinkedReceiver(t, net, c, m, i);
    LinkedIsUnder(t, net, c, m);
    assert ReceiverUnder(t, net, c, m, i);
  }

  lemma NoneBehindIsExact(t: Tree, net: Net, c: nat)
    requires Sized(t, net) && TreeOk(t) && Settled(t, net) && 0 < c < |t.attach|
    requires forall d :: 0 < d < |t.attach| ==> !Behind(t, net, d)
    ensures ExactAt(t, net, c)
  {
    hide Run, HasJoined, HostPort, Settled, Behind, Linked, Under, MemberOf, HasMembers;
    AtRestLink(t, net, c);
    HasMembersIffReceiver(t, net, c);
    if m, i :| LinkedReceiver(t, net, c, m, i) {
      LinkedIsUnder(t, net, c, m);
      assert ReceiverUnder(t, net, c, m, i);
    }
    if m, i :| ReceiverUnder(t, net, c, m, i) {
      UnderIsLinked(t, net, c, m);
      assert LinkedReceiver(t, net, c, m, i);
    }
  }

  lemma DeliveriesKeepOrder(t: Tree, steps: seq<NetStep>, more: seq<NetStep>)
    requires TreeOk(t) && ParentsFirst(t, steps) && forall k :: 0 <= k < |more| ==> more[k].Deliver?
    ensures ParentsFirst(t, steps + more)
  {
    hide RunNet, Run;
    var all := steps + more;
    forall k, n | 0 <= k < |all| && 0 < n < |t.attach| && CreatesAt(t, all[k], n)
      ensures t.attach[n].parent < |t.attach| && t.ip in AgentAt(RunNet(t, all[..k]), t.attach[n].parent).store
    {
      assert k < |steps|;
      assert all[..k] == steps[..k] && CreatesAt(t, steps[k], n);
    }
  }

  /** When the group is created top-down, then after any run the deliveries that are due lead
      to a state in which each interface with a switch behind it is a member exactly when some
      host below has joined and not left. */
  lemma EventuallyExact(t: Tree, steps: seq<NetStep>) returns (more: seq<NetStep>)
    requires TreeOk(t) && ParentsFirst(t, steps)
    ensures Quiet(RunNet(t, steps + more)) && forall k :: 0 <= k < |more| ==> more[k].Deliver?
    ensures forall c :: 0 < c < |t.attach| ==> ExactAt(t, RunNet(t, steps + more), c)
  {
    hide RunNet, Run, ParentsFirst, NothingLost, ExactAt, Behind, Quiet;
    more := ComesToRest(t, steps);
    DeliveriesKeepOrder(t, steps, more);
    ParentsFirstLosesNothing(t, steps + more);
    ExactIffNoneBehind(t, steps + more);
    forall c | 0 < c < |t.attach| ensures !Behind(t, RunNet(t, steps + more), c) {
      NothingLostNoneBehind(t, steps + more, c);
    }
  }
}
