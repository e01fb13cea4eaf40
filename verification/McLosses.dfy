/** Joins that arrive before the group does: what a loss leaves on a link, how long it lasts,
    and from which runs it comes. */
module McLosses {
  import opened Wrappers
  import opened OpenFlow13
  import opened McGroup
  import opened McAgentSpec
  import opened McTree

  // ---------- what each step does to a link ----------

  /** A step that takes nothing off a link keeps its state, whatever that is. */
  lemma OtherStepsKeepLink(t: Tree, net: Net, st: NetStep, c: nat, member: bool, seen: bool)
    requires Sized(t, net) && TreeOk(t) && NodesOk(t, net) && 0 < c < |t.attach| && LinkAt(t, net, c, member, seen)
    requires st == Deliver(c) ==> net.links[c] == []
    ensures LinkAt(t, Exec(t, net, st), c, member, seen)
  {
    hide LinkAt, Handle, NodeOk, Run, Allowed, Fits;
    if Enabled(t, net, st) {
      match st
      case Local(n, ev) =>
        AllowedFits(t, n, ev);
        RunKeepsInv(net.hist[n]);
        HandleKeepsUntouched(t, net, n, ev, c, member, seen);
      case Deliver(d) => DeliverKeepsOthers(t, net, d, c, member, seen);
    }
  }

  lemma HandleKeepsUntouched(t: Tree, net: Net, n: nat, ev: Event, c: nat, member: bool, seen: bool)
    requires Sized(t, net) && TreeOk(t) && n < |t.attach| && Allowed(t, n, ev) && 0 < c < |t.attach|
    requires NodeOk(t, n, AgentAt(net, n)) && Inv(AgentAt(net, n)) && Fits(t, n, ev) && LinkAt(t, net, c, member, seen)
    ensures LinkAt(t, Handle(t, net, n, ev), c, member, seen)
  {
    hide LinkAt, Handle, NodeOk, Run, Fits, Inv;
    HandleKeepsLink(t, net, n, ev, c, member, seen);
  }

  /** A loss leaves the parent one request behind: the child has joined, the parent does not
      serve it, and what is still on the link starts with a leave. */
  lemma LossLeavesBehind(t: Tree, net: Net, c: nat)
    requires Sized(t, net) && TreeOk(t) && NodesOk(t, net) && 0 < c < |t.attach| && LinkOk(t, net, c)
    requires Lost(t, net, Deliver(c))
    ensures Behind(t, Exec(t, net, Deliver(c)), c)
  {
    hide Run, Step, StepMsgs, Upward, NodeOk, Fits, TreeOk, Asks;
    var p := t.attach[c].parent;
    ParentBefore(t, c);
    var pk := net.links[c][0].(inIntf := t.attach[c].port);
    RunOneMore(net.hist[p], Packet(pk));
    NoGroupNoMember(t, AgentAt(net, p), pk);
  }

  /** The delivery of a link that is behind: the packet is a leave, and sets the link right,
      whether or not the parent has the group by then. */
  lemma LeaveMends(t: Tree, net: Net, c: nat)
    requires Sized(t, net) && TreeOk(t) && NodesOk(t, net) && 0 < c < |t.attach| && Behind(t, net, c)
    requires net.links[c] != []
    ensures Asks(t, net.links[c][0]) == Leave && LinkOk(t, Exec(t, net, Deliver(c)), c)
  {
    hide Run, Step, StepMsgs, HasMembers, Upward, Inv, NodeOk, Fits, TreeOk, Classify;
    var p := t.attach[c].parent;
    ParentBefore(t, c);
    var pk := net.links[c][0].(inIntf := t.attach[c].port);
    RunOneMore(net.hist[p], Packet(pk));
    SameAsks(t, net.links[c][0], pk);
    if t.ip in AgentAt(net, p).store { StepTouched(t, p, AgentAt(net, p), pk); }
    else { NoGroupNoMember(t, AgentAt(net, p), pk); }
    StateOk(t, Exec(t, net, Deliver(c)), c, false);
  }

  /** A link that is behind stays so through every step but the delivery of its next packet,
      which is a leave and sets it right. */
  lemma BehindUntilLeave(t: Tree, net: Net, st: NetStep, c: nat)
    requires Sized(t, net) && TreeOk(t) && NodesOk(t, net) && 0 < c < |t.attach| && Behind(t, net, c)
    ensures if st == Deliver(c) && net.links[c] != []
            then Asks(t, net.links[c][0]) == Leave && LinkOk(t, Exec(t, net, st), c)
            else Behind(t, Exec(t, net, st), c)
  {
    hide LinkAt, LinkOk, Exec, NodesOk, Asks;
    if st == Deliver(c) && net.links[c] != [] { LeaveMends(t, net, c); }
    else { OtherStepsKeepLink(t, net, st, c, false, true); }
  }

  lemma EveryLinkOk(t: Tree, net: Net, c: nat)
    requires Sized(t, net) && TreeOk(t) && LinksOk(t, net) && 0 < c < |t.attach|
    ensures t.attach[c].parent < |t.attach| && LinkOk(t, net, c)
  {}

  /** A consistent link falls behind exactly when its packet is lost. */
  lemma OkStep(t: Tree, net: Net, st: NetStep, c: nat)
    requires Sized(t, net) && TreeOk(t) && NodesOk(t, net) && 0 < c < |t.attach| && LinkOk(t, net, c)
    ensures if st == Deliver(c) && Lost(t, net, st)
            then Behind(t, Exec(t, net, st), c) else LinkOk(t, Exec(t, net, st), c)
  {
    hide LinkAt, LinkOk, Exec, NodesOk, Behind, Run;
    if st == Deliver(c) && net.links[c] != [] {
      DeliverOnLink(t, net, c);
      if Lost(t, net, st) { LossLeavesBehind(t, net, c); }
    } else {
      var m := OkState(t, net, c);
      OtherStepsKeepLink(t, net, st, c, m, m);
      StateOk(t, Exec(t, net, st), c, m);
    }
  }

  lemma OkNotBehind(t: Tree, net: Net, c: nat)
    requires Sized(t, net) && 0 < c < |t.attach| && t.attach[c].parent < |t.attach| && LinkOk(t, net, c)
    ensures !Behind(t, net, c)
  {
    hide Run, Chain, MemberOf, HasMembers;
    var p, has := t.attach[c].parent, HasMembers(AgentAt(net, c), t.ip);
    if Behind(t, net, c) {
      assert Chain(t, false, net.links[c], has);
      ChainStart(t, false, true, net.links[c], has);
    }
  }

  // ---------- losses over a run ----------

  /** The step at position k takes the oldest packet off the link above c. */
  predicate DeliveredAt(t: Tree, steps: seq<NetStep>, c: nat, k: int)
    requires TreeOk(t)
  {
    0 <= k < |steps| && steps[k] == Deliver(c) && Enabled(t, RunNet(t, steps[..k]), steps[k])
  }

  /** That packet is a join, and is lost. */
  predicate LostJoinAt(t: Tree, steps: seq<NetStep>, c: nat, k: int)
    requires TreeOk(t)
  {
    && DeliveredAt(t, steps, c, k) && Lost(t, RunNet(t, steps[..k]), steps[k])
    && Asks(t, RunNet(t, steps[..k]).links[c][0]) == Join
  }

  /** The last packet delivered on the link above c was a lost join. */
  ghost predicate MissedJoin(t: Tree, steps: seq<NetStep>, c: nat)
    requires TreeOk(t)
  {
    exists k :: LostJoinAt(t, steps, c, k) && forall j :: k < j ==> !DeliveredAt(t, steps, c, j)
  }

  /** What one step does to a link that is consistent or behind. */
  lemma BehindStep(t: Tree, net: Net, st: NetStep, c: nat)
    requires Sized(t, net) && TreeOk(t) && NodesOk(t, net) && 0 < c < |t.attach|
    requires LinkOk(t, net, c) || Behind(t, net, c)
    ensures LinkOk(t, Exec(t, net, st), c) <==> !Behind(t, Exec(t, net, st), c)
    ensures Behind(t, Exec(t, net, st), c) <==>
            if st == Deliver(c) && net.links[c] != [] then Lost(t, net, st) && Asks(t, net.links[c][0]) == Join
            else Behind(t, net, c)
  {
    hide LinkAt, LinkOk, Exec, NodesOk, Behind, Run, Asks;
    if Behind(t, net, c) { BehindUntilLeave(t, net, st, c); }
    else {
      OkStep(t, net, st, c);
      if st == Deliver(c) && Lost(t, net, st) { LossIsJoin(t, net, c); }
    }
    if LinkOk(t, Exec(t, net, st), c) { OkNotBehind(t, Exec(t, net, st), c); }
    if LinkOk(t, net, c) { OkNotBehind(t, net, c); }
  }

  lemma LossIsJoin(t: Tree, net: Net, c: nat)
    requires Sized(t, net) && TreeOk(t) && 0 < c < |t.attach| && LinkOk(t, net, c) && Lost(t, net, Deliver(c))
    ensures Asks(t, net.links[c][0]) == Join
  {
    hide Run, Asks;
  }

  lemma MissedJoinStep(t: Tree, steps: seq<NetStep>, c: nat)
    requires TreeOk(t) && steps != []
    ensures var init, last := steps[..|steps| - 1], |steps| - 1;
            MissedJoin(t, steps, c) <==>
            if DeliveredAt(t, steps, c, last) then LostJoinAt(t, steps, c, last) else MissedJoin(t, init, c)
  {
    hide RunNet, Lost, Enabled, Asks;
    var init, last := steps[..|steps| - 1], |steps| - 1;
    PrefixOfPrefix(steps);
    forall k | k < last
      ensures DeliveredAt(t, init, c, k) == DeliveredAt(t, steps, c, k)
      ensures LostJoinAt(t, init, c, k) == LostJoinAt(t, steps, c, k)
    {}
  }

  /** After every run, a link is consistent or one request behind, and it is behind exactly
      when the last packet delivered on it was a lost join. */
  lemma {:induction false} BehindIff(t: Tree, steps: seq<NetStep>, c: nat)
    requires TreeOk(t) && 0 < c < |t.attach|
    ensures t.attach[c].parent < |t.attach|
    ensures LinkOk(t, RunNet(t, steps), c) <==> !Behind(t, RunNet(t, steps), c)
    ensures Behind(t, RunNet(t, steps), c) <==> MissedJoin(t, steps, c)
  {
    hide Exec, LinkAt, LinkOk, Behind, NodesOk, Lost, LinksOk, Asks, MissedJoin;
    ParentBefore(t, c);
    if steps == [] {
      NewLinksOk(t);
      EveryLinkOk(t, NewNet(t), c);
      OkNotBehind(t, NewNet(t), c);
      NothingMissed(t, c);
    } else {
      var init, st := steps[..|steps| - 1], steps[|steps| - 1];
      BehindIff(t, init, c);
      NodesStayOk(t, init);
      BehindStep(t, RunNet(t, init), st, c);
      MissedJoinStep(t, steps, c);
    }
  }

  lemma NothingMissed(t: Tree, c: nat)
    requires TreeOk(t)
    ensures !MissedJoin(t, [], c)
  {}

  /** When nothing was lost, no link is behind. */
  lemma NothingLostNoneBehind(t: Tree, steps: seq<NetStep>, c: nat)
    requires TreeOk(t) && NothingLost(t, steps) && 0 < c < |t.attach|
    ensures t.attach[c].parent < |t.attach| && !Behind(t, RunNet(t, steps), c)
  {
    hide RunNet, Run, Behind;
    BehindIff(t, steps, c);
  }

  // ---------- a run with a loss ----------

  const PAIR := Tree(1, 5, 6, [Attach(0, 0, 0), Attach(0, 2, 1)])

  const CHILD_GROUP := Event.CreateGroup(1, 0, 5, 6, 1, 0)

  const JOIN := PacketIn(PROTOCOL_TYPE_UDP, 7, 9, 1, 5, 6, 3)

  lemma PairIsTree()
    ensures TreeOk(PAIR) && HostPort(PAIR, 1, 3)
  {
    assert forall c, d :: 0 < c < 2 && 0 < d < 2 ==> !UpwardPort(PAIR, c, d);
  }

  lemma ChildSends()
    ensures Upward(PAIR, 1, StepMsgs(Run([]), CHILD_GROUP)) == []
    ensures Upward(PAIR, 1, StepMsgs(Run([CHILD_GROUP]), Packet(JOIN))) == [JOIN]
  {
    hide After, StepMsgs, Upward, Inv;
    var g := GroupOf(CHILD_GROUP, 1);
    RunOneMore([], CHILD_GROUP);
    assert Run([CHILD_GROUP]) == Agent(map[1 := NewSession(g)], 1);
    MembersAfter(NewSession(g), JOIN);
    assert JOIN.inIntf in After(NewSession(g), JOIN).members;
    RunKeepsInv([]);
    RunKeepsInv([CHILD_GROUP]);
    StepUpward(PAIR, 1, Run([]), CHILD_GROUP);
    StepUpward(PAIR, 1, Run([CHILD_GROUP]), Packet(JOIN));
  }

  lemma ChildHandles(net: Net, ev: Event)
    requires TreeOk(PAIR) && Sized(PAIR, net) && Allowed(PAIR, 1, ev)
    ensures var net' := Exec(PAIR, net, Local(1, ev));
            && net'.hist[0] == net.hist[0] && net'.hist[1] == net.hist[1] + [ev]
            && net'.links[1] == net.links[1] + Upward(PAIR, 1, StepMsgs(Run(net.hist[1]), ev))
  {}

  lemma StepAdded(t: Tree, steps: seq<NetStep>, st: NetStep)
    requires TreeOk(t)
    ensures RunNet(t, steps + [st]) == Exec(t, RunNet(t, steps), st)
  {
    hide Exec;
    assert (steps + [st])[..|steps|] == steps;
  }

  /** Losses do happen: a host joins at a switch that has the group before its parent. */
  lemma LossHappens() returns (steps: seq<NetStep>)
    ensures TreeOk(PAIR) && !NothingLost(PAIR, steps) && |RunNet(PAIR, steps[..2]).links[1]| == 1
  {
    var s0, s1 := Local(1, CHILD_GROUP), Local(1, Packet(JOIN));
    steps := [s0, s1, Deliver(1)];
    PairIsTree();
    ChildSends();
    assert Allowed(PAIR, 1, CHILD_GROUP) && Allowed(PAIR, 1, Packet(JOIN));
    hide Exec, StepMsgs, Upward, Run, Allowed;
    StepAdded(PAIR, [], s0);
    StepAdded(PAIR, [] + [s0], s1);
    assert [] + [s0] + [s1] == steps[..2];
    ChildHandles(NewNet(PAIR), CHILD_GROUP);
    ChildHandles(Exec(PAIR, NewNet(PAIR), s0), Packet(JOIN));
    NewNodeOk(PAIR, 0);
    assert Lost(PAIR, RunNet(PAIR, steps[..2]), steps[2]);
  }
}
