/** Whole runs of the agent, replayed on a switch. */
module McReplayRuns {
  import opened Wrappers
  import opened OpenFlow13
  import opened McGroup
  import opened McAgentSpec
  import opened McReplay

  /** At no time did two active groups share a group id. */
  ghost predicate NeverShared(evs: seq<Event>) {
    forall k :: 0 <= k <= |evs| ==> ActiveIdsDistinct(Run(evs[..k]))
  }

  lemma NeverSharedStep(evs: seq<Event>)
    requires evs != []
    ensures NeverShared(evs) <==> NeverShared(evs[..|evs| - 1]) && ActiveIdsDistinct(Run(evs))
  {
    hide Run, ActiveIdsDistinct;
    var init := evs[..|evs| - 1];
    assert evs[..|evs|] == evs;
    assert forall k :: 0 <= k <= |init| ==> init[..k] == evs[..k];
  }

  /** At no time did an active group have a reserved id. */
  ghost predicate NeverReserved(evs: seq<Event>) {
    forall k :: 0 <= k <= |evs| ==> ActiveIdsValid(Run(evs[..k]))
  }

  ghost predicate AlwaysUsable(evs: seq<Event>) {
    forall k :: 0 <= k <= |evs| ==> IdsUsable(Run(evs[..k]))
  }

  lemma UsableIff(evs: seq<Event>)
    ensures AlwaysUsable(evs) <==> NeverShared(evs) && NeverReserved(evs)
  {
    hide Run, ActiveIdsDistinct, ActiveIdsValid;
    if NeverShared(evs) && NeverReserved(evs) {
      forall k | 0 <= k <= |evs| ensures IdsUsable(Run(evs[..k])) {
        assert ActiveIdsDistinct(Run(evs[..k])) && ActiveIdsValid(Run(evs[..k]));
      }
    }
    if AlwaysUsable(evs) {
      forall k | 0 <= k <= |evs| ensures ActiveIdsDistinct(Run(evs[..k])) && ActiveIdsValid(Run(evs[..k])) {
        assert IdsUsable(Run(evs[..k]));
      }
    }
  }

  lemma AlwaysUsableStep(evs: seq<Event>)
    requires evs != []
    ensures AlwaysUsable(evs) <==> AlwaysUsable(evs[..|evs| - 1]) && IdsUsable(Run(evs))
  {
    hide Run, IdsUsable;
    var init := evs[..|evs| - 1];
    assert evs[..|evs|] == evs;
    assert forall k :: 0 <= k <= |init| ==> init[..k] == evs[..k];
  }

  // ---------- rejection ----------

  /** Only the group at ip differs between a and b. */
  ghost predicate OneChanged(a: Agent, b: Agent, ip: uint32) {
    && ip in b.store && b.store.Keys == a.store.Keys + {ip}
    && (forall x :: x in a.store && x != ip ==> b.store[x] == a.store[x])
    && (ip in a.store ==> b.store[ip].mcg == a.store[ip].mcg)
  }

  lemma ReservedTaken(a: Agent, b: Agent, ip: uint32)
    requires OneChanged(a, b, ip) && ActiveIdsValid(a) && !ActiveIdsValid(b)
    ensures b.store[ip].mcg.groupId > OFPG_MAX && Active(b.store[ip])
    ensures ip in a.store ==> !Active(a.store[ip])
  {
    hide Active;
  }

  lemma SharedTaken(sw: Switch, a: Agent, b: Agent, ip: uint32)
    requires OneChanged(a, b, ip) && Agrees(sw, a) && ActiveIdsDistinct(a) && !ActiveIdsDistinct(b)
    ensures b.store[ip].mcg.groupId in sw.groups && Active(b.store[ip])
    ensures ip in a.store ==> !Active(a.store[ip])
  {
    hide OwnsGroup, OwnsFlow, HookKey, DownKey, Active;
    var x, y :| x in b.store && y in b.store && x != y && Active(b.store[x]) && Active(b.store[y]) &&
                b.store[x].mcg.groupId == b.store[y].mcg.groupId;
    assert x == ip || y == ip;
    var z := if x == ip then y else x;
    assert Serves(sw, a.store[z]);
  }

  lemma TakenId(sw: Switch, a: Agent, b: Agent, ip: uint32)
    requires OneChanged(a, b, ip) && Agrees(sw, a) && IdsUsable(a) && !IdsUsable(b)
    ensures b.store[ip].mcg.groupId in sw.groups || b.store[ip].mcg.groupId > OFPG_MAX
    ensures Active(b.store[ip])
    ensures ip in a.store ==> !Active(a.store[ip])
  {
    hide Agrees, ActiveIdsDistinct, ActiveIdsValid, Active;
    if ActiveIdsDistinct(b) { ReservedTaken(a, b, ip); } else { SharedTaken(sw, a, b, ip); }
  }

  lemma AddRejected(r: Rules, sw: Switch, m: Msg, rest: seq<Msg>)
    requires m.Group? && m.gm.command == GroupAdd && (m.gm.groupId in sw.groups || m.gm.groupId > OFPG_MAX)
    ensures !Replay(r, sw, [m] + rest).ok
  {
    assert ([m] + rest)[1..] == rest;
    RejectionStays(r, Apply(r, sw, m), rest);
  }

  lemma FirstJoinRejected(r: Rules, sw: Switch, s: Session, pk: PacketIn)
    requires !Active(s) && Active(After(s, pk)) && (s.mcg.groupId in sw.groups || s.mcg.groupId > OFPG_MAX)
    ensures !Replay(r, sw, Sent(s, pk)).ok
  {
    hide BucketFor, DownstreamFlow, Renumbered, Classify;
    var gm, fm := Group(AfterJoin(s, pk).groupMod), Flow(DownstreamFlow(s.mcg, FlowAdd));
    var up := Msg.PacketOut(pk, s.mcg.upstreamIntf);
    assert Sent(s, pk) == [up] + ([gm] + [fm]);
    assert ([up] + ([gm] + [fm]))[1..] == [gm] + [fm];
    AddRejected(r, sw, gm, [fm]);
  }

  lemma RootRejected(r: Rules, sw: Switch, g: MCGroup)
    requires g.isRoot && (g.groupId in sw.groups || g.groupId > OFPG_MAX)
    ensures !Replay(r, sw, CreateMsgs(g)).ok
  {
    hide HookFlow, DownstreamFlow;
    var rest := [Flow(DownstreamFlow(g, FlowAdd)), Flow(HookFlow(g))];
    var gm := Group(GroupMod(GroupAdd, g.groupId, []));
    assert CreateMsgs(g) == [gm] + rest;
    AddRejected(r, sw, gm, rest);
  }

  /** The event that makes two active groups share an id, or one have a reserved id, is the one
      that is rejected. */
  lemma StepRejected(r: Rules, sw: Switch, a: Agent, ev: Event)
    requires Agrees(sw, a) && IdsUsable(a) && !IdsUsable(Step(a, ev))
    ensures !Replay(r, sw, StepMsgs(a, ev)).ok
  {
    hide Agrees, Replay, CreateMsgs, Sent;
    var b := Step(a, ev);
    match ev
    case CreateGroup(sip, dip, _, _, _, _) =>
      assert !IsClassD(dip) && sip !in a.store;
      TakenId(sw, a, b, sip);
      RootRejected(r, sw, b.store[sip].mcg);
    case Packet(pk) =>
      assert Reaches(a, pk);
      AfterKeepsGroup(a.store[pk.dip], pk);
      hide After, Active;
      TakenId(sw, a, b, pk.dip);
      FirstJoinRejected(r, sw, a.store[pk.dip], pk);
  }

  // ---------- the whole run ----------

  lemma NewAgrees()
    ensures Agrees(EMPTY, NEW_AGENT) && IdsUsable(NEW_AGENT)
  {}

  /** Exactly when no two active groups ever share an id and none has a reserved one, the switch accepts everything that
      the agent sends, at every moment no flow names a missing group, and in the end the
      switch holds just what the agent's groups call for: a group entry if and only if the
      switch is the root or has members, with the members' buckets in the agent's order. */
  lemma {:induction false} ReplayAccepted(r: Rules, evs: seq<Event>)
    ensures Replay(r, EMPTY, Log(evs)).ok <==> AlwaysUsable(evs)
    ensures AlwaysUsable(evs) ==>
              SafeThroughout(r, EMPTY, Log(evs)) && Agrees(Replay(r, EMPTY, Log(evs)), Run(evs))
  {
    hide Step, StepMsgs, Agrees, Inv, IdsUsable, NoDangling, Apply, AlwaysUsable;
    if evs == [] {
      NewAgrees();
      AgreesIsSafe(EMPTY, NEW_AGENT);
      NothingUnusable();
    } else {
      var init, ev := evs[..|evs| - 1], evs[|evs| - 1];
      var sw, a := Replay(r, EMPTY, Log(init)), Run(init);
      AlwaysUsableStep(evs);
      ReplayAccepted(r, init);
      ReplayConcat(r, EMPTY, Log(init), StepMsgs(a, ev));
      RejectionStays(r, sw, StepMsgs(a, ev));
      if AlwaysUsable(init) {
        NowUsable(init);
        RunKeepsInv(init);
        if IdsUsable(Run(evs)) {
          StepAgrees(r, sw, a, ev);
          SafeConcat(r, EMPTY, Log(init), StepMsgs(a, ev));
          AgreesIsOk(Replay(r, EMPTY, Log(evs)), Run(evs));
        } else {
          StepRejected(r, sw, a, ev);
        }
      }
    }
  }

  lemma NothingUnusable()
    ensures AlwaysUsable([])
  {
    NewAgrees();
    var none: seq<Event> := [];
    assert forall k :: 0 <= k <= |none| ==> none[..k] == none;
  }

  lemma NowUsable(evs: seq<Event>)
    requires AlwaysUsable(evs)
    ensures IdsUsable(Run(evs))
  {
    hide Run;
    assert evs[..|evs|] == evs;
  }

  lemma NothingShared()
    ensures NeverShared([])
  {
    NothingUnusable();
    UsableIff([]);
  }

  lemma AgreesIsOk(sw: Switch, a: Agent)
    requires Agrees(sw, a)
    ensures sw.ok
  {}

  /** After every prefix of the stream, not only between events, nothing was rejected and no
      flow names a group that is not there. */
  lemma PrefixSafety(r: Rules, evs: seq<Event>, k: nat)
    requires AlwaysUsable(evs) && k <= |Log(evs)|
    ensures Replay(r, EMPTY, Log(evs)[..k]).ok && NoDangling(Replay(r, EMPTY, Log(evs)[..k]))
  {
    hide Log, AlwaysUsable, Agrees;
    ReplayAccepted(r, evs);
    SafeAfter(r, EMPTY, Log(evs), k);
  }

  /** Ids of any groups are distinct while at most 2^32 events were handled. */
  lemma ShortRunsNeverShare(evs: seq<Event>)
    requires |evs| <= GROUP_IDS
    ensures NeverShared(evs)
  {
    hide Run, NeverShared;
    IdsStayDistinct(evs);
    DistinctAtEnd(evs);
  }

  /** And none is reserved while at most 0xffffff00 events were handled, so that every such run
      is accepted. */
  lemma ShortRunsUsable(evs: seq<Event>)
    requires |evs| <= 0xffff_ff00
    ensures AlwaysUsable(evs)
  {
    hide Run, NeverShared, AlwaysUsable;
    ShortRunsNeverShare(evs);
    forall k | 0 <= k <= |evs| ensures ActiveIdsValid(Run(evs[..k])) {
      var n := IdsTakenInRun(evs[..k]);
      TakenAreValid(Run(evs[..k]), n);
    }
    UsableIff(evs);
  }

  lemma TakenAreValid(a: Agent, n: nat)
    requires IdsTaken(a, n) && n <= OFPG_MAX
    ensures ActiveIdsValid(a)
  {
    hide Active;
    forall ip | ip in a.store ensures a.store[ip].mcg.groupId <= OFPG_MAX {
      assert Serial(a.store[ip].mcg.groupId) <= n;
    }
  }

  lemma DownFlowIffActive(sw: Switch, a: Agent, ip: uint32)
    requires Agrees(sw, a) && Filed(a) && ip in a.store
    ensures Active(a.store[ip]) <==> DownKey(a.store[ip].mcg) in sw.flows
  {
    hide HookKey, DownKey, DownstreamFields, HookFields, Active, OwnsGroup;
    var g := a.store[ip].mcg;
    assert Serves(sw, a.store[ip]);
    if DownKey(g) in sw.flows {
      var x :| OwnsFlow(a, DownKey(g), x);
      KeysApart(a.store[x].mcg, g);
    }
  }

  lemma GroupIffActive(sw: Switch, a: Agent, ip: uint32)
    requires Agrees(sw, a) && DistinctIds(a) && ip in a.store
    ensures Active(a.store[ip]) <==> a.store[ip].mcg.groupId in sw.groups
  {
    hide HookKey, DownKey, Active, OwnsFlow;
    assert Serves(sw, a.store[ip]);
    if a.store[ip].mcg.groupId in sw.groups {
      var x :| OwnsGroup(a, a.store[ip].mcg.groupId, x);
    }
  }

  lemma BucketsPerMember(s: Session, order: seq<uint16>)
    requires Ordered(s, order)
    ensures |s.buckets| == |s.members|
  {}

  /** Groups that have distinct ids at the end never shared one. */
  lemma {:induction false} DistinctAtEnd(evs: seq<Event>)
    requires DistinctIds(Run(evs))
    ensures NeverShared(evs)
  {
    hide Step, DistinctIds;
    if evs == [] {
      NothingShared();
    } else {
      var init := evs[..|evs| - 1];
      DistinctBefore(Run(init), evs[|evs| - 1]);
      DistinctAtEnd(init);
      NeverSharedStep(evs);
      DistinctGroups(Run(evs));
    }
  }

  lemma DistinctGroups(a: Agent)
    requires DistinctIds(a)
    ensures ActiveIdsDistinct(a)
  {}

  /** What the switch holds for one group at the end. */
  lemma HeldForGroup(r: Rules, evs: seq<Event>, ip: uint32)
    requires AlwaysUsable(evs) && ip in Run(evs).store
    ensures var s, sw := Run(evs).store[ip], Replay(r, EMPTY, Log(evs));
            && (Active(s) ==>
                  s.mcg.groupId in sw.groups && sw.groups[s.mcg.groupId] == s.buckets && |s.buckets| == |s.members|)
            && (Active(s) <==> DownKey(s.mcg) in sw.flows)
            && (DistinctIds(Run(evs)) ==> (Active(s) <==> s.mcg.groupId in sw.groups))
  {
    hide Run, Log, AlwaysUsable, HookKey, DownKey, Ordered, OwnsFlow, OwnsGroup, DistinctIds;
    if DistinctIds(Run(evs)) {
      ReplayAccepted(r, evs);
      GroupIffActive(Replay(r, EMPTY, Log(evs)), Run(evs), ip);
    }
    ReplayAccepted(r, evs);
    RunKeepsInv(evs);
    DownFlowIffActive(Replay(r, EMPTY, Log(evs)), Run(evs), ip);
    assert Serves(Replay(r, EMPTY, Log(evs)), Run(evs).store[ip]);
    var order :| Ordered(Run(evs).store[ip], order);
    BucketsPerMember(Run(evs).store[ip], order);
  }

  // ---------- the deletion of the downstream flow ----------

  /** The command that the agent sends to delete its downstream flow deletes no flow of its
      own on a switch that follows the standard: the command's output port is 0, which is a
      filter there and not a wildcard.  It is the deletion of the group that removes the flow. */
  lemma FlowDeleteIsFiltered(sw: Switch, a: Agent, g: MCGroup)
    requires Agrees(sw, a)
    ensures Apply(Standard, sw, Flow(DownstreamFlow(g, FlowDelete))) == sw
  {
    hide DownstreamFields, HookFields, DownKey, HookKey, Serves, Active;
    forall k | k in sw.flows ensures Output(0) !in sw.flows[k] {
      var x :| OwnsFlow(a, k, x);
      TidyAt(sw, a.store[x].mcg, a.store[x], k);
    }
  }

  // ---------- when ids run out ----------

  /** A UDP packet to an address of no group. */
  const STRAY := PacketIn(PROTOCOL_TYPE_UDP, 0, 0, 3, 0, 0, 0)

  function Strays(n: nat): seq<Event> { seq(n, i => Packet(STRAY)) }

  lemma OneMoreStray(evs: seq<Event>, n: nat)
    ensures Run(evs + Strays(n + 1)) == Step(Run(evs + Strays(n)), Packet(STRAY))
    ensures Log(evs + Strays(n + 1)) == Log(evs + Strays(n)) + StepMsgs(Run(evs + Strays(n)), Packet(STRAY))
  {
    hide Step, StepMsgs;
    var all := evs + Strays(n + 1);
    assert all[..|all| - 1] == evs + Strays(n) && all[|all| - 1] == Packet(STRAY);
  }

  lemma StrayStep(a: Agent)
    requires STRAY.dip !in a.store
    ensures Step(a, Packet(STRAY)) == Agent(a.store, (a.groupIdGen + 1) % GROUP_IDS) && StepMsgs(a, Packet(STRAY)) == []
  {}

  /** A stray packet takes a group id and does nothing else. */
  lemma {:induction false} StraysTakeIds(evs: seq<Event>, n: nat)
    requires STRAY.dip !in Run(evs).store
    ensures var a := Run(evs);
            Run(evs + Strays(n)) == Agent(a.store, (a.groupIdGen + n) % GROUP_IDS) && Log(evs + Strays(n)) == Log(evs)
  {
    hide Run, Log, Step, StepMsgs;
    if n == 0 {
      assert evs + Strays(n) == evs;
    } else {
      StraysTakeIds(evs, n - 1);
      OneMoreStray(evs, n - 1);
      StrayStep(Run(evs + Strays(n - 1)));
    }
  }

  function RootFor(sip: uint32): Event { Event.CreateGroup(sip, 0, 0, 0, 0, 1) }

  /** The group-id generator is 32 bits wide and moves with every UDP or IGMP packet, so a long
      run does share ids: with two groups and 2^32 - 1 stray packets between their creations,
      the second group is rejected. */
  lemma SharedIdRejected(r: Rules)
    ensures !Replay(r, EMPTY, Log([RootFor(1)] + Strays(GROUP_IDS - 1) + [RootFor(2)])).ok
  {
    var first := [RootFor(1)];
    var most := first + Strays(GROUP_IDS - 1);
    var evs := most + [RootFor(2)];
    FirstGroup();
    StraysTakeIds(first, GROUP_IDS - 1);
    assert evs[..|evs| - 1] == most && evs[..|evs|] == evs;
    var a := Run(evs);
    assert a.store[1].mcg.groupId == 1 && a.store[2].mcg.groupId == 1;
    assert !ActiveIdsDistinct(a);
    hide Run, Log, Replay;
    ReplayAccepted(r, evs);
  }

  /** Ids above 0xffffff00 are reserved: after that many stray packets even an only group is
      rejected. */
  lemma ReservedIdRejected(r: Rules)
    ensures var evs := Strays(0xffff_ff00) + [RootFor(1)];
            NeverShared(evs) && !NeverReserved(evs) && !Replay(r, EMPTY, Log(evs)).ok
  {
    var most := Strays(OFPG_MAX);
    var evs := most + [RootFor(1)];
    assert [] + most == most && evs[..|evs| - 1] == most && evs[..|evs|] == evs;
    StraysTakeIds([], OFPG_MAX);
    assert Run(evs).store[1].mcg.groupId == OFPG_MAX + 1 && Active(Run(evs).store[1]);
    assert !ActiveIdsValid(Run(evs));
    hide Run, Log, Replay, NeverShared;
    ShortRunsNeverShare(evs);
    UsableIff(evs);
    ReplayAccepted(r, evs);
  }

  lemma FirstGroup()
    ensures Run([RootFor(1)]) == Agent(map[1 := NewSession(MCGroup(1, 0, 0, 0, 1, true))], 1)
  {
    assert [RootFor(1)][..0] == [];
    assert Run([]) == NEW_AGENT;
  }
}
