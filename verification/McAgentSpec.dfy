/** The membership agent of one switch as a value: its groups, keyed by the address of the
    source, and the generator of group ids. */
module McAgentSpec {
  import opened Wrappers
  import opened OpenFlow13
  import opened McGroup

  const GROUP_IDS := 0x1_0000_0000

  datatype Agent = Agent(store: map<uint32, Session>, groupIdGen: uint32)

  datatype Event =
    | CreateGroup(sip: uint32, dip: uint32, srcPort: uint16, dstPort: uint16, upIntf: uint16, isRoot: uint16)
    | Packet(pk: PacketIn)

  /** Every MCGroup object that is constructed takes the next id, in 32 bits. */
  function NextGroupId(gen: uint32): uint32 { (gen + 1) % GROUP_IDS }

  predicate IsClassD(dip: uint32) { dip / 0x1000_0000 == 0xe }

  function GroupOf(ev: Event, gid: uint32): MCGroup
    requires ev.CreateGroup?
  {
    MCGroup(ev.sip, ev.srcPort, ev.dstPort, ev.upIntf, gid, ev.isRoot != 0)
  }

  /** A packet reaches a group when it is not IGMP and is sent to the source's address. */
  predicate Reaches(a: Agent, pk: PacketIn) {
    pk.protocol != PROTOCOL_TYPE_IGMP && pk.dip in a.store
  }

  function Step(a: Agent, ev: Event): Agent {
    var gid := NextGroupId(a.groupIdGen);
    match ev
    case CreateGroup(sip, dip, _, _, _, _) =>
      if IsClassD(dip) then a
      else if sip in a.store then a.(groupIdGen := gid)
      else Agent(a.store[sip := NewSession(GroupOf(ev, gid))], gid)
    case Packet(pk) =>
      if Reaches(a, pk) then Agent(a.store[pk.dip := After(a.store[pk.dip], pk)], gid)
      else a.(groupIdGen := gid)
  }

  function StepMsgs(a: Agent, ev: Event): seq<Msg> {
    match ev
    case CreateGroup(sip, dip, _, _, _, _) =>
      if IsClassD(dip) || sip in a.store then [] else CreateMsgs(GroupOf(ev, NextGroupId(a.groupIdGen)))
    case Packet(pk) => if Reaches(a, pk) then Sent(a.store[pk.dip], pk) else []
  }

  const NEW_AGENT := Agent(map[], 0)

  function Run(evs: seq<Event>): Agent {
    if evs == [] then NEW_AGENT else Step(Run(evs[..|evs| - 1]), evs[|evs| - 1])
  }

  /** Everything sent to the switch, in order. */
  function Log(evs: seq<Event>): seq<Msg> {
    if evs == [] then []
    else Log(evs[..|evs| - 1]) + StepMsgs(Run(evs[..|evs| - 1]), evs[|evs| - 1])
  }

  // ---------- what every run keeps ----------

  /** Every group is filed under its own address and has consistent indices and buckets. */
  ghost predicate Inv(a: Agent) {
    forall ip :: ip in a.store ==> a.store[ip].mcg.groupIp == ip && exists order :: Ordered(a.store[ip], order)
  }

  lemma StepKeepsInv(a: Agent, ev: Event)
    requires Inv(a)
    ensures Inv(Step(a, ev))
  {
    hide Ordered, After;
    match ev
    case CreateGroup(_, _, _, _, _, _) => NewIsOrdered(GroupOf(ev, NextGroupId(a.groupIdGen)));
    case Packet(pk) =>
      if Reaches(a, pk) {
        var order :| Ordered(a.store[pk.dip], order);
        PacketKeepsOrdered(a.store[pk.dip], order, pk);
        AfterKeepsGroup(a.store[pk.dip], pk);
      }
  }

  lemma AfterKeepsGroup(s: Session, pk: PacketIn)
    ensures After(s, pk).mcg == s.mcg
  {}

  lemma {:induction false} RunKeepsInv(evs: seq<Event>)
    ensures Inv(Run(evs))
  {
    hide Step;
    if evs != [] {
      RunKeepsInv(evs[..|evs| - 1]);
      StepKeepsInv(Run(evs[..|evs| - 1]), evs[|evs| - 1]);
    }
  }

  /** In every run, each member's bucket index is inside the bucket vector and its bucket is
      there: the error return of remove_bucket_of13_group is never taken. */
  lemma BucketIndexInRange(evs: seq<Event>, ip: uint32, i: uint16)
    requires ip in Run(evs).store && i in Run(evs).store[ip].members
    ensures var s := Run(evs).store[ip];
            var m := s.members[i];
            m.bucketIndex < |s.buckets| && s.buckets[m.bucketIndex] == BucketFor(m) && s.groupMod.buckets == s.buckets
  {
    hide Run, BucketFor;
    RunKeepsInv(evs);
    var s := Run(evs).store[ip];
    var order :| Ordered(s, order);
    assert MemberAt(s, order, s.members[i].bucketIndex);
  }

  // ---------- group ids ----------

  ghost predicate DistinctIds(a: Agent) {
    forall x, y :: x in a.store && y in a.store && x != y ==> a.store[x].mcg.groupId != a.store[y].mcg.groupId
  }

  /** Groups are never removed and keep their parameters. */
  lemma GroupsStay(a: Agent, ev: Event, ip: uint32)
    requires ip in a.store
    ensures ip in Step(a, ev).store && Step(a, ev).store[ip].mcg == a.store[ip].mcg
  {
    if ev.Packet? && Reaches(a, ev.pk) { AfterKeepsGroup(a.store[ev.pk.dip], ev.pk); }
  }

  lemma DistinctBefore(a: Agent, ev: Event)
    requires DistinctIds(Step(a, ev))
    ensures DistinctIds(a)
  {
    hide Step;
    forall x, y | x in a.store && y in a.store && x != y ensures a.store[x].mcg.groupId != a.store[y].mcg.groupId {
      GroupsStay(a, ev, x);
      GroupsStay(a, ev, y);
    }
  }

  /** The place of an id in the order in which ids are handed out first: 1, 2, .. and last 0. */
  function Serial(gid: uint32): nat { if gid == 0 then GROUP_IDS else gid }

  /** The n ids handed out so far include those in use. */
  ghost predicate IdsTaken(a: Agent, n: nat) {
    a.groupIdGen == n % GROUP_IDS && forall ip :: ip in a.store ==> Serial(a.store[ip].mcg.groupId) <= n
  }

  /** A group that was there keeps its parameters, and a new one takes the next id. */
  lemma GroupsOfStep(a: Agent, ev: Event, ip: uint32)
    requires ip in Step(a, ev).store
    ensures if ip in a.store then Step(a, ev).store[ip].mcg == a.store[ip].mcg
            else ev.CreateGroup? && ip == ev.sip && Step(a, ev).store[ip].mcg.groupId == NextGroupId(a.groupIdGen) ==
                 Step(a, ev).groupIdGen
  {
    if ip in a.store { GroupsStay(a, ev, ip); }
  }

  /** An event takes at most one id. */
  function TakenAfter(a: Agent, ev: Event, n: nat): (n': nat)
    ensures n <= n' <= n + 1
  {
    if ev.CreateGroup? && IsClassD(ev.dip) then n else n + 1
  }

  lemma NextSerial(n: nat)
    requires n < GROUP_IDS
    ensures NextGroupId(n % GROUP_IDS) == (n + 1) % GROUP_IDS && Serial((n + 1) % GROUP_IDS) == n + 1
  {}

  lemma GeneratorAfter(a: Agent, ev: Event)
    ensures Step(a, ev).groupIdGen ==
            if ev.CreateGroup? && IsClassD(ev.dip) then a.groupIdGen else NextGroupId(a.groupIdGen)
  {}

  lemma ClassDAddsNothing(a: Agent, ev: Event)
    requires ev.CreateGroup? && IsClassD(ev.dip)
    ensures Step(a, ev) == a
  {}

  lemma StepKeepsIds(a: Agent, ev: Event, n: nat)
    requires DistinctIds(a) && IdsTaken(a, n) && n < GROUP_IDS
    ensures DistinctIds(Step(a, ev)) && IdsTaken(Step(a, ev), TakenAfter(a, ev, n))
  {
    hide Step, NextGroupId;
    var b := Step(a, ev);
    GeneratorAfter(a, ev);
    NextSerial(n);
    if ev.CreateGroup? && IsClassD(ev.dip) {
      ClassDAddsNothing(a, ev);
    } else {
      forall x | x in b.store ensures Serial(b.store[x].mcg.groupId) <= n + 1 { GroupsOfStep(a, ev, x); }
      forall x, y | x in b.store && y in b.store && x != y ensures b.store[x].mcg.groupId != b.store[y].mcg.groupId {
        GroupsOfStep(a, ev, x);
        GroupsOfStep(a, ev, y);
      }
    }
  }

  lemma {:induction false} IdsTakenInRun(evs: seq<Event>) returns (n: nat)
    requires |evs| <= GROUP_IDS
    ensures n <= |evs| && DistinctIds(Run(evs)) && IdsTaken(Run(evs), n)
  {
    hide Step, DistinctIds, IdsTaken;
    if evs == [] {
      n := 0;
      NewIdsDistinct();
    } else {
      var init := evs[..|evs| - 1];
      n := IdsTakenInRun(init);
      StepKeepsIds(Run(init), evs[|evs| - 1], n);
      n := TakenAfter(Run(init), evs[|evs| - 1], n);
    }
  }

  /** Ids are distinct as long as at most 2^32 events were handled. */
  lemma IdsStayDistinct(evs: seq<Event>)
    requires |evs| <= GROUP_IDS
    ensures DistinctIds(Run(evs))
  {
    hide Run, DistinctIds;
    var n := IdsTakenInRun(evs);
  }

  lemma NewIdsDistinct()
    ensures DistinctIds(NEW_AGENT) && IdsTaken(NEW_AGENT, 0)
  {}
}
