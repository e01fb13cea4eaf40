/** A group over whole histories: which interfaces are members, in which order their buckets
    stand, and from which packet each bucket was built. */
module McHistory {
  import opened Wrappers
  import opened OpenFlow13
  import opened McGroup
  import opened McAgentSpec

  function SessionRun(g: MCGroup, h: seq<PacketIn>): Session {
    if h == [] then NewSession(g) else After(SessionRun(g, h[..|h| - 1]), h[|h| - 1])
  }

  predicate IsJoin(g: MCGroup, pk: PacketIn, i: uint16) { JoinPorts(g, pk) && pk.inIntf == i }

  predicate IsLeave(g: MCGroup, pk: PacketIn, i: uint16) { LeavePorts(g, pk) && pk.inIntf == i }

  predicate JoinedAt(g: MCGroup, h: seq<PacketIn>, i: uint16, q: int) { 0 <= q < |h| && IsJoin(g, h[q], i) }

  predicate LeftAt(g: MCGroup, h: seq<PacketIn>, i: uint16, q: int) { 0 <= q < |h| && IsLeave(g, h[q], i) }

  /** Some join on interface i has no later leave on it. */
  ghost predicate Joined(g: MCGroup, h: seq<PacketIn>, i: uint16) {
    exists q :: JoinedAt(g, h, i, q) && Unleft(g, h, i, q)
  }

  ghost predicate Unleft(g: MCGroup, h: seq<PacketIn>, i: uint16, q: int) {
    forall r :: q < r < |h| ==> !LeftAt(g, h, i, r)
  }

  /** The join at p began a membership that still lasts: its interface has not left since,
      and every earlier join on it was ended before p. */
  ghost predicate IsStart(g: MCGroup, h: seq<PacketIn>, p: int) {
    && 0 <= p < |h| && JoinedAt(g, h, h[p].inIntf, p)
    && Unleft(g, h, h[p].inIntf, p)
    && forall q :: q < p && JoinedAt(g, h, h[p].inIntf, q) ==> exists r :: q < r < p && LeftAt(g, h, h[p].inIntf, r)
  }

  /** The bucket that the join packet pk asks for. */
  function BucketFrom(pk: PacketIn): Bucket {
    BucketFor(Member(pk.smac, pk.sip, pk.dstPort, pk.inIntf % 0x100, 0))
  }

  /** The positions in `at` are those of the joins that began the present memberships, oldest
      first; `order` and the buckets follow them. */
  ghost predicate FollowsStarts(g: MCGroup, h: seq<PacketIn>, s: Session, order: seq<uint16>, at: seq<int>) {
    && s.mcg == g && Ordered(s, order) && |at| == |order|
    && (forall p :: p in at <==> IsStart(g, h, p))
    && (forall k, l :: 0 <= k < l < |at| ==> at[k] < at[l])
    && (forall k :: 0 <= k < |at| ==> StartOf(h, s, order, at, k))
  }

  predicate StartOf(h: seq<PacketIn>, s: Session, order: seq<uint16>, at: seq<int>, k: nat)
    requires k < |at| == |order|
  {
    0 <= at[k] < |h| && order[k] == h[at[k]].inIntf && k < |s.buckets| && s.buckets[k] == BucketFrom(h[at[k]])
  }

  lemma {:induction false} JoinedHasStart(g: MCGroup, h: seq<PacketIn>, i: uint16, q: int)
    requires JoinedAt(g, h, i, q) && Unleft(g, h, i, q)
    ensures exists p :: IsStart(g, h, p) && h[p].inIntf == i
    decreases q
  {
    hide Classify, LeavePorts;
    if !IsStart(g, h, q) {
      var q' :| q' < q && JoinedAt(g, h, i, q') && !(exists r :: q' < r < q && LeftAt(g, h, i, r));
      assert Unleft(g, h, i, q');
      JoinedHasStart(g, h, i, q');
    }
  }

  lemma JoinedIffStart(g: MCGroup, h: seq<PacketIn>, i: uint16)
    ensures Joined(g, h, i) <==> exists p :: IsStart(g, h, p) && h[p].inIntf == i
  {
    hide Classify, LeavePorts;
    if Joined(g, h, i) {
      var q :| JoinedAt(g, h, i, q) && Unleft(g, h, i, q);
      JoinedHasStart(g, h, i, q);
    }
  }

  /** An earlier start stays one unless its interface leaves. */
  lemma StartStep(g: MCGroup, h: seq<PacketIn>, e: PacketIn, p: int)
    requires 0 <= p < |h|
    ensures IsStart(g, h + [e], p) <==> IsStart(g, h, p) && !IsLeave(g, e, h[p].inIntf)
  {
    hide Classify, LeavePorts;
    var h' := h + [e];
    var i := h[p].inIntf;
    assert forall q :: 0 <= q < |h| ==> h'[q] == h[q];
    assert forall q :: 0 <= q < |h| ==> (JoinedAt(g, h', i, q) <==> JoinedAt(g, h, i, q));
    assert forall q :: 0 <= q < |h| ==> (LeftAt(g, h', i, q) <==> LeftAt(g, h, i, q));
    assert LeftAt(g, h', i, |h|) <==> IsLeave(g, e, i);
  }

  /** A join is a start if and only if its interface had not joined already. */
  lemma StartNow(g: MCGroup, h: seq<PacketIn>, e: PacketIn)
    ensures IsStart(g, h + [e], |h|) <==> IsJoin(g, e, e.inIntf) && !Joined(g, h, e.inIntf)
  {
    hide Classify, LeavePorts;
    var h' := h + [e];
    var i := e.inIntf;
    assert forall q :: 0 <= q < |h| ==> (JoinedAt(g, h', i, q) <==> JoinedAt(g, h, i, q));
    assert forall q :: 0 <= q < |h| ==> (LeftAt(g, h', i, q) <==> LeftAt(g, h, i, q));
    if IsJoin(g, e, i) && !Joined(g, h, i) {
      forall q | q < |h| && JoinedAt(g, h', i, q) ensures exists r :: q < r < |h| && LeftAt(g, h', i, r) {
        assert !Unleft(g, h, i, q);
      }
    }
  }

  lemma MemberIffStarted(g: MCGroup, h: seq<PacketIn>, s: Session, order: seq<uint16>, at: seq<int>, i: uint16)
    requires FollowsStarts(g, h, s, order, at)
    ensures i in s.members <==> Joined(g, h, i)
  {
    hide Classify, LeavePorts, BucketFor, IsStart;
    JoinedIffStart(g, h, i);
    forall p { StartInside(g, h, p); }
    if i in s.members {
      var k := s.members[i].bucketIndex;
      assert StartOf(h, s, order, at, k);
      assert at[k] in at;
    }
    if p :| 0 <= p < |h| && IsStart(g, h, p) && h[p].inIntf == i {
      var k :| 0 <= k < |at| && at[k] == p;
      assert StartOf(h, s, order, at, k) && MemberAt(s, order, k);
    }
  }

  /** One more packet: a fresh join adds its own position, a leave erases one. */
  lemma FollowsStep(g: MCGroup, h: seq<PacketIn>, s: Session, order: seq<uint16>, at: seq<int>, e: PacketIn)
    returns (at': seq<int>)
    requires FollowsStarts(g, h, s, order, at)
    ensures FollowsStarts(g, h + [e], After(s, e), OrderAfter(s, order, e), at')
  {
    hide Classify, LeavePorts, BucketFor, IsStart, MemberAt;
    if IsJoin(g, e, e.inIntf) && e.inIntf !in s.members {
      at' := at + [|h|];
      FollowsJoin(g, h, s, order, at, e);
    } else if IsLeave(g, e, e.inIntf) && e.inIntf in s.members {
      at' := Erase(at, s.members[e.inIntf].bucketIndex);
      FollowsLeave(g, h, s, order, at, e);
    } else {
      at' := at;
      FollowsOther(g, h, s, order, at, e);
    }
  }

  lemma StartInside(g: MCGroup, h: seq<PacketIn>, p: int)
    ensures IsStart(g, h, p) ==> 0 <= p < |h|
  {}

  lemma FollowsJoin(g: MCGroup, h: seq<PacketIn>, s: Session, order: seq<uint16>, at: seq<int>, e: PacketIn)
    requires FollowsStarts(g, h, s, order, at)
    requires IsJoin(g, e, e.inIntf) && e.inIntf !in s.members
    ensures FollowsStarts(g, h + [e], After(s, e), OrderAfter(s, order, e), at + [|h|])
  {
    hide Classify, LeavePorts, BucketFor, IsStart, MemberAt;
    var at' := at + [|h|];
    PacketKeepsOrdered(s, order, e);
    MemberIffStarted(g, h, s, order, at, e.inIntf);
    StartNow(g, h, e);
    forall p ensures p in at' <==> IsStart(g, h + [e], p) {
      StartInside(g, h, p);
      StartInside(g, h + [e], p);
      if 0 <= p < |h| { StartStep(g, h, e, p); }
    }
    forall k | 0 <= k < |at'| ensures StartOf(h + [e], After(s, e), OrderAfter(s, order, e), at', k) {
      if k < |at| { assert StartOf(h, s, order, at, k); }
      SameBucketAnyIndex(e, |s.buckets|);
    }
    forall k | 0 <= k < |at| ensures at[k] < |h| { assert StartOf(h, s, order, at, k); }
  }

  lemma SameBucketAnyIndex(e: PacketIn, n: nat)
    ensures BucketFor(Member(e.smac, e.sip, e.dstPort, e.inIntf % 0x100, n)) == BucketFrom(e)
  {}

  /** A leave ends the one membership of its interface. */
  lemma StartsAfterLeave(g: MCGroup, h: seq<PacketIn>, s: Session, order: seq<uint16>, at: seq<int>, e: PacketIn,
                         p: int)
    requires FollowsStarts(g, h, s, order, at)
    requires IsLeave(g, e, e.inIntf) && e.inIntf in s.members
    ensures p in Erase(at, s.members[e.inIntf].bucketIndex) <==> IsStart(g, h + [e], p)
  {
    hide Classify, LeavePorts, BucketFor, IsStart, MemberAt, BucketFrom;
    var bi := s.members[e.inIntf].bucketIndex;
    StartNow(g, h, e);
    StartInside(g, h, p);
    StartInside(g, h + [e], p);
    if 0 <= p < |h| { StartStep(g, h, e, p); }
    ErasedPositions(at, bi, p);
    if p in at {
      var k :| 0 <= k < |at| && at[k] == p;
      assert StartOf(h, s, order, at, k) && StartOf(h, s, order, at, bi);
      OrderIsInjective(s, order, k, bi);
    }
  }

  lemma FollowsLeave(g: MCGroup, h: seq<PacketIn>, s: Session, order: seq<uint16>, at: seq<int>, e: PacketIn)
    requires FollowsStarts(g, h, s, order, at)
    requires IsLeave(g, e, e.inIntf) && e.inIntf in s.members
    ensures FollowsStarts(g, h + [e], After(s, e), OrderAfter(s, order, e), Erase(at, s.members[e.inIntf].bucketIndex))
  {
    hide Classify, LeavePorts, BucketFor, IsStart, MemberAt, BucketFrom;
    var bi := s.members[e.inIntf].bucketIndex;
    var at' := Erase(at, bi);
    PacketKeepsOrdered(s, order, e);
    forall p ensures p in at' <==> IsStart(g, h + [e], p) { StartsAfterLeave(g, h, s, order, at, e, p); }
    forall k | 0 <= k < |at'| ensures StartOf(h + [e], After(s, e), OrderAfter(s, order, e), at', k) {
      assert StartOf(h, s, order, at, if k < bi then k else k + 1);
    }
  }

  lemma OrderIsInjective(s: Session, order: seq<uint16>, k: nat, l: nat)
    requires Ordered(s, order) && k < |order| && l < |order|
    ensures order[k] == order[l] ==> k == l
  {
    hide BucketFor;
    assert MemberAt(s, order, k) && MemberAt(s, order, l);
  }

  lemma ErasedPositions(at: seq<int>, bi: nat, p: int)
    requires bi < |at| && forall k, l :: 0 <= k < l < |at| ==> at[k] < at[l]
    ensures p in Erase(at, bi) <==> p in at && p != at[bi]
  {
    if p in at && p != at[bi] {
      var k :| 0 <= k < |at| && at[k] == p;
      assert Erase(at, bi)[if k < bi then k else k - 1] == p;
    }
  }

  lemma FollowsOther(g: MCGroup, h: seq<PacketIn>, s: Session, order: seq<uint16>, at: seq<int>, e: PacketIn)
    requires FollowsStarts(g, h, s, order, at)
    requires !(IsJoin(g, e, e.inIntf) && e.inIntf !in s.members) && !(IsLeave(g, e, e.inIntf) && e.inIntf in s.members)
    ensures FollowsStarts(g, h + [e], After(s, e), OrderAfter(s, order, e), at)
  {
    hide Classify, LeavePorts, BucketFor, IsStart, MemberAt, BucketFrom;
    ClassifyByPorts(g, e);
    assert After(s, e) == s && OrderAfter(s, order, e) == order;
    MemberIffStarted(g, h, s, order, at, e.inIntf);
    StartNow(g, h, e);
    forall p ensures p in at <==> IsStart(g, h + [e], p) {
      StartInside(g, h, p);
      StartInside(g, h + [e], p);
      if 0 <= p < |h| { StartStep(g, h, e, p); }
      if p in at {
        var k :| 0 <= k < |at| && at[k] == p;
        assert StartOf(h, s, order, at, k) && MemberAt(s, order, k);
        InMembers(s, order, k);
      }
    }
    forall k | 0 <= k < |at| ensures StartOf(h + [e], s, order, at, k) {
      assert StartOf(h, s, order, at, k);
    }
  }

  lemma InMembers(s: Session, order: seq<uint16>, k: nat)
    requires k < |order| && k < |s.buckets| && MemberAt(s, order, k)
    ensures order[k] in s.members
  {}

  /** After every history of packets, whatever the interleaving of joins, duplicate joins and
      leaves: an interface is a member exactly when some join on it was not followed by a
      leave, and bucket k is built from the k-th oldest of the joins that began the present
      memberships. */
  lemma {:induction false} BucketsFollowStarts(g: MCGroup, h: seq<PacketIn>) returns (order: seq<uint16>, at: seq<int>)
    ensures FollowsStarts(g, h, SessionRun(g, h), order, at)
    ensures forall i :: i in SessionRun(g, h).members <==> Joined(g, h, i)
  {
    hide Ordered, After, OrderAfter;
    if h == [] {
      order, at := [], [];
      NewIsOrdered(g);
    } else {
      var h0, e := h[..|h| - 1], h[|h| - 1];
      assert h == h0 + [e];
      var order0, at0 := BucketsFollowStarts(g, h0);
      order := OrderAfter(SessionRun(g, h0), order0, e);
      at := FollowsStep(g, h0, SessionRun(g, h0), order0, at0, e);
    }
    forall i ensures i in SessionRun(g, h).members <==> Joined(g, h, i) {
      MemberIffStarted(g, h, SessionRun(g, h), order, at, i);
    }
  }

  // ---------- the groups of an agent ----------

  /** The packets that have reached a group since it was created. */
  function PacketsFor(evs: seq<Event>, ip: uint32): seq<PacketIn> {
    if evs == [] then []
    else
      var init, ev := evs[..|evs| - 1], evs[|evs| - 1];
      if ev.Packet? && ev.pk.dip == ip && Reaches(Run(init), ev.pk) then PacketsFor(init, ip) + [ev.pk]
      else PacketsFor(init, ip)
  }

  /** In every run of the agent, a group is the result of the packets that reached it alone. */
  lemma {:induction false} GroupIsItsOwnRun(evs: seq<Event>, ip: uint32)
    ensures ip !in Run(evs).store ==> PacketsFor(evs, ip) == []
    ensures ip in Run(evs).store ==> Run(evs).store[ip] == SessionRun(Run(evs).store[ip].mcg, PacketsFor(evs, ip))
  {
    hide After;
    if evs != [] {
      var init, ev := evs[..|evs| - 1], evs[|evs| - 1];
      var a, h := Run(init), PacketsFor(init, ip);
      GroupIsItsOwnRun(init, ip);
      if ip in a.store && ev.Packet? && ev.pk.dip == ip && Reaches(a, ev.pk) {
        assert (h + [ev.pk])[..|h|] == h;
        AfterKeepsGroup(a.store[ip], ev.pk);
      }
    }
  }

  /** In every run of the agent: the buckets of each group stand in the order of the joins that
      began its present memberships, and an interface is a member exactly when some join on it
      was not followed by a leave. */
  lemma AgentBucketsFollowStarts(evs: seq<Event>, ip: uint32) returns (order: seq<uint16>, at: seq<int>)
    requires ip in Run(evs).store
    ensures var s, h := Run(evs).store[ip], PacketsFor(evs, ip);
            && FollowsStarts(s.mcg, h, s, order, at)
            && forall i :: i in s.members <==> Joined(s.mcg, h, i)
  {
    hide Run, PacketsFor, SessionRun, FollowsStarts, Joined;
    GroupIsItsOwnRun(evs, ip);
    order, at := BucketsFollowStarts(Run(evs).store[ip].mcg, PacketsFor(evs, ip));
  }
}
