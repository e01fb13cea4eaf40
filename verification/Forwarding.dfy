/** What leaves the datapath: the frames that a list of actions puts on the ports, and the
    PACKET_IN messages, with ports told by their numbers, over every run. */
module Forwarding {
  import opened Wrappers
  import opened Match10
  import opened MatchFields
  import opened FlowTable
  import opened FrameParser
  import opened Datapath

  /** es is one copy of the packet for each port from 1 to nPorts but the one it came in by, in
      the order of the ports. */
  ghost predicate OneOnEachOther(nPorts: uint16, pkt: Packet, es: seq<Effect>) {
    && (forall e :: e in es <==>
          e.Injected? && 1 <= e.port <= nPorts && e.port != pkt.inPort && e.data == pkt.data)
    && (forall i, j :: 0 <= i < j < |es| ==> es[i].Injected? && es[j].Injected? && es[i].port < es[j].port)
  }

  /** What an action puts out.  The reserved ports are those of section 5.2.1 of the OpenFlow
      Switch Specification 1.0.0. */
  ghost predicate PutsOut(nPorts: uint16, a: Action, pkt: Packet, es: seq<Effect>) {
    match a
    case Ignored => es == []
    case Output(port, maxLen) =>
      if port == 0xfff8 then es == [Injected(pkt.inPort, pkt.data)]
      else if port == 0xfffb || port == 0xfffc then OneOnEachOther(nPorts, pkt, es)
      else if port == 0xfffd then
        var cut := if |pkt.data| < maxLen then |pkt.data| else maxLen;
        es == [PacketIn(0xffff_ffff, pkt.inPort, |pkt.data|, ByAction, pkt.data[..cut])]
      else es == [Injected(port, pkt.data)]
  }

  function Concat(parts: seq<seq<Effect>>): seq<Effect> {
    if parts == [] then [] else parts[0] + Concat(parts[1..])
  }

  /** The log grows from `before` to `after` by what the actions put out, in their order. */
  ghost predicate PutOutInOrder(
    nPorts: uint16, acts: seq<Action>, pkt: Packet, before: seq<Effect>, after: seq<Effect>, parts: seq<seq<Effect>>)
  {
    && |parts| == |acts| && after == before + Concat(parts)
    && forall i :: 0 <= i < |acts| ==> PutsOut(nPorts, acts[i], pkt, parts[i])
  }

  /** Frames on ports from `from` on, each on a greater one than the frame before. */
  predicate OnPortsFrom(from: nat, es: seq<Effect>)
    decreases |es|
  {
    es == [] || (es[0].Injected? && es[0].port >= from && OnPortsFrom(es[0].port + 1, es[1..]))
  }

  lemma OnFewerPorts(from: nat, es: seq<Effect>)
    requires OnPortsFrom(from + 1, es)
    ensures OnPortsFrom(from, es)
  {}

  lemma {:induction false} FloodAscends(from: nat, nPorts: uint16, pkt: Packet)
    ensures OnPortsFrom(from, FloodFrom(from, nPorts, pkt))
    decreases nPorts - from
  {
    if from <= nPorts {
      var rest := FloodFrom(from + 1, nPorts, pkt);
      FloodAscends(from + 1, nPorts, pkt);
      OnFewerPorts(from, rest);
      assert [] + rest == rest && ([Injected(from, pkt.data)] + rest)[1..] == rest;
    }
  }

  lemma {:induction false} PortsAscend(from: nat, es: seq<Effect>, i: nat, j: nat)
    requires OnPortsFrom(from, es) && i < j < |es|
    ensures es[i].Injected? && es[j].Injected? && from <= es[i].port < es[j].port
    decreases |es|
  {
    if i > 0 {
      PortsAscend(es[0].port + 1, es[1..], i - 1, j - 1);
    } else if j > 1 {
      PortsAscend(es[0].port + 1, es[1..], 0, j - 1);
    } else {
      assert es[1] == es[1..][0];
    }
  }

  lemma FloodIsOneOnEachOther(nPorts: uint16, pkt: Packet)
    ensures OneOnEachOther(nPorts, pkt, FloodFrom(1, nPorts, pkt))
  {
    forall e ensures e in FloodFrom(1, nPorts, pkt) <==>
                     e.Injected? && 1 <= e.port <= nPorts && e.port != pkt.inPort && e.data == pkt.data
    {
      FloodReachesOtherPorts(1, nPorts, pkt, e);
    }
    var es := FloodFrom(1, nPorts, pkt);
    FloodAscends(1, nPorts, pkt);
    forall i, j | 0 <= i < j < |es| ensures es[i].Injected? && es[j].Injected? && es[i].port < es[j].port {
      PortsAscend(1, es, i, j);
    }
  }

  lemma ActionPutsOut(nPorts: uint16, s: State, a: Action, pkt: Packet) returns (es: seq<Effect>)
    ensures PutsOut(nPorts, a, pkt, es) && RunAction(nPorts, s, a, pkt).log == s.log + es
  {
    hide OneOnEachOther;
    if a.Ignored? {
      es := [];
    } else {
      FloodIsOneOnEachOther(nPorts, pkt);
      var cut := if |pkt.data| < a.maxLen then |pkt.data| else a.maxLen;
      assert Truncate(pkt.data, a.maxLen) == pkt.data[..cut];
      es := RunAction(nPorts, s, a, pkt).log[|s.log|..];
    }
  }

  /** A list of actions puts out what each of them does, in their order, and nothing else. */
  lemma {:induction false} ActionsPutOut(nPorts: uint16, s: State, acts: seq<Action>, pkt: Packet)
    returns (parts: seq<seq<Effect>>)
    ensures PutOutInOrder(nPorts, acts, pkt, s.log, RunActions(nPorts, s, acts, pkt).log, parts)
    decreases |acts|
  {
    hide PutsOut, RunAction;
    if acts == [] {
      parts := [];
    } else {
      var es := ActionPutsOut(nPorts, s, acts[0], pkt);
      var rest := ActionsPutOut(nPorts, RunAction(nPorts, s, acts[0], pkt), acts[1..], pkt);
      parts := [es] + rest;
      assert parts[1..] == rest;
    }
  }

  /** A frame can leave on the ports that there are, and a PACKET_IN with a controller. */
  predicate CanLeave(nPorts: uint16, connected: bool, e: Effect) {
    if e.Injected? then 1 <= e.port <= nPorts else connected
  }

  /** The methods require just this of an action: that all it puts out can leave. */
  lemma ActionOkIff(nPorts: uint16, connected: bool, a: Action, pkt: Packet)
    ensures ActionOk(nPorts, connected, a, pkt) <==>
            forall es :: PutsOut(nPorts, a, pkt, es) ==> forall e :: e in es ==> CanLeave(nPorts, connected, e)
  {
    hide RunAction;
    var es := ActionPutsOut(nPorts, State([], map[], 0, []), a, pkt);
    if forall e :: e in es ==> CanLeave(nPorts, connected, e) {
      if a.Output? && a.port !in {0xfffb, 0xfffc} { assert es[0] in es; }
    }
  }

  // ---------- messages and frames ----------

  /** What the flow table compares with its flows: the fields of the frame and its port. */
  lemma FieldsOfPacket(c: Config, pkt: Packet)
    ensures FieldsOf(c, pkt) == PacketFields(c.blank, pkt.inPort, pkt.data)
  {}

  /** After any run, a frame is treated as the actions ask of the newest flow in force of least
      priority value that accepts it. */
  lemma FrameIsForwarded(c: Config, ops: seq<Op>, pkt: Packet, wireLen: nat, connected: bool, o: Stamped)
    returns (e: Stamped, parts: seq<seq<Effect>>)
    requires Candidate(c.reading, Mods(ops), PacketFields(c.blank, pkt.inPort, pkt.data), o)
    ensures Selected(c.reading, Mods(ops), PacketFields(c.blank, pkt.inPort, pkt.data), e)
    ensures PutOutInOrder(c.nPorts, e.flow.actions, pkt, RunOps(c, ops).log,
                          AfterPacket(c, RunOps(c, ops), connected, pkt, wireLen).log, parts)
  {
    hide RunOps, RunActions, PutOutInOrder, Candidate, Mods, FieldsOf, PacketFields, Selected;
    FieldsOfPacket(c, pkt);
    PacketMeetsNewestOfLeast(c, ops, pkt);
    var f := Lookup(RunOps(c, ops).table, FieldsOf(c, pkt)).value;
    e :| Selected(c.reading, Mods(ops), FieldsOf(c, pkt), e) && e.flow == f;
    parts := ActionsPutOut(c.nPorts, RunOps(c, ops), f.actions, pkt);
  }

  /** A PACKET_OUT puts out what its actions ask for the packet that it carries or names. */
  lemma PacketOutPutsOut(c: Config, s: State, buffer: uint32, inline: Packet, acts: seq<Action>)
    returns (parts: seq<seq<Effect>>)
    requires buffer != 0xffff_ffff ==> buffer in s.buffer
    ensures PutOutInOrder(c.nPorts, acts, if buffer == 0xffff_ffff then inline else s.buffer[buffer], s.log,
                          AfterPacketOut(c, s, buffer, inline, acts).log, parts)
  {
    hide RunActions, PutOutInOrder;
    parts := ActionsPutOut(c.nPorts, s, acts, if buffer == 0xffff_ffff then inline else s.buffer[buffer]);
  }

  /** An ADD puts out what the actions of the new flow ask for the packet that the message names,
      if the flow accepts it; without a buffer it puts out nothing. */
  lemma AddPutsOut(c: Config, s: State, f: Flow, buffer: uint32) returns (parts: seq<seq<Effect>>)
    requires buffer != 0xffff_ffff ==> buffer in s.buffer
    ensures if && buffer != 0xffff_ffff
               && Accepts(f.pattern, PacketFields(c.blank, s.buffer[buffer].inPort, s.buffer[buffer].data))
            then PutOutInOrder(c.nPorts, f.actions, s.buffer[buffer], s.log, AfterAdd(c, s, f, buffer).log, parts)
            else AfterAdd(c, s, f, buffer) == s.(table := Add(c.reading, s.table, f))
  {
    hide RunActions, PutOutInOrder, Accepts, FieldsOf, PacketFields, Add;
    parts := [];
    if buffer != 0xffff_ffff {
      FieldsOfPacket(c, s.buffer[buffer]);
      parts := ActionsPutOut(c.nPorts, s.(table := Add(c.reading, s.table, f)), f.actions, s.buffer[buffer]);
    }
  }

  /** A DELETE puts out nothing. */
  lemma DeleteIsQuiet(c: Config, s: State, given: Pattern)
    ensures AfterDelete(c, s, given) == s.(table := Delete(c.reading, s.table, given))
  {}

  // ---------- a miss, and what the controller can do with the report ----------

  /** The PACKET_IN about a frame that misses as the n-th packet stored. */
  function Report(n: nat, pkt: Packet, wireLen: nat): Effect {
    PacketIn(n % 0x1_0000_0000, pkt.inPort, wireLen, NoMatch, pkt.data)
  }

  /** A frame that no flow in force accepts is stored, as the n-th packet of the run, and takes
      one id.  If there is a controller, the one thing put out is a PACKET_IN with the frame,
      the length that it had on the wire, and n modulo 2^32 as its id. */
  lemma MissIsReported(c: Config, ops: seq<Op>, pkt: Packet, wireLen: nat, connected: bool)
    requires NamesIssued(c, ops)
    requires forall e :: !Candidate(c.reading, Mods(ops), PacketFields(c.blank, pkt.inPort, pkt.data), e)
    ensures var s, n := RunOps(c, ops), |Issued(c, ops)| + 1;
            var t := AfterPacket(c, s, connected, pkt, wireLen);
            && t.table == s.table
            && t.log == (if connected then s.log + [Report(n, pkt, wireLen)] else s.log)
            && Issued(c, ops + [Frame(pkt, wireLen, connected)]) == Issued(c, ops) + [pkt]
            && NamesIssued(c, ops + [Frame(pkt, wireLen, connected)])
  {
    hide RunOps, Issued, FieldsOf, PacketFields, Candidate, Mods;
    FieldsOfPacket(c, pkt);
    PacketMeetsNewestOfLeast(c, ops, pkt);
    BufferHoldsIssued(c, ops);
    OneMoreOp(c, ops, Frame(pkt, wireLen, connected));
    NextIdIsNext(|Issued(c, ops)|);
  }

  lemma OneMoreOp(c: Config, ops: seq<Op>, op: Op)
    ensures RunOps(c, ops + [op]) == Step(c, RunOps(c, ops), op)
    ensures Issued(c, ops + [op]) == Issued(c, ops) + StoredBy(c, RunOps(c, ops), op)
    ensures NamesIssued(c, ops) && IssuedBefore(RunOps(c, ops), op) ==> NamesIssued(c, ops + [op])
  {
    hide Step, StoredBy, IssuedBefore;
    var all := ops + [op];
    assert all[..|all| - 1] == ops && all[|all| - 1] == op;
    if NamesIssued(c, ops) && IssuedBefore(RunOps(c, ops), op) {
      forall q | 0 <= q < |all| ensures IssuedBefore(RunOps(c, all[..q]), all[q]) {
        if q < |ops| { assert all[..q] == ops[..q] && all[q] == ops[q]; }
      }
    }
  }

  /** At any later time, a PACKET_OUT that names the reported id acts on that very frame, by its
      serial number n, exactly when n is at most 2^32 and not 2^32 - 1; what else it would act
      on is the inline packet, or the frame that was given the id first. */
  lemma ReportedIdFetches(c: Config, ops: seq<Op>, pkt: Packet, wireLen: nat, more: seq<Op>, inline: Packet,
                          acts: seq<Action>)
    requires forall e :: !Candidate(c.reading, Mods(ops), PacketFields(c.blank, pkt.inPort, pkt.data), e)
    requires NamesIssued(c, ops + [Frame(pkt, wireLen, true)] + more)
    ensures var n := |Issued(c, ops)| + 1;
            var ps := Issued(c, ops + [Frame(pkt, wireLen, true)] + more);
            var s := RunOps(c, ops + [Frame(pkt, wireLen, true)] + more);
            var id: uint32 := n % 0x1_0000_0000;
            && n <= |ps| && ps[n - 1] == pkt && FirstWith(id) <= |ps|
            && AfterPacketOut(c, s, id, inline, acts) == RunActions(c.nPorts, s, acts, Named(id, inline, ps))
            && (FirstWith(id) == n && id != 0xffff_ffff <==> n <= 0x1_0000_0000 && n != 0xffff_ffff)
            && (n <= 0x1_0000_0000 && n != 0xffff_ffff ==> Named(id, inline, ps) == pkt)
  {
    hide RunOps, Issued, FieldsOf, PacketFields, Candidate, Mods, RunActions, AfterPacketOut, NamesIssued;
    var missed := ops + [Frame(pkt, wireLen, true)];
    NamesIssuedPrefix(c, missed, more);
    NamesIssuedPrefix(c, ops, [Frame(pkt, wireLen, true)]);
    MissIsReported(c, ops, pkt, wireLen, true);
    IssuedGrows(c, missed, more);
    var n := |Issued(c, ops)| + 1;
    IdDenotesPacket(c, missed + more, Issued(c, missed + more), n, n % IDS, inline, acts);
  }

  // ---------- from the bytes of a frame to the flow ----------

  /** A flow as the learning switches of examples/controller install it: it pins the two
      hardware addresses, wildcards the rest, and has the masks of the Flow constructor. */
  predicate Learned(a: Pattern) {
    && DL_SRC !in a.fields.wildcards && DL_DST !in a.fields.wildcards
    && (forall f :: f in {IN_PORT, DL_VLAN, DL_TYPE, NW_PROTO, TP_SRC, TP_DST, DL_VLAN_PCP, NW_TOS} ==>
          f in a.fields.wildcards)
    && a.srcMask == 0xffff_ffff && a.dstMask == 0xffff_ffff
  }

  /** Such a flow accepts an Ethernet II frame exactly when it is from and to these addresses,
      whatever else is in the frame, and a tag or not. */
  lemma LearnedFlowAccepts(a: Pattern, blank: Match, inPort: uint16, h: EthHeader, rest: seq<bv8>)
    requires Learned(a) && h.ethType >= 0x0600
    ensures Accepts(a, PacketFields(blank, inPort, h.Bytes() + rest)) <==>
            h.src == a.fields.dlSrc && h.dst == a.fields.dlDst
  {
    hide Accepts, PacketFields, AgreeOutside, EthHeader.Bytes;
    var p := PacketFields(blank, inPort, h.Bytes() + rest);
    AddressesOfFrame(blank, inPort, h, rest);
    AcceptsIffAgrees(a, p);
    AllIgnored(a.fields.nwSrc, p.nwSrc);
    AllIgnored(a.fields.nwDst, p.nwDst);
    assert SameField(p, a.fields, DL_SRC) <==> h.src == a.fields.dlSrc;
    assert SameField(p, a.fields, DL_DST) <==> h.dst == a.fields.dlDst;
  }

  lemma AddressesOfFrame(blank: Match, inPort: uint16, h: EthHeader, rest: seq<bv8>)
    requires h.ethType >= 0x0600
    ensures PacketFields(blank, inPort, h.Bytes() + rest).dlSrc == h.src
    ensures PacketFields(blank, inPort, h.Bytes() + rest).dlDst == h.dst
  {
    hide MacAt, Net16, Raw32, Vid, Pcp, IsFragment, EthHeader.Bytes;
    HeaderLength(h);
    EthLayout(h, rest);
  }

  lemma AllIgnored(x: bv32, y: bv32)
    ensures AgreeOutside(x, y, 0xffff_ffff)
  {
    forall b | IsBit(b) ensures AgreeAt(b, x, y, 0xffff_ffff) { BitIsSomething(b); }
  }
}
