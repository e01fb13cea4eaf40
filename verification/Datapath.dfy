/** The datapath of examples/switch/datapath.cc and the packet handler of port.cc: a class
    proved against functions on its state, and the packet buffer over whole runs. */
module Datapath {
  import opened Wrappers
  import opened Match10
  import opened MatchReadings
  import opened FlowTable
  import opened FrameParser

  // Reserved ports and the absent buffer, section 5.2.1 of the OpenFlow Switch Specification 1.0.0.
  const OFPP_IN_PORT: uint16 := 0xfff8
  const OFPP_FLOOD: uint16 := 0xfffb
  const OFPP_ALL: uint16 := 0xfffc
  const OFPP_CONTROLLER: uint16 := 0xfffd
  const NO_BUFFER: uint32 := 0xffff_ffff

  const IDS := 0x1_0000_0000

  datatype Packet = Packet(inPort: uint16, data: seq<bv8>)

  datatype Reason = NoMatch | ByAction

  /** What leaves the datapath: a frame on a port, or a PACKET_IN to the controller. */
  datatype Effect =
    | Injected(port: uint16, data: seq<bv8>)
    | PacketIn(bufferId: uint32, inPort: uint16, totalLen: nat, reason: Reason, data: seq<bv8>)

  datatype State = State(table: Table, buffer: map<uint32, Packet>, bufferId: uint32, log: seq<Effect>)

  // ---------- the packet buffer ----------

  /** The buffer id is incremented in 32 bits; map insertion keeps an entry that is there. */
  function NextId(id: uint32): uint32 { (id + 1) % IDS }

  function Store(s: State, pkt: Packet): State {
    var id := NextId(s.bufferId);
    s.(bufferId := id, buffer := if id in s.buffer then s.buffer else s.buffer[id := pkt])
  }

  // ---------- actions ----------

  /** Every port from `from` on, except the one the packet came in by. */
  function FloodFrom(from: nat, nPorts: uint16, pkt: Packet): (es: seq<Effect>)
    decreases nPorts - from
  {
    if from > nPorts then []
    else (if from == pkt.inPort then [] else [Injected(from, pkt.data)]) + FloodFrom(from + 1, nPorts, pkt)
  }

  /** The ports of the datapath are numbered from 1. */
  predicate IsPort(p: uint16, nPorts: uint16) { 1 <= p <= nPorts }

  /** What action_handler needs: it indexes the port vector without a check and sends to the
      controller without looking whether there is one. */
  predicate ActionOk(nPorts: uint16, connected: bool, a: Action, pkt: Packet) {
    a.Output? ==>
      if a.port == OFPP_IN_PORT then IsPort(pkt.inPort, nPorts)
      else if a.port == OFPP_FLOOD || a.port == OFPP_ALL then true
      else if a.port == OFPP_CONTROLLER then connected
      else IsPort(a.port, nPorts)
  }

  predicate ActionsOk(nPorts: uint16, connected: bool, acts: seq<Action>, pkt: Packet) {
    forall i :: 0 <= i < |acts| ==> ActionOk(nPorts, connected, acts[i], pkt)
  }

  function Truncate(data: seq<bv8>, maxLen: nat): seq<bv8> {
    if |data| > maxLen then data[..maxLen] else data
  }

  function RunAction(nPorts: uint16, s: State, a: Action, pkt: Packet): State {
    if a.Ignored? then s
    else if a.port == OFPP_IN_PORT then s.(log := s.log + [Injected(pkt.inPort, pkt.data)])
    else if a.port == OFPP_FLOOD || a.port == OFPP_ALL then s.(log := s.log + FloodFrom(1, nPorts, pkt))
    else if a.port == OFPP_CONTROLLER then
      Store(s, pkt).(
        log := s.log + [PacketIn(NO_BUFFER, pkt.inPort, |pkt.data|, ByAction, Truncate(pkt.data, a.maxLen))])
    else s.(log := s.log + [Injected(a.port, pkt.data)])
  }

  function RunActions(nPorts: uint16, s: State, acts: seq<Action>, pkt: Packet): State
    decreases |acts|
  {
    if acts == [] then s else RunActions(nPorts, RunAction(nPorts, s, acts[0], pkt), acts[1..], pkt)
  }

  // ---------- messages and packets ----------

  /** What does not change: how `~wc` is read, what a fresh match object holds, the ports. */
  datatype Config = Config(reading: Reading, blank: Match, nPorts: uint16)

  function FieldsOf(c: Config, pkt: Packet): Match { PacketFields(c.blank, pkt.inPort, pkt.data) }

  function AfterAdd(c: Config, s: State, f: Flow, buffer: uint32): State {
    var s1 := s.(table := Add(c.reading, s.table, f));
    if buffer != NO_BUFFER && buffer in s.buffer && Accepts(f.pattern, FieldsOf(c, s.buffer[buffer]))
    then RunActions(c.nPorts, s1, f.actions, s.buffer[buffer])
    else s1
  }

  function AfterDelete(c: Config, s: State, given: Pattern): State {
    s.(table := Delete(c.reading, s.table, given))
  }

  function AfterPacketOut(c: Config, s: State, buffer: uint32, inline: Packet, acts: seq<Action>): State {
    if buffer == NO_BUFFER then RunActions(c.nPorts, s, acts, inline)
    else if buffer in s.buffer then RunActions(c.nPorts, s, acts, s.buffer[buffer])
    else s
  }

  function AfterPacket(c: Config, s: State, connected: bool, pkt: Packet, wireLen: nat): State {
    match Lookup(s.table, FieldsOf(c, pkt))
    case Some(f) => RunActions(c.nPorts, s, f.actions, pkt)
    case None =>
      var s1 := Store(s, pkt);
      if connected
      then s1.(log := s.log + [PacketIn(s1.bufferId, pkt.inPort, wireLen, NoMatch, pkt.data)])
      else s1
  }

  class Datapath {
    const config: Config
    var flowTable: Table
    var pktBuffer: map<uint32, Packet>
    var bufferId: uint32
    var connected: bool
    var log: seq<Effect>

    ghost function Abs(): State
      reads this
    {
      State(flowTable, pktBuffer, bufferId, log)
    }

    constructor (c: Config)
      ensures config == c && Abs() == State([], map[], 0, []) && !connected
    {
      config := c;
      flowTable, pktBuffer, bufferId, connected, log := [], map[], 0, false, [];
    }

    method Buffer(pkt: Packet)
      modifies this
      ensures Abs() == Store(old(Abs()), pkt) && connected == old(connected)
    {
      bufferId := (bufferId + 1) % IDS;
      if bufferId !in pktBuffer { pktBuffer := pktBuffer[bufferId := pkt]; }
    }

    method ActionHandler(a: Action, pkt: Packet)
      requires ActionOk(config.nPorts, connected, a, pkt)
      modifies this
      ensures Abs() == RunAction(config.nPorts, old(Abs()), a, pkt) && connected == old(connected)
    {
      if a.Output? {
        if a.port == OFPP_IN_PORT {
          log := log + [Injected(pkt.inPort, pkt.data)];
        } else if a.port == OFPP_FLOOD || a.port == OFPP_ALL {
          var port := 1;
          while port <= config.nPorts
            invariant 1 <= port <= config.nPorts + 1
            invariant log + FloodFrom(port, config.nPorts, pkt) == old(log) + FloodFrom(1, config.nPorts, pkt)
            invariant Abs() == old(Abs()).(log := log) && connected == old(connected)
          {
            if port != pkt.inPort {
              log := log + [Injected(port, pkt.data)];
            }
            port := port + 1;
          }
        } else if a.port == OFPP_CONTROLLER {
          Buffer(pkt);
          var maxLen := if |pkt.data| > a.maxLen then a.maxLen else |pkt.data|;
          assert pkt.data[..maxLen] == Truncate(pkt.data, a.maxLen);
          log := log + [PacketIn(NO_BUFFER, pkt.inPort, |pkt.data|, ByAction, pkt.data[..maxLen])];
        } else {
          log := log + [Injected(a.port, pkt.data)];
        }
      }
    }

    method ApplyActions(acts: seq<Action>, pkt: Packet)
      requires ActionsOk(config.nPorts, connected, acts, pkt)
      modifies this
      ensures Abs() == RunActions(config.nPorts, old(Abs()), acts, pkt) && connected == old(connected)
    {
      var i := 0;
      while i < |acts|
        invariant 0 <= i <= |acts|
        invariant RunActions(config.nPorts, Abs(), acts[i..], pkt) == RunActions(config.nPorts, old(Abs()), acts, pkt)
        invariant connected == old(connected)
      {
        ActionHandler(acts[i], pkt);
        i := i + 1;
      }
    }

    /** The ADD case of handle_flow_mod: erase the first strict match, insert, and run the
        actions on the buffered packet that the message names. */
    method FlowModAdd(f: Flow, buffer: uint32)
      requires buffer != NO_BUFFER ==>
                 buffer in pktBuffer &&
                 (Accepts(f.pattern, FieldsOf(config, pktBuffer[buffer])) ==>
                    ActionsOk(config.nPorts, connected, f.actions, pktBuffer[buffer]))
      modifies this
      ensures Abs() == AfterAdd(config, old(Abs()), f, buffer) && connected == old(connected)
    {
      hide StrictMatch, Insert, Accepts, PacketFields, RunActions;
      var i := 0;
      while i < |flowTable|
        invariant 0 <= i <= |flowTable|
        invariant forall j :: 0 <= j < i ==> !StrictMatch(config.reading, flowTable[j], f)
        invariant Abs() == old(Abs()) && connected == old(connected)
      {
        if StrictMatch(config.reading, flowTable[i], f) {
          break;
        }
        i := i + 1;
      }
      FirstStrictIs(config.reading, flowTable, f, i);
      flowTable := Erase(flowTable, i);
      flowTable := Insert(flowTable, f);
      if buffer != NO_BUFFER {
        var pkt := pktBuffer[buffer];
        if Accepts(f.pattern, FieldsOf(config, pkt)) {
          ApplyActions(f.actions, pkt);
        }
      }
    }

    /** The DELETE case of handle_flow_mod: erase while walking the table. */
    method FlowModDelete(given: Pattern)
      modifies this
      ensures Abs() == AfterDelete(config, old(Abs()), given) && connected == old(connected)
    {
      hide Covers;
      var i := 0;
      while i < |flowTable|
        invariant 0 <= i <= |flowTable|
        invariant flowTable[..i] + Delete(config.reading, flowTable[i..], given) ==
                  Delete(config.reading, old(flowTable), given)
        invariant Abs() == old(Abs()).(table := flowTable) && connected == old(connected)
        decreases |flowTable| - i
      {
        DeleteSplit(config.reading, flowTable, i, given);
        if Covers(config.reading, given, flowTable[i].pattern) {
          flowTable := Erase(flowTable, i);
        } else {
          i := i + 1;
        }
      }
    }

    method PacketOut(buffer: uint32, inline: Packet, acts: seq<Action>)
      requires buffer != NO_BUFFER ==>
                 buffer in pktBuffer && ActionsOk(config.nPorts, connected, acts, pktBuffer[buffer])
      requires buffer == NO_BUFFER ==> ActionsOk(config.nPorts, connected, acts, inline)
      modifies this
      ensures Abs() == AfterPacketOut(config, old(Abs()), buffer, inline, acts) && connected == old(connected)
    {
      var pkt := inline;
      if buffer != NO_BUFFER {
        pkt := pktBuffer[buffer];
      }
      ApplyActions(acts, pkt);
    }

    /** packet_handler: the first entry that accepts the packet decides; a miss is buffered. */
    method HandlePacket(pkt: Packet, wireLen: nat)
      requires match Lookup(flowTable, FieldsOf(config, pkt))
               case Some(f) => ActionsOk(config.nPorts, connected, f.actions, pkt)
               case None => true
      modifies this
      ensures Abs() == AfterPacket(config, old(Abs()), connected, pkt, wireLen) && connected == old(connected)
    {
      hide Accepts, FieldsOf, RunActions;
      var fields := FieldsOf(config, pkt);
      var i := 0;
      while i < |flowTable|
        invariant 0 <= i <= |flowTable|
        invariant forall j :: 0 <= j < i ==> !Accepts(flowTable[j].pattern, fields)
        invariant Abs() == old(Abs()) && connected == old(connected)
      {
        if Accepts(flowTable[i].pattern, fields) {
          FirstIs(flowTable, fields, i);
          ApplyActions(flowTable[i].actions, pkt);
          return;
        }
        i := i + 1;
      }
      FirstIs(flowTable, fields, i);
      Buffer(pkt);
      if connected {
        log := log + [PacketIn(bufferId, pkt.inPort, wireLen, NoMatch, pkt.data)];
      }
    }
  }

  /** One step of the DELETE walk, at entry i. */
  lemma DeleteSplit(r: Reading, t: Table, i: nat, given: Pattern)
    requires i < |t|
    ensures t[..i] + Delete(r, t[i..], given) ==
            if Covers(r, given, t[i].pattern) then Erase(t, i)[..i] + Delete(r, Erase(t, i)[i..], given)
            else t[..i + 1] + Delete(r, t[i + 1..], given)
  {
    hide Covers;
    assert t[i..][1..] == t[i + 1..];
    assert Erase(t, i)[..i] == t[..i] && Erase(t, i)[i..] == t[i + 1..];
  }

  lemma FirstStrictIs(r: Reading, t: Table, f: Flow, n: nat)
    requires n <= |t|
    requires n < |t| ==> StrictMatch(r, t[n], f)
    requires forall j :: 0 <= j < n ==> !StrictMatch(r, t[j], f)
    ensures FirstStrict(r, t, f) == n
  {
    hide StrictMatch;
    var i := FirstStrict(r, t, f);
  }

  /** A flood sends the packet on every port but the one it came in by, and on no other. */
  lemma {:induction false} FloodReachesOtherPorts(from: nat, nPorts: uint16, pkt: Packet, e: Effect)
    ensures e in FloodFrom(from, nPorts, pkt) <==>
            e.Injected? && from <= e.port <= nPorts && e.port != pkt.inPort && e.data == pkt.data
    decreases nPorts - from
  {
    if from <= nPorts {
      FloodReachesOtherPorts(from + 1, nPorts, pkt, e);
    }
  }

  /** A flood sends at most once on each port. */
  lemma {:induction false} FloodSendsOnce(from: nat, nPorts: uint16, pkt: Packet)
    ensures forall i, j :: 0 <= i < j < |FloodFrom(from, nPorts, pkt)| ==>
              FloodFrom(from, nPorts, pkt)[i] != FloodFrom(from, nPorts, pkt)[j]
    decreases nPorts - from
  {
    if from <= nPorts {
      FloodSendsOnce(from + 1, nPorts, pkt);
      FloodReachesOtherPorts(from + 1, nPorts, pkt, Injected(from, pkt.data));
    }
  }

  // ---------- the packet buffer over runs ----------

  /** One thing that happens to the datapath. */
  datatype Op =
    | AddMsg(flow: Flow, buffer: uint32)
    | DeleteMsg(given: Pattern)
    | OutMsg(buffer: uint32, inline: Packet, acts: seq<Action>)
    | Frame(pkt: Packet, wireLen: nat, connected: bool)

  function Step(c: Config, s: State, op: Op): State {
    match op
    case AddMsg(f, buffer) => AfterAdd(c, s, f, buffer)
    case DeleteMsg(given) => AfterDelete(c, s, given)
    case OutMsg(buffer, inline, acts) => AfterPacketOut(c, s, buffer, inline, acts)
    case Frame(pkt, wireLen, connected) => AfterPacket(c, s, connected, pkt, wireLen)
  }

  const START := State([], map[], 0, [])

  function RunOps(c: Config, ops: seq<Op>): State {
    if ops == [] then START else Step(c, RunOps(c, ops[..|ops| - 1]), ops[|ops| - 1])
  }

  /** The controller names a buffer only if it was issued. */
  ghost predicate NamesIssued(c: Config, ops: seq<Op>) {
    forall q :: 0 <= q < |ops| ==> IssuedBefore(RunOps(c, ops[..q]), ops[q])
  }

  predicate IssuedBefore(s: State, op: Op) {
    (op.AddMsg? || op.OutMsg?) && op.buffer != NO_BUFFER ==> op.buffer in s.buffer
  }

  /** The packets that a list of actions stores: one copy for each output to the controller. */
  function StoredByActions(acts: seq<Action>, pkt: Packet): seq<Packet> {
    if acts == [] then []
    else (if acts[0].Output? && acts[0].port == OFPP_CONTROLLER then [pkt] else []) + StoredByActions(acts[1..], pkt)
  }

  /** The packets that an operation stores, in order. */
  function StoredBy(c: Config, s: State, op: Op): seq<Packet> {
    match op
    case AddMsg(f, buffer) =>
      if buffer != NO_BUFFER && buffer in s.buffer && Accepts(f.pattern, FieldsOf(c, s.buffer[buffer]))
      then StoredByActions(f.actions, s.buffer[buffer]) else []
    case DeleteMsg(given) => []
    case OutMsg(buffer, inline, acts) =>
      if buffer == NO_BUFFER then StoredByActions(acts, inline)
      else if buffer in s.buffer then StoredByActions(acts, s.buffer[buffer])
      else []
    case Frame(pkt, _, _) =>
      match Lookup(s.table, FieldsOf(c, pkt))
      case Some(f) => StoredByActions(f.actions, pkt)
      case None => [pkt]
  }

  /** All packets stored in a run, in the order in which ids were issued to them. */
  function Issued(c: Config, ops: seq<Op>): seq<Packet> {
    if ops == [] then []
    else
      var before := ops[..|ops| - 1];
      Issued(c, before) + StoredBy(c, RunOps(c, before), ops[|ops| - 1])
  }

  /** The serial number of the first packet that was given an id. */
  function FirstWith(id: uint32): nat { if id == 0 then IDS else id }

  /** The buffer after ids were issued to the packets ps. */
  ghost predicate Holds(s: State, ps: seq<Packet>) {
    && s.bufferId == |ps| % IDS
    && (forall id: uint32 :: id in s.buffer <==> FirstWith(id) <= |ps|)
    && (forall id: uint32 :: id in s.buffer ==> s.buffer[id] == ps[FirstWith(id) - 1])
  }

  lemma NextIdIsNext(k: nat)
    ensures (k % IDS + 1) % IDS == (k + 1) % IDS
    ensures FirstWith((k + 1) % IDS) <= k + 1
    ensures FirstWith((k + 1) % IDS) == k + 1 <==> k < IDS
  {}

  lemma StoreHolds(s: State, ps: seq<Packet>, pkt: Packet)
    requires Holds(s, ps)
    ensures Holds(Store(s, pkt), ps + [pkt])
  {
    NextIdIsNext(|ps|);
    var s' := Store(s, pkt);
    var now: uint32 := (|ps| + 1) % IDS;
    forall id: uint32 ensures id in s'.buffer <==> FirstWith(id) <= |ps| + 1 {
      if FirstWith(id) == |ps| + 1 { assert id == now; }
    }
  }

  lemma {:induction false} ActionsHold(nPorts: uint16, s: State, acts: seq<Action>, pkt: Packet, ps: seq<Packet>)
    requires Holds(s, ps)
    ensures Holds(RunActions(nPorts, s, acts, pkt), ps + StoredByActions(acts, pkt))
    decreases |acts|
  {
    hide Store, Holds;
    if acts == [] {
      assert ps + [] == ps;
    } else {
      var s1 := RunAction(nPorts, s, acts[0], pkt);
      var now := if acts[0].Output? && acts[0].port == OFPP_CONTROLLER then [pkt] else [];
      StoreHolds(s, ps, pkt);
      assert ps + [] == ps;
      SameBuffer(s, s1, ps);
      SameBuffer(Store(s, pkt), s1, ps + [pkt]);
      ActionsHold(nPorts, s1, acts[1..], pkt, ps + now);
      assert ps + StoredByActions(acts, pkt) == ps + now + StoredByActions(acts[1..], pkt);
    }
  }

  lemma SameBuffer(s: State, s': State, ps: seq<Packet>)
    ensures s'.buffer == s.buffer && s'.bufferId == s.bufferId && Holds(s, ps) ==> Holds(s', ps)
  {}

  /** Over every run, the buffer holds exactly the ids issued, each with the packet that was
      first given it. */
  lemma {:induction false} BufferHoldsIssued(c: Config, ops: seq<Op>)
    requires NamesIssued(c, ops)
    ensures Holds(RunOps(c, ops), Issued(c, ops))
  {
    hide Holds, RunActions, StoredByActions, Add, Delete, FieldsOf, Store;
    if ops == [] {
      EmptyHolds();
    } else {
      var before, op := ops[..|ops| - 1], ops[|ops| - 1];
      forall q | 0 <= q < |before| ensures IssuedBefore(RunOps(c, before[..q]), before[q]) {
        assert before[..q] == ops[..q] && before[q] == ops[q];
      }
      BufferHoldsIssued(c, before);
      var s, ps := RunOps(c, before), Issued(c, before);
      assert ps + [] == ps;
      StepHolds(c, s, op, ps);
    }
  }

  lemma EmptyHolds()
    ensures Holds(START, [])
  {}

  lemma StepHolds(c: Config, s: State, op: Op, ps: seq<Packet>)
    requires Holds(s, ps)
    ensures Holds(Step(c, s, op), ps + StoredBy(c, s, op))
  {
    hide Holds, RunActions, StoredByActions, FieldsOf, Store, Accepts;
    assert ps + [] == ps;
    match op
    case AddMsg(f, buffer) =>
      var s1 := s.(table := Add(c.reading, s.table, f));
      SameBuffer(s, s1, ps);
      if buffer in s.buffer { ActionsHold(c.nPorts, s1, f.actions, s.buffer[buffer], ps); }
    case DeleteMsg(given) => SameBuffer(s, AfterDelete(c, s, given), ps);
    case OutMsg(buffer, inline, acts) =>
      ActionsHold(c.nPorts, s, acts, inline, ps);
      if buffer in s.buffer { ActionsHold(c.nPorts, s, acts, s.buffer[buffer], ps); }
    case Frame(pkt, wireLen, connected) =>
      StoreHolds(s, ps, pkt);
      SameBuffer(Store(s, pkt), AfterPacket(c, s, connected, pkt, wireLen), ps + [pkt]);
      if Lookup(s.table, FieldsOf(c, pkt)).Some? {
        ActionsHold(c.nPorts, s, Lookup(s.table, FieldsOf(c, pkt)).value.actions, pkt, ps);
      }
  }

  /** What a message that names id acts on: the inline packet for the one id that stands for no
      buffer, and otherwise the packet that was first given the id. */
  function Named(id: uint32, inline: Packet, ps: seq<Packet>): Packet
    requires id != NO_BUFFER ==> FirstWith(id) <= |ps|
  {
    if id == NO_BUFFER then inline else ps[FirstWith(id) - 1]
  }

  /** After a run that stored ps, a PACKET_OUT that names the id issued to the n-th packet acts
      on that one, by its serial number, exactly when n is at most 2^32 and not 2^32 - 1. */
  lemma IdDenotesPacket(c: Config, ops: seq<Op>, ps: seq<Packet>, n: nat, id: uint32, inline: Packet, acts: seq<Action>)
    requires NamesIssued(c, ops)
    requires ps == Issued(c, ops)
    requires 1 <= n <= |ps| && id == n % IDS
    ensures id in RunOps(c, ops).buffer && FirstWith(id) <= |ps|
    ensures RunOps(c, ops).buffer[id] == ps[FirstWith(id) - 1]
    ensures AfterPacketOut(c, RunOps(c, ops), id, inline, acts) ==
            RunActions(c.nPorts, RunOps(c, ops), acts, Named(id, inline, ps))
    ensures FirstWith(id) == n && id != NO_BUFFER <==> n <= IDS && n != IDS - 1
  {
    hide RunOps, Issued, RunActions;
    BufferHoldsIssued(c, ops);
    NextIdIsNext(n - 1);
  }

  /** The same for an ADD: without a buffer it does nothing beside the table. */
  lemma IdOfAddDenotesPacket(c: Config, ops: seq<Op>, ps: seq<Packet>, n: nat, id: uint32, f: Flow)
    requires NamesIssued(c, ops)
    requires ps == Issued(c, ops)
    requires 1 <= n <= |ps| && id == n % IDS
    ensures FirstWith(id) <= |ps|
    ensures var s := RunOps(c, ops).(table := Add(c.reading, RunOps(c, ops).table, f));
            var p := ps[FirstWith(id) - 1];
            AfterAdd(c, RunOps(c, ops), f, id) ==
            if id != NO_BUFFER && Accepts(f.pattern, FieldsOf(c, p)) then RunActions(c.nPorts, s, f.actions, p) else s
  {
    hide RunOps, Issued, RunActions, Add, Accepts, FieldsOf;
    BufferHoldsIssued(c, ops);
    NextIdIsNext(n - 1);
  }

  /** Naming the id issued to the n-th packet always has the effect of acting on that packet
      exactly when the id is not the one for no buffer and was first given to an equal packet. */
  lemma FetchesIff(c: Config, ops: seq<Op>, ps: seq<Packet>, n: nat, id: uint32)
    requires NamesIssued(c, ops)
    requires ps == Issued(c, ops)
    requires 1 <= n <= |ps| && id == n % IDS
    ensures FirstWith(id) <= |ps|
    ensures (forall inline, acts :: AfterPacketOut(c, RunOps(c, ops), id, inline, acts) ==
                                    RunActions(c.nPorts, RunOps(c, ops), acts, ps[n - 1])) <==>
            id != NO_BUFFER && ps[FirstWith(id) - 1] == ps[n - 1]
  {
    hide RunOps, Issued, RunActions, AfterPacketOut;
    var s, pkt := RunOps(c, ops), ps[n - 1];
    var other := pkt.(inPort := if pkt.inPort == 0 then 1 else 0);
    IdDenotesPacket(c, ops, ps, n, id, other, BACK);
    if forall inline, acts :: AfterPacketOut(c, s, id, inline, acts) == RunActions(c.nPorts, s, acts, pkt) {
      assert AfterPacketOut(c, s, id, other, BACK) == RunActions(c.nPorts, s, BACK, pkt);
      BackTellsPacket(c.nPorts, s, Named(id, other, ps), pkt);
    }
    if id != NO_BUFFER && ps[FirstWith(id) - 1] == pkt {
      forall inline, acts ensures AfterPacketOut(c, s, id, inline, acts) == RunActions(c.nPorts, s, acts, pkt) {
        IdDenotesPacket(c, ops, ps, n, id, inline, acts);
      }
    }
  }

  /** Sends the packet back where it came from. */
  const BACK := [Output(OFPP_IN_PORT, 0)]

  lemma BackTellsPacket(nPorts: uint16, s: State, p: Packet, q: Packet)
    requires RunActions(nPorts, s, BACK, p) == RunActions(nPorts, s, BACK, q)
    ensures p == q
  {
    assert BACK[1..] == [];
    assert RunActions(nPorts, s, BACK, p).log[|s.log|] == Injected(p.inPort, p.data);
    assert RunActions(nPorts, s, BACK, q).log[|s.log|] == Injected(q.inPort, q.data);
  }

  // ---------- the id that stands for no buffer ----------

  function Misses(pkt: Packet, n: nat): seq<Op> { seq(n, i => Frame(pkt, 0, false)) }

  /** Frames that no flow accepts take one id each. */
  lemma {:induction false} MissesTakeIds(c: Config, pkt: Packet, n: nat)
    ensures NamesIssued(c, Misses(pkt, n)) && Issued(c, Misses(pkt, n)) == seq(n, i => pkt)
    ensures RunOps(c, Misses(pkt, n)).table == []
  {
    hide FieldsOf;
    if n > 0 {
      var all := Misses(pkt, n);
      assert all[..|all| - 1] == Misses(pkt, n - 1);
      MissesTakeIds(c, pkt, n - 1);
      assert StoredBy(c, RunOps(c, Misses(pkt, n - 1)), all[n - 1]) == [pkt];
      assert Issued(c, all) == seq(n - 1, i => pkt) + [pkt];
    }
  }

  /** The packet that is stored after 2^32 - 2 others is issued the id that stands for no
      buffer, and a message that names it does not reach the packet. */
  lemma NoBufferIsIssued(c: Config, pkt: Packet)
    ensures var ops := Misses(pkt, IDS - 1);
            && NamesIssued(c, ops) && |Issued(c, ops)| == IDS - 1 && (IDS - 1) % IDS == NO_BUFFER
            && !(forall inline, acts :: AfterPacketOut(c, RunOps(c, ops), NO_BUFFER, inline, acts) ==
                                        RunActions(c.nPorts, RunOps(c, ops), acts, pkt))
  {
    hide RunOps, Issued, RunActions, AfterPacketOut, NamesIssued;
    MissesTakeIds(c, pkt, IDS - 1);
    FetchesIff(c, Misses(pkt, IDS - 1), seq(IDS - 1, i => pkt), IDS - 1, NO_BUFFER);
  }

  lemma {:induction false} IssuedGrows(c: Config, ops: seq<Op>, more: seq<Op>)
    ensures Issued(c, ops) <= Issued(c, ops + more)
  {
    if more == [] {
      assert ops + more == ops;
    } else {
      var m := more[..|more| - 1];
      IssuedGrows(c, ops, m);
      assert (ops + more)[..|ops + more| - 1] == ops + m;
    }
  }

  /** An id stays bound to its packet through every continuation of a run. */
  lemma BindingIsPermanent(c: Config, ops: seq<Op>, more: seq<Op>, id: uint32)
    requires NamesIssued(c, ops + more)
    requires id in RunOps(c, ops).buffer
    ensures id in RunOps(c, ops + more).buffer && RunOps(c, ops + more).buffer[id] == RunOps(c, ops).buffer[id]
  {
    hide RunOps, Issued;
    NamesIssuedPrefix(c, ops, more);
    BufferHoldsIssued(c, ops);
    BufferHoldsIssued(c, ops + more);
    IssuedGrows(c, ops, more);
  }

  lemma NamesIssuedPrefix(c: Config, ops: seq<Op>, more: seq<Op>)
    requires NamesIssued(c, ops + more)
    ensures NamesIssued(c, ops)
  {
    hide RunOps, IssuedBefore;
    forall q | 0 <= q < |ops| ensures IssuedBefore(RunOps(c, ops[..q]), ops[q]) {
      assert (ops + more)[..q] == ops[..q] && (ops + more)[q] == ops[q];
    }
  }

  // ---------- the flow table over runs of the datapath ----------

  /** The flow modifications among the operations. */
  function Mods(ops: seq<Op>): seq<Mod> {
    if ops == [] then []
    else
      Mods(ops[..|ops| - 1]) +
      match ops[|ops| - 1]
      case AddMsg(f, _) => [AddFlow(f)]
      case DeleteMsg(given) => [DeleteFlows(given)]
      case _ => []
  }

  lemma {:induction false} ActionsKeepTable(nPorts: uint16, s: State, acts: seq<Action>, pkt: Packet)
    ensures RunActions(nPorts, s, acts, pkt).table == s.table
    decreases |acts|
  {
    if acts != [] { ActionsKeepTable(nPorts, RunAction(nPorts, s, acts[0], pkt), acts[1..], pkt); }
  }

  /** Only flow modifications change the table: it is the run of those alone. */
  lemma {:induction false} TableIsRunOfMods(c: Config, ops: seq<Op>)
    ensures RunOps(c, ops).table == Run(c.reading, Mods(ops))
  {
    hide RunActions, FieldsOf, Apply, Accepts;
    if ops != [] {
      var before, op := ops[..|ops| - 1], ops[|ops| - 1];
      var s := RunOps(c, before);
      TableIsRunOfMods(c, before);
      TableStep(c, s, op);
      var now := match op case AddMsg(f, _) => [AddFlow(f)] case DeleteMsg(given) => [DeleteFlows(given)] case _ => [];
      assert Mods(ops) == Mods(before) + now;
      if now == [] {
        assert Mods(ops) == Mods(before);
      } else {
        assert Mods(ops)[..|Mods(ops)| - 1] == Mods(before);
        assert Run(c.reading, Mods(ops)) == Apply(c.reading, Run(c.reading, Mods(before)), now[0]);
      }
    }
  }

  lemma TableStep(c: Config, s: State, op: Op)
    ensures Step(c, s, op).table ==
            match op
            case AddMsg(f, _) => Apply(c.reading, s.table, AddFlow(f))
            case DeleteMsg(given) => Apply(c.reading, s.table, DeleteFlows(given))
            case _ => s.table
  {
    hide RunActions, FieldsOf, Accepts, Add, Delete;
    match op
    case AddMsg(f, buffer) =>
      if buffer in s.buffer {
        ActionsKeepTable(c.nPorts, s.(table := Add(c.reading, s.table, f)), f.actions, s.buffer[buffer]);
      }
    case DeleteMsg(_) =>
    case OutMsg(buffer, inline, acts) =>
      ActionsKeepTable(c.nPorts, s, acts, inline);
      if buffer in s.buffer { ActionsKeepTable(c.nPorts, s, acts, s.buffer[buffer]); }
    case Frame(pkt, wireLen, connected) =>
      if Lookup(s.table, FieldsOf(c, pkt)).Some? {
        ActionsKeepTable(c.nPorts, s, Lookup(s.table, FieldsOf(c, pkt)).value.actions, pkt);
      }
  }

  /** After every run of messages and frames, under either reading, a packet is handled by the newest of the flows in
      force that accept it and have the least priority value, and misses if there is none. */
  lemma PacketMeetsNewestOfLeast(c: Config, ops: seq<Op>, pkt: Packet)
    ensures var found := Lookup(RunOps(c, ops).table, FieldsOf(c, pkt));
            && (found.None? <==> forall e :: !Candidate(c.reading, Mods(ops), FieldsOf(c, pkt), e))
            && (found.Some? ==>
                  exists e :: Selected(c.reading, Mods(ops), FieldsOf(c, pkt), e) && e.flow == found.value)
  {
    hide RunOps, Run, Mods, FieldsOf, Candidate;
    TableIsRunOfMods(c, ops);
    LookupIsNewestOfLeast(c.reading, Mods(ops), FieldsOf(c, pkt));
  }
}
