/** The part of OpenFlow 1.3.1 that the multicast agent uses, and an abstract switch that
    replays what the agent sends. */
module OpenFlow13 {
  import opened Wrappers

  const OFPP_ANY: uint32 := 0xffff_ffff
  const OFPP_CONTROLLER: uint32 := 0xffff_fffd
  const OFPG_MAX: uint32 := 0xffff_ff00
  const OFPG_ALL: uint32 := 0xffff_fffc
  const OFPG_ANY: uint32 := 0xffff_ffff

  /** Exact-match fields. */
  datatype Oxm =
    | EthType(ethType: uint16) | IpProto(ipProto: uint8) | Ipv4Src(src: uint32) | Ipv4Dst(dst: uint32)
    | UdpSrc(srcPort: uint16) | UdpDst(dstPort: uint16)

  datatype Action =
    | SetUdpDst(udpDst: uint16) | SetIpv4Dst(ipv4Dst: uint32) | SetEthDst(ethDst: nat)
    | Output(port: uint32) | ToGroup(groupId: uint32)

  datatype Bucket = Bucket(weight: uint16, watchPort: uint32, watchGroup: uint32, actions: seq<Action>)

  datatype GroupCommand = GroupAdd | GroupModify | GroupDelete

  /** A group modification; every group of the agent has type ALL. */
  datatype GroupMod = GroupMod(command: GroupCommand, groupId: uint32, buckets: seq<Bucket>)

  datatype FlowCommand = FlowAdd | FlowDelete

  /** A flow modification of table 0, without timeouts. */
  datatype FlowMod = FlowMod(
    command: FlowCommand, priority: uint16, outPort: uint32, outGroup: uint32, fields: set<Oxm>, actions: seq<Action>)

  /** A packet handed to the agent by the switch. */
  datatype PacketIn = PacketIn(
    protocol: uint16, smac: nat, sip: uint32, dip: uint32, srcPort: uint16, dstPort: uint16, inIntf: uint16)

  datatype Msg =
    | Group(gm: GroupMod)
    | Flow(fm: FlowMod)
    | PacketOut(pk: PacketIn, outPort: uint16)

  // ---------- the abstract switch ----------

  /** `Standard` follows sections 6.4 and 6.5 of the OpenFlow Switch Specification 1.3.1.
      `Lenient` gives no help: it adds flows without a look at the group table, leaves the
      flows alone when a group is deleted, and deletes flows by their match alone. */
  datatype Rules = Standard | Lenient

  datatype FlowKey = FlowKey(priority: uint16, fields: set<Oxm>)

  /** `ok` is lost when a modification is rejected and never regained. */
  datatype Switch = Switch(ok: bool, groups: map<uint32, seq<Bucket>>, flows: map<FlowKey, seq<Action>>)

  const EMPTY := Switch(true, map[], map[])

  predicate UsesGroup(acts: seq<Action>, gid: uint32) { ToGroup(gid) in acts }

  /** The deletion of group gid takes something from the actions. */
  predicate LosesGroup(acts: seq<Action>, gid: uint32) {
    if gid == OFPG_ALL then exists i :: 0 <= i < |acts| && acts[i].ToGroup? else UsesGroup(acts, gid)
  }

  /** Every group that the actions name is in the group table. */
  predicate GroupsKnown(sw: Switch, acts: seq<Action>) {
    forall i :: 0 <= i < |acts| && acts[i].ToGroup? ==> acts[i].groupId in sw.groups
  }

  function Without<K, V>(m: map<K, V>, k: K): map<K, V> { map j | j in m && j != k :: m[j] }

  /** ADD of a group that is present, or with a reserved id, and MODIFY of one that is absent
      are rejected; DELETE is no error for an absent group, and also removes the flows that use
      the group; one reserved id stands for all groups. */
  function ApplyGroup(r: Rules, sw: Switch, g: GroupMod): Switch {
    match g.command
    case GroupAdd =>
      if g.groupId in sw.groups || g.groupId > OFPG_MAX
      then sw.(ok := false)
      else sw.(groups := sw.groups[g.groupId := g.buckets])
    case GroupModify =>
      if g.groupId !in sw.groups then sw.(ok := false) else sw.(groups := sw.groups[g.groupId := g.buckets])
    case GroupDelete =>
      sw.(groups := if g.groupId == OFPG_ALL then map[] else Without(sw.groups, g.groupId),
          flows := map k | k in sw.flows && !(r == Standard && LosesGroup(sw.flows[k], g.groupId)) :: sw.flows[k])
  }

  /** A FlowMod DELETE is non-strict, and its output port and group are filters. */
  predicate Deletes(r: Rules, f: FlowMod, k: FlowKey, acts: seq<Action>) {
    && f.fields <= k.fields
    && (r == Standard ==>
          && (f.outPort == OFPP_ANY || Output(f.outPort) in acts)
          && (f.outGroup == OFPG_ANY || ToGroup(f.outGroup) in acts))
  }

  /** An ADD whose actions name an unknown group is rejected, and otherwise replaces an entry
      of the same match and priority. */
  function ApplyFlow(r: Rules, sw: Switch, f: FlowMod): Switch {
    match f.command
    case FlowAdd =>
      if r == Lenient || GroupsKnown(sw, f.actions)
      then sw.(flows := sw.flows[FlowKey(f.priority, f.fields) := f.actions])
      else sw.(ok := false)
    case FlowDelete =>
      sw.(flows := map k | k in sw.flows && !Deletes(r, f, k, sw.flows[k]) :: sw.flows[k])
  }

  function Apply(r: Rules, sw: Switch, m: Msg): Switch {
    match m
    case Group(g) => ApplyGroup(r, sw, g)
    case Flow(f) => ApplyFlow(r, sw, f)
    case PacketOut(_, _) => sw
  }

  function Replay(r: Rules, sw: Switch, msgs: seq<Msg>): Switch
    decreases |msgs|
  {
    if msgs == [] then sw else Replay(r, Apply(r, sw, msgs[0]), msgs[1..])
  }

  /** No flow names a group that is not in the group table. */
  ghost predicate NoDangling(sw: Switch) {
    forall k :: k in sw.flows ==> GroupsKnown(sw, sw.flows[k])
  }

  /** Before the first message and after each, nothing was rejected and no flow dangles. */
  ghost predicate SafeThroughout(r: Rules, sw: Switch, msgs: seq<Msg>)
    decreases |msgs|
  {
    sw.ok && NoDangling(sw) && (msgs != [] ==> SafeThroughout(r, Apply(r, sw, msgs[0]), msgs[1..]))
  }

  // ---------- the rules, by their numbers ----------

  /** What is rejected.  Group ids above 0xffffff00 are reserved. */
  lemma RejectedIff(r: Rules, sw: Switch, m: Msg)
    requires sw.ok
    ensures !Apply(r, sw, m).ok <==>
            match m
            case Group(g) =>
              || (g.command == GroupAdd && (g.groupId in sw.groups || g.groupId > 0xffff_ff00))
              || (g.command == GroupModify && g.groupId !in sw.groups)
            case Flow(f) =>
              f.command == FlowAdd && r == Standard && exists gid :: ToGroup(gid) in f.actions && gid !in sw.groups
            case PacketOut(_, _) => false
  {
    if m.Flow? && m.fm.command == FlowAdd { GroupsKnownIff(sw, m.fm.actions); }
  }

  lemma GroupsKnownIff(sw: Switch, acts: seq<Action>)
    ensures GroupsKnown(sw, acts) <==> forall gid :: ToGroup(gid) in acts ==> gid in sw.groups
  {
    if forall gid :: ToGroup(gid) in acts ==> gid in sw.groups {
      forall i | 0 <= i < |acts| && acts[i].ToGroup? ensures acts[i].groupId in sw.groups {
        assert ToGroup(acts[i].groupId) in acts;
      }
    }
  }

  /** What the deletion of a group takes with it; 0xfffffffc stands for all groups. */
  lemma GroupDeleteTakes(sw: Switch, g: GroupMod, gid: uint32, k: FlowKey)
    requires g.command == GroupDelete
    ensures var sw' := ApplyGroup(Standard, sw, g);
            && (gid in sw'.groups <==> gid in sw.groups && g.groupId != gid && g.groupId != 0xffff_fffc)
            && (k in sw'.flows <==>
                  k in sw.flows &&
                  forall x :: x == g.groupId || g.groupId == 0xffff_fffc ==> ToGroup(x) !in sw.flows[k])
  {
    if k in sw.flows && LosesGroup(sw.flows[k], g.groupId) {
      var i :| 0 <= i < |sw.flows[k]| && sw.flows[k][i].ToGroup? &&
               (g.groupId == OFPG_ALL || sw.flows[k][i].groupId == g.groupId);
      assert ToGroup(sw.flows[k][i].groupId) in sw.flows[k];
    }
  }

  /** What the deletion of flows takes: 0xffffffff as output port or group filters nothing. */
  lemma FlowDeleteTakes(sw: Switch, f: FlowMod, k: FlowKey)
    requires f.command == FlowDelete
    ensures k in ApplyFlow(Standard, sw, f).flows <==>
            && k in sw.flows
            && !(&& f.fields <= k.fields
                 && (f.outPort == 0xffff_ffff || Output(f.outPort) in sw.flows[k])
                 && (f.outGroup == 0xffff_ffff || ToGroup(f.outGroup) in sw.flows[k]))
  {}

  /** A switch that follows the standard never gets a dangling flow, whatever it is sent. */
  lemma StandardNeverDangles(sw: Switch, m: Msg)
    requires NoDangling(sw)
    ensures NoDangling(Apply(Standard, sw, m))
  {
    hide LosesGroup;
    var sw' := Apply(Standard, sw, m);
    forall k | k in sw'.flows ensures GroupsKnown(sw', sw'.flows[k]) {
      GroupsKnownIff(sw', sw'.flows[k]);
      if k in sw.flows { GroupsKnownIff(sw, sw.flows[k]); }
      if m.Group? && m.gm.command == GroupDelete {
        forall gid | ToGroup(gid) in sw'.flows[k] ensures gid in sw'.groups {
          GroupDeleteTakes(sw, m.gm, gid, k);
        }
      }
    }
  }

  lemma {:induction false} ReplayConcat(r: Rules, sw: Switch, a: seq<Msg>, b: seq<Msg>)
    ensures Replay(r, sw, a + b) == Replay(r, Replay(r, sw, a), b)
    decreases |a|
  {
    hide Apply;
    if a == [] {
      assert a + b == b;
    } else {
      assert (a + b)[1..] == a[1..] + b;
      ReplayConcat(r, Apply(r, sw, a[0]), a[1..], b);
    }
  }

  lemma {:induction false} SafeConcat(r: Rules, sw: Switch, a: seq<Msg>, b: seq<Msg>)
    requires SafeThroughout(r, sw, a) && SafeThroughout(r, Replay(r, sw, a), b)
    ensures SafeThroughout(r, sw, a + b)
    decreases |a|
  {
    hide Apply, NoDangling;
    if a == [] {
      assert a + b == b;
    } else {
      assert (a + b)[1..] == a[1..] + b;
      SafeConcat(r, Apply(r, sw, a[0]), a[1..], b);
    }
  }

  lemma {:induction false} SafeAfter(r: Rules, sw: Switch, msgs: seq<Msg>, k: nat)
    requires SafeThroughout(r, sw, msgs) && k <= |msgs|
    ensures Replay(r, sw, msgs[..k]).ok && NoDangling(Replay(r, sw, msgs[..k]))
    decreases k
  {
    hide Apply, NoDangling;
    if k > 0 {
      assert msgs[..k][1..] == msgs[1..][..k - 1];
      SafeAfter(r, Apply(r, sw, msgs[0]), msgs[1..], k - 1);
    }
  }

  /** A rejection is never forgotten. */
  lemma {:induction false} RejectionStays(r: Rules, sw: Switch, msgs: seq<Msg>)
    ensures Replay(r, sw, msgs).ok ==> sw.ok
    decreases |msgs|
  {
    if msgs != [] { RejectionStays(r, Apply(r, sw, msgs[0]), msgs[1..]); }
  }
}
