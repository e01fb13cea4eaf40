/** The frame parser of examples/switch/flow.cc and the header layouts of packets.h. */
module FrameParser {
  import opened Wrappers
  import opened Match10

  const ETH_TYPE_II_START: bv16 := 0x0600
  const ETH_TYPE_IP: bv16 := 0x0800
  const ETH_TYPE_ARP: bv16 := 0x0806
  const ETH_TYPE_VLAN: bv16 := 0x8100
  const LLC_DSAP_SNAP: bv8 := 0xaa
  const LLC_SSAP_SNAP: bv8 := 0xaa
  const LLC_CNTL_SNAP: bv8 := 3
  const VLAN_VID_MASK: bv16 := 0x0fff
  const VLAN_PCP_MASK: bv16 := 0xe000
  const VLAN_PCP_SHIFT := 13
  const VLAN_NONE: bv16 := 0xffff
  const IP_TYPE_ICMP: bv8 := 1
  const IP_TYPE_TCP: bv8 := 6
  const IP_TYPE_UDP: bv8 := 17
  const IP_MORE_FRAGMENTS: bv16 := 0x2000
  const IP_FRAG_OFF_MASK: bv16 := 0x1fff

  const ETH_HEADER_LEN := 14
  const LLC_HEADER_LEN := 3
  const SNAP_HEADER_LEN := 5
  const VLAN_HEADER_LEN := 4
  const ARP_ETH_HEADER_LEN := 28
  const IP_HEADER_LEN := 20
  const ICMP_HEADER_LEN := 4
  const TCP_HEADER_LEN := 20
  const UDP_HEADER_LEN := 8

  /** The fields that the parser sets; a field it leaves alone is None. */
  datatype Fields = Fields(
    dlSrc: Option<Mac>, dlDst: Option<Mac>, dlVlan: Option<bv16>, dlVlanPcp: Option<bv8>, dlType: Option<bv16>,
    nwTos: Option<bv8>, nwProto: Option<bv8>, nwSrc: Option<bv32>, nwDst: Option<bv32>,
    tpSrc: Option<bv16>, tpDst: Option<bv16>)

  const UNSET := Fields(None, None, None, None, None, None, None, None, None, None, None)

  // ---------- reads ----------

  function Join16(hi: bv8, lo: bv8): bv16 { ((hi as bv16) << 8) | (lo as bv16) }

  /** A 16-bit field in network order. */
  function Net16(f: seq<bv8>, at: nat): bv16
    requires at + 2 <= |f|
  {
    Join16(f[at], f[at + 1])
  }

  /** An address kept in the order of memory, as a little-endian host loads it. */
  function Raw32(f: seq<bv8>, at: nat): bv32
    requires at + 4 <= |f|
  {
    Load32(Mac(f[at], f[at + 1], f[at + 2], f[at + 3], 0, 0))
  }

  function MacAt(f: seq<bv8>, at: nat): Mac
    requires at + 6 <= |f|
  {
    Mac(f[at], f[at + 1], f[at + 2], f[at + 3], f[at + 4], f[at + 5])
  }

  function Vid(tci: bv16): bv16 { tci & VLAN_VID_MASK }

  function Pcp(tci: bv16): bv8 { ((tci & VLAN_PCP_MASK) >> VLAN_PCP_SHIFT) as bv8 }

  predicate IsFragment(fragOff: bv16) { fragOff & (IP_MORE_FRAGMENTS | IP_FRAG_OFF_MASK) != 0 }

  predicate IsSnapEthernet(f: seq<bv8>)
    requires |f| >= ETH_HEADER_LEN
  {
    && |f| >= 22
    && f[14] == LLC_DSAP_SNAP && f[15] == LLC_SSAP_SNAP && f[16] == LLC_CNTL_SNAP
    && f[17] == 0 && f[18] == 0 && f[19] == 0
  }

  // ---------- what the parser computes ----------

  function Extract(f: seq<bv8>): Fields {
    if |f| < ETH_HEADER_LEN then UNSET
    else if Net16(f, 12) < ETH_TYPE_II_START then
      // The source address is set twice and ends up holding the destination.
      if IsSnapEthernet(f) then
        UNSET.(dlSrc := Some(MacAt(f, 0)), dlType := Some(Net16(f, 12)), dlVlan := Some(VLAN_NONE))
      else UNSET
    else
      var m := UNSET.(dlSrc := Some(MacAt(f, 6)), dlDst := Some(MacAt(f, 0)), dlType := Some(Net16(f, 12)));
      if Net16(f, 12) == ETH_TYPE_VLAN then Tagged(f, m)
      else Network(f, m.(dlVlan := Some(VLAN_NONE)))
  }

  function Tagged(f: seq<bv8>, m: Fields): Fields {
    if |f| < 18 then m
    else m.(dlVlan := Some(Vid(Net16(f, 14))), dlVlanPcp := Some(Pcp(Net16(f, 14))), dlType := Some(Net16(f, 16)))
  }

  function Network(f: seq<bv8>, m: Fields): Fields
    requires |f| >= ETH_HEADER_LEN
  {
    if Net16(f, 12) == ETH_TYPE_ARP then
      if |f| < 42 then m
      else m.(nwSrc := Some(Raw32(f, 28)), nwDst := Some(Raw32(f, 38)), nwProto := Some(f[21]))
    else if Net16(f, 12) == ETH_TYPE_IP then
      if |f| < 34 then m
      else
        var m := m.(nwSrc := Some(Raw32(f, 26)), nwDst := Some(Raw32(f, 30)), nwProto := Some(f[23]),
                    nwTos := Some(f[15] >> 2));
        if IsFragment(Net16(f, 20)) then m else Transport(f, m, f[23])
    else m
  }

  function Transport(f: seq<bv8>, m: Fields, proto: bv8): Fields
    requires |f| >= 34
  {
    if proto == IP_TYPE_ICMP then
      if |f| < 38 then m else m.(tpSrc := Some(f[34] as bv16), tpDst := Some(f[35] as bv16))
    else if (proto == IP_TYPE_TCP && |f| >= 54) || (proto == IP_TYPE_UDP && |f| >= 42) then
      m.(tpSrc := Some(Net16(f, 34)), tpDst := Some(Net16(f, 36)))
    else m
  }

  /** flow.cc:22-114, and what follows in the methods below.  Every read is checked to lie
      inside the frame.  The condition of the second VLAN loop never changes, so the loop only
      ends by running out of frame. */
  method ExtractFlowFields(f: seq<bv8>) returns (m: Fields)
    ensures m == Extract(f)
  {
    hide MacAt, Net16, Vid, Pcp, Network;
    var len := |f|;
    var offset := 0;
    m := UNSET;
    if len < offset + ETH_HEADER_LEN { return; }
    var ethType := Net16(f, 12);
    offset := offset + ETH_HEADER_LEN;
    if ethType >= ETH_TYPE_II_START {
      m := m.(dlSrc := Some(MacAt(f, 6)), dlDst := Some(MacAt(f, 0)), dlType := Some(ethType));
    } else {
      if len < offset + LLC_HEADER_LEN { return; }
      var llc := offset;
      offset := offset + LLC_HEADER_LEN;
      if !(f[llc] == LLC_DSAP_SNAP && f[llc + 1] == LLC_SSAP_SNAP && f[llc + 2] == LLC_CNTL_SNAP) { return; }
      if len < offset + SNAP_HEADER_LEN { return; }
      var snap := offset;
      offset := offset + SNAP_HEADER_LEN;
      var org := f[snap..snap + 3];
      assert snap == 17 && org[0] == f[17] && org[1] == f[18] && org[2] == f[19];
      if org != [0, 0, 0] { return; }
      m := m.(dlSrc := Some(MacAt(f, 6)));
      m := m.(dlSrc := Some(MacAt(f, 0)), dlType := Some(ethType));
    }
    var vlan := offset;
    if ethType == ETH_TYPE_VLAN {
      if len < offset + VLAN_HEADER_LEN { return; }
      offset := offset + VLAN_HEADER_LEN;
      m := m.(dlVlan := Some(Vid(Net16(f, vlan))), dlVlanPcp := Some(Pcp(Net16(f, vlan))),
              dlType := Some(Net16(f, vlan + 2)));
    } else {
      m := m.(dlVlan := Some(VLAN_NONE));
    }
    if ethType < ETH_TYPE_II_START { NoNetwork(f, m); }
    while ethType == ETH_TYPE_VLAN
      invariant offset <= len
      invariant ethType == ETH_TYPE_VLAN ==> m == Extract(f)
      invariant ethType != ETH_TYPE_VLAN ==>
                  offset == (if ethType >= ETH_TYPE_II_START then 14 else 22) &&
                  Extract(f) == Network(f, m)
      decreases len - offset
    {
      if len < offset + VLAN_HEADER_LEN { return; }
      offset := offset + VLAN_HEADER_LEN;
      m := m.(dlType := Some(Net16(f, vlan + 2)));
    }
    m := ReadNetwork(f, ethType, offset, m);
  }

  lemma NoNetwork(f: seq<bv8>, m: Fields)
    requires |f| >= ETH_HEADER_LEN && Net16(f, 12) != ETH_TYPE_ARP && Net16(f, 12) != ETH_TYPE_IP
    ensures Network(f, m) == m
  {
    hide Net16;
  }

  /** flow.cc:115-150: the network headers. */
  method ReadNetwork(f: seq<bv8>, ethType: bv16, start: nat, before: Fields) returns (m: Fields)
    requires |f| >= ETH_HEADER_LEN && ethType == Net16(f, 12)
    requires ethType >= ETH_TYPE_II_START ==> start == ETH_HEADER_LEN
    ensures m == Network(f, before)
  {
    hide MacAt, Net16, Raw32, IsFragment, Transport;
    var len, offset := |f|, start;
    m := before;
    if ethType == ETH_TYPE_ARP {
      if len < offset + ARP_ETH_HEADER_LEN { return; }
      var arp := offset;
      offset := offset + ARP_ETH_HEADER_LEN;
      m := m.(nwSrc := Some(Raw32(f, arp + 14)), nwDst := Some(Raw32(f, arp + 24)), nwProto := Some(f[arp + 7]));
      return;
    }
    if ethType == ETH_TYPE_IP {
      if len < offset + IP_HEADER_LEN { return; }
      var ip := offset;
      offset := offset + IP_HEADER_LEN;
      m := m.(nwSrc := Some(Raw32(f, ip + 12)), nwDst := Some(Raw32(f, ip + 16)), nwProto := Some(f[ip + 9]),
              nwTos := Some(f[ip + 1] >> 2));
      if IsFragment(Net16(f, ip + 6)) { return; }
      m := ReadTransport(f, f[ip + 9], offset, m);
    }
  }

  /** flow.cc:152-192: the transport headers, of which there are none unless an IP header has
      set the protocol. */
  method ReadTransport(f: seq<bv8>, nextProto: bv8, offset: nat, before: Fields) returns (m: Fields)
    requires offset == ETH_HEADER_LEN + IP_HEADER_LEN <= |f|
    ensures m == Transport(f, before, nextProto)
  {
    hide Net16;
    var len := |f|;
    m := before;
    if nextProto == IP_TYPE_ICMP {
      if len < offset + ICMP_HEADER_LEN { return; }
      m := m.(tpSrc := Some(f[offset] as bv16), tpDst := Some(f[offset + 1] as bv16));
      return;
    }
    if nextProto == IP_TYPE_TCP {
      if len < offset + TCP_HEADER_LEN { return; }
      m := m.(tpSrc := Some(Net16(f, offset)), tpDst := Some(Net16(f, offset + 2)));
    } else if nextProto == IP_TYPE_UDP {
      if len < offset + UDP_HEADER_LEN { return; }
      m := m.(tpSrc := Some(Net16(f, offset)), tpDst := Some(Net16(f, offset + 2)));
    }
  }

  // ---------- layouts of packets.h ----------

  function High(v: bv16): bv8 { (v >> 8) as bv8 }

  function Low(v: bv16): bv8 { (v & 0xff) as bv8 }

  function Net(v: bv16): seq<bv8> { [High(v), Low(v)] }

  function Byte(v: bv32, shift: nat): bv8
    requires shift <= 24
  {
    ((v >> shift) & 0xff) as bv8
  }

  function Mem(v: bv32): seq<bv8> { [Byte(v, 0), Byte(v, 8), Byte(v, 16), Byte(v, 24)] }

  function MacBytes(m: Mac): seq<bv8> { [m.b0, m.b1, m.b2, m.b3, m.b4, m.b5] }

  datatype EthHeader = EthHeader(dst: Mac, src: Mac, ethType: bv16) {
    function Bytes(): seq<bv8> { MacBytes(dst) + MacBytes(src) + Net(ethType) }
  }

  /** A tag of IEEE 802.1Q: three bits of priority, one bit of format, twelve bits of identifier. */
  datatype VlanHeader = VlanHeader(pcp: bv3, cfi: bool, vid: bv12, nextType: bv16) {
    function Tci(): bv16 { ((pcp as bv16) << 13) | (if cfi then 0x1000 else 0) | (vid as bv16) }

    function Bytes(): seq<bv8> { Net(Tci()) + Net(nextType) }
  }

  datatype ArpHeader = ArpHeader(
    hrd: bv16, pro: bv16, hln: bv8, pln: bv8, op: bv16, sha: Mac, spa: bv32, tha: Mac, tpa: bv32)
  {
    function Bytes(): seq<bv8> {
      Net(hrd) + Net(pro) + [hln, pln] + Net(op) + MacBytes(sha) + Mem(spa) + MacBytes(tha) + Mem(tpa)
    }
  }

  /** Section 3.1 of RFC 791: a reserved bit, don't fragment, more fragments, and the offset. */
  datatype Fragment = Fragment(reserved: bool, dont: bool, more: bool, offset: bv13) {
    function Word(): bv16 {
      (if reserved then 0x8000 else 0) | (if dont then 0x4000 else 0) | (if more then 0x2000 else 0) |
      (offset as bv16)
    }
  }

  datatype IpHeader = IpHeader(
    ihlVer: bv8, tos: bv8, totLen: bv16, id: bv16, frag: Fragment, ttl: bv8, proto: bv8, csum: bv16,
    src: bv32, dst: bv32)
  {
    function Bytes(): seq<bv8> {
      [ihlVer, tos] + Net(totLen) + Net(id) + Net(frag.Word()) + [ttl, proto] + Net(csum) + Mem(src) + Mem(dst)
    }
  }

  /** The transport headers that the parser knows, and the assigned protocol number of each. */
  datatype TransportHeader =
    | Tcp(src: bv16, dst: bv16, seqNo: bv32, ack: bv32, ctl: bv16, winsz: bv16, csum: bv16, urg: bv16)
    | Udp(src: bv16, dst: bv16, len: bv16, csum: bv16)
    | Icmp(icmpType: bv8, code: bv8, csum: bv16)
  {
    function Bytes(): seq<bv8> {
      match this
      case Tcp(_, _, _, _, _, _, _, _) =>
        Net(src) + Net(dst) + (Mem(seqNo) + Mem(ack) + Net(ctl) + Net(winsz) + Net(csum) + Net(urg))
      case Udp(_, _, _, _) => Net(src) + Net(dst) + (Net(len) + Net(csum))
      case Icmp(_, _, _) => [icmpType, code] + Net(csum)
    }

    function Proto(): bv8 {
      match this
      case Tcp(_, _, _, _, _, _, _, _) => 6
      case Udp(_, _, _, _) => 17
      case Icmp(_, _, _) => 1
    }
  }

  lemma Net16Inverse(v: bv16)
    ensures Join16(High(v), Low(v)) == v
  {}

  // One byte at a time.

  lemma Byte0(v: bv32)
    ensures Byte(v, 0) as bv32 == v & 0xff
  {}

  lemma Byte8(v: bv32)
    ensures (Byte(v, 8) as bv32) << 8 == v & 0xff00
  {}

  lemma Byte16(v: bv32)
    ensures (Byte(v, 16) as bv32) << 16 == v & 0xff_0000
  {}

  lemma Byte24(v: bv32)
    ensures (Byte(v, 24) as bv32) << 24 == v & 0xff00_0000
  {}

  lemma FourBytes(v: bv32)
    ensures (v & 0xff) | (v & 0xff00) | (v & 0xff_0000) | (v & 0xff00_0000) == v
  {}

  lemma Raw32Inverse(v: bv32)
    ensures Load32(Mac(Byte(v, 0), Byte(v, 8), Byte(v, 16), Byte(v, 24), 0, 0)) == v
  {
    hide Byte;
    Byte0(v);
    Byte8(v);
    Byte16(v);
    Byte24(v);
    FourBytes(v);
  }

  // A field is read back at the offset where it was laid out.

  lemma ReadNet16(before: seq<bv8>, v: bv16, after: seq<bv8>)
    ensures Net16(before + Net(v) + after, |before|) == v
  {
    hide High, Low, Join16;
    Net16Inverse(v);
  }

  lemma ReadRaw32(before: seq<bv8>, v: bv32, after: seq<bv8>)
    ensures Raw32(before + Mem(v) + after, |before|) == v
  {
    hide Byte, Load32;
    Raw32Inverse(v);
    assert forall i :: 0 <= i < 4 ==> (before + Mem(v) + after)[|before| + i] == Mem(v)[i];
  }

  lemma ReadMac(before: seq<bv8>, v: Mac, after: seq<bv8>)
    ensures MacAt(before + MacBytes(v) + after, |before|) == v
  {
    assert forall i :: 0 <= i < 6 ==> (before + MacBytes(v) + after)[|before| + i] == MacBytes(v)[i];
  }

  lemma EthLayout(h: EthHeader, rest: seq<bv8>)
    ensures var f := h.Bytes() + rest;
            |f| == 14 + |rest| && MacAt(f, 0) == h.dst && MacAt(f, 6) == h.src && Net16(f, 12) == h.ethType
  {
    hide High, Low, Join16, MacAt, Net16;
    var f := h.Bytes() + rest;
    assert f == [] + MacBytes(h.dst) + (MacBytes(h.src) + Net(h.ethType) + rest);
    assert f == MacBytes(h.dst) + MacBytes(h.src) + (Net(h.ethType) + rest);
    assert f == (MacBytes(h.dst) + MacBytes(h.src)) + Net(h.ethType) + rest;
    ReadMac([], h.dst, MacBytes(h.src) + Net(h.ethType) + rest);
    ReadMac(MacBytes(h.dst), h.src, Net(h.ethType) + rest);
    ReadNet16(MacBytes(h.dst) + MacBytes(h.src), h.ethType, rest);
  }

  lemma ArpLayout(before: seq<bv8>, a: ArpHeader, rest: seq<bv8>)
    ensures var f, n := before + a.Bytes() + rest, |before|;
            |f| == n + 28 + |rest| && Raw32(f, n + 14) == a.spa && Raw32(f, n + 24) == a.tpa && f[n + 7] == Low(a.op)
  {
    hide High, Low, Byte, Raw32;
    var f := before + a.Bytes() + rest;
    var p7 := before + (Net(a.hrd) + Net(a.pro) + [a.hln, a.pln] + [High(a.op)]);
    var p14 := before + (Net(a.hrd) + Net(a.pro) + [a.hln, a.pln] + Net(a.op) + MacBytes(a.sha));
    var p24 := p14 + (Mem(a.spa) + MacBytes(a.tha));
    assert f == p24 + Mem(a.tpa) + rest;
    assert f == p14 + Mem(a.spa) + (MacBytes(a.tha) + Mem(a.tpa) + rest);
    assert f[|p7|] == Low(a.op);
    ReadRaw32(p14, a.spa, MacBytes(a.tha) + Mem(a.tpa) + rest);
    ReadRaw32(p24, a.tpa, rest);
  }

  lemma IpLayout(before: seq<bv8>, ip: IpHeader, rest: seq<bv8>)
    ensures var f, n := before + ip.Bytes() + rest, |before|;
            && |f| == n + 20 + |rest|
            && f[n + 1] == ip.tos && Net16(f, n + 6) == ip.frag.Word() && f[n + 9] == ip.proto
            && Raw32(f, n + 12) == ip.src && Raw32(f, n + 16) == ip.dst
  {
    hide High, Low, Byte, Raw32, Net16, Mem, Net, Fragment.Word;
    var f := before + ip.Bytes() + rest;
    var fragOff := ip.frag.Word();
    var middle := [ip.ttl, ip.proto] + Net(ip.csum);
    var p6 := before + ([ip.ihlVer, ip.tos] + Net(ip.totLen) + Net(ip.id));
    var p12 := p6 + Net(fragOff) + middle;
    Lengths(ip.totLen, ip.id, ip.src);
    Lengths(fragOff, ip.csum, ip.dst);
    assert f == (p12 + Mem(ip.src)) + Mem(ip.dst) + rest;
    assert f == p12 + Mem(ip.src) + (Mem(ip.dst) + rest);
    assert f == p6 + Net(fragOff) + (middle + Mem(ip.src) + Mem(ip.dst) + rest);
    ReadNet16(p6, fragOff, middle + Mem(ip.src) + Mem(ip.dst) + rest);
    ReadRaw32(p12, ip.src, Mem(ip.dst) + rest);
    ReadRaw32(p12 + Mem(ip.src), ip.dst, rest);
  }

  lemma Lengths(v: bv16, w: bv16, x: bv32)
    ensures |Net(v)| == |Net(w)| == 2 && |Mem(x)| == 4
  {}

  /** The ports, or the type and code, at the head of a transport header. */
  function Ports(t: TransportHeader): (bv16, bv16) {
    match t
    case Tcp(src, dst, _, _, _, _, _, _) => (src, dst)
    case Udp(src, dst, _, _) => (src, dst)
    case Icmp(icmpType, code, _) => (icmpType as bv16, code as bv16)
  }

  lemma TransportLength(t: TransportHeader)
    ensures |t.Bytes()| == if t.Tcp? then 20 else if t.Udp? then 8 else 4
  {
    hide High, Low, Byte;
  }

  lemma TransportLayout(before: seq<bv8>, t: TransportHeader, rest: seq<bv8>)
    ensures var f, n := before + t.Bytes() + rest, |before|;
            && |f| == n + |t.Bytes()| + |rest|
            && Ports(t) == if t.Icmp? then (f[n] as bv16, f[n + 1] as bv16) else (Net16(f, n), Net16(f, n + 2))
  {
    hide High, Low, Byte, Net16;
    match t
    case Tcp(src, dst, seqNo, ack, ctl, winsz, csum, urg) =>
      PortsLayout(before, src, dst, Mem(seqNo) + Mem(ack) + Net(ctl) + Net(winsz) + Net(csum) + Net(urg), rest);
    case Udp(src, dst, len, csum) => PortsLayout(before, src, dst, Net(len) + Net(csum), rest);
    case Icmp(_, _, _) =>
  }

  lemma PortsLayout(before: seq<bv8>, src: bv16, dst: bv16, tail: seq<bv8>, rest: seq<bv8>)
    ensures var f, n := before + (Net(src) + Net(dst) + tail) + rest, |before|;
            Net16(f, n) == src && Net16(f, n + 2) == dst
  {
    hide High, Low, Net16;
    var f := before + (Net(src) + Net(dst) + tail) + rest;
    assert f == before + Net(src) + (Net(dst) + tail + rest);
    assert f == (before + Net(src)) + Net(dst) + (tail + rest);
    ReadNet16(before, src, Net(dst) + tail + rest);
    ReadNet16(before + Net(src), dst, tail + rest);
  }

  // ---------- parsing inverts the layouts ----------

  /** What an untagged Ethernet II header sets. */
  function EthFields(h: EthHeader): Fields {
    UNSET.(dlSrc := Some(h.src), dlDst := Some(h.dst), dlType := Some(h.ethType), dlVlan := Some(0xffff))
  }

  /** What an IPv4 header adds. */
  function IpFields(m: Fields, ip: IpHeader): Fields {
    m.(nwSrc := Some(ip.src), nwDst := Some(ip.dst), nwProto := Some(ip.proto), nwTos := Some(ip.tos >> 2))
  }

  lemma ArpRoundTrip(h: EthHeader, a: ArpHeader, rest: seq<bv8>)
    requires h.ethType == 0x0806
    ensures Extract(h.Bytes() + a.Bytes() + rest) ==
            EthFields(h).(nwSrc := Some(a.spa), nwDst := Some(a.tpa), nwProto := Some(Low(a.op)))
  {
    hide MacAt, Net16, Raw32, Low, EthHeader.Bytes, ArpHeader.Bytes;
    HeaderLength(h);
    EthLayout(h, a.Bytes() + rest);
    assert h.Bytes() + a.Bytes() + rest == h.Bytes() + (a.Bytes() + rest);
    ArpLayout(h.Bytes(), a, rest);
  }

  lemma TransportRoundTrip(h: EthHeader, ip: IpHeader, t: TransportHeader, rest: seq<bv8>)
    requires h.ethType == 0x0800 && ip.proto == t.Proto() && !ip.frag.more && ip.frag.offset == 0
    ensures Extract(h.Bytes() + ip.Bytes() + t.Bytes() + rest) ==
            IpFields(EthFields(h), ip).(tpSrc := Some(Ports(t).0), tpDst := Some(Ports(t).1))
  {
    hide MacAt, Net16, Raw32, IsFragment, EthHeader.Bytes, IpHeader.Bytes, TransportHeader.Bytes;
    var f := h.Bytes() + ip.Bytes() + t.Bytes() + rest;
    HeaderLength(h);
    assert f == h.Bytes() + (ip.Bytes() + t.Bytes() + rest);
    assert f == h.Bytes() + ip.Bytes() + (t.Bytes() + rest);
    EthLayout(h, ip.Bytes() + t.Bytes() + rest);
    IpLayout(h.Bytes(), ip, t.Bytes() + rest);
    IsFragmentIff(ip.frag);
    TransportLength(t);
    TransportLayout(h.Bytes() + ip.Bytes(), t, rest);
  }

  /** What follows the IP header is long enough for the header of its protocol. */
  predicate HasTransport(proto: bv8, rest: seq<bv8>) {
    (proto == 1 && |rest| >= 4) || (proto == 6 && |rest| >= 20) || (proto == 17 && |rest| >= 8)
  }

  /** A fragment, another protocol, or one whose header is cut, yields the network fields alone. */
  lemma NetworkRoundTrip(h: EthHeader, ip: IpHeader, rest: seq<bv8>)
    requires h.ethType == 0x0800
    requires ip.frag.more || ip.frag.offset != 0 || !HasTransport(ip.proto, rest)
    ensures Extract(h.Bytes() + ip.Bytes() + rest) == IpFields(EthFields(h), ip)
  {
    hide MacAt, Net16, Raw32, IsFragment, EthHeader.Bytes, IpHeader.Bytes;
    var f := h.Bytes() + ip.Bytes() + rest;
    HeaderLength(h);
    assert f == h.Bytes() + (ip.Bytes() + rest);
    EthLayout(h, ip.Bytes() + rest);
    IpLayout(h.Bytes(), ip, rest);
    IsFragmentIff(ip.frag);
  }

  /** The ports of a complete frame are read exactly when no more fragments follow and its
      offset is 0, whatever the two other bits are. */
  lemma PortsReadIff(h: EthHeader, ip: IpHeader, t: TransportHeader, rest: seq<bv8>)
    requires h.ethType == 0x0800 && ip.proto == t.Proto()
    ensures var m := Extract(h.Bytes() + ip.Bytes() + t.Bytes() + rest);
            m.tpSrc.Some? && m.tpDst.Some? <==> !ip.frag.more && ip.frag.offset == 0
  {
    hide Extract, EthHeader.Bytes, IpHeader.Bytes, TransportHeader.Bytes;
    if !ip.frag.more && ip.frag.offset == 0 {
      TransportRoundTrip(h, ip, t, rest);
    } else {
      assert h.Bytes() + ip.Bytes() + t.Bytes() + rest == h.Bytes() + ip.Bytes() + (t.Bytes() + rest);
      NetworkRoundTrip(h, ip, t.Bytes() + rest);
    }
  }

  lemma VlanLayout(before: seq<bv8>, v: VlanHeader, rest: seq<bv8>)
    ensures var f, n := before + v.Bytes() + rest, |before|;
            |f| == n + 4 + |rest| && Net16(f, n) == v.Tci() && Net16(f, n + 2) == v.nextType
  {
    hide High, Low, Net16, VlanHeader.Tci;
    var f := before + v.Bytes() + rest;
    assert f == before + Net(v.Tci()) + (Net(v.nextType) + rest);
    assert f == (before + Net(v.Tci())) + Net(v.nextType) + rest;
    ReadNet16(before, v.Tci(), Net(v.nextType) + rest);
    ReadNet16(before + Net(v.Tci()), v.nextType, rest);
  }

  /** A tagged frame yields the parts of its first tag and never a network or transport
      field, whatever follows the tag. */
  lemma TaggedRoundTrip(h: EthHeader, v: VlanHeader, rest: seq<bv8>)
    requires h.ethType == 0x8100
    ensures Extract(h.Bytes() + v.Bytes() + rest) ==
            EthFields(h).(dlVlan := Some(v.vid as bv16), dlVlanPcp := Some(v.pcp as bv8), dlType := Some(v.nextType))
  {
    hide MacAt, Net16, Raw32, Vid, Pcp, EthHeader.Bytes, VlanHeader.Bytes, VlanHeader.Tci;
    TagFields(v);
    EthLayout(h, v.Bytes() + rest);
    assert h.Bytes() + v.Bytes() + rest == h.Bytes() + (v.Bytes() + rest);
    HeaderLength(h);
    VlanLayout(h.Bytes(), v, rest);
  }

  /** The LLC header that announces SNAP, and the Ethernet organisation code, section 3 of RFC 1042. */
  const SNAP_START: seq<bv8> := [0xaa, 0xaa, 3, 0, 0, 0]

  /** The LLC and SNAP headers of an 802.3 frame, with the Ethernet organisation code. */
  function SnapBytes(snapType: bv16): seq<bv8> {
    SNAP_START + Net(snapType)
  }

  /** An 802.3 frame never yields the source address or the SNAP type: what the parser sets as
      the source is the destination, and as the type the length field. */
  lemma SnapRoundTrip(h: EthHeader, snapType: bv16, rest: seq<bv8>)
    requires h.ethType < 0x0600
    ensures Extract(h.Bytes() + SnapBytes(snapType) + rest) ==
            UNSET.(dlSrc := Some(h.dst), dlType := Some(h.ethType), dlVlan := Some(0xffff))
  {
    hide MacAt, Net16, EthHeader.Bytes;
    HeaderLength(h);
    var f := h.Bytes() + SnapBytes(snapType) + rest;
    EthLayout(h, SnapBytes(snapType) + rest);
    assert f == h.Bytes() + (SnapBytes(snapType) + rest);
    assert forall i :: 0 <= i < 6 ==> f[14 + i] == SnapBytes(snapType)[i];
  }

  lemma HeaderLength(h: EthHeader)
    ensures |h.Bytes()| == 14
  {}

  /** Any other 802.3 frame, cut or not, yields nothing. */
  lemma PlainRoundTrip(h: EthHeader, rest: seq<bv8>)
    requires h.ethType < 0x0600 && !(|rest| >= 8 && rest[..6] == SNAP_START)
    ensures Extract(h.Bytes() + rest) == UNSET
  {
    hide MacAt, Net16, EthHeader.Bytes;
    HeaderLength(h);
    var f := h.Bytes() + rest;
    EthLayout(h, rest);
    assert forall i :: 0 <= i < |rest| ==> f[14 + i] == rest[i];
    if |rest| >= 8 { assert forall i :: 0 <= i < 6 ==> rest[..6][i] == rest[i]; }
  }

  /** Of other Ethernet II types, and of ARP and IPv4 packets whose header is cut, only the
      Ethernet fields are read. */
  lemma EthernetRoundTrip(h: EthHeader, rest: seq<bv8>)
    requires h.ethType >= 0x0600 && h.ethType != 0x8100
    requires h.ethType == 0x0806 ==> |rest| < 28
    requires h.ethType == 0x0800 ==> |rest| < 20
    ensures Extract(h.Bytes() + rest) == EthFields(h)
  {
    hide MacAt, Net16, EthHeader.Bytes;
    HeaderLength(h);
    EthLayout(h, rest);
  }

  /** A tagged frame that is cut inside its tag yields the Ethernet fields without an identifier. */
  lemma CutTagRoundTrip(h: EthHeader, rest: seq<bv8>)
    requires h.ethType == 0x8100 && |rest| < 4
    ensures Extract(h.Bytes() + rest) == EthFields(h).(dlVlan := None)
  {
    hide MacAt, Net16, EthHeader.Bytes;
    HeaderLength(h);
    EthLayout(h, rest);
  }

  /** A frame without a whole Ethernet header yields nothing. */
  lemma ShortFrame(f: seq<bv8>)
    requires |f| < 14
    ensures Extract(f) == UNSET
  {}

  lemma IsFragmentIff(frag: Fragment)
    ensures IsFragment(frag.Word()) <==> frag.more || frag.offset != 0
  {}

  lemma TagFields(v: VlanHeader)
    ensures Vid(v.Tci()) == v.vid as bv16 && Pcp(v.Tci()) == v.pcp as bv8
  {}

  /** The two parts of a tag rebuild it up to bit 12. */
  lemma TagParts(tci: bv16)
    ensures Vid(tci) | ((Pcp(tci) as bv16) << VLAN_PCP_SHIFT) == tci & 0xefff
  {}

  /** Whatever the length of the frame, a tagged one has no network or transport field. */
  lemma TaggedHasNoNetwork(f: seq<bv8>)
    requires |f| >= 14 && Net16(f, 12) == ETH_TYPE_VLAN
    ensures var m := Extract(f);
            m.nwSrc.None? && m.nwDst.None? && m.nwProto.None? && m.nwTos.None? && m.tpSrc.None? && m.tpDst.None?
  {}

  // ---------- truncated frames ----------

  predicate Keeps<T(==)>(part: Option<T>, whole: Option<T>) { part.Some? ==> whole == part }

  /** Every field set from a part of a frame is set to the same value from the whole. */
  predicate Extends(part: Fields, whole: Fields) {
    && Keeps(part.dlType, whole.dlType)
    && ExtendsApartFromType(part, whole)
  }

  predicate ExtendsApartFromType(part: Fields, whole: Fields) {
    && Keeps(part.dlSrc, whole.dlSrc) && Keeps(part.dlDst, whole.dlDst)
    && Keeps(part.dlVlan, whole.dlVlan) && Keeps(part.dlVlanPcp, whole.dlVlanPcp)
    && Keeps(part.nwTos, whole.nwTos) && Keeps(part.nwProto, whole.nwProto)
    && Keeps(part.nwSrc, whole.nwSrc) && Keeps(part.nwDst, whole.nwDst)
    && Keeps(part.tpSrc, whole.tpSrc) && Keeps(part.tpDst, whole.tpDst)
  }

  /** The cut falls inside the VLAN header and the type behind the tag is not the tag's own. */
  predicate CutInTag(f: seq<bv8>, n: nat)
    requires n <= |f|
  {
    14 <= n < 18 <= |f| && Net16(f, 12) == ETH_TYPE_VLAN && Net16(f, 16) != ETH_TYPE_VLAN
  }

  lemma PrefixReads(f: seq<bv8>, n: nat)
    requires n <= |f|
    ensures forall i :: 0 <= i && i + 2 <= n ==> Net16(f[..n], i) == Net16(f, i)
    ensures forall i :: 0 <= i && i + 4 <= n ==> Raw32(f[..n], i) == Raw32(f, i)
    ensures forall i :: 0 <= i && i + 6 <= n ==> MacAt(f[..n], i) == MacAt(f, i)
  {
    hide Join16, Load32;
  }

  lemma TransportTruncation(f: seq<bv8>, n: nat, m: Fields, proto: bv8)
    requires 34 <= n <= |f| && m.tpSrc.None? && m.tpDst.None?
    ensures Extends(Transport(f[..n], m, proto), Transport(f, m, proto))
  {
    hide MacAt, Net16, Raw32;
    PrefixReads(f, n);
  }

  lemma NetworkTruncation(f: seq<bv8>, n: nat, m: Fields)
    requires 14 <= n <= |f|
    requires m.nwSrc.None? && m.nwDst.None? && m.nwProto.None? && m.nwTos.None? && m.tpSrc.None? && m.tpDst.None?
    ensures Extends(Network(f[..n], m), Network(f, m))
  {
    hide MacAt, Net16, Raw32, IsFragment, Transport;
    PrefixReads(f, n);
    if Net16(f, 12) == ETH_TYPE_IP && |f| >= 34 { IpTruncation(f, n, m); }
  }

  lemma IpTruncation(f: seq<bv8>, n: nat, m: Fields)
    requires 14 <= n <= |f| && |f| >= 34 && Net16(f, 12) == ETH_TYPE_IP
    requires m.nwSrc.None? && m.nwDst.None? && m.nwProto.None? && m.nwTos.None? && m.tpSrc.None? && m.tpDst.None?
    ensures Extends(Network(f[..n], m), Network(f, m))
  {
    hide MacAt, Net16, Raw32, IsFragment, Transport;
    PrefixReads(f, n);
    var m' := m.(nwSrc := Some(Raw32(f, 26)), nwDst := Some(Raw32(f, 30)), nwProto := Some(f[23]),
                 nwTos := Some(f[15] >> 2));
    if n >= 34 { TransportTruncation(f, n, m', f[23]); } else { TransportKeeps(f, m', f[23]); }
  }

  lemma TransportKeeps(f: seq<bv8>, m: Fields, proto: bv8)
    requires |f| >= 34 && m.tpSrc.None? && m.tpDst.None?
    ensures Extends(m, Transport(f, m, proto))
  {
    hide MacAt, Net16, Raw32;
  }

  lemma NetworkKeepsFields(f: seq<bv8>, n: nat)
    requires 14 <= n <= |f| && Net16(f, 12) >= ETH_TYPE_II_START && Net16(f, 12) != ETH_TYPE_VLAN
    ensures Extends(Extract(f[..n]), Extract(f))
  {
    hide MacAt, Net16, Raw32, Network;
    PrefixReads(f, n);
    NetworkTruncation(f, n, UNSET.(dlSrc := Some(MacAt(f, 6)), dlDst := Some(MacAt(f, 0)), dlType := Some(Net16(f, 12)),
                                   dlVlan := Some(VLAN_NONE)));
  }

  lemma TagKeepsFields(f: seq<bv8>, n: nat)
    requires 14 <= n <= |f| && Net16(f, 12) == ETH_TYPE_VLAN
    ensures ExtendsApartFromType(Extract(f[..n]), Extract(f))
    ensures Extends(Extract(f[..n]), Extract(f)) <==> !CutInTag(f, n)
  {
    hide MacAt, Net16, Raw32, Network, Vid, Pcp;
    PrefixReads(f, n);
  }

  lemma SnapKeepsFields(f: seq<bv8>, n: nat)
    requires 14 <= n <= |f| && Net16(f, 12) < ETH_TYPE_II_START
    ensures Extends(Extract(f[..n]), Extract(f))
  {
    hide MacAt, Net16, Raw32, Network;
    PrefixReads(f, n);
  }

  /** Truncating a frame loses fields but changes none, except the type of a frame cut
      inside its VLAN header. */
  lemma TruncationKeepsFields(f: seq<bv8>, n: nat)
    requires n <= |f|
    ensures ExtendsApartFromType(Extract(f[..n]), Extract(f))
    ensures Extends(Extract(f[..n]), Extract(f)) <==> !CutInTag(f, n)
  {
    hide Net16, Network, Tagged;
    if n >= 14 {
      if Net16(f, 12) == ETH_TYPE_VLAN {
        TagKeepsFields(f, n);
      } else if Net16(f, 12) < ETH_TYPE_II_START {
        SnapKeepsFields(f, n);
      } else {
        NetworkKeepsFields(f, n);
      }
    }
  }

  // ---------- the packet handed to the flow table ----------

  /** The match object filled in by the parser; `blank` holds what its constructor left. */
  function PacketFields(blank: Match, inPort: uint16, f: seq<bv8>): Match {
    var m := Extract(f);
    Match(blank.wildcards, inPort,
      Else(m.dlSrc, blank.dlSrc), Else(m.dlDst, blank.dlDst), Else(m.dlVlan, blank.dlVlan),
      Else(m.dlVlanPcp, blank.dlVlanPcp), Else(m.dlType, blank.dlType), Else(m.nwTos, blank.nwTos),
      Else(m.nwProto, blank.nwProto), Else(m.nwSrc, blank.nwSrc), Else(m.nwDst, blank.nwDst),
      Else(m.tpSrc, blank.tpSrc), Else(m.tpDst, blank.tpDst))
  }

  function Else<T>(o: Option<T>, default: T): T { if o.Some? then o.value else default }

  /** The packet that the flow table sees of a complete IPv4 frame. */
  lemma PacketOfTransport(blank: Match, inPort: uint16, h: EthHeader, ip: IpHeader, t: TransportHeader, rest: seq<bv8>)
    requires h.ethType == 0x0800 && ip.proto == t.Proto() && !ip.frag.more && ip.frag.offset == 0
    ensures PacketFields(blank, inPort, h.Bytes() + ip.Bytes() + t.Bytes() + rest) ==
            Match(blank.wildcards, inPort, h.src, h.dst, 0xffff, blank.dlVlanPcp, 0x0800, ip.tos >> 2, ip.proto,
                  ip.src, ip.dst, Ports(t).0, Ports(t).1)
  {
    hide Extract, EthHeader.Bytes, IpHeader.Bytes, TransportHeader.Bytes;
    TransportRoundTrip(h, ip, t, rest);
  }

  /** The packet that it sees of a tagged frame: nothing behind the tag is set. */
  lemma PacketOfTagged(blank: Match, inPort: uint16, h: EthHeader, v: VlanHeader, rest: seq<bv8>)
    requires h.ethType == 0x8100
    ensures PacketFields(blank, inPort, h.Bytes() + v.Bytes() + rest) ==
            blank.(inPort := inPort, dlSrc := h.src, dlDst := h.dst, dlVlan := v.vid as bv16,
                   dlVlanPcp := v.pcp as bv8, dlType := v.nextType)
  {
    hide Extract, EthHeader.Bytes, VlanHeader.Bytes;
    TaggedRoundTrip(h, v, rest);
  }

  /** And of a frame from which nothing is read. */
  lemma PacketOfUnread(blank: Match, inPort: uint16, f: seq<bv8>)
    requires Extract(f) == UNSET
    ensures PacketFields(blank, inPort, f) == blank.(inPort := inPort)
  {
    hide Extract;
  }
}
