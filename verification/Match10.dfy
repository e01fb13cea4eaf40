/** The OpenFlow 1.0 match algebra of examples/switch/flow.hh.

    Section 3.4 of the OpenFlow Switch Specification 1.0.0 lets a flow wildcard
    any of twelve header fields.  Three relations are computed on matches: strict
    equality, non-strict covering, and acceptance of a packet.
  */
module Match10 {
  import opened Wrappers

  datatype Mac = Mac(b0: bv8, b1: bv8, b2: bv8, b3: bv8, b4: bv8, b5: bv8)

  /** The fields of an OpenFlow 1.0 match.  A packet is described by the same record,
      with its wildcards ignored. */
  datatype Match = Match(
    wildcards: set<Flag>, inPort: uint16, dlSrc: Mac, dlDst: Mac, dlVlan: bv16, dlVlanPcp: bv8, dlType: bv16,
    nwTos: bv8, nwProto: bv8, nwSrc: bv32, nwDst: bv32, tpSrc: bv16, tpDst: bv16)

  /** A match together with the masks of its two network addresses; a mask bit of one
      means that the address bit is ignored. */
  datatype Pattern = Pattern(fields: Match, srcMask: bv32, dstMask: bv32)

  /** The flag bits of the wildcard word, section 5.2.3 of the OpenFlow Switch
      Specification 1.0.0.  The word is modelled as the set of flags that are on. */
  datatype Flag =
    | IN_PORT | DL_VLAN | DL_SRC | DL_DST | DL_TYPE | NW_PROTO | TP_SRC | TP_DST | DL_VLAN_PCP | NW_TOS

  /** The masks that the Flow constructor installs and nothing changes. */
  const ALL_ONES: bv32 := 0xffff_ffff

  /** How `~wc(..)` is read.  The comments of flow.hh mean a logical negation; the C++
      operator complements a promoted bool, which is never zero. */
  datatype Reading = Documented | AsWritten

  predicate Wc(wildcards: set<Flag>, field: Flag) { field in wildcards }

  predicate NotWc(r: Reading, wildcards: set<Flag>, field: Flag) {
    r.AsWritten? || !Wc(wildcards, field)
  }

  // ---------- one field at a time ----------

  predicate StrictWild<T(==)>(r: Reading, a: T, b: T, aw: set<Flag>, bw: set<Flag>, f: Flag) {
    || (Wc(aw, f) && Wc(bw, f))
    || (NotWc(r, aw, f) && NotWc(r, bw, f) && a == b)
  }

  predicate NonStrictWild<T(==)>(r: Reading, a: T, b: T, aw: set<Flag>, bw: set<Flag>, f: Flag) {
    || (Wc(bw, f) && Wc(aw, f))
    || (NotWc(r, bw, f) && (Wc(aw, f) || a == b))
  }

  predicate PktWild<T(==)>(a: T, b: T, aw: set<Flag>, f: Flag) {
    Wc(aw, f) || a == b
  }

  predicate StrictNw(a: bv32, b: bv32, am: bv32, bm: bv32) {
    am == bm && StrictNwBits(a, b, am) == 0
  }

  function StrictNwBits(a: bv32, b: bv32, am: bv32): bv32 { (a ^ b) & !am }

  function NonStrictNwBits(a: bv32, b: bv32, am: bv32, bm: bv32): bv32 {
    !am & (!a | !b | bm) & (a | b | bm)
  }

  predicate NonStrictNw(a: bv32, b: bv32, am: bv32, bm: bv32) { NonStrictNwBits(a, b, am, bm) == 0 }

  function PktNwBits(a: bv32, b: bv32, am: bv32): bv32 { !am & (a ^ b) }

  predicate PktNw(a: bv32, b: bv32, am: bv32) { PktNwBits(a, b, am) == 0 }

  // A hardware address is compared as one 32-bit and one 16-bit load.
  function Load32(m: Mac): bv32 {
    (m.b0 as bv32) | ((m.b1 as bv32) << 8) | ((m.b2 as bv32) << 16) | ((m.b3 as bv32) << 24)
  }

  function Load16(m: Mac): bv16 { (m.b4 as bv16) | ((m.b5 as bv16) << 8) }

  predicate StrictDlAddr(r: Reading, a: Mac, b: Mac, aw: set<Flag>, bw: set<Flag>, f: Flag) {
    StrictWild(r, Load32(a), Load32(b), aw, bw, f) && StrictWild(r, Load16(a), Load16(b), aw, bw, f)
  }

  predicate NonStrictDlAddr(r: Reading, a: Mac, b: Mac, aw: set<Flag>, bw: set<Flag>, f: Flag) {
    NonStrictWild(r, Load32(a), Load32(b), aw, bw, f) && NonStrictWild(r, Load16(a), Load16(b), aw, bw, f)
  }

  predicate PktDlAddr(a: Mac, b: Mac, aw: set<Flag>, f: Flag) {
    PktWild(Load32(a), Load32(b), aw, f) && PktWild(Load16(a), Load16(b), aw, f)
  }

  // ---------- whole matches ----------

  predicate MatchStdStrict(r: Reading, a: Match, b: Match, sma: bv32, smb: bv32, dma: bv32, dmb: bv32) {
    var aw, bw := a.wildcards, b.wildcards;
    && StrictWild(r, a.inPort, b.inPort, aw, bw, IN_PORT)
    && StrictDlAddr(r, a.dlSrc, b.dlSrc, aw, bw, DL_SRC)
    && StrictDlAddr(r, a.dlDst, b.dlDst, aw, bw, DL_DST)
    && StrictWild(r, a.dlVlan, b.dlVlan, aw, bw, DL_VLAN)
    && StrictWild(r, a.dlVlanPcp, b.dlVlanPcp, aw, bw, DL_VLAN_PCP)
    && StrictWild(r, a.dlType, b.dlType, aw, bw, DL_TYPE)
    && StrictWild(r, a.nwTos, b.nwTos, aw, bw, NW_TOS)
    && StrictWild(r, a.nwProto, b.nwProto, aw, bw, NW_PROTO)
    && StrictNw(a.nwSrc, b.nwSrc, sma, smb)
    && StrictNw(a.nwDst, b.nwDst, dma, dmb)
    && StrictWild(r, a.tpSrc, b.tpSrc, aw, bw, TP_SRC)
    && StrictWild(r, a.tpDst, b.tpDst, aw, bw, TP_DST)
  }

  predicate MatchStdNonStrict(r: Reading, a: Match, b: Match, sma: bv32, smb: bv32, dma: bv32, dmb: bv32) {
    var aw, bw := a.wildcards, b.wildcards;
    && NonStrictWild(r, a.inPort, b.inPort, aw, bw, IN_PORT)
    && NonStrictDlAddr(r, a.dlSrc, b.dlSrc, aw, bw, DL_SRC)
    && NonStrictDlAddr(r, a.dlDst, b.dlDst, aw, bw, DL_DST)
    && NonStrictWild(r, a.dlVlan, b.dlVlan, aw, bw, DL_VLAN)
    && NonStrictWild(r, a.dlVlanPcp, b.dlVlanPcp, aw, bw, DL_VLAN_PCP)
    && NonStrictWild(r, a.dlType, b.dlType, aw, bw, DL_TYPE)
    && NonStrictWild(r, a.nwTos, b.nwTos, aw, bw, NW_TOS)
    && NonStrictWild(r, a.nwProto, b.nwProto, aw, bw, NW_PROTO)
    && NonStrictNw(a.nwSrc, b.nwSrc, sma, smb)
    && NonStrictNw(a.nwDst, b.nwDst, dma, dmb)
    && NonStrictWild(r, a.tpSrc, b.tpSrc, aw, bw, TP_SRC)
    && NonStrictWild(r, a.tpDst, b.tpDst, aw, bw, TP_DST)
  }

  predicate MatchStdPkt(a: Match, b: Match, srcMask: bv32, dstMask: bv32) {
    var aw := a.wildcards;
    && PktWild(a.inPort, b.inPort, aw, IN_PORT)
    && PktDlAddr(a.dlSrc, b.dlSrc, aw, DL_SRC)
    && PktDlAddr(a.dlDst, b.dlDst, aw, DL_DST)
    && PktWild(a.dlVlan, b.dlVlan, aw, DL_VLAN)
    && PktWild(a.dlVlanPcp, b.dlVlanPcp, aw, DL_VLAN_PCP)
    && PktWild(a.dlType, b.dlType, aw, DL_TYPE)
    && PktWild(a.nwTos, b.nwTos, aw, NW_TOS)
    && PktWild(a.nwProto, b.nwProto, aw, NW_PROTO)
    && PktNw(a.nwSrc, b.nwSrc, srcMask)
    && PktNw(a.nwDst, b.nwDst, dstMask)
    && PktWild(a.tpSrc, b.tpSrc, aw, TP_SRC)
    && PktWild(a.tpDst, b.tpDst, aw, TP_DST)
  }

  /** flow.hh:173-180.  `dstMaskOfA` is the sixth argument of the second call, where the
      code passes the source mask of b. */
  predicate MatchStdOverlap(r: Reading, a: Match, b: Match, sma: bv32, smb: bv32, dma: bv32, dmb: bv32,
                            dstMaskOfA: bv32) {
    || MatchStdNonStrict(r, a, b, sma, smb, dma, dmb)
    || MatchStdNonStrict(r, b, a, smb, sma, dmb, dstMaskOfA)
  }

  // ---------- the same relations on patterns (flow.cc:5-20) ----------

  predicate Strict(r: Reading, a: Pattern, b: Pattern) {
    MatchStdStrict(r, a.fields, b.fields, a.srcMask, b.srcMask, a.dstMask, b.dstMask)
  }

  predicate Covers(r: Reading, a: Pattern, b: Pattern) {
    MatchStdNonStrict(r, a.fields, b.fields, a.srcMask, b.srcMask, a.dstMask, b.dstMask)
  }

  predicate Accepts(a: Pattern, packet: Match) {
    MatchStdPkt(a.fields, packet, a.srcMask, a.dstMask)
  }

  // ---------- field lemmas ----------

  lemma MacHalves(a: Mac, b: Mac)
    ensures Load32(a) == Load32(b) && Load16(a) == Load16(b) <==> a == b
  {
    if Load32(a) == Load32(b) { Load32Injective(a, b); }
    if Load16(a) == Load16(b) { Load16Injective(a, b); }
  }

  lemma Load32Injective(a: Mac, b: Mac)
    requires Load32(a) == Load32(b)
    ensures a.b0 == b.b0 && a.b1 == b.b1 && a.b2 == b.b2 && a.b3 == b.b3
  {}

  lemma Load16Injective(a: Mac, b: Mac)
    requires Load16(a) == Load16(b)
    ensures a.b4 == b.b4 && a.b5 == b.b5
  {}

  lemma DlAddrIsOneField(r: Reading, a: Mac, b: Mac, aw: set<Flag>, bw: set<Flag>, f: Flag)
    ensures StrictDlAddr(r, a, b, aw, bw, f) <==> StrictWild(r, a, b, aw, bw, f)
    ensures NonStrictDlAddr(r, a, b, aw, bw, f) <==> NonStrictWild(r, a, b, aw, bw, f)
    ensures PktDlAddr(a, b, aw, f) <==> PktWild(a, b, aw, f)
  {
    MacHalves(a, b);
  }

  /** The address accepted by b that is as far from a as b allows. */
  function NwWitness(a: bv32, b: bv32, bm: bv32): bv32 { (b & !bm) | (!a & bm) }

  lemma NwWitnessAccepted(a: bv32, b: bv32, bm: bv32)
    ensures PktNw(b, NwWitness(a, b, bm), bm)
  {}

  lemma NwWitnessBits(a: bv32, b: bv32, am: bv32, bm: bv32)
    ensures PktNwBits(a, NwWitness(a, b, bm), am) == NonStrictNwBits(a, b, am, bm)
  {}

  lemma NwSound(a: bv32, b: bv32, am: bv32, bm: bv32, p: bv32)
    requires NonStrictNw(a, b, am, bm) && PktNw(b, p, bm)
    ensures PktNw(a, p, am)
  {}

  // ---------- non-strict match is packet-set inclusion ----------

  function OtherPort(p: uint16): uint16 { if p == 0 then 1 else 0 }

  function OtherMac(a: Mac): Mac { a.(b0 := !a.b0) }

  /** A packet that b accepts and that escapes a in every field where b leaves room. */
  function Adversary(a: Pattern, b: Pattern): Match {
    var x, y := a.fields, b.fields;
    var w := y.wildcards;
    Match({},
      if Wc(w, IN_PORT) then OtherPort(x.inPort) else y.inPort,
      if Wc(w, DL_SRC) then OtherMac(x.dlSrc) else y.dlSrc,
      if Wc(w, DL_DST) then OtherMac(x.dlDst) else y.dlDst,
      if Wc(w, DL_VLAN) then !x.dlVlan else y.dlVlan,
      if Wc(w, DL_VLAN_PCP) then !x.dlVlanPcp else y.dlVlanPcp,
      if Wc(w, DL_TYPE) then !x.dlType else y.dlType,
      if Wc(w, NW_TOS) then !x.nwTos else y.nwTos,
      if Wc(w, NW_PROTO) then !x.nwProto else y.nwProto,
      NwWitness(x.nwSrc, y.nwSrc, b.srcMask),
      NwWitness(x.nwDst, y.nwDst, b.dstMask),
      if Wc(w, TP_SRC) then !x.tpSrc else y.tpSrc,
      if Wc(w, TP_DST) then !x.tpDst else y.tpDst)
  }

  lemma MacDecided(a: Mac, b: Mac, aw: set<Flag>, bw: set<Flag>, f: Flag)
    ensures var p := if Wc(bw, f) then OtherMac(a) else b;
            PktDlAddr(b, p, bw, f) && (PktDlAddr(a, p, aw, f) <==> NonStrictDlAddr(Documented, a, b, aw, bw, f))
  {
    var p := if Wc(bw, f) then OtherMac(a) else b;
    assert OtherMac(a).b0 != a.b0;
    DlAddrIsOneField(Documented, a, b, aw, bw, f);
    DlAddrIsOneField(Documented, a, p, aw, bw, f);
    DlAddrIsOneField(Documented, b, p, bw, bw, f);
  }

  lemma NwDecided(a: bv32, b: bv32, am: bv32, bm: bv32)
    ensures PktNw(b, NwWitness(a, b, bm), bm)
    ensures PktNw(a, NwWitness(a, b, bm), am) <==> NonStrictNw(a, b, am, bm)
  {
    NwWitnessAccepted(a, b, bm);
    NwWitnessBits(a, b, am, bm);
  }

  lemma AdversaryAccepted(a: Pattern, b: Pattern)
    ensures Accepts(b, Adversary(a, b))
  {
    var x, y := a.fields, b.fields;
    MacDecided(x.dlSrc, y.dlSrc, x.wildcards, y.wildcards, DL_SRC);
    MacDecided(x.dlDst, y.dlDst, x.wildcards, y.wildcards, DL_DST);
    NwDecided(x.nwSrc, y.nwSrc, a.srcMask, b.srcMask);
    NwDecided(x.nwDst, y.nwDst, a.dstMask, b.dstMask);
  }

  /** A pattern that accepts the adversary covers b. */
  lemma AdversaryEscapes(a: Pattern, b: Pattern)
    requires Accepts(a, Adversary(a, b))
    ensures Covers(Documented, a, b)
  {
    var x, y := a.fields, b.fields;
    var aw, bw := x.wildcards, y.wildcards;
    MacDecided(x.dlSrc, y.dlSrc, aw, bw, DL_SRC);
    MacDecided(x.dlDst, y.dlDst, aw, bw, DL_DST);
    NwDecided(x.nwSrc, y.nwSrc, a.srcMask, b.srcMask);
    NwDecided(x.nwDst, y.nwDst, a.dstMask, b.dstMask);
  }

  lemma CoversSound(a: Pattern, b: Pattern, p: Match)
    requires Covers(Documented, a, b) && Accepts(b, p)
    ensures Accepts(a, p)
  {
    NwSound(a.fields.nwSrc, b.fields.nwSrc, a.srcMask, b.srcMask, p.nwSrc);
    NwSound(a.fields.nwDst, b.fields.nwDst, a.dstMask, b.dstMask, p.nwDst);
  }

  /** A match non-strictly matches another exactly when it accepts every packet the other accepts. */
  lemma CoversIffInclusion(a: Pattern, b: Pattern)
    ensures Covers(Documented, a, b) <==> forall p :: Accepts(b, p) ==> Accepts(a, p)
  {
    AdversaryAccepted(a, b);
    if forall p :: Accepts(b, p) ==> Accepts(a, p) { AdversaryEscapes(a, b); }
    if Covers(Documented, a, b) {
      forall p | Accepts(b, p) ensures Accepts(a, p) { CoversSound(a, b, p); }
    }
  }

  // ---------- strict match is the kernel of non-strict match ----------

  lemma NwStrictIsMutual(a: bv32, b: bv32, am: bv32, bm: bv32)
    ensures StrictNw(a, b, am, bm) <==> NonStrictNw(a, b, am, bm) && NonStrictNw(b, a, bm, am)
  {
    if StrictNw(a, b, am, bm) { NwStrictForward(a, b, am); }
    if NonStrictNw(a, b, am, bm) && NonStrictNw(b, a, bm, am) { NwMutualMasks(a, b, am, bm); NwMutualBits(a, b, am); }
  }

  lemma NwStrictForward(a: bv32, b: bv32, am: bv32)
    requires StrictNwBits(a, b, am) == 0
    ensures NonStrictNw(a, b, am, am) && NonStrictNw(b, a, am, am)
  {}

  lemma NwMutualMasks(a: bv32, b: bv32, am: bv32, bm: bv32)
    requires NonStrictNw(a, b, am, bm) && NonStrictNw(b, a, bm, am)
    ensures am == bm
  {}

  lemma NwMutualBits(a: bv32, b: bv32, am: bv32)
    requires NonStrictNw(a, b, am, am)
    ensures StrictNwBits(a, b, am) == 0
  {}

  lemma StrictGivesCovers(r: Reading, a: Pattern, b: Pattern)
    requires Strict(r, a, b)
    ensures Covers(r, a, b)
  {
    hide Load32, Load16, StrictNwBits, NonStrictNwBits;
    NwStrictIsMutual(a.fields.nwSrc, b.fields.nwSrc, a.srcMask, b.srcMask);
    NwStrictIsMutual(a.fields.nwDst, b.fields.nwDst, a.dstMask, b.dstMask);
  }

  lemma StrictGivesCovered(r: Reading, a: Pattern, b: Pattern)
    requires Strict(r, a, b)
    ensures Covers(r, b, a)
  {
    hide Load32, Load16, StrictNwBits, NonStrictNwBits;
    NwStrictIsMutual(a.fields.nwSrc, b.fields.nwSrc, a.srcMask, b.srcMask);
    NwStrictIsMutual(a.fields.nwDst, b.fields.nwDst, a.dstMask, b.dstMask);
  }

  lemma MutualCoversGiveStrict(r: Reading, a: Pattern, b: Pattern)
    requires Covers(r, a, b) && Covers(r, b, a)
    ensures Strict(r, a, b)
  {
    hide Load32, Load16, StrictNwBits, NonStrictNwBits;
    var x, y := a.fields, b.fields;
    NwStrictIsMutual(x.nwSrc, y.nwSrc, a.srcMask, b.srcMask);
    NwStrictIsMutual(x.nwDst, y.nwDst, a.dstMask, b.dstMask);
  }

  /** Under either reading, strict match is covering both ways. */
  lemma StrictIffMutualCovers(r: Reading, a: Pattern, b: Pattern)
    ensures Strict(r, a, b) <==> Covers(r, a, b) && Covers(r, b, a)
  {
    hide Strict, Covers;
    if Strict(r, a, b) { StrictGivesCovers(r, a, b); StrictGivesCovered(r, a, b); }
    if Covers(r, a, b) && Covers(r, b, a) { MutualCoversGiveStrict(r, a, b); }
  }

  /** Two matches strictly match exactly when they accept the same packets. */
  lemma StrictIffSamePackets(a: Pattern, b: Pattern)
    ensures Strict(Documented, a, b) <==> forall p :: Accepts(a, p) <==> Accepts(b, p)
  {
    StrictIffMutualCovers(Documented, a, b);
    CoversIffInclusion(a, b);
    CoversIffInclusion(b, a);
    if forall p :: Accepts(a, p) <==> Accepts(b, p) {
      AdversaryAccepted(a, b);
      AdversaryAccepted(b, a);
    }
  }
}
