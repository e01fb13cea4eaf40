/** Consequences of the match algebra: strict match as equality of packet classes, overlap
    as existence of a common packet, and the two readings of `~wc(..)` compared. */
module MatchReadings {
  import opened Wrappers
  import opened Match10

  // ---------- strict match is equality of classes ----------

  datatype Field<T> = Any | Is(value: T)

  /** The part of a pattern that a strict match compares. */
  datatype PacketClass = PacketClass(
    inPort: Field<uint16>, dlSrc: Field<Mac>, dlDst: Field<Mac>, dlVlan: Field<bv16>, dlVlanPcp: Field<bv8>,
    dlType: Field<bv16>, nwTos: Field<bv8>, nwProto: Field<bv8>, srcMask: bv32, nwSrc: bv32,
    dstMask: bv32, nwDst: bv32, tpSrc: Field<bv16>, tpDst: Field<bv16>)

  function View<T>(r: Reading, value: T, wildcards: set<Flag>, f: Flag): Field<T> {
    if r.Documented? && Wc(wildcards, f) then Any else Is(value)
  }

  function Unmasked(address: bv32, mask: bv32): bv32 { address & !mask }

  function ClassOf(r: Reading, p: Pattern): PacketClass {
    var m := p.fields;
    var w := m.wildcards;
    PacketClass(
      View(r, m.inPort, w, IN_PORT), View(r, m.dlSrc, w, DL_SRC), View(r, m.dlDst, w, DL_DST),
      View(r, m.dlVlan, w, DL_VLAN), View(r, m.dlVlanPcp, w, DL_VLAN_PCP), View(r, m.dlType, w, DL_TYPE),
      View(r, m.nwTos, w, NW_TOS), View(r, m.nwProto, w, NW_PROTO),
      p.srcMask, Unmasked(m.nwSrc, p.srcMask), p.dstMask, Unmasked(m.nwDst, p.dstMask),
      View(r, m.tpSrc, w, TP_SRC), View(r, m.tpDst, w, TP_DST))
  }

  const ZERO_MAC := Mac(0, 0, 0, 0, 0, 0)

  /** Every wildcarded field of the match holds zero. */
  predicate Normal(m: Match) {
    var w := m.wildcards;
    && (Wc(w, IN_PORT) ==> m.inPort == 0)
    && (Wc(w, DL_SRC) ==> m.dlSrc == ZERO_MAC)
    && (Wc(w, DL_DST) ==> m.dlDst == ZERO_MAC)
    && (Wc(w, DL_VLAN) ==> m.dlVlan == 0)
    && (Wc(w, DL_VLAN_PCP) ==> m.dlVlanPcp == 0)
    && (Wc(w, DL_TYPE) ==> m.dlType == 0)
    && (Wc(w, NW_TOS) ==> m.nwTos == 0)
    && (Wc(w, NW_PROTO) ==> m.nwProto == 0)
    && (Wc(w, TP_SRC) ==> m.tpSrc == 0)
    && (Wc(w, TP_DST) ==> m.tpDst == 0)
  }

  /** What a reading needs of the matches for strict match to be an equivalence. */
  predicate Admissible(r: Reading, p: Pattern) { r.AsWritten? ==> Normal(p.fields) }

  lemma XorDistributes(a: bv32, b: bv32, m: bv32)
    ensures StrictNwBits(a, b, m) == Unmasked(a, m) ^ Unmasked(b, m)
  {}

  lemma XorZero(x: bv32, y: bv32)
    ensures x ^ y == 0 <==> x == y
  {}

  lemma NwClass(a: bv32, b: bv32, am: bv32, bm: bv32)
    ensures StrictNw(a, b, am, bm) <==> am == bm && Unmasked(a, am) == Unmasked(b, bm)
  {
    hide StrictNwBits, Unmasked;
    XorDistributes(a, b, am);
    XorZero(Unmasked(a, am), Unmasked(b, am));
  }

  /** A field that both matches wildcard and in which they store different values.  Only the
      code as written can tell the two apart, by not comparing them. */
  predicate Stray<T(==)>(r: Reading, a: T, b: T, aw: set<Flag>, bw: set<Flag>, f: Flag) {
    r.AsWritten? && Wc(aw, f) && Wc(bw, f) && a != b
  }

  predicate HaveStray(r: Reading, a: Pattern, b: Pattern) {
    var x, y := a.fields, b.fields;
    var aw, bw := x.wildcards, y.wildcards;
    || Stray(r, x.inPort, y.inPort, aw, bw, IN_PORT)
    || Stray(r, x.dlSrc, y.dlSrc, aw, bw, DL_SRC)
    || Stray(r, x.dlDst, y.dlDst, aw, bw, DL_DST)
    || Stray(r, x.dlVlan, y.dlVlan, aw, bw, DL_VLAN)
    || Stray(r, x.dlVlanPcp, y.dlVlanPcp, aw, bw, DL_VLAN_PCP)
    || Stray(r, x.dlType, y.dlType, aw, bw, DL_TYPE)
    || Stray(r, x.nwTos, y.nwTos, aw, bw, NW_TOS)
    || Stray(r, x.nwProto, y.nwProto, aw, bw, NW_PROTO)
    || Stray(r, x.tpSrc, y.tpSrc, aw, bw, TP_SRC)
    || Stray(r, x.tpDst, y.tpDst, aw, bw, TP_DST)
  }

  lemma ViewIsStrict<T>(r: Reading, a: T, b: T, aw: set<Flag>, bw: set<Flag>, f: Flag)
    ensures View(r, a, aw, f) == View(r, b, bw, f) <==> StrictWild(r, a, b, aw, bw, f) && !Stray(r, a, b, aw, bw, f)
  {}

  lemma ViewIsStrictDlAddr(r: Reading, a: Mac, b: Mac, aw: set<Flag>, bw: set<Flag>, f: Flag)
    ensures View(r, a, aw, f) == View(r, b, bw, f) <==> StrictDlAddr(r, a, b, aw, bw, f) && !Stray(r, a, b, aw, bw, f)
  {
    DlAddrIsOneField(r, a, b, aw, bw, f);
  }

  /** Under either reading and for any matches: two classes are equal exactly when the matches
      strictly match and no field that both wildcard holds different values. */
  lemma SameClassIff(r: Reading, a: Pattern, b: Pattern)
    ensures ClassOf(r, a) == ClassOf(r, b) <==> Strict(r, a, b) && !HaveStray(r, a, b)
  {
    hide StrictWild, StrictDlAddr, StrictNw, View, Unmasked, Stray;
    var x, y := a.fields, b.fields;
    var aw, bw := x.wildcards, y.wildcards;
    ViewIsStrict(r, x.inPort, y.inPort, aw, bw, IN_PORT);
    ViewIsStrict(r, x.dlVlan, y.dlVlan, aw, bw, DL_VLAN);
    ViewIsStrict(r, x.dlVlanPcp, y.dlVlanPcp, aw, bw, DL_VLAN_PCP);
    ViewIsStrict(r, x.dlType, y.dlType, aw, bw, DL_TYPE);
    ViewIsStrict(r, x.nwTos, y.nwTos, aw, bw, NW_TOS);
    ViewIsStrict(r, x.nwProto, y.nwProto, aw, bw, NW_PROTO);
    ViewIsStrict(r, x.tpSrc, y.tpSrc, aw, bw, TP_SRC);
    ViewIsStrict(r, x.tpDst, y.tpDst, aw, bw, TP_DST);
    ViewIsStrictDlAddr(r, x.dlSrc, y.dlSrc, aw, bw, DL_SRC);
    ViewIsStrictDlAddr(r, x.dlDst, y.dlDst, aw, bw, DL_DST);
    NwClass(x.nwSrc, y.nwSrc, a.srcMask, b.srcMask);
    NwClass(x.nwDst, y.nwDst, a.dstMask, b.dstMask);
  }

  lemma AdmissibleHasNoStray(r: Reading, a: Pattern, b: Pattern)
    requires Admissible(r, a) && Admissible(r, b)
    ensures !HaveStray(r, a, b)
  {}

  /** As documented, and as written under the zero convention, strict match compares classes. */
  lemma StrictIffSameClass(r: Reading, a: Pattern, b: Pattern)
    requires Admissible(r, a) && Admissible(r, b)
    ensures Strict(r, a, b) <==> ClassOf(r, a) == ClassOf(r, b)
  {
    hide Strict, ClassOf, HaveStray, Admissible;
    SameClassIff(r, a, b);
    AdmissibleHasNoStray(r, a, b);
  }

  // ---------- when strict match is transitive ----------

  lemma StrictSymmetric(r: Reading, a: Pattern, b: Pattern)
    ensures Strict(r, a, b) <==> Strict(r, b, a)
  {
    hide Strict;
    if Strict(r, a, b) { StrictReversed(r, a, b); }
    if Strict(r, b, a) { StrictReversed(r, b, a); }
  }

  lemma StrictReversed(r: Reading, a: Pattern, b: Pattern)
    requires Strict(r, a, b)
    ensures Strict(r, b, a)
  {
    hide StrictNwBits, Load32, Load16;
    StrictBitsSymmetric(a.fields.nwSrc, b.fields.nwSrc, a.srcMask);
    StrictBitsSymmetric(a.fields.nwDst, b.fields.nwDst, a.dstMask);
  }

  lemma StrictBitsSymmetric(a: bv32, b: bv32, m: bv32)
    ensures StrictNwBits(a, b, m) == StrictNwBits(b, a, m)
  {}

  /** Between a and b, c wildcards the field, one of a and b does, and their values differ. */
  predicate Bridged<T(==)>(r: Reading, a: T, b: T, aw: set<Flag>, cw: set<Flag>, bw: set<Flag>, f: Flag) {
    r.AsWritten? && Wc(cw, f) && Wc(aw, f) != Wc(bw, f) && a != b
  }

  predicate HaveBridge(r: Reading, a: Pattern, c: Pattern, b: Pattern) {
    var x, y := a.fields, b.fields;
    var aw, cw, bw := x.wildcards, c.fields.wildcards, y.wildcards;
    || Bridged(r, x.inPort, y.inPort, aw, cw, bw, IN_PORT)
    || Bridged(r, x.dlSrc, y.dlSrc, aw, cw, bw, DL_SRC)
    || Bridged(r, x.dlDst, y.dlDst, aw, cw, bw, DL_DST)
    || Bridged(r, x.dlVlan, y.dlVlan, aw, cw, bw, DL_VLAN)
    || Bridged(r, x.dlVlanPcp, y.dlVlanPcp, aw, cw, bw, DL_VLAN_PCP)
    || Bridged(r, x.dlType, y.dlType, aw, cw, bw, DL_TYPE)
    || Bridged(r, x.nwTos, y.nwTos, aw, cw, bw, NW_TOS)
    || Bridged(r, x.nwProto, y.nwProto, aw, cw, bw, NW_PROTO)
    || Bridged(r, x.tpSrc, y.tpSrc, aw, cw, bw, TP_SRC)
    || Bridged(r, x.tpDst, y.tpDst, aw, cw, bw, TP_DST)
  }

  lemma FieldTransitive<T>(r: Reading, a: T, c: T, b: T, aw: set<Flag>, cw: set<Flag>, bw: set<Flag>, f: Flag)
    requires StrictWild(r, a, c, aw, cw, f) && StrictWild(r, c, b, cw, bw, f)
    ensures StrictWild(r, a, b, aw, bw, f) <==> !Bridged(r, a, b, aw, cw, bw, f)
  {}

  lemma DlAddrTransitive(r: Reading, a: Mac, c: Mac, b: Mac, aw: set<Flag>, cw: set<Flag>, bw: set<Flag>, f: Flag)
    requires StrictDlAddr(r, a, c, aw, cw, f) && StrictDlAddr(r, c, b, cw, bw, f)
    ensures StrictDlAddr(r, a, b, aw, bw, f) <==> !Bridged(r, a, b, aw, cw, bw, f)
  {
    DlAddrIsOneField(r, a, c, aw, cw, f);
    DlAddrIsOneField(r, c, b, cw, bw, f);
    DlAddrIsOneField(r, a, b, aw, bw, f);
  }

  lemma NwTransitive(a: bv32, c: bv32, b: bv32, am: bv32, cm: bv32, bm: bv32)
    requires StrictNw(a, c, am, cm) && StrictNw(c, b, cm, bm)
    ensures StrictNw(a, b, am, bm)
  {
    hide StrictNw, Unmasked;
    NwClass(a, c, am, cm);
    NwClass(c, b, cm, bm);
    NwClass(a, b, am, bm);
  }

  /** A chain of two strict matches is closed exactly when no field is bridged.  As documented
      none ever is, so that strict match is transitive. */
  lemma StrictTransitiveIff(r: Reading, a: Pattern, c: Pattern, b: Pattern)
    requires Strict(r, a, c) && Strict(r, c, b)
    ensures Strict(r, a, b) <==> !HaveBridge(r, a, c, b)
  {
    hide StrictWild, StrictDlAddr, StrictNw, Bridged;
    var x, z, y := a.fields, c.fields, b.fields;
    var aw, cw, bw := x.wildcards, z.wildcards, y.wildcards;
    FieldTransitive(r, x.inPort, z.inPort, y.inPort, aw, cw, bw, IN_PORT);
    FieldTransitive(r, x.dlVlan, z.dlVlan, y.dlVlan, aw, cw, bw, DL_VLAN);
    FieldTransitive(r, x.dlVlanPcp, z.dlVlanPcp, y.dlVlanPcp, aw, cw, bw, DL_VLAN_PCP);
    FieldTransitive(r, x.dlType, z.dlType, y.dlType, aw, cw, bw, DL_TYPE);
    FieldTransitive(r, x.nwTos, z.nwTos, y.nwTos, aw, cw, bw, NW_TOS);
    FieldTransitive(r, x.nwProto, z.nwProto, y.nwProto, aw, cw, bw, NW_PROTO);
    FieldTransitive(r, x.tpSrc, z.tpSrc, y.tpSrc, aw, cw, bw, TP_SRC);
    FieldTransitive(r, x.tpDst, z.tpDst, y.tpDst, aw, cw, bw, TP_DST);
    DlAddrTransitive(r, x.dlSrc, z.dlSrc, y.dlSrc, aw, cw, bw, DL_SRC);
    DlAddrTransitive(r, x.dlDst, z.dlDst, y.dlDst, aw, cw, bw, DL_DST);
    NwTransitive(x.nwSrc, z.nwSrc, y.nwSrc, a.srcMask, c.srcMask, b.srcMask);
    NwTransitive(x.nwDst, z.nwDst, y.nwDst, a.dstMask, c.dstMask, b.dstMask);
  }

  // ---------- the two readings compared ----------

  predicate SameWildcards(a: Match, b: Match) {
    WildcardsWithin(a, b) && WildcardsWithin(b, a)
  }

  /** Every field that b wildcards is wildcarded by a. */
  predicate WildcardsWithin(a: Match, b: Match) {
    var aw, bw := a.wildcards, b.wildcards;
    && (Wc(bw, IN_PORT) ==> Wc(aw, IN_PORT)) && (Wc(bw, DL_SRC) ==> Wc(aw, DL_SRC))
    && (Wc(bw, DL_DST) ==> Wc(aw, DL_DST)) && (Wc(bw, DL_VLAN) ==> Wc(aw, DL_VLAN))
    && (Wc(bw, DL_VLAN_PCP) ==> Wc(aw, DL_VLAN_PCP)) && (Wc(bw, DL_TYPE) ==> Wc(aw, DL_TYPE))
    && (Wc(bw, NW_TOS) ==> Wc(aw, NW_TOS)) && (Wc(bw, NW_PROTO) ==> Wc(aw, NW_PROTO))
    && (Wc(bw, TP_SRC) ==> Wc(aw, TP_SRC)) && (Wc(bw, TP_DST) ==> Wc(aw, TP_DST))
  }

  lemma CoversReadings(a: Pattern, b: Pattern)
    ensures Covers(Documented, a, b) <==> Covers(AsWritten, a, b) && WildcardsWithin(a.fields, b.fields)
  {
    if Covers(Documented, a, b) { DocumentedCoversAsWritten(a, b); }
    if Covers(AsWritten, a, b) && WildcardsWithin(a.fields, b.fields) { AsWrittenCoversDocumented(a, b); }
  }

  lemma DocumentedCoversAsWritten(a: Pattern, b: Pattern)
    requires Covers(Documented, a, b)
    ensures Covers(AsWritten, a, b) && WildcardsWithin(a.fields, b.fields)
  {}

  lemma AsWrittenCoversDocumented(a: Pattern, b: Pattern)
    requires Covers(AsWritten, a, b) && WildcardsWithin(a.fields, b.fields)
    ensures Covers(Documented, a, b)
  {}

  lemma StrictReadings(a: Pattern, b: Pattern)
    ensures Strict(Documented, a, b) <==> Strict(AsWritten, a, b) && SameWildcards(a.fields, b.fields)
  {
    if Strict(Documented, a, b) { DocumentedStrictAsWritten(a, b); }
    if Strict(AsWritten, a, b) && SameWildcards(a.fields, b.fields) { AsWrittenStrictDocumented(a, b); }
  }

  lemma DocumentedStrictAsWritten(a: Pattern, b: Pattern)
    requires Strict(Documented, a, b)
    ensures Strict(AsWritten, a, b) && SameWildcards(a.fields, b.fields)
  {}

  lemma AsWrittenStrictDocumented(a: Pattern, b: Pattern)
    requires Strict(AsWritten, a, b) && SameWildcards(a.fields, b.fields)
    ensures Strict(Documented, a, b)
  {}

  lemma NwCoversSplit(a: bv32, b: bv32, am: bv32, bm: bv32)
    ensures NonStrictNwBits(a, b, am, bm) == PktNwBits(a, b, am) | (bm & !am)
  {}

  lemma ZeroUnion(x: bv32, y: bv32)
    ensures x | y == 0 <==> x == 0 && y == 0
  {}

  lemma NwCoversBits(a: bv32, b: bv32, am: bv32, bm: bv32)
    ensures NonStrictNw(a, b, am, bm) <==> PktNw(a, b, am) && bm & !am == 0
  {
    hide NonStrictNwBits, PktNwBits;
    NwCoversSplit(a, b, am, bm);
    ZeroUnion(PktNwBits(a, b, am), bm & !am);
  }

  /** Every address bit that m ignores is ignored by n. */
  predicate MaskWithin(m: bv32, n: bv32) { m & !n == 0 }

  lemma NwCoversMask(a: bv32, b: bv32, am: bv32, bm: bv32)
    ensures NonStrictNw(a, b, am, bm) <==> PktNw(a, b, am) && MaskWithin(bm, am)
    ensures MaskWithin(0, am)
  {
    hide NonStrictNw, PktNw;
    NwCoversBits(a, b, am, bm);
  }

  /** As written, a match covers another as soon as it accepts the values stored in it,
      wildcarded or not, and masks what the other masks. */
  lemma AsWrittenCoversIsAcceptance(a: Pattern, b: Pattern)
    ensures Covers(AsWritten, a, b) <==>
            Accepts(a, b.fields) && MaskWithin(b.srcMask, a.srcMask) && MaskWithin(b.dstMask, a.dstMask)
  {
    hide NonStrictNw, PktNw, MaskWithin;
    NwCoversMask(a.fields.nwSrc, b.fields.nwSrc, a.srcMask, b.srcMask);
    NwCoversMask(a.fields.nwDst, b.fields.nwDst, a.dstMask, b.dstMask);
  }

  /** The match that wildcards every field and stores zeros. */
  const EVERY: set<Flag> :=
    {IN_PORT, DL_VLAN, DL_SRC, DL_DST, DL_TYPE, NW_PROTO, TP_SRC, TP_DST, DL_VLAN_PCP, NW_TOS}

  const ANYTHING := Match(EVERY, 0, ZERO_MAC, ZERO_MAC, 0, 0, 0, 0, 0, 0, 0, 0, 0)

  function PortPattern(port: uint16, w: set<Flag>): Pattern {
    Pattern(ANYTHING.(wildcards := w, inPort := port), ALL_ONES, ALL_ONES)
  }

  /** As written, strict match is not transitive once a wildcarded field holds a stray value. */
  lemma AsWrittenStrictNotTransitive()
    ensures var a, b, c := PortPattern(5, EVERY - {IN_PORT}), PortPattern(7, EVERY), PortPattern(5, EVERY);
            && Strict(AsWritten, a, c) && Strict(AsWritten, c, a)
            && Strict(AsWritten, b, c)
            && !Strict(AsWritten, a, b)
  {}

  // ---------- overlap ----------

  ghost predicate HaveCommonPacket(a: Pattern, b: Pattern) {
    exists p :: Accepts(a, p) && Accepts(b, p)
  }

  predicate CompatibleField<T(==)>(a: T, b: T, aw: set<Flag>, bw: set<Flag>, f: Flag) {
    Wc(aw, f) || Wc(bw, f) || a == b
  }

  predicate CompatibleNw(a: bv32, b: bv32, am: bv32, bm: bv32) { (a ^ b) & !am & !bm == 0 }

  /** No field is pinned to two different values. */
  predicate Compatible(a: Pattern, b: Pattern) {
    var x, y := a.fields, b.fields;
    var aw, bw := x.wildcards, y.wildcards;
    && CompatibleField(x.inPort, y.inPort, aw, bw, IN_PORT)
    && CompatibleField(x.dlSrc, y.dlSrc, aw, bw, DL_SRC)
    && CompatibleField(x.dlDst, y.dlDst, aw, bw, DL_DST)
    && CompatibleField(x.dlVlan, y.dlVlan, aw, bw, DL_VLAN)
    && CompatibleField(x.dlVlanPcp, y.dlVlanPcp, aw, bw, DL_VLAN_PCP)
    && CompatibleField(x.dlType, y.dlType, aw, bw, DL_TYPE)
    && CompatibleField(x.nwTos, y.nwTos, aw, bw, NW_TOS)
    && CompatibleField(x.nwProto, y.nwProto, aw, bw, NW_PROTO)
    && CompatibleNw(x.nwSrc, y.nwSrc, a.srcMask, b.srcMask)
    && CompatibleNw(x.nwDst, y.nwDst, a.dstMask, b.dstMask)
    && CompatibleField(x.tpSrc, y.tpSrc, aw, bw, TP_SRC)
    && CompatibleField(x.tpDst, y.tpDst, aw, bw, TP_DST)
  }

  function NwMeet(a: bv32, b: bv32, am: bv32): bv32 { (a & !am) | (b & am) }

  lemma NwMeetAccepted(a: bv32, b: bv32, am: bv32, bm: bv32)
    requires CompatibleNw(a, b, am, bm)
    ensures PktNw(a, NwMeet(a, b, am), am) && PktNw(b, NwMeet(a, b, am), bm)
  {}

  lemma NwCommonCompatible(a: bv32, b: bv32, am: bv32, bm: bv32, p: bv32)
    requires PktNw(a, p, am) && PktNw(b, p, bm)
    ensures CompatibleNw(a, b, am, bm)
  {}

  /** A packet with a's value where a pins the field and b's value elsewhere. */
  function Meet(a: Pattern, b: Pattern): Match {
    var x, y := a.fields, b.fields;
    var w := x.wildcards;
    Match({},
      if Wc(w, IN_PORT) then y.inPort else x.inPort,
      if Wc(w, DL_SRC) then y.dlSrc else x.dlSrc,
      if Wc(w, DL_DST) then y.dlDst else x.dlDst,
      if Wc(w, DL_VLAN) then y.dlVlan else x.dlVlan,
      if Wc(w, DL_VLAN_PCP) then y.dlVlanPcp else x.dlVlanPcp,
      if Wc(w, DL_TYPE) then y.dlType else x.dlType,
      if Wc(w, NW_TOS) then y.nwTos else x.nwTos,
      if Wc(w, NW_PROTO) then y.nwProto else x.nwProto,
      NwMeet(x.nwSrc, y.nwSrc, a.srcMask),
      NwMeet(x.nwDst, y.nwDst, a.dstMask),
      if Wc(w, TP_SRC) then y.tpSrc else x.tpSrc,
      if Wc(w, TP_DST) then y.tpDst else x.tpDst)
  }

  lemma MeetAcceptedByFirst(a: Pattern, b: Pattern)
    requires Compatible(a, b)
    ensures Accepts(a, Meet(a, b))
  {
    NwMeetAccepted(a.fields.nwSrc, b.fields.nwSrc, a.srcMask, b.srcMask);
    NwMeetAccepted(a.fields.nwDst, b.fields.nwDst, a.dstMask, b.dstMask);
  }

  lemma MeetAcceptedBySecond(a: Pattern, b: Pattern)
    requires Compatible(a, b)
    ensures Accepts(b, Meet(a, b))
  {
    NwMeetAccepted(a.fields.nwSrc, b.fields.nwSrc, a.srcMask, b.srcMask);
    NwMeetAccepted(a.fields.nwDst, b.fields.nwDst, a.dstMask, b.dstMask);
  }

  lemma CommonPacketCompatible(a: Pattern, b: Pattern, p: Match)
    requires Accepts(a, p) && Accepts(b, p)
    ensures Compatible(a, b)
  {
    var x, y := a.fields, b.fields;
    MacHalves(x.dlSrc, p.dlSrc);
    MacHalves(y.dlSrc, p.dlSrc);
    MacHalves(x.dlDst, p.dlDst);
    MacHalves(y.dlDst, p.dlDst);
    NwCommonCompatible(x.nwSrc, y.nwSrc, a.srcMask, b.srcMask, p.nwSrc);
    NwCommonCompatible(x.nwDst, y.nwDst, a.dstMask, b.dstMask, p.nwDst);
  }

  lemma CommonPacketIffCompatible(a: Pattern, b: Pattern)
    ensures HaveCommonPacket(a, b) <==> Compatible(a, b)
  {
    if Compatible(a, b) {
      MeetAcceptedByFirst(a, b);
      MeetAcceptedBySecond(a, b);
    }
    if HaveCommonPacket(a, b) {
      var p :| Accepts(a, p) && Accepts(b, p);
      CommonPacketCompatible(a, b, p);
    }
  }

  predicate Overlap(r: Reading, a: Pattern, b: Pattern, dstMaskOfA: bv32) {
    MatchStdOverlap(r, a.fields, b.fields, a.srcMask, b.srcMask, a.dstMask, b.dstMask, dstMaskOfA)
  }

  lemma OverlapIsCovering(r: Reading, a: Pattern, b: Pattern, dstMaskOfA: bv32)
    ensures Overlap(r, a, b, dstMaskOfA) <==> Covers(r, a, b) || Covers(r, b, a.(dstMask := dstMaskOfA))
  {
    hide MatchStdNonStrict;
  }

  /** What match_std_overlap is to compute, for either mask in its last argument: an inclusion. */
  lemma OverlapIffInclusion(a: Pattern, b: Pattern, dstMaskOfA: bv32)
    ensures Overlap(Documented, a, b, dstMaskOfA) <==>
            || (forall p :: Accepts(b, p) ==> Accepts(a, p))
            || (forall p :: Accepts(a.(dstMask := dstMaskOfA), p) ==> Accepts(b, p))
  {
    hide Overlap, Covers, Accepts;
    OverlapIsCovering(Documented, a, b, dstMaskOfA);
    CoversIffInclusion(a, b);
    CoversIffInclusion(b, a.(dstMask := dstMaskOfA));
  }

  /** What it computes as written: one match accepts the values stored in the other, and masks
      what the other masks. */
  lemma AsWrittenOverlapIsAcceptance(a: Pattern, b: Pattern, dstMaskOfA: bv32)
    ensures Overlap(AsWritten, a, b, dstMaskOfA) <==>
            || (Accepts(a, b.fields) && MaskWithin(b.srcMask, a.srcMask) && MaskWithin(b.dstMask, a.dstMask))
            || (Accepts(b, a.fields) && MaskWithin(a.srcMask, b.srcMask) && MaskWithin(dstMaskOfA, b.dstMask))
  {
    hide Overlap, Covers, Accepts, MaskWithin;
    OverlapIsCovering(AsWritten, a, b, dstMaskOfA);
    AsWrittenCoversIsAcceptance(a, b);
    AsWrittenCoversIsAcceptance(b, a.(dstMask := dstMaskOfA));
  }

  /** A match accepts what it stores. */
  lemma AcceptsOwnFields(a: Pattern)
    ensures Accepts(a, a.fields)
  {
    OwnAddressAccepted(a.fields.nwSrc, a.srcMask);
    OwnAddressAccepted(a.fields.nwDst, a.dstMask);
  }

  lemma OwnAddressAccepted(a: bv32, m: bv32)
    ensures PktNw(a, a, m)
  {}

  /** Under either reading and whatever mask stands in for a's, overlap implies a common packet. */
  lemma OverlapHasCommonPacket(r: Reading, a: Pattern, b: Pattern, dstMaskOfA: bv32)
    requires Overlap(r, a, b, dstMaskOfA)
    ensures HaveCommonPacket(a, b)
  {
    hide Overlap, Covers, Accepts, Compatible, MaskWithin;
    if r.AsWritten? {
      AsWrittenOverlapIsAcceptance(a, b, dstMaskOfA);
      AcceptsOwnFields(a);
      AcceptsOwnFields(b);
    } else {
      OverlapIsCovering(Documented, a, b, dstMaskOfA);
      if Covers(Documented, a, b) {
        AdversaryAccepted(a, b);
        CoversSound(a, b, Adversary(a, b));
      } else {
        CoveredUnderOtherMask(b, a, dstMaskOfA);
        CommonPacketIffCompatible(a, b);
      }
    }
  }

  lemma CoveredUnderOtherMask(a: Pattern, b: Pattern, mask: bv32)
    requires Covers(Documented, a, b.(dstMask := mask))
    ensures Compatible(b, a)
  {
    hide NonStrictNwBits, PktNwBits, Load32, Load16;
    var x, y := a.fields, b.fields;
    DlAddrIsOneField(Documented, x.dlSrc, y.dlSrc, x.wildcards, y.wildcards, DL_SRC);
    DlAddrIsOneField(Documented, x.dlDst, y.dlDst, x.wildcards, y.wildcards, DL_DST);
    NwCoversCompatible(x.nwSrc, y.nwSrc, a.srcMask, b.srcMask, b.srcMask);
    NwCoversCompatible(x.nwDst, y.nwDst, a.dstMask, mask, b.dstMask);
  }

  lemma NwCoversCompatible(a: bv32, b: bv32, am: bv32, bm: bv32, anyMask: bv32)
    requires NonStrictNw(a, b, am, bm)
    ensures CompatibleNw(b, a, anyMask, am)
  {}

  /** The converse fails: these two have a common packet, and neither covers the other. */
  lemma CommonPacketWithoutOverlap(r: Reading)
    ensures var a := Pattern(ANYTHING.(wildcards := EVERY - {IN_PORT}, inPort := 1), ALL_ONES, ALL_ONES);
            var b := Pattern(ANYTHING.(wildcards := EVERY - {DL_TYPE}, dlType := 0x800), ALL_ONES, ALL_ONES);
            HaveCommonPacket(a, b) && !Overlap(r, a, b, a.dstMask) && !Overlap(r, a, b, b.srcMask)
  {
    var a := Pattern(ANYTHING.(wildcards := EVERY - {IN_PORT}, inPort := 1), ALL_ONES, ALL_ONES);
    var b := Pattern(ANYTHING.(wildcards := EVERY - {DL_TYPE}, dlType := 0x800), ALL_ONES, ALL_ONES);
    CommonPacketIffCompatible(a, b);
  }

  lemma CoversSplitsDstMask(r: Reading, a: Pattern, b: Pattern, mask: bv32)
    ensures Covers(r, b, a.(dstMask := mask)) <==> Covers(r, b, a.(dstMask := 0)) && MaskWithin(mask, b.dstMask)
  {
    hide NonStrictWild, NonStrictDlAddr, PktNw, NonStrictNw, Wc, MaskWithin;
    NwCoversMask(b.fields.nwDst, a.fields.nwDst, b.dstMask, mask);
    NwCoversMask(b.fields.nwDst, a.fields.nwDst, b.dstMask, 0);
  }

  /** The mask in the last argument decides exactly one thing: whether its bits lie within
      those of b's own. */
  lemma OverlapIffMask(r: Reading, a: Pattern, b: Pattern, mask: bv32)
    ensures Overlap(r, a, b, mask) <==>
            Covers(r, a, b) || (Covers(r, b, a.(dstMask := 0)) && MaskWithin(mask, b.dstMask))
  {
    hide Overlap, Covers, MaskWithin;
    OverlapIsCovering(r, a, b, mask);
    CoversSplitsDstMask(r, a, b, mask);
  }

  // ---------- when overlap tells of a common packet ----------

  /** If b wildcards the field, so does a; as written it is enough that both store one value. */
  predicate WiderField<T(==)>(r: Reading, a: T, b: T, aw: set<Flag>, bw: set<Flag>, f: Flag) {
    Wc(bw, f) ==> Wc(aw, f) || (r.AsWritten? && a == b)
  }

  predicate WiderFields(r: Reading, a: Match, b: Match) {
    var aw, bw := a.wildcards, b.wildcards;
    && WiderField(r, a.inPort, b.inPort, aw, bw, IN_PORT)
    && WiderField(r, a.dlSrc, b.dlSrc, aw, bw, DL_SRC)
    && WiderField(r, a.dlDst, b.dlDst, aw, bw, DL_DST)
    && WiderField(r, a.dlVlan, b.dlVlan, aw, bw, DL_VLAN)
    && WiderField(r, a.dlVlanPcp, b.dlVlanPcp, aw, bw, DL_VLAN_PCP)
    && WiderField(r, a.dlType, b.dlType, aw, bw, DL_TYPE)
    && WiderField(r, a.nwTos, b.nwTos, aw, bw, NW_TOS)
    && WiderField(r, a.nwProto, b.nwProto, aw, bw, NW_PROTO)
    && WiderField(r, a.tpSrc, b.tpSrc, aw, bw, TP_SRC)
    && WiderField(r, a.tpDst, b.tpDst, aw, bw, TP_DST)
  }

  /** a is wider than b in every field and masks all that b does. */
  predicate Wider(r: Reading, a: Pattern, b: Pattern) {
    WiderFields(r, a.fields, b.fields) && MaskWithin(b.srcMask, a.srcMask) && MaskWithin(b.dstMask, a.dstMask)
  }

  lemma FieldWider<T>(r: Reading, a: T, b: T, aw: set<Flag>, bw: set<Flag>, f: Flag)
    requires CompatibleField(a, b, aw, bw, f)
    ensures NonStrictWild(r, a, b, aw, bw, f) <==> WiderField(r, a, b, aw, bw, f)
  {}

  lemma DlAddrWider(r: Reading, a: Mac, b: Mac, aw: set<Flag>, bw: set<Flag>, f: Flag)
    requires CompatibleField(a, b, aw, bw, f)
    ensures NonStrictDlAddr(r, a, b, aw, bw, f) <==> WiderField(r, a, b, aw, bw, f)
  {
    DlAddrIsOneField(r, a, b, aw, bw, f);
  }

  lemma CompatibleWithin(a: bv32, b: bv32, am: bv32, bm: bv32)
    requires CompatibleNw(a, b, am, bm) && MaskWithin(bm, am)
    ensures PktNw(a, b, am)
  {}

  lemma NwWider(a: bv32, b: bv32, am: bv32, bm: bv32)
    requires CompatibleNw(a, b, am, bm)
    ensures NonStrictNw(a, b, am, bm) <==> MaskWithin(bm, am)
  {
    hide NonStrictNw, PktNw, CompatibleNw, MaskWithin;
    NwCoversMask(a, b, am, bm);
    if MaskWithin(bm, am) { CompatibleWithin(a, b, am, bm); }
  }

  /** The fields other than the network addresses, for compatible matches. */
  lemma FieldsIffWider(r: Reading, a: Pattern, b: Pattern, mask: bv32)
    requires Compatible(a, b)
    ensures Covers(r, a, b.(dstMask := mask)) <==>
            && WiderFields(r, a.fields, b.fields)
            && NonStrictNw(a.fields.nwSrc, b.fields.nwSrc, a.srcMask, b.srcMask)
            && NonStrictNw(a.fields.nwDst, b.fields.nwDst, a.dstMask, mask)
  {
    hide NonStrictWild, NonStrictDlAddr, NonStrictNw, CompatibleField, CompatibleNw, Wc, WiderField;
    var x, y := a.fields, b.fields;
    var aw, bw := x.wildcards, y.wildcards;
    FieldWider(r, x.inPort, y.inPort, aw, bw, IN_PORT);
    FieldWider(r, x.dlVlan, y.dlVlan, aw, bw, DL_VLAN);
    FieldWider(r, x.dlVlanPcp, y.dlVlanPcp, aw, bw, DL_VLAN_PCP);
    FieldWider(r, x.dlType, y.dlType, aw, bw, DL_TYPE);
    FieldWider(r, x.nwTos, y.nwTos, aw, bw, NW_TOS);
    FieldWider(r, x.nwProto, y.nwProto, aw, bw, NW_PROTO);
    FieldWider(r, x.tpSrc, y.tpSrc, aw, bw, TP_SRC);
    FieldWider(r, x.tpDst, y.tpDst, aw, bw, TP_DST);
    DlAddrWider(r, x.dlSrc, y.dlSrc, aw, bw, DL_SRC);
    DlAddrWider(r, x.dlDst, y.dlDst, aw, bw, DL_DST);
  }

  lemma CompatibleAddresses(a: Pattern, b: Pattern)
    requires Compatible(a, b)
    ensures CompatibleNw(a.fields.nwSrc, b.fields.nwSrc, a.srcMask, b.srcMask)
    ensures CompatibleNw(a.fields.nwDst, b.fields.nwDst, a.dstMask, b.dstMask)
  {
    hide CompatibleField, CompatibleNw;
  }

  /** Of two matches with a common packet, one covers the other exactly when it is wider. */
  lemma CoversIffWider(r: Reading, a: Pattern, b: Pattern)
    requires Compatible(a, b)
    ensures Covers(r, a, b) <==> Wider(r, a, b)
  {
    hide Covers, Compatible, WiderFields, NonStrictNw, CompatibleNw, MaskWithin;
    FieldsIffWider(r, a, b, b.dstMask);
    assert b.(dstMask := b.dstMask) == b;
    CompatibleAddresses(a, b);
    NwWider(a.fields.nwSrc, b.fields.nwSrc, a.srcMask, b.srcMask);
    NwWider(a.fields.nwDst, b.fields.nwDst, a.dstMask, b.dstMask);
  }

  lemma CompatibleSymmetric(a: Pattern, b: Pattern)
    requires Compatible(a, b)
    ensures Compatible(b, a)
  {
    hide Compatible, Accepts;
    CommonPacketIffCompatible(a, b);
    CommonPacketIffCompatible(b, a);
  }

  /** The promise of the comment, that two matches overlap when they have a common packet, is
      met under either reading exactly when they have none or one of them is wider than the
      other in the sense of that reading. */
  lemma OverlapMeetsPromiseIff(r: Reading, a: Pattern, b: Pattern)
    ensures (Overlap(r, a, b, a.dstMask) <==> HaveCommonPacket(a, b)) <==>
            !Compatible(a, b) || Wider(r, a, b) || Wider(r, b, a)
  {
    hide Compatible, Wider, Covers, HaveCommonPacket, Overlap;
    CommonPacketIffCompatible(a, b);
    OverlapIsCovering(r, a, b, a.dstMask);
    assert a.(dstMask := a.dstMask) == a;
    if Compatible(a, b) {
      CompatibleSymmetric(a, b);
      CoversIffWider(r, a, b);
      CoversIffWider(r, b, a);
    } else if Overlap(r, a, b, a.dstMask) {
      OverlapHasCommonPacket(r, a, b, a.dstMask);
    }
  }

  /** a is wider than b apart from the destination mask, and accepts the destination address
      that b stores. */
  predicate WiderElsewhere(r: Reading, a: Pattern, b: Pattern) {
    && WiderFields(r, a.fields, b.fields) && MaskWithin(b.srcMask, a.srcMask)
    && PktNw(a.fields.nwDst, b.fields.nwDst, a.dstMask)
  }

  lemma CoversBareIffWider(r: Reading, a: Pattern, b: Pattern)
    requires Compatible(b, a)
    ensures Covers(r, b, a.(dstMask := 0)) <==> WiderElsewhere(r, b, a)
  {
    hide Covers, Compatible, WiderFields, NonStrictNw, CompatibleNw, MaskWithin, PktNw;
    FieldsIffWider(r, b, a, 0);
    CompatibleAddresses(b, a);
    NwWider(b.fields.nwSrc, a.fields.nwSrc, b.srcMask, a.srcMask);
    NwCoversMask(b.fields.nwDst, a.fields.nwDst, b.dstMask, 0);
  }

  /** With the mask that the code passes, the promise is met exactly when they have none, or a
      is wider than b, or b is wider than a elsewhere and b's source mask lies within its own
      destination mask. */
  lemma PassedMaskMeetsPromiseIff(r: Reading, a: Pattern, b: Pattern)
    ensures (Overlap(r, a, b, b.srcMask) <==> HaveCommonPacket(a, b)) <==>
            || !Compatible(a, b) || Wider(r, a, b)
            || (WiderElsewhere(r, b, a) && MaskWithin(b.srcMask, b.dstMask))
  {
    hide Compatible, Wider, WiderElsewhere, Covers, HaveCommonPacket, MaskWithin, Overlap;
    CommonPacketIffCompatible(a, b);
    OverlapIffMask(r, a, b, b.srcMask);
    if Compatible(a, b) {
      CompatibleSymmetric(a, b);
      CoversIffWider(r, a, b);
      CoversBareIffWider(r, a, b);
    } else if Overlap(r, a, b, b.srcMask) {
      OverlapHasCommonPacket(r, a, b, b.srcMask);
    }
  }

  /** The mask that the code passes gives the intended answer exactly when a covers b, or b
      fails to cover a on some other field, or both masks lie, or fail to lie, within b's. */
  lemma OverlapArgumentIff(r: Reading, a: Pattern, b: Pattern)
    ensures (Overlap(r, a, b, b.srcMask) <==> Overlap(r, a, b, a.dstMask)) <==>
            || Covers(r, a, b)
            || !Covers(r, b, a.(dstMask := 0))
            || (MaskWithin(a.dstMask, b.dstMask) <==> MaskWithin(b.srcMask, b.dstMask))
  {
    hide Overlap, Covers, MaskWithin;
    OverlapIffMask(r, a, b, b.srcMask);
    OverlapIffMask(r, a, b, a.dstMask);
  }

  /** With the mask that the code passes, an inclusion can be missed, and one that does not
      hold can be reported. */
  lemma OverlapArgumentMatters(r: Reading)
    ensures var a, b := Pattern(ANYTHING, 0, 0), Pattern(ANYTHING, 0xff, 0xf);
            Overlap(r, a, b, a.dstMask) && !Overlap(r, a, b, b.srcMask)
    ensures var a := Pattern(ANYTHING.(wildcards := EVERY - {IN_PORT}, inPort := 1), 0, 0xf);
            var b := Pattern(ANYTHING, 0, 0);
            !Overlap(r, a, b, a.dstMask) && Overlap(r, a, b, b.srcMask)
  {}

  // ---------- the masks of the Flow constructor ----------

  /** With the masks that every flow carries, the network addresses are never compared. */
  lemma AddressesAreIgnored(r: Reading, m: Match, other: Match, packet: Match, src: bv32, dst: bv32)
    ensures var a := Pattern(m, ALL_ONES, ALL_ONES);
            var a' := Pattern(m.(nwSrc := src, nwDst := dst), ALL_ONES, ALL_ONES);
            var b := Pattern(other, ALL_ONES, ALL_ONES);
            && (Accepts(a, packet) <==> Accepts(a', packet))
            && (Strict(r, a, b) <==> Strict(r, a', b))
            && (Covers(r, a, b) <==> Covers(r, a', b))
  {
    forall x: bv32, y: bv32
      ensures PktNw(x, y, ALL_ONES) && StrictNw(x, y, ALL_ONES, ALL_ONES) && NonStrictNw(x, y, ALL_ONES, ALL_ONES)
    {}
  }
}
