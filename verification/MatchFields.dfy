/** What a match says about each header field of a packet, by the fields themselves: a
    wildcarded field is ignored, any other must hold the stored value, and an address is
    compared in the bits that its mask does not ignore. */
module MatchFields {
  import opened Wrappers
  import opened Match10

  /** p and q hold the same value in the field that flag f is named after. */
  predicate SameField(p: Match, q: Match, f: Flag) {
    match f
    case IN_PORT => p.inPort == q.inPort
    case DL_VLAN => p.dlVlan == q.dlVlan
    case DL_SRC => p.dlSrc == q.dlSrc
    case DL_DST => p.dlDst == q.dlDst
    case DL_TYPE => p.dlType == q.dlType
    case NW_PROTO => p.nwProto == q.nwProto
    case TP_SRC => p.tpSrc == q.tpSrc
    case TP_DST => p.tpDst == q.tpDst
    case DL_VLAN_PCP => p.dlVlanPcp == q.dlVlanPcp
    case NW_TOS => p.nwTos == q.nwTos
  }

  /** A word in which a single bit is set. */
  predicate IsBit(b: bv32) { b != 0 && b & (b - 1) == 0 }

  /** Where the mask does not ignore bit b, the two addresses agree in it. */
  predicate AgreeAt(b: bv32, x: bv32, y: bv32, mask: bv32) { b & mask == 0 ==> b & x == b & y }

  ghost predicate AgreeOutside(x: bv32, y: bv32, mask: bv32) { forall b :: IsBit(b) ==> AgreeAt(b, x, y, mask) }

  /** The lowest bit that is set. */
  function LowestBit(x: bv32): bv32 { x & (!x + 1) }

  lemma LowestIsBit(x: bv32)
    requires x != 0
    ensures IsBit(LowestBit(x)) && LowestBit(x) & x == LowestBit(x)
  {}

  lemma BitOfDifference(x: bv32, y: bv32, m: bv32, b: bv32)
    requires b != 0 && b & PktNwBits(x, y, m) == b
    ensures !AgreeAt(b, x, y, m)
  {}

  lemma NoDifference(x: bv32, y: bv32, m: bv32, b: bv32)
    requires PktNwBits(x, y, m) == 0
    ensures AgreeAt(b, x, y, m)
  {}

  lemma BitIsSomething(b: bv32)
    requires IsBit(b)
    ensures b != 0
  {}

  lemma PktNwByBits(x: bv32, y: bv32, m: bv32)
    ensures PktNw(x, y, m) <==> AgreeOutside(x, y, m)
  {
    hide IsBit, AgreeAt, PktNwBits, LowestBit;
    var d := PktNwBits(x, y, m);
    if d != 0 {
      LowestIsBit(d);
      BitIsSomething(LowestBit(d));
      BitOfDifference(x, y, m, LowestBit(d));
    } else {
      forall b | IsBit(b) ensures AgreeAt(b, x, y, m) { NoDifference(x, y, m, b); }
    }
  }

  /** The stored value stands in every field that is not wildcarded; flag and field are matched
      by name. */
  ghost predicate AgreeInFields(a: Match, p: Match) {
    forall f :: f in a.wildcards || SameField(p, a, f)
  }

  predicate FieldAccepted(a: Match, p: Match, f: Flag) {
    var aw := a.wildcards;
    match f
    case IN_PORT => PktWild(a.inPort, p.inPort, aw, f)
    case DL_VLAN => PktWild(a.dlVlan, p.dlVlan, aw, f)
    case DL_SRC => PktDlAddr(a.dlSrc, p.dlSrc, aw, f)
    case DL_DST => PktDlAddr(a.dlDst, p.dlDst, aw, f)
    case DL_TYPE => PktWild(a.dlType, p.dlType, aw, f)
    case NW_PROTO => PktWild(a.nwProto, p.nwProto, aw, f)
    case TP_SRC => PktWild(a.tpSrc, p.tpSrc, aw, f)
    case TP_DST => PktWild(a.tpDst, p.tpDst, aw, f)
    case DL_VLAN_PCP => PktWild(a.dlVlanPcp, p.dlVlanPcp, aw, f)
    case NW_TOS => PktWild(a.nwTos, p.nwTos, aw, f)
  }

  lemma FieldAcceptedIff(a: Match, p: Match, f: Flag)
    ensures FieldAccepted(a, p, f) <==> f in a.wildcards || SameField(p, a, f)
  {
    hide Load32, Load16;
    match f
    case DL_SRC => MacHalves(a.dlSrc, p.dlSrc);
    case DL_DST => MacHalves(a.dlDst, p.dlDst);
    case _ =>
  }

  /** A packet is accepted exactly when it holds the stored value in each field that is not
      wildcarded, and the stored bit wherever the address masks do not ignore it. */
  lemma AcceptsIffAgrees(a: Pattern, p: Match)
    ensures Accepts(a, p) <==>
            && AgreeInFields(a.fields, p)
            && AgreeOutside(a.fields.nwSrc, p.nwSrc, a.srcMask)
            && AgreeOutside(a.fields.nwDst, p.nwDst, a.dstMask)
  {
    hide AgreeOutside, PktNw, SameField, PktWild, PktDlAddr;
    PktNwByBits(a.fields.nwSrc, p.nwSrc, a.srcMask);
    PktNwByBits(a.fields.nwDst, p.nwDst, a.dstMask);
    forall f ensures FieldAccepted(a.fields, p, f) <==> f in a.fields.wildcards || SameField(p, a.fields, f) {
      FieldAcceptedIff(a.fields, p, f);
    }
    AllFlags(a.fields, p);
  }

  lemma AllFlags(a: Match, p: Match)
    ensures (forall f :: FieldAccepted(a, p, f)) <==>
            && FieldAccepted(a, p, IN_PORT) && FieldAccepted(a, p, DL_VLAN) && FieldAccepted(a, p, DL_SRC)
            && FieldAccepted(a, p, DL_DST) && FieldAccepted(a, p, DL_TYPE) && FieldAccepted(a, p, NW_PROTO)
            && FieldAccepted(a, p, TP_SRC) && FieldAccepted(a, p, TP_DST) && FieldAccepted(a, p, DL_VLAN_PCP)
            && FieldAccepted(a, p, NW_TOS)
  {
    hide FieldAccepted;
    if FieldAccepted(a, p, IN_PORT) && FieldAccepted(a, p, DL_VLAN) && FieldAccepted(a, p, DL_SRC)
       && FieldAccepted(a, p, DL_DST) && FieldAccepted(a, p, DL_TYPE) && FieldAccepted(a, p, NW_PROTO)
       && FieldAccepted(a, p, TP_SRC) && FieldAccepted(a, p, TP_DST) && FieldAccepted(a, p, DL_VLAN_PCP)
       && FieldAccepted(a, p, NW_TOS)
    {
      forall f ensures FieldAccepted(a, p, f) { match f case IN_PORT => case _ => }
    }
  }

  /** Packets that differ at most in the field of flag f. */
  ghost predicate DifferAtMost(p: Match, q: Match, f: Flag) {
    && (forall g :: g != f ==> SameField(p, q, g))
    && p.nwSrc == q.nwSrc && p.nwDst == q.nwDst
  }

  lemma SameFieldTransfer(p: Match, q: Match, x: Match, g: Flag)
    requires SameField(p, q, g)
    ensures SameField(p, x, g) <==> SameField(q, x, g)
  {}

  /** Changing one field of an accepted packet leaves it accepted exactly when the field is
      wildcarded, or the change is none. */
  lemma FlagDecides(a: Pattern, p: Match, q: Match, f: Flag)
    requires Accepts(a, p) && DifferAtMost(p, q, f)
    ensures Accepts(a, q) <==> f in a.fields.wildcards || SameField(p, q, f)
  {
    hide Accepts, AgreeOutside, SameField;
    AcceptsIffAgrees(a, p);
    AcceptsIffAgrees(a, q);
    forall g | SameField(p, q, g) ensures SameField(p, a.fields, g) <==> SameField(q, a.fields, g) {
      SameFieldTransfer(p, q, a.fields, g);
    }
    if f !in a.fields.wildcards { SameFieldJoins(p, q, a.fields, f); }
  }

  lemma SameFieldJoins(p: Match, q: Match, x: Match, f: Flag)
    requires SameField(p, x, f)
    ensures SameField(q, x, f) <==> SameField(p, q, f)
  {}
}
