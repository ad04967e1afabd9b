/** Policy routing rule messages: encoder and decoder (src/rtnl/rule_data.c). */
module RuleData {
  import opened Wire
  import opened Tlv
  import opened Comparison
  import opened Contents
  import opened NlMessage
  import opened Rule

  const RTM_NEWRULE: u16 := 32
  const RTM_DELRULE: u16 := 33
  const RTM_GETRULE: u16 := 34

  const FRA_DST: nat := 1
  const FRA_SRC: nat := 2
  const FRA_IIFNAME: nat := 3
  const FRA_PRIORITY: nat := 6
  const FRA_FWMARK: nat := 10
  const FRA_FWMASK: nat := 16
  const FRA_OIFNAME: nat := 17
  const FRA_MAX: nat := 24

  predicate IsRuleType(t: u16) {
    t == RTM_NEWRULE || t == RTM_DELRULE || t == RTM_GETRULE
  }

  /** Properties the decoder always sets; the prefix lengths wait for their address. */
  const HEADER_PROPS: set<nat> := {FAMILY, TABLE, ACTION, TOS}

  // ----- Encoding -----

  function HeaderField(r: Rule, n: nat, k: nat, v: byte): byte {
    if k < n && k in r.props then v else 0
  }

  /** struct fib_rule_hdr after the properties below n. */
  function Header(r: Rule, n: nat): FibRuleHdr {
    FibRuleHdr(HeaderField(r, n, FAMILY, r.family), HeaderField(r, n, DST_PREFIX, r.dstPrefix),
               HeaderField(r, n, SRC_PREFIX, r.srcPrefix), HeaderField(r, n, TOS, r.tos),
               HeaderField(r, n, TABLE, r.table), HeaderField(r, n, ACTION, r.action))
  }

  /** The attribute property k contributes. */
  function AttrOf(r: Rule, k: nat): Option<Attr> {
    if k !in r.props then None
    else if k == PRIORITY then Some(Attr(FRA_PRIORITY, LE4(r.priority)))
    else if k == OIFNAME && r.oifName.Some? then Some(Attr(FRA_OIFNAME, r.oifName.value))
    else if k == IIFNAME && r.iifName.Some? then Some(Attr(FRA_IIFNAME, r.iifName.value))
    else if k == SRC then Some(Attr(FRA_SRC, r.src[..AddrSize(r.family)]))
    else if k == DST then Some(Attr(FRA_DST, r.dst[..AddrSize(r.family)]))
    else if k == FWMARK then Some(Attr(FRA_FWMARK, LE4(r.fwmark)))
    else if k == FWMASK then Some(Attr(FRA_FWMASK, LE4(r.fwmask)))
    else None
  }

  function AttrsOf(r: Rule): nat -> Option<Attr> {
    (k: nat) => AttrOf(r, k)
  }

  function Encode(r: Rule, nlType: u16): Packet {
    Packet(nlType, false, Typed(RuleTemplate(Header(r, MAX)), EncodeAttrs(Emit(MAX, AttrsOf(r)))))
  }

  // ----- Decoding -----

  function NewRule(h: FibRuleHdr): Rule {
    NEW.(props := HEADER_PROPS, family := h.family, table := h.table, action := h.action, tos := h.tos)
  }

  /** One round of the attribute loop; a prefix length is taken over together with its address. */
  function Step(h: FibRuleHdr, r: Rule, a: Attr): Option<Rule> {
    var kind := a.Kind();
    if kind > FRA_MAX then Some(r)
    else if kind == FRA_DST then
      if !a.Holds(AddrSize(h.family)) then None
      else
        var q := r.SetDst(h.family, LoadAddr(a.data));
        if q.None? then None else q.value.SetU8(DST_PREFIX, h.dstLen)
    else if kind == FRA_SRC then
      if !a.Holds(AddrSize(h.family)) then None
      else
        var q := r.SetSrc(h.family, LoadAddr(a.data));
        if q.None? then None else q.value.SetU8(SRC_PREFIX, h.srcLen)
    else if kind == FRA_FWMARK then
      if a.Holds(4) then r.SetU32(FWMARK, a.U32()) else None
    else if kind == FRA_FWMASK then
      if a.Holds(4) then r.SetU32(FWMASK, a.U32()) else None
    else if kind == FRA_PRIORITY then
      if a.Holds(4) then r.SetU32(PRIORITY, a.U32()) else None
    else if kind == FRA_OIFNAME then
      if a.IsString() then Some(r.SetOifName(a.Str())) else None
    else if kind == FRA_IIFNAME then
      if a.IsString() then Some(r.SetIifName(a.Str())) else None
    else Some(r)
  }

  function Steps(h: FibRuleHdr): (Rule, Attr) -> Option<Rule> {
    (r: Rule, a: Attr) => Step(h, r, a)
  }

  predicate Readable(p: Packet) {
    IsRuleType(p.nlType) ==> p.body.Typed? && p.body.tmpl.RuleTemplate?
  }

  function Decode(p: Packet): Decoded<Rule>
    requires Readable(p)
  {
    if !IsRuleType(p.nlType) then Rejected
    else if !IpFamily(p.body.tmpl.frh.family) then Skipped
    else
      var h := p.body.tmpl.frh;
      var r := Fold(NewRule(h), Parse(p.body.attrs), Steps(h));
      if r.None? then Rejected else Accepted(r.value)
  }

  // ----- Decoding is the lookup of the last attribute of each kind -----

  predicate Acceptable(family: byte, a: Attr) {
    var kind := a.Kind();
    && (kind == FRA_DST || kind == FRA_SRC ==> a.Holds(AddrSize(family)))
    && (kind == FRA_FWMARK || kind == FRA_FWMASK || kind == FRA_PRIORITY ==> a.Holds(4))
    && (kind == FRA_OIFNAME || kind == FRA_IIFNAME ==> a.IsString())
  }

  /** The attributes a rule is read from. */
  datatype Found = Found(
    dst: Option<Attr>, src: Option<Attr>, fwmark: Option<Attr>, fwmask: Option<Attr>,
    priority: Option<Attr>, oif: Option<Attr>, iif: Option<Attr>)

  function Find(attrs: seq<Attr>): Found {
    Found(Last(attrs, FRA_DST), Last(attrs, FRA_SRC), Last(attrs, FRA_FWMARK), Last(attrs, FRA_FWMASK),
          Last(attrs, FRA_PRIORITY), Last(attrs, FRA_OIFNAME), Last(attrs, FRA_IIFNAME))
  }

  /** Whether the message sets property k. */
  ghost predicate Given(f: Found, k: nat) {
    if k == DST || k == DST_PREFIX then f.dst.Some?
    else if k == SRC || k == SRC_PREFIX then f.src.Some?
    else if k == FWMARK then f.fwmark.Some?
    else if k == FWMASK then f.fwmask.Some?
    else if k == PRIORITY then f.priority.Some?
    else if k == OIFNAME then f.oif.Some?
    else if k == IIFNAME then f.iif.Some?
    else k < MAX
  }

  ghost function AddrFrom(found: Option<Attr>): InetAddr {
    if found.Some? then LoadAddr(found.value.data) else NO_ADDR
  }

  ghost function U32From(found: Option<Attr>): u32 {
    if found.Some? && found.value.Holds(4) then found.value.U32() else 0
  }

  ghost function NameFrom(found: Option<Attr>): Option<ifname> {
    if found.Some? then Some(Truncate(found.value.Str(), IF_NAMESIZE - 1)) else None
  }

  ghost function RuleFrom(h: FibRuleHdr, f: Found): Rule {
    NewRule(h).(
      props := (set k: nat | k < MAX && Given(f, k)),
      dst := AddrFrom(f.dst), dstPrefix := if f.dst.Some? then h.dstLen else 0,
      src := AddrFrom(f.src), srcPrefix := if f.src.Some? then h.srcLen else 0,
      fwmark := U32From(f.fwmark), fwmask := U32From(f.fwmask), priority := U32From(f.priority),
      oifName := NameFrom(f.oif), iifName := NameFrom(f.iif))
  }

  /** The simple reading of a message: no loop over records, no order among kinds. */
  ghost function Lookup(h: FibRuleHdr, attrs: seq<Attr>): Option<Rule> {
    if exists a | a in attrs :: !Acceptable(h.family, a) then None else Some(RuleFrom(h, Find(attrs)))
  }

  ghost function Replace(f: Found, a: Attr): Found {
    var kind := a.Kind();
    if kind == FRA_DST then f.(dst := Some(a))
    else if kind == FRA_SRC then f.(src := Some(a))
    else if kind == FRA_FWMARK then f.(fwmark := Some(a))
    else if kind == FRA_FWMASK then f.(fwmask := Some(a))
    else if kind == FRA_PRIORITY then f.(priority := Some(a))
    else if kind == FRA_OIFNAME then f.(oif := Some(a))
    else if kind == FRA_IIFNAME then f.(iif := Some(a))
    else f
  }

  lemma FindSnoc(attrs: seq<Attr>, a: Attr)
    ensures Find(attrs + [a]) == Replace(Find(attrs), a)
  {
    LastSnoc(attrs, a, OfKind(FRA_DST));
    LastSnoc(attrs, a, OfKind(FRA_SRC));
    LastSnoc(attrs, a, OfKind(FRA_FWMARK));
    LastSnoc(attrs, a, OfKind(FRA_FWMASK));
    LastSnoc(attrs, a, OfKind(FRA_PRIORITY));
    LastSnoc(attrs, a, OfKind(FRA_OIFNAME));
    LastSnoc(attrs, a, OfKind(FRA_IIFNAME));
  }

  /** The properties an attribute sets. */
  function PropsOf(a: Attr): set<nat> {
    var kind := a.Kind();
    if kind == FRA_DST then {DST, DST_PREFIX}
    else if kind == FRA_SRC then {SRC, SRC_PREFIX}
    else if kind == FRA_FWMARK then {FWMARK}
    else if kind == FRA_FWMASK then {FWMASK}
    else if kind == FRA_PRIORITY then {PRIORITY}
    else if kind == FRA_OIFNAME then {OIFNAME}
    else if kind == FRA_IIFNAME then {IIFNAME}
    else {}
  }

  lemma GivenReplaced(f: Found, a: Attr, k: nat)
    requires k < MAX
    ensures Given(Replace(f, a), k) <==> Given(f, k) || k in PropsOf(a)
  {
  }

  lemma PropsReplaced(h: FibRuleHdr, f: Found, a: Attr)
    ensures RuleFrom(h, Replace(f, a)).props == RuleFrom(h, f).props + PropsOf(a)
  {
    forall k: nat | k < MAX {
      GivenReplaced(f, a, k);
    }
  }

  lemma AddrStepReplaces(h: FibRuleHdr, f: Found, a: Attr)
    requires IpFamily(h.family) && (a.Kind() == FRA_DST || a.Kind() == FRA_SRC)
    ensures Step(h, RuleFrom(h, f), a)
      == if Acceptable(h.family, a) then Some(RuleFrom(h, Replace(f, a))) else None
  {
    PropsReplaced(h, f, a);
    var p := RuleFrom(h, f).props;
    assert p + {DST} + {DST_PREFIX} == p + {DST, DST_PREFIX};
    assert p + {SRC} + {SRC_PREFIX} == p + {SRC, SRC_PREFIX};
  }

  lemma NameStepReplaces(h: FibRuleHdr, f: Found, a: Attr)
    requires a.Kind() == FRA_OIFNAME || a.Kind() == FRA_IIFNAME
    ensures Step(h, RuleFrom(h, f), a)
      == if Acceptable(h.family, a) then Some(RuleFrom(h, Replace(f, a))) else None
  {
    PropsReplaced(h, f, a);
  }

  lemma U32StepReplaces(h: FibRuleHdr, f: Found, a: Attr)
    requires a.Kind() == FRA_FWMARK || a.Kind() == FRA_FWMASK || a.Kind() == FRA_PRIORITY
    ensures Step(h, RuleFrom(h, f), a)
      == if Acceptable(h.family, a) then Some(RuleFrom(h, Replace(f, a))) else None
  {
    PropsReplaced(h, f, a);
  }

  /** An acceptable attribute replaces what is known of its property and nothing else. */
  lemma StepReplaces(h: FibRuleHdr, f: Found, a: Attr)
    requires IpFamily(h.family)
    ensures Step(h, RuleFrom(h, f), a)
      == if Acceptable(h.family, a) then Some(RuleFrom(h, Replace(f, a))) else None
  {
    var kind := a.Kind();
    if kind == FRA_DST || kind == FRA_SRC {
      AddrStepReplaces(h, f, a);
    } else if kind == FRA_OIFNAME || kind == FRA_IIFNAME {
      NameStepReplaces(h, f, a);
    } else if kind == FRA_FWMARK || kind == FRA_FWMASK || kind == FRA_PRIORITY {
      U32StepReplaces(h, f, a);
    }
  }

  lemma {:induction false} FoldIsLookup(h: FibRuleHdr, attrs: seq<Attr>)
    requires IpFamily(h.family)
    ensures Fold(NewRule(h), attrs, Steps(h)) == Lookup(h, attrs)
    decreases |attrs|
  {
    if attrs != [] {
      var n := |attrs| - 1;
      var init, a := attrs[..n], attrs[n];
      assert attrs == init + [a];
      FoldIsLookup(h, init);
      FoldSnoc(NewRule(h), init, a, Steps(h));
      FindSnoc(init, a);
      StepReplaces(h, Find(init), a);
      assert forall x :: x in attrs <==> x in init || x == a;
    } else {
      assert RuleFrom(h, Find(attrs)).props == HEADER_PROPS;
    }
  }

  /** The decoder's loop is the lookup, failures included. */
  lemma DecodeIsLookup(p: Packet)
    requires IsRuleType(p.nlType) && Readable(p) && IpFamily(p.body.tmpl.frh.family)
    ensures Decode(p) == var r := Lookup(p.body.tmpl.frh, Parse(p.body.attrs));
                         if r.None? then Rejected else Accepted(r.value)
  {
    FoldIsLookup(p.body.tmpl.frh, Parse(p.body.attrs));
  }

  lemma FindPermuted(a: seq<Attr>, b: seq<Attr>)
    requires DistinctKinds(a) && multiset(a) == multiset(b)
    ensures Find(a) == Find(b)
  {
    LastPermuted(a, b, FRA_DST, OfKind(FRA_DST));
    LastPermuted(a, b, FRA_SRC, OfKind(FRA_SRC));
    LastPermuted(a, b, FRA_FWMARK, OfKind(FRA_FWMARK));
    LastPermuted(a, b, FRA_FWMASK, OfKind(FRA_FWMASK));
    LastPermuted(a, b, FRA_PRIORITY, OfKind(FRA_PRIORITY));
    LastPermuted(a, b, FRA_OIFNAME, OfKind(FRA_OIFNAME));
    LastPermuted(a, b, FRA_IIFNAME, OfKind(FRA_IIFNAME));
  }

  /** Attributes of pairwise different kinds may come in any order. */
  lemma DecodeIgnoresOrder(nlType: u16, h: FibRuleHdr, a: seq<Attr>, b: seq<Attr>)
    requires IsRuleType(nlType)
    requires DistinctKinds(a) && multiset(a) == multiset(b)
    ensures Decode(Packet(nlType, false, Typed(RuleTemplate(h), EncodeAttrs(a))))
         == Decode(Packet(nlType, false, Typed(RuleTemplate(h), EncodeAttrs(b))))
  {
    ParseEncode(a);
    ParseEncode(b);
    if IpFamily(h.family) {
      FoldIsLookup(h, a);
      FoldIsLookup(h, b);
      FindPermuted(a, b);
      SameMembers(a, b);
    }
  }

  // ----- Round trip -----

  /** The attribute kind a property travels in; 0 when it has none. */
  function KindOf(k: nat): nat {
    if k == DST then FRA_DST
    else if k == SRC then FRA_SRC
    else if k == FWMARK then FRA_FWMARK
    else if k == FWMASK then FRA_FWMASK
    else if k == PRIORITY then FRA_PRIORITY
    else if k == OIFNAME then FRA_OIFNAME
    else if k == IIFNAME then FRA_IIFNAME
    else 0
  }

  lemma AttrHasKind(r: Rule, k: nat)
    ensures AttrOf(r, k).Some? ==> AttrOf(r, k).value.Kind() == KindOf(k) != 0
  {
  }

  lemma LastOfKind(r: Rule, k: nat)
    requires KindOf(k) != 0
    ensures Last(Emit(MAX, AttrsOf(r)), KindOf(k)) == AttrOf(r, k)
  {
    forall i: nat | AttrsOf(r)(i).Some?
      ensures AttrsOf(r)(i).value.Kind() == KindOf(k) <==> i == k
    {
      AttrHasKind(r, i);
    }
    LastEmitted(MAX, AttrsOf(r), OfKind(KindOf(k)), k);
  }

  /** What the decoder finds in what the encoder wrote. */
  function Emitted(r: Rule): Found {
    Found(AttrOf(r, DST), AttrOf(r, SRC), AttrOf(r, FWMARK), AttrOf(r, FWMASK),
          AttrOf(r, PRIORITY), AttrOf(r, OIFNAME), AttrOf(r, IIFNAME))
  }

  lemma FindEmitted(r: Rule)
    ensures Find(Emit(MAX, AttrsOf(r))) == Emitted(r)
  {
    LastOfKind(r, DST);
    LastOfKind(r, SRC);
    LastOfKind(r, FWMARK);
    LastOfKind(r, FWMASK);
    LastOfKind(r, PRIORITY);
    LastOfKind(r, OIFNAME);
    LastOfKind(r, IIFNAME);
  }

  /** An empty name is written as an attribute that no decoder takes. */
  predicate NameTravels(r: Rule, k: nat) {
    && (k == IIFNAME && k in r.props && r.iifName.Some? ==> r.iifName.value != [])
    && (k == OIFNAME && k in r.props && r.oifName.Some? ==> r.oifName.value != [])
  }

  predicate NamesTravel(r: Rule) {
    NameTravels(r, IIFNAME) && NameTravels(r, OIFNAME)
  }

  lemma AttrAcceptable(r: Rule, k: nat)
    requires AttrOf(r, k).Some?
    ensures Acceptable(r.family, AttrOf(r, k).value) <==> NameTravels(r, k)
  {
  }

  lemma EmittedAcceptable(r: Rule)
    ensures (forall a | a in Emit(MAX, AttrsOf(r)) :: Acceptable(r.family, a)) <==> NamesTravel(r)
  {
    EmitMembers(MAX, AttrsOf(r));
    forall k: nat | AttrsOf(r)(k).Some?
      ensures Acceptable(r.family, AttrsOf(r)(k).value) <==> NameTravels(r, k)
    {
      AttrAcceptable(r, k);
    }
    if !NameTravels(r, IIFNAME) {
      assert AttrsOf(r)(IIFNAME).value in Emit(MAX, AttrsOf(r));
    }
    if !NameTravels(r, OIFNAME) {
      assert AttrsOf(r)(OIFNAME).value in Emit(MAX, AttrsOf(r));
    }
  }

  ghost function Rebuilt(r: Rule): Rule {
    RuleFrom(Header(r, MAX), Emitted(r))
  }

  lemma DecodeEncode(r: Rule, nlType: u16)
    requires r.Sound() && IsRuleType(nlType)
    ensures Decode(Encode(r, nlType))
      == if FAMILY !in r.props then Skipped else if NamesTravel(r) then Accepted(Rebuilt(r)) else Rejected
  {
    if FAMILY in r.props {
      ParseEncode(Emit(MAX, AttrsOf(r)));
      FindEmitted(r);
      EmittedAcceptable(r);
      FoldIsLookup(Header(r, MAX), Emit(MAX, AttrsOf(r)));
    }
  }

  lemma TruncateShort(s: ifname)
    ensures Truncate(CStr(s), IF_NAMESIZE - 1) == s
  {
    CStrOfCString(s);
  }

  /** A prefix length comes back only together with its address. */
  predicate PrefixTravels(r: Rule, k: nat) {
    && (k == SRC_PREFIX && k in r.props ==> SRC in r.props)
    && (k == DST_PREFIX && k in r.props ==> DST in r.props)
  }

  lemma NumbersAgree(r: Rule, k: nat)
    requires r.Consistent() && FAMILY in r.props && k in r.props
    requires k == FWMARK || k == FWMASK || k == PRIORITY || k == OIFNAME || k == IIFNAME
    ensures Agree(Rebuilt(r), r, k)
  {
    LE4RoundTrip(r.fwmark);
    LE4RoundTrip(r.fwmask);
    LE4RoundTrip(r.priority);
    if k == OIFNAME {
      TruncateShort(r.oifName.value);
    }
    if k == IIFNAME {
      TruncateShort(r.iifName.value);
    }
  }

  lemma RebuiltAgrees(r: Rule, k: nat)
    requires r.Consistent() && FAMILY in r.props && k in r.props
    ensures Agree(Rebuilt(r), r, k) <==> PrefixTravels(r, k)
  {
    if k == FWMARK || k == FWMASK || k == PRIORITY || k == OIFNAME || k == IIFNAME {
      NumbersAgree(r, k);
    } else {
      LoadOfPrefix(r.family, r.src);
      LoadOfPrefix(r.family, r.dst);
    }
  }

  /**
   * What a rule encodes to is accepted exactly when its family is set and its names are
   * not empty; what is accepted matches exactly when each prefix length has its address.
   */
  lemma RoundTrip(r: Rule, nlType: u16)
    requires r.Sound() && IsRuleType(nlType)
    ensures Decode(Encode(r, nlType)).Accepted? <==> FAMILY in r.props && NamesTravel(r)
    ensures FAMILY in r.props && NamesTravel(r) ==>
      (MatchCode(Decode(Encode(r, nlType)).record, r) == 0
       <==> PrefixTravels(r, SRC_PREFIX) && PrefixTravels(r, DST_PREFIX))
  {
    DecodeEncode(r, nlType);
    if FAMILY in r.props && NamesTravel(r) {
      forall k | k in r.props
        ensures Agreement(Rebuilt(r), r)(k) <==> PrefixTravels(r, k)
      {
        RebuiltAgrees(r, k);
      }
    }
  }

  // ----- Normal form -----

  lemma FromConsistent(h: FibRuleHdr, f: Found)
    requires IpFamily(h.family)
    ensures var r := RuleFrom(h, f);
      r.Consistent() && HEADER_PROPS <= r.props
      && (SRC_PREFIX in r.props <==> SRC in r.props) && (DST_PREFIX in r.props <==> DST in r.props)
  {
  }

  /** Every record the decoder delivers satisfies what the setters keep, and has prefix lengths for its addresses. */
  lemma DecodedConsistent(p: Packet)
    requires Readable(p) && Decode(p).Accepted?
    ensures Decode(p).record.Consistent() && HEADER_PROPS <= Decode(p).record.props
    ensures var r := Decode(p).record;
      (SRC_PREFIX in r.props <==> SRC in r.props) && (DST_PREFIX in r.props <==> DST in r.props)
  {
    var h, attrs := p.body.tmpl.frh, Parse(p.body.attrs);
    FoldIsLookup(h, attrs);
    FromConsistent(h, Find(attrs));
  }

  lemma RebuiltProps(q: Rule, k: nat)
    requires HEADER_PROPS <= q.props && q.Consistent() && k < MAX
    requires (SRC_PREFIX in q.props <==> SRC in q.props) && (DST_PREFIX in q.props <==> DST in q.props)
    ensures k in Rebuilt(q).props <==> k in q.props
  {
  }

  /**
   * What a delivered record encodes to is accepted exactly when its names are not empty,
   * and decodes to the same record, property by property.
   */
  lemma NormalForm(p: Packet, nlType: u16, all: set<nat>)
    requires Readable(p) && Decode(p).Accepted? && IsRuleType(nlType)
    ensures var q := Decode(p).record;
      var again := Decode(Encode(q, nlType));
      (again.Accepted? <==> NamesTravel(q)) && (again.Accepted? ==> CompareCode(again.record, q, all) == 0)
  {
    DecodedConsistent(p);
    var q := Decode(p).record;
    DecodeEncode(q, nlType);
    forall k | 0 <= k < MAX && k in all
      ensures Agreement(Rebuilt(q), q)(k)
    {
      RebuiltProps(q, k);
      if k in q.props {
        RebuiltAgrees(q, k);
      }
    }
  }

  // ----- The message, byte by byte -----

  function NameBlock(kind: byte, name: Option<ifname>): bytes {
    if name.Some? then Block(kind, name.value) else []
  }

  /** The attribute of a property: its length, its type, its value. */
  function BlockOf(r: Rule, k: nat): bytes {
    if k !in r.props then []
    else if k == PRIORITY then [8, 0, 6, 0] + Bytes4(r.priority)
    else if k == FWMARK then [8, 0, 10, 0] + Bytes4(r.fwmark)
    else if k == FWMASK then [8, 0, 16, 0] + Bytes4(r.fwmask)
    else if k == SRC then AddressBlock(2, r.family, r.src)
    else if k == DST then AddressBlock(1, r.family, r.dst)
    else if k == IIFNAME then NameBlock(3, r.iifName)
    else if k == OIFNAME then NameBlock(17, r.oifName)
    else []
  }

  lemma AttrIsBlock(r: Rule, k: nat)
    ensures BlockOf(r, k) == if AttrOf(r, k).Some? then EncodeAttr(AttrOf(r, k).value) else []
  {
    if AttrOf(r, k).Some? {
      EncodedIsBlock(AttrOf(r, k).value);
      LowByteFirst(0, r.priority);
      LowByteFirst(0, r.fwmark);
      LowByteFirst(0, r.fwmask);
      hide EncodeAttr, LE4;
    }
  }

  /** What the getters give is what is sent: in the struct, or as one attribute each, in property order. */
  lemma Sent(r: Rule, nlType: u16)
    ensures var m := Encode(r, nlType).body.tmpl.frh;
      && m.family == NumberOr0(r.Get(FAMILY)) && m.table == NumberOr0(r.Get(TABLE))
      && m.tos == NumberOr0(r.Get(TOS)) && m.action == NumberOr0(r.Get(ACTION))
      && m.srcLen == NumberOr0(r.Get(SRC_PREFIX)) && m.dstLen == NumberOr0(r.Get(DST_PREFIX))
    ensures Encode(r, nlType).nlType == nlType
    ensures Encode(r, nlType).body.attrs == Blocks(MAX, (k: nat) => BlockOf(r, k))
  {
    forall k: nat {
      AttrIsBlock(r, k);
    }
    hide EncodeAttr, BlockOf, AttrOf;
    EmittedIsBlocks(MAX, AttrsOf(r), (k: nat) => BlockOf(r, k));
  }

  /** What the lookup finds in an acceptable message is long enough. */
  predicate LongEnough(family: byte, f: Found) {
    && (f.priority.Some? ==> f.priority.value.Holds(4)) && (f.fwmark.Some? ==> f.fwmark.value.Holds(4))
    && (f.fwmask.Some? ==> f.fwmask.value.Holds(4)) && (f.src.Some? ==> f.src.value.Holds(AddrSize(family)))
    && (f.dst.Some? ==> f.dst.value.Holds(AddrSize(family)))
  }

  lemma AcceptedFound(family: byte, attrs: seq<Attr>)
    requires forall a | a in attrs :: Acceptable(family, a)
    ensures LongEnough(family, Find(attrs))
  {
    LastIsMember(attrs, OfKind(FRA_DST));
    LastIsMember(attrs, OfKind(FRA_SRC));
    LastIsMember(attrs, OfKind(FRA_PRIORITY));
    LastIsMember(attrs, OfKind(FRA_FWMARK));
    LastIsMember(attrs, OfKind(FRA_FWMASK));
  }

  lemma FoundNumbers(h: FibRuleHdr, f: Found)
    requires IpFamily(h.family) && LongEnough(h.family, f)
    ensures var q := RuleFrom(h, f);
      && q.Get(FAMILY) == Some(Number(h.family)) && q.Get(TABLE) == Some(Number(h.table))
      && q.Get(TOS) == Some(Number(h.tos)) && q.Get(ACTION) == Some(Number(h.action))
      && q.Get(SRC_PREFIX) == (if f.src.Some? then Some(Number(h.srcLen)) else None)
      && q.Get(DST_PREFIX) == (if f.dst.Some? then Some(Number(h.dstLen)) else None)
      && q.Get(PRIORITY) == NumberIn(f.priority)
      && q.Get(FWMARK) == NumberIn(f.fwmark) && q.Get(FWMASK) == NumberIn(f.fwmask)
  {
    hide Truncate, LoadAddr;
  }

  lemma FoundNames(h: FibRuleHdr, f: Found)
    ensures RuleFrom(h, f).Get(IIFNAME) == TextIn(f.iif, 15) && RuleFrom(h, f).Get(OIFNAME) == TextIn(f.oif, 15)
  {
    hide LoadAddr, FromLE4, CStr;
  }

  lemma FoundAddress(h: FibRuleHdr, f: Found, k: nat, found: Option<Attr>)
    requires IpFamily(h.family) && LongEnough(h.family, f)
    requires (k == SRC && found == f.src) || (k == DST && found == f.dst)
    ensures Cut(RuleFrom(h, f).Get(k), Width(h.family)) == BytesIn(found, Width(h.family))
  {
    if found.Some? {
      Loaded(found.value.data, Width(h.family));
    }
    hide LoadAddr, FromLE4, FromLE2, Truncate, CStr;
  }

  /**
   * What is received is what the getters give: from the struct, or from the last attribute
   * of its type; prefix lengths together with their address.
   */
  lemma Delivered(p: Packet)
    requires Readable(p) && Decode(p).Accepted?
    ensures var q, h, attrs := Decode(p).record, p.body.tmpl.frh, Parse(p.body.attrs);
      && q.Get(FAMILY) == Some(Number(h.family)) && q.Get(TABLE) == Some(Number(h.table))
      && q.Get(TOS) == Some(Number(h.tos)) && q.Get(ACTION) == Some(Number(h.action))
      && q.Get(SRC_PREFIX) == (if Last(attrs, FRA_SRC).Some? then Some(Number(h.srcLen)) else None)
      && q.Get(DST_PREFIX) == (if Last(attrs, FRA_DST).Some? then Some(Number(h.dstLen)) else None)
      && q.Get(PRIORITY) == NumberIn(Last(attrs, FRA_PRIORITY))
      && q.Get(FWMARK) == NumberIn(Last(attrs, FRA_FWMARK)) && q.Get(FWMASK) == NumberIn(Last(attrs, FRA_FWMASK))
      && q.Get(IIFNAME) == TextIn(Last(attrs, FRA_IIFNAME), 15)
      && q.Get(OIFNAME) == TextIn(Last(attrs, FRA_OIFNAME), 15)
    ensures var q, attrs, n := Decode(p).record, Parse(p.body.attrs), Width(p.body.tmpl.frh.family);
      && Cut(q.Get(SRC), n) == BytesIn(Last(attrs, FRA_SRC), n)
      && Cut(q.Get(DST), n) == BytesIn(Last(attrs, FRA_DST), n)
  {
    var h, attrs := p.body.tmpl.frh, Parse(p.body.attrs);
    DecodeIsLookup(p);
    AcceptedFound(h.family, attrs);
    hide Decode, Parse, Last, LastWhere, Acceptable, LongEnough, RuleFrom;
    var f := Find(attrs);
    FoundNumbers(h, f);
    FoundNames(h, f);
    FoundAddress(h, f, SRC, f.src);
    FoundAddress(h, f, DST, f.dst);
  }

  /** What the decoder passes over, and what it refuses. */
  lemma Refused(p: Packet)
    requires IsRuleType(p.nlType) && Readable(p)
    ensures var family, attrs := p.body.tmpl.frh.family, Parse(p.body.attrs);
      && (Decode(p).Skipped? <==> family != AF_INET && family != AF_INET6)
      && (Decode(p).Rejected? <==>
            && (family == AF_INET || family == AF_INET6)
            && exists a | a in attrs ::
                 || (a.Kind() in {FRA_DST, FRA_SRC} && |a.data| < Width(family))
                 || (a.Kind() in {FRA_PRIORITY, FRA_FWMARK, FRA_FWMASK} && |a.data| < 4)
                 || (a.Kind() in {FRA_IIFNAME, FRA_OIFNAME} && a.data == []))
  {
    if IpFamily(p.body.tmpl.frh.family) {
      DecodeIsLookup(p);
    }
  }

  lemma AttrFits(r: Rule)
    ensures forall k: nat | AttrsOf(r)(k).Some? :: Align(AttrsOf(r)(k).value.NlaLen()) <= 20
  {
  }

  // ----- Rules that do not come back -----

  lemma RunTwo(a: Op, b: Op)
    ensures Run([a] + [b]) ==
      var r := if Apply(NEW, a).Some? then Apply(NEW, a).value else NEW;
      if Apply(r, b).Some? then Apply(r, b).value else r
  {
    assert [a][..0] == [] && Run([]) == NEW;
    assert Run([a]) == if Apply(NEW, a).Some? then Apply(NEW, a).value else NEW;
    assert ([a] + [b])[..1] == [a] && ([a] + [b])[1] == b;
  }

  /** An empty input interface name is refused by the decoder. */
  lemma EmptyNameRefused(nlType: u16) returns (r: Rule)
    requires IsRuleType(nlType)
    ensures r == Run([Family(AF_INET)] + [IifName([])]) && IIFNAME in r.props
    ensures Decode(Encode(r, nlType)) == Rejected
  {
    r := Run([Family(AF_INET)] + [IifName([])]);
    RunTwo(Family(AF_INET), IifName([]));
    RunConsistent([Family(AF_INET)] + [IifName([])]);
    hide Decode, Encode;
    DecodeEncode(r, nlType);
  }

  /** A source prefix length without a source does not come back. */
  lemma PrefixAloneLost(nlType: u16) returns (r: Rule)
    requires IsRuleType(nlType)
    ensures r == Run([Family(AF_INET)] + [U8(SRC_PREFIX, 24)]) && Decode(Encode(r, nlType)).Accepted?
    ensures SRC_PREFIX !in Decode(Encode(r, nlType)).record.props
    ensures MatchCode(Decode(Encode(r, nlType)).record, r) == SRC_PREFIX + 1
  {
    r := Run([Family(AF_INET)] + [U8(SRC_PREFIX, 24)]);
    RunTwo(Family(AF_INET), U8(SRC_PREFIX, 24));
    RunConsistent([Family(AF_INET)] + [U8(SRC_PREFIX, 24)]);
    hide Decode, Encode;
    DecodeEncode(r, nlType);
    RebuiltAgrees(r, FAMILY);
    RebuiltAgrees(r, SRC_PREFIX);
    hide Rebuilt;
    assert r.props == {FAMILY, SRC_PREFIX};
    assert Agreement(Rebuilt(r), r)(FAMILY) && !Agreement(Rebuilt(r), r)(SRC_PREFIX);
  }
}
