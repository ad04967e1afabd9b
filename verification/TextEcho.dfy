/** The echo law with texts as the code reads them: which records come back whatever lies behind their messages. */
module TextEcho {
  import opened Wire
  import opened Tlv
  import opened NlMessage
  import opened Request
  import opened Exchange
  import opened Texts
  import Link
  import LinkData
  import LinkLookup
  import LinkNest
  import LinkRoundTrip
  import Addr
  import AddrData
  import Rule
  import RuleData
  import Route
  import RouteData
  import Policy
  import PolicyData

  /** Written as an attribute, the text is followed by padding, or refused for being empty. */
  predicate NameEnds(s: cstring) {
    s == [] || |s| % 4 != 0
  }

  /** What a sender can check to know that its texts are read as it wrote them. */
  predicate TextsEnd(r: Record) {
    match r
    case OfLink(l) =>
      && (Link.NAME in l.props ==> NameEnds(l.name))
      && (Link.INFO in l.props && l.info.kind < Link.KIND_MAX ==> NameEnds(LinkData.KindName(l.info.kind)))
    case OfAddr(a) => Addr.LABEL in a.props && a.ifLabel.Some? ==> NameEnds(a.ifLabel.value)
    case OfRule(x) =>
      && (Rule.IIFNAME in x.props && x.iifName.Some? ==> NameEnds(x.iifName.value))
      && (Rule.OIFNAME in x.props && x.oifName.Some? ==> NameEnds(x.oifName.value))
    case _ => true
  }

  /** Of the kinds, only bridges and TUN devices have a name that ends. */
  lemma KindsThatEnd(kind: nat)
    requires kind < Link.KIND_MAX
    ensures NameEnds(LinkData.KindName(kind)) <==> kind == Link.KIND_BR || kind == Link.KIND_TUN
  {
  }

  // ----- Records whose texts end -----

  lemma LinkInfoEnded(info: Link.Info)
    requires info.kind < Link.KIND_MAX && NameEnds(LinkData.KindName(info.kind))
    ensures KindsEnded(LinkData.LinkInfo(info))
  {
    ParseEncode(LinkData.InfoAttrs(info));
  }

  lemma LinkTextsEnded(l: Link.Link, nlType: u16, k: nat)
    requires LinkData.IsLinkType(nlType) && TextsEnd(OfLink(l)) && LinkData.AttrOf(l, k).Some?
    ensures TextsEnded(RtBus, nlType, LinkData.AttrOf(l, k).value)
  {
    LinkRoundTrip.AttrHasKind(l, k);
    if k == Link.INFO {
      LinkInfoEnded(l.info);
    }
  }

  lemma LinkAsWritten(nlType: u16, l: Link.Link, after: bytes)
    requires LinkData.IsLinkType(nlType) && TextsEnd(OfLink(l))
    ensures AsRead(RtBus, LinkData.Encode(l, nlType), after) == LinkData.Encode(l, nlType)
  {
    var emit := LinkData.AttrsOf(l);
    EmitMembers(Link.MAX, emit);
    forall k: nat | emit(k).Some? {
      LinkTextsEnded(l, nlType, k);
    }
    hide AsRead, TextsEnded, TextsEnd;
    ReadAsWritten(RtBus, LinkData.Encode(l, nlType), Emit(Link.MAX, emit), after);
  }

  lemma AddrTextsEnded(a: Addr.Addr, nlType: u16, k: nat)
    requires AddrData.IsAddrType(nlType) && TextsEnd(OfAddr(a)) && AddrData.AttrOf(a, k).Some?
    ensures TextsEnded(RtBus, nlType, AddrData.AttrOf(a, k).value)
  {
    AddrData.AttrHasKind(a, k);
  }

  lemma AddrAsWritten(nlType: u16, a: Addr.Addr, after: bytes)
    requires AddrData.IsAddrType(nlType) && TextsEnd(OfAddr(a))
    ensures AsRead(RtBus, AddrData.Encode(a, nlType), after) == AddrData.Encode(a, nlType)
  {
    hide AsRead, TextsEnded, TextsEnd, AddrData.AttrOf, EncodeAttrs, Emit;
    var emit := AddrData.AttrsOf(a);
    EmitMembers(Addr.MAX, emit);
    forall k: nat | emit(k).Some? {
      AddrTextsEnded(a, nlType, k);
    }
    ReadAsWritten(RtBus, AddrData.Encode(a, nlType), Emit(Addr.MAX, emit), after);
  }

  lemma RuleTextsEnded(r: Rule.Rule, nlType: u16, k: nat)
    requires RuleData.IsRuleType(nlType) && TextsEnd(OfRule(r)) && RuleData.AttrOf(r, k).Some?
    ensures TextsEnded(RtBus, nlType, RuleData.AttrOf(r, k).value)
  {
    RuleData.AttrHasKind(r, k);
  }

  lemma RuleAsWritten(nlType: u16, r: Rule.Rule, after: bytes)
    requires RuleData.IsRuleType(nlType) && TextsEnd(OfRule(r))
    ensures AsRead(RtBus, RuleData.Encode(r, nlType), after) == RuleData.Encode(r, nlType)
  {
    hide AsRead, TextsEnded, TextsEnd, RuleData.AttrOf, EncodeAttrs, Emit;
    var emit := RuleData.AttrsOf(r);
    EmitMembers(Rule.MAX, emit);
    forall k: nat | emit(k).Some? {
      RuleTextsEnded(r, nlType, k);
    }
    ReadAsWritten(RtBus, RuleData.Encode(r, nlType), Emit(Rule.MAX, emit), after);
  }

  lemma TextlessAsWritten(bus: Bus, p: Packet, n: nat, emit: nat -> Option<Attr>, after: bytes)
    requires p.body.Typed? && p.body.attrs == EncodeAttrs(Emit(n, emit))
    requires bus.XfrmBus? || RouteData.IsRouteType(p.nlType)
    ensures AsRead(bus, p, after) == p
  {
    hide AsRead;
    ReadAsWritten(bus, p, Emit(n, emit), after);
  }

  /** A record whose texts end is read as it was written, whatever follows its message. */
  lemma EncodedAsWritten(bus: Bus, e: Entry, after: bytes)
    requires Sendable(bus, e) && TextsEnd(e.record)
    ensures AsRead(bus, Encode(bus, e), after) == Encode(bus, e)
  {
    hide AsRead, TextsEnd;
    match e.record
    case OfLink(l) => LinkAsWritten(e.nlType, l, after);
    case OfAddr(a) => AddrAsWritten(e.nlType, a, after);
    case OfRule(r) => RuleAsWritten(e.nlType, r, after);
    case OfRoute(r) => TextlessAsWritten(bus, Encode(bus, e), Route.MAX, RouteData.AttrsOf(r), after);
    case OfPolicy(p) => TextlessAsWritten(bus, Encode(bus, e), Policy.MAX, PolicyData.AttrsOf(p), after);
  }

  // ----- Records whose texts do not -----

  /** What follows a message when it is not a NUL. */
  predicate Runs(after: bytes) {
    after != [] && after[0] != 0
  }

  /** An attribute whose payload is longer than the name it starts with, and is read as it is. */
  ghost predicate Longer(x: Attr, name: cstring) {
    |name| < |x.data| <= IF_NAMESIZE && name <= x.data && 0 !in x.data && x.Str() == x.data
  }

  /** A name that does not end is read together with what comes behind it. */
  lemma Overrun(attrs: seq<Attr>, i: nat, after: bytes)
    requires i < |attrs| && forall a | a in attrs :: a.NlaLen() < 0x100
    requires var s := attrs[i].data; 0 !in s && |s| < IF_NAMESIZE && !NameEnds(s)
    requires i + 1 < |attrs| || Runs(after)
    ensures var x := Extended(attrs[i], Beyond(attrs, i, after));
      Longer(x, attrs[i].data) && x.wire == attrs[i].wire
  {
    FirstBeyond(attrs, i, after);
    ExtendedSame(attrs[i], Beyond(attrs, i, after));
  }

  /** The code looks at attributes of the kind as texts, and takes none for another kind. */
  ghost predicate ReadsTexts(see: (Attr, bytes) -> Attr, kind: nat) {
    forall a: Attr, b: bytes :: see(a, b).Kind() == a.Kind() && (a.Kind() == kind ==> see(a, b) == Extended(a, b))
  }

  lemma SeenText(see: (Attr, bytes) -> Attr, kind: nat, a: Attr, b: bytes)
    requires ReadsTexts(see, kind)
    ensures see(a, b).Kind() == a.Kind() && (a.Kind() == kind ==> see(a, b) == Extended(a, b))
  {
  }

  /** Property k alone emits the kind, and no attribute is so long that its length ends in a NUL. */
  ghost predicate OnlyFrom(emit: nat -> Option<Attr>, k: nat, kind: nat) {
    forall j: nat | emit(j).Some? :: emit(j).value.NlaLen() < 0x100 && (emit(j).value.Kind() == kind <==> j == k)
  }

  lemma ElementRuns(
    n: nat, emit: nat -> Option<Attr>, after: bytes, see: (Attr, bytes) -> Attr, k: nat, kind: nat, i: nat
  )
    requires OnlyFrom(emit, k, kind) && ReadsTexts(see, kind) && Runs(after)
    requires k < n && emit(k).Some?
    requires var s := emit(k).value.data; 0 !in s && |s| < IF_NAMESIZE && !NameEnds(s)
    requires i < |Emit(n, emit)|
    ensures var attrs := Emit(n, emit);
      var x := see(attrs[i], Beyond(attrs, i, after));
      && (attrs[i] == emit(k).value ==> x.Kind() == kind)
      && (x.Kind() == kind ==> Longer(x, emit(k).value.data))
  {
    var attrs := Emit(n, emit);
    SeenText(see, kind, attrs[i], Beyond(attrs, i, after));
    EmitMembers(n, emit);
    hide ReadsTexts, Emit, Longer, Extended, Beyond, NameEnds;
    forall a | a in attrs
      ensures a.NlaLen() < 0x100 && (a.Kind() == kind ==> a == emit(k).value)
    {
    }
    assert attrs[i] in attrs;
    if attrs[i].Kind() == kind {
      Overrun(attrs, i, after);
    }
  }

  /**
   * When property k emits the only attribute of its kind, with a name that does not end,
   * the last attribute of that kind the code sees holds a longer name.
   */
  lemma LastRuns(n: nat, emit: nat -> Option<Attr>, after: bytes, see: (Attr, bytes) -> Attr, k: nat, kind: nat)
    requires OnlyFrom(emit, k, kind) && ReadsTexts(see, kind) && Runs(after)
    requires k < n && emit(k).Some?
    requires var s := emit(k).value.data; 0 !in s && |s| < IF_NAMESIZE && !NameEnds(s)
    ensures var found := Last(Seen(EncodeAttrs(Emit(n, emit)), after, see), kind);
      found.Some? && Longer(found.value, emit(k).value.data)
  {
    var attrs := Emit(n, emit);
    var seen := Seen(EncodeAttrs(attrs), after, see);
    SeenAt(attrs, after, see);
    EmitMembers(n, emit);
    LastIsMember(seen, OfKind(kind));
    hide OnlyFrom, ReadsTexts, Emit, EncodeAttrs, Seen, Beyond, Longer, NameEnds;
    assert emit(k).value in attrs;
    var at: nat :| at < |attrs| && attrs[at] == emit(k).value;
    ElementRuns(n, emit, after, see, k, kind, at);
    assert seen[at] in seen && OfKind(kind)(seen[at]);
    var i: nat :| i < |seen| && seen[i] == Last(seen, kind).value;
    ElementRuns(n, emit, after, see, k, kind, i);
  }

  // ----- What comes back -----

  /** The record comes back from its message when the given bytes follow that in memory. */
  predicate Comes(bus: Bus, e: Entry, after: bytes)
    requires Sendable(bus, e)
  {
    EncodedReadable(bus, e);
    Echoes(Handle(bus, AsRead(bus, Encode(bus, e), after)), e)
  }

  lemma LinkComes(nlType: u16, l: Link.Link, after: bytes)
    requires LinkData.IsLinkType(nlType)
    ensures var d := LinkData.Decode(AsRead(RtBus, LinkData.Encode(l, nlType), after));
      Comes(RtBus, Entry(nlType, OfLink(l)), after) <==> d.Accepted? && Link.MatchCode(d.record, l) == 0
  {
    hide LinkData.Decode, AsRead, Link.MatchCode;
  }

  lemma AddrComes(nlType: u16, a: Addr.Addr, after: bytes)
    requires AddrData.IsAddrType(nlType)
    ensures var d := AddrData.Decode(AsRead(RtBus, AddrData.Encode(a, nlType), after));
      Comes(RtBus, Entry(nlType, OfAddr(a)), after) <==> d.Accepted? && Addr.MatchCode(d.record, a) == 0
  {
    hide AddrData.Decode, AsRead, Addr.MatchCode;
  }

  lemma RuleComes(nlType: u16, r: Rule.Rule, after: bytes)
    requires RuleData.IsRuleType(nlType)
    ensures var d := RuleData.Decode(AsRead(RtBus, RuleData.Encode(r, nlType), after));
      Comes(RtBus, Entry(nlType, OfRule(r)), after) <==> d.Accepted? && Rule.MatchCode(d.record, r) == 0
  {
    hide RuleData.Decode, AsRead, Rule.MatchCode;
  }

  // ----- Links -----

  /** The name of an attribute of a link is read longer than it was written. */
  lemma LinkNameLost(nlType: u16, l: Link.Link, after: bytes)
    requires LinkData.IsLinkType(nlType) && Link.NAME in l.props && !NameEnds(l.name) && Runs(after)
    ensures var d := LinkData.Decode(AsRead(RtBus, LinkData.Encode(l, nlType), after));
      d.Accepted? ==> Link.NAME in d.record.props && d.record.name != l.name
  {
    var emit := LinkData.AttrsOf(l);
    LinkData.AttrFits(l);
    forall j: nat | emit(j).Some?
      ensures emit(j).value.NlaLen() < 0x100
      ensures emit(j).value.Kind() == LinkData.IFLA_IFNAME <==> j == Link.NAME
    {
      LinkRoundTrip.AttrHasKind(l, j);
    }
    LastRuns(Link.MAX, emit, after, SeeLink, Link.NAME, LinkData.IFLA_IFNAME);
    var p := LinkData.Encode(l, nlType);
    AsReadParses(RtBus, p, after);
    LinkLookup.DecodeIsLookup(AsRead(RtBus, p, after));
  }

  lemma LongerIsNoKind(name: cstring, kind: nat)
    requires kind < Link.KIND_MAX && !NameEnds(LinkData.KindName(kind))
    requires |name| > |LinkData.KindName(kind)| && LinkData.KindName(kind) <= name
    ensures LinkData.KindOfName(name).None?
  {
    assert name[1] == LinkData.KindName(kind)[1] && LinkData.BRIDGE[1] == 114;
    assert LinkData.VLAN[1] == 108 && LinkData.BOND[1] == 111 && LinkData.XFRM[1] == 102;
    NoKindFrom(name, 0);
  }

  lemma {:induction false} NoKindFrom(name: cstring, i: nat)
    requires |name| > 4 && name != LinkData.BRIDGE
    ensures LinkData.KindFrom(name, i).None?
    decreases Link.KIND_MAX - i
  {
    if i < Link.KIND_MAX {
      NoKindFrom(name, i + 1);
    }
  }

  /** Of two attributes, a kind that does not end is read together with the length of the next one. */
  lemma KindSeen(a: Attr, b: Attr, after: bytes)
    requires a.Kind() == LinkData.IFLA_INFO_KIND && b.Kind() != LinkData.IFLA_INFO_KIND
    requires 0 !in a.data && |a.data| < IF_NAMESIZE && !NameEnds(a.data) && b.NlaLen() < 0x100
    ensures var seen := Seen(EncodeAttrs([a, b]), after, SeeKind);
      |seen| == 2 && seen[0].Kind() == LinkData.IFLA_INFO_KIND && Longer(seen[0], a.data) && seen[1] == b
  {
    SeenAt([a, b], after, SeeKind);
    Overrun([a, b], 0, after);
    hide Seen, Beyond, Longer, Extended, EncodeAttrs;
  }

  lemma UnknownKind(x: Attr, d: Attr)
    requires x.Kind() == LinkData.IFLA_INFO_KIND && x.IsString() && LinkData.KindOfName(x.Str()).None?
    ensures Fold(LinkData.Scanned(Link.NO_STATE, None, None), [x, d], LinkData.InfoStep)
      == Some(LinkData.Unknown(Link.NO_STATE))
  {
    FoldTwo(LinkData.Scanned(Link.NO_STATE, None, None), x, d, LinkData.InfoStep);
  }

  /** What is read as the kind names none, so that the nest says nothing. */
  lemma KindRunsOn(info: Link.Info, beyond: bytes)
    requires info.kind < Link.KIND_MAX && !NameEnds(LinkData.KindName(info.kind))
    ensures var a := SeeNest(LinkData.LinkInfo(info), beyond);
      a.Kind() == LinkData.IFLA_LINKINFO && LinkData.InfoAttr(Link.NO_STATE, a.data) == Some(Link.NO_STATE)
  {
    hide Seen, SeeNest, Fold, Parse, EncodeAttrs, LinkData.KindName, LinkData.InfoData, LinkData.KindOfName, NameEnds;
    LinkData.InfoDataSize(info);
    LinkData.InfoAttrsSize(info);
    var k, d := LinkData.InfoAttrs(info)[0], LinkData.InfoAttrs(info)[1];
    assert LinkData.InfoAttrs(info) == [k, d];
    NestRead(LinkData.LinkInfo(info), beyond);
    KindSeen(k, d, beyond);
    var seen := Seen(EncodeAttrs([k, d]), beyond, SeeKind);
    LongerIsNoKind(seen[0].data, info.kind);
    UnknownKind(seen[0], d);
    assert seen == [seen[0], d];
  }

  /** No attribute the code sees of such a link says anything about its kind. */
  lemma NothingOfKind(l: Link.Link, after: bytes, i: nat)
    requires Link.INFO in l.props && l.info.kind < Link.KIND_MAX && !NameEnds(LinkData.KindName(l.info.kind))
    requires i < |Emit(Link.MAX, LinkData.AttrsOf(l))|
    ensures var attrs := Emit(Link.MAX, LinkData.AttrsOf(l));
      var x := SeeLink(attrs[i], Beyond(attrs, i, after));
      && LinkLookup.InfoOnly(Link.NO_STATE, x) == Some(Link.NO_STATE)
      && (Link.NAME !in l.props ==> LinkLookup.Acceptable(x))
  {
    hide LinkNest.ReadNest;
    hide Emit, Beyond, SeeNest, Extended, LinkData.InfoAttr, LinkData.LinkInfo, LinkData.KindName, NameEnds;
    var attrs := Emit(Link.MAX, LinkData.AttrsOf(l));
    EmitMembers(Link.MAX, LinkData.AttrsOf(l));
    assert attrs[i] in attrs;
    var k: nat :| k < Link.MAX && LinkData.AttrsOf(l)(k) == Some(attrs[i]);
    LinkRoundTrip.AttrHasKind(l, k);
    if k == Link.INFO {
      var x := SeeLink(attrs[i], Beyond(attrs, i, after));
      KindRunsOn(l.info, Beyond(attrs, i, after));
      LinkNest.NestIsRead(Link.NO_STATE, x.data);
    } else {
      hide LinkData.AttrOf;
      assert attrs[i].Kind() != LinkData.IFLA_LINKINFO;
      ScalarSeen(attrs[i], Beyond(attrs, i, after));
    }
    LinkRoundTrip.AttrAcceptable(l, k);
  }

  lemma ScalarSeen(a: Attr, beyond: bytes)
    requires a.Kind() != LinkData.IFLA_LINKINFO
    ensures SeeLink(a, beyond).Kind() == a.Kind()
    ensures a.Kind() != LinkData.IFLA_IFNAME ==> SeeLink(a, beyond) == a
  {
    ExtendedReads(a, beyond);
  }

  /** A link of such a kind comes back without one, whatever follows its message. */
  lemma LinkKindLost(nlType: u16, l: Link.Link, after: bytes)
    requires LinkData.IsLinkType(nlType) && Link.INFO in l.props && l.info.kind < Link.KIND_MAX
    requires !NameEnds(LinkData.KindName(l.info.kind))
    ensures var d := LinkData.Decode(AsRead(RtBus, LinkData.Encode(l, nlType), after));
      (d.Accepted? ==> Link.INFO !in d.record.props) && (Link.NAME !in l.props ==> d.Accepted?)
  {
    var p := LinkData.Encode(l, nlType);
    var attrs := Emit(Link.MAX, LinkData.AttrsOf(l));
    var seen := Seen(EncodeAttrs(attrs), after, SeeLink);
    hide Emit, Seen, Beyond, SeeLink, EncodeAttrs, Parse, LinkData.Decode, LinkData.AttrOf, LinkLookup.InfoOnly;
    hide LinkLookup.Acceptable, AsRead, NameEnds, LinkData.KindName, Fold, Last;
    SeenAt(attrs, after, SeeLink);
    assert p.body.attrs == EncodeAttrs(attrs) && View(RtBus, nlType) == SeeLink;
    AsReadParses(RtBus, p, after);
    LinkLookup.DecodeIsLookup(AsRead(RtBus, p, after));
    forall x | x in seen
      ensures LinkLookup.InfoOnly(Link.NO_STATE, x) == Some(Link.NO_STATE)
      ensures Link.NAME !in l.props ==> LinkLookup.Acceptable(x)
    {
      var i: nat :| i < |seen| && seen[i] == x;
      NothingOfKind(l, after, i);
    }
    FoldIdle(Link.NO_STATE, seen, LinkLookup.InfoOnly);
  }

  /** Links whose name or kind does not end do not come back when a message is not followed by a NUL. */
  lemma LinkLost(nlType: u16, l: Link.Link, after: bytes)
    requires LinkData.IsLinkType(nlType) && !TextsEnd(OfLink(l)) && Runs(after)
    ensures !Comes(RtBus, Entry(nlType, OfLink(l)), after)
  {
    hide LinkData.Decode, AsRead, NameEnds, LinkData.KindName, Link.MatchCode, Comes;
    var q := AsRead(RtBus, LinkData.Encode(l, nlType), after);
    assert LinkData.Readable(q) && q.nlType == nlType;
    LinkComes(nlType, l, after);
    var d := LinkData.Decode(q);
    if Link.NAME in l.props && !NameEnds(l.name) {
      LinkNameLost(nlType, l, after);
    } else {
      LinkKindLost(nlType, l, after);
    }
    if d.Accepted? {
      Differ(d.record, l);
    }
  }

  lemma Differ(q: Link.Link, l: Link.Link)
    requires (Link.NAME in l.props && Link.NAME in q.props && q.name != l.name)
      || (Link.INFO in l.props && Link.INFO !in q.props)
    ensures Link.MatchCode(q, l) != 0
  {
    assert !Link.Agreement(q, l)(Link.NAME) || !Link.Agreement(q, l)(Link.INFO);
  }

  // ----- Addresses -----

  lemma LongerCut(name: cstring, x: Attr)
    requires Longer(x, name) && !NameEnds(name) && |name| < IF_NAMESIZE
    ensures Truncate(x.Str(), IF_NAMESIZE - 1) != name
  {
  }

  lemma LabelRead(q: Packet)
    requires AddrData.IsAddrType(q.nlType) && AddrData.Readable(q) && AddrData.Decode(q).Accepted?
    ensures var found := Last(Parse(q.body.attrs), AddrData.IFA_LABEL);
      var a := AddrData.Decode(q).record;
      found.Some? ==> Addr.LABEL in a.props && a.ifLabel == Some(Truncate(found.value.Str(), IF_NAMESIZE - 1))
  {
    assert IpFamily(q.body.tmpl.ifam.family);
    hide AddrData.Decode, Parse, Last, AddrData.Acceptable;
    AddrData.DecodeIsLookup(q);
  }

  lemma AddrLabelOnly(a: Addr.Addr)
    ensures OnlyFrom(AddrData.AttrsOf(a), Addr.LABEL, AddrData.IFA_LABEL)
    ensures ReadsTexts(SeeAddr, AddrData.IFA_LABEL)
  {
    var emit := AddrData.AttrsOf(a);
    AddrData.AttrFits(a);
    forall j: nat | emit(j).Some?
      ensures emit(j).value.NlaLen() < 0x100
      ensures emit(j).value.Kind() == AddrData.IFA_LABEL <==> j == Addr.LABEL
    {
      AddrData.AttrHasKind(a, j);
    }
  }

  lemma LabelRuns(nlType: u16, a: Addr.Addr, after: bytes)
    requires AddrData.IsAddrType(nlType) && !TextsEnd(OfAddr(a)) && Runs(after)
    ensures var found := Last(Parse(AsRead(RtBus, AddrData.Encode(a, nlType), after).body.attrs), AddrData.IFA_LABEL);
      found.Some? && Longer(found.value, a.ifLabel.value)
  {
    AddrLabelOnly(a);
    hide AsRead, Seen, Emit, Longer, OnlyFrom, ReadsTexts, NameEnds, SeeAddr, EncodeAttrs, Parse, Last;
    var emit, p := AddrData.AttrsOf(a), AddrData.Encode(a, nlType);
    assert emit(Addr.LABEL).Some? && emit(Addr.LABEL).value.data == a.ifLabel.value;
    assert p.body.attrs == EncodeAttrs(Emit(Addr.MAX, emit)) && View(RtBus, nlType) == SeeAddr;
    AsReadParses(RtBus, p, after);
    hide AddrData.AttrOf, AddrData.Encode, View;
    LastRuns(Addr.MAX, emit, after, SeeAddr, Addr.LABEL, AddrData.IFA_LABEL);
  }

  /** Addresses whose label does not end do not come back when their message is not followed by a NUL. */
  lemma AddrLost(nlType: u16, a: Addr.Addr, after: bytes)
    requires AddrData.IsAddrType(nlType) && !TextsEnd(OfAddr(a)) && Runs(after)
    ensures !Comes(RtBus, Entry(nlType, OfAddr(a)), after)
  {
    hide AddrData.Decode, AsRead, NameEnds, Longer, Comes, Addr.Same;
    var q := AsRead(RtBus, AddrData.Encode(a, nlType), after);
    AsReadParses(RtBus, AddrData.Encode(a, nlType), after);
    assert AddrData.Readable(q) && q.nlType == nlType;
    hide AddrData.Encode;
    AddrComes(nlType, a, after);
    LabelRuns(nlType, a, after);
    LongerCut(a.ifLabel.value, Last(Parse(q.body.attrs), AddrData.IFA_LABEL).value);
    if AddrData.Decode(q).Accepted? {
      LabelRead(q);
      LabelsDiffer(AddrData.Decode(q).record, a);
    }
  }

  lemma LabelsDiffer(q: Addr.Addr, a: Addr.Addr)
    requires Addr.LABEL in a.props && Addr.LABEL in q.props && q.ifLabel != a.ifLabel
    ensures Addr.MatchCode(q, a) != 0
  {
    assert !Addr.Agreement(q, a)(Addr.LABEL);
  }

  // ----- Rules -----

  function NameOf(r: Rule.Rule, k: nat): Option<ifname> {
    if k == Rule.IIFNAME then r.iifName else r.oifName
  }

  predicate IsName(k: nat) {
    k == Rule.IIFNAME || k == Rule.OIFNAME
  }

  lemma NameRead(q: Packet, k: nat)
    requires RuleData.IsRuleType(q.nlType) && RuleData.Readable(q) && RuleData.Decode(q).Accepted? && IsName(k)
    ensures var found := Last(Parse(q.body.attrs), RuleData.KindOf(k));
      var r := RuleData.Decode(q).record;
      found.Some? ==> k in r.props && NameOf(r, k) == Some(Truncate(found.value.Str(), IF_NAMESIZE - 1))
  {
    assert IpFamily(q.body.tmpl.frh.family);
    hide RuleData.Decode, Parse, Last, RuleData.Acceptable;
    RuleData.DecodeIsLookup(q);
  }

  /** The name property k holds does not end. */
  predicate NameRunsOn(r: Rule.Rule, k: nat) {
    k in r.props && NameOf(r, k).Some? && !NameEnds(NameOf(r, k).value)
  }

  lemma RuleNameOnly(r: Rule.Rule, k: nat)
    requires IsName(k)
    ensures OnlyFrom(RuleData.AttrsOf(r), k, RuleData.KindOf(k))
  {
    var emit := RuleData.AttrsOf(r);
    RuleData.AttrFits(r);
    forall j: nat | emit(j).Some?
      ensures emit(j).value.NlaLen() < 0x100
      ensures emit(j).value.Kind() == RuleData.KindOf(k) <==> j == k
    {
      RuleData.AttrHasKind(r, j);
    }
  }

  lemma SeenNames(k: nat)
    requires IsName(k)
    ensures ReadsTexts(SeeRule, RuleData.KindOf(k))
  {
  }

  lemma NameRuns(nlType: u16, r: Rule.Rule, k: nat, after: bytes)
    requires RuleData.IsRuleType(nlType) && IsName(k) && NameRunsOn(r, k) && Runs(after)
    ensures var found := Last(Parse(AsRead(RtBus, RuleData.Encode(r, nlType), after).body.attrs), RuleData.KindOf(k));
      found.Some? && Longer(found.value, NameOf(r, k).value)
  {
    RuleNameOnly(r, k);
    SeenNames(k);
    hide AsRead, Seen, Emit, Longer, OnlyFrom, ReadsTexts, NameEnds, SeeRule, EncodeAttrs, Parse, Last;
    var emit, p := RuleData.AttrsOf(r), RuleData.Encode(r, nlType);
    assert emit(k).Some? && emit(k).value.data == NameOf(r, k).value;
    assert p.body.attrs == EncodeAttrs(Emit(Rule.MAX, emit)) && View(RtBus, nlType) == SeeRule;
    AsReadParses(RtBus, p, after);
    hide RuleData.AttrOf, RuleData.Encode, View, RuleData.KindOf;
    LastRuns(Rule.MAX, emit, after, SeeRule, k, RuleData.KindOf(k));
  }

  /** Rules with a name that does not end do not come back when their message is not followed by a NUL. */
  lemma RuleLost(nlType: u16, r: Rule.Rule, after: bytes)
    requires RuleData.IsRuleType(nlType) && !TextsEnd(OfRule(r)) && Runs(after)
    ensures !Comes(RtBus, Entry(nlType, OfRule(r)), after)
  {
    hide RuleData.Decode, AsRead, NameEnds, Longer, Comes, Rule.Same;
    var q := AsRead(RtBus, RuleData.Encode(r, nlType), after);
    AsReadParses(RtBus, RuleData.Encode(r, nlType), after);
    assert RuleData.Readable(q) && q.nlType == nlType;
    hide RuleData.Encode;
    var k := if NameRunsOn(r, Rule.IIFNAME) then Rule.IIFNAME else Rule.OIFNAME;
    RuleComes(nlType, r, after);
    NameRuns(nlType, r, k, after);
    LongerCut(NameOf(r, k).value, Last(Parse(q.body.attrs), RuleData.KindOf(k)).value);
    if RuleData.Decode(q).Accepted? {
      NameRead(q, k);
      NamesDiffer(RuleData.Decode(q).record, r, k);
    }
  }

  lemma NamesDiffer(q: Rule.Rule, r: Rule.Rule, k: nat)
    requires IsName(k) && k in r.props && k in q.props && NameOf(q, k) != NameOf(r, k)
    ensures Rule.MatchCode(q, r) != 0
  {
    assert !Rule.Agreement(q, r)(k);
  }

  // ----- All records -----

  /**
   * The echo law for what the code reads, with no assumption on where texts end: a record
   * comes back whatever follows its message if and only if it travels and its texts end.
   */
  lemma EchoAsRead(bus: Bus, e: Entry)
    requires Sendable(bus, e) && e.record.Sound()
    ensures (forall after: bytes :: Comes(bus, e, after)) <==> Travels(e) && TextsEnd(e.record)
  {
    EchoMatches(bus, e);
    hide Handle, AsRead, TextsEnd, Travels, Encode, Echoes;
    if TextsEnd(e.record) {
      forall after: bytes
        ensures Comes(bus, e, after) <==> Travels(e)
      {
        EncodedAsWritten(bus, e, after);
      }
      assert (forall after: bytes :: Comes(bus, e, after)) ==> Comes(bus, e, []);
    } else {
      TextLost(bus, e, [1]);
    }
  }

  lemma TextLost(bus: Bus, e: Entry, after: bytes)
    requires Sendable(bus, e) && !TextsEnd(e.record) && Runs(after)
    ensures !Comes(bus, e, after)
  {
    hide Comes;
    match e.record
    case OfLink(l) => LinkLost(e.nlType, l, after);
    case OfAddr(a) => AddrLost(e.nlType, a, after);
    case OfRule(r) => RuleLost(e.nlType, r, after);
    case OfRoute(_) =>
    case OfPolicy(_) =>
  }

  /** In a stream of records whose texts end, every message is read as it was written. */
  lemma {:induction false} StreamAsRead(bus: Bus, sent: seq<Entry>, i: nat, after: bytes)
    requires AllSendable(bus, sent) && (forall e | e in sent :: TextsEnd(e.record)) && i < |sent|
    ensures |EncodeAll(bus, sent)| == |sent| && AsRead(bus, EncodeAll(bus, sent)[i], after) == EncodeAll(bus, sent)[i]
    decreases |sent|
  {
    hide AsRead, TextsEnd, Encode;
    if i == 0 {
      AllEncoded(bus, sent);
      EncodedAsWritten(bus, sent[0], after);
    } else {
      StreamAsRead(bus, sent[1..], i - 1, after);
    }
  }

  lemma {:induction false} AllEncoded(bus: Bus, sent: seq<Entry>)
    requires AllSendable(bus, sent)
    ensures |EncodeAll(bus, sent)| == |sent|
    decreases |sent|
  {
    if sent != [] {
      AllEncoded(bus, sent[1..]);
    }
  }

  /** A VLAN, one setter call: whatever follows its message, it comes back as a link of no kind. */
  lemma VlanLost(nlType: u16, after: bytes) returns (l: Link.Link)
    requires LinkData.IsLinkType(nlType)
    ensures l == Link.Run([Link.VlanId(5)])
    ensures var d := LinkData.Decode(AsRead(RtBus, LinkData.Encode(l, nlType), after));
      d.Accepted? && Link.INFO !in d.record.props && Link.MatchCode(d.record, l) == Link.INFO + 1
  {
    l := Link.Run([Link.VlanId(5)]);
    LinkRoundTrip.RunOne(Link.VlanId(5));
    LinkKindLost(nlType, l, after);
    hide LinkData.Decode, AsRead, LinkData.Encode;
    var d := LinkData.Decode(AsRead(RtBus, LinkData.Encode(l, nlType), after));
    assert l.props == {Link.INFO} && !Link.Agreement(d.record, l)(Link.INFO);
  }
}
