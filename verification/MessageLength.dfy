/** How long an encoded message is: every record fits the buffer it is written into. */
module MessageLength {
  import opened Wire
  import opened Tlv
  import opened NlMessage
  import opened Request
  import opened Exchange
  import Link
  import Addr
  import Route
  import Rule
  import Policy
  import LinkData
  import AddrData
  import RouteData
  import RuleData
  import PolicyData

  /** nlmsg_len of a message with a template. */
  function LengthInBytes(p: Packet): nat
    requires p.body.Typed?
  {
    NLMSG_HDRLEN + Align(TemplateSize(p.body.tmpl)) + |p.body.attrs|
  }

  /**
   * A bound for every encoded record: the largest header, and for each of the properties of
   * a link the room of its largest attribute.  It is not tight.
   */
  const LENGTH_BOUND: nat := 500

  lemma BuilderLength(nlh: Builder)
    requires nlh.Valid()
    ensures nlh.nlmsgLen == LengthInBytes(nlh.Sent())
  {
  }

  /** What a property loop of n rounds writes, when no attribute takes more than the given size. */
  lemma EmittedSize(n: nat, emit: nat -> Option<Attr>, size: nat)
    requires forall k: nat | emit(k).Some? :: Align(emit(k).value.NlaLen()) <= size
    ensures var s := EncodeAttrs(Emit(n, emit));
      |s| == AttrsSize(Parse(s)) && |s| % 4 == 0 && |s| <= n * size
  {
    ParseEncode(Emit(n, emit));
    EncodedSize(Emit(n, emit));
    EmitFits(n, emit, size);
  }

  /** The parts of a message's length, and its bound. */
  ghost predicate WellSized(p: Packet) {
    && p.body.Typed?
    && LengthInBytes(p) == LengthOf(p.body.tmpl, Parse(p.body.attrs))
    && LengthInBytes(p) % 4 == 0
    && LengthInBytes(p) <= LENGTH_BOUND < MIN_BUFFER_SIZE
  }

  lemma EmittedWellSized(nlType: u16, t: Template, n: nat, emit: nat -> Option<Attr>, size: nat)
    requires forall k: nat | emit(k).Some? :: Align(emit(k).value.NlaLen()) <= size
    requires NLMSG_HDRLEN + Align(TemplateSize(t)) + n * size <= LENGTH_BOUND
    ensures WellSized(Packet(nlType, false, Typed(t, EncodeAttrs(Emit(n, emit)))))
  {
    hide Align, AttrsSize, Parse, Emit, EncodeAttrs;
    EmittedSize(n, emit, size);
    HeaderAligned(Align(TemplateSize(t)), |EncodeAttrs(Emit(n, emit))|);
  }

  lemma HeaderAligned(a: nat, b: nat)
    requires a % 4 == 0 && b % 4 == 0
    ensures (NLMSG_HDRLEN + a + b) % 4 == 0
  {
  }

  /**
   * The length of an encoded record is that of the header, the aligned struct and, for
   * each attribute, four bytes and its aligned payload; it is a multiple of four and
   * within a bound that any message buffer has room for.  Header and struct together take
   * 28 bytes for a route or a rule, 24 for an address and 32 for a link; a policy takes
   * 184, but 80 in the message that deletes it.
   */
  lemma EncodedLength(bus: Bus, e: Entry)
    requires Sendable(bus, e)
    ensures WellSized(Exchange.Encode(bus, e))
    ensures var p := Exchange.Encode(bus, e);
      LengthInBytes(p) == |p.body.attrs| + match e.record
                                           case OfLink(_) => 32
                                           case OfAddr(_) => 24
                                           case OfRoute(_) => 28
                                           case OfRule(_) => 28
                                           case OfPolicy(_) => if e.nlType == 0x14 then 80 else 184
  {
    hide WellSized, Emit, EncodeAttrs;
    var t := e.nlType;
    match e.record
    case OfLink(l) =>
      LinkData.AttrFits(l);
      EmittedWellSized(t, LinkTemplate(LinkData.Header(l, Link.MAX)), Link.MAX, LinkData.AttrsOf(l), 36);
    case OfAddr(a) =>
      AddrData.AttrFits(a);
      EmittedWellSized(t, AddrTemplate(AddrData.Header(a, Addr.MAX)), Addr.MAX, AddrData.AttrsOf(a), 20);
    case OfRoute(r) =>
      RouteData.AttrFits(r);
      EmittedWellSized(t, RouteTemplate(RouteData.Header(r, Route.MAX)), Route.MAX, RouteData.AttrsOf(r), 20);
    case OfRule(r) =>
      RuleData.AttrFits(r);
      EmittedWellSized(t, RuleTemplate(RuleData.Header(r, Rule.MAX)), Rule.MAX, RuleData.AttrsOf(r), 20);
    case OfPolicy(p) =>
      PolicyData.AttrFits(p);
      EmittedWellSized(t, PolicyData.TemplateOf(p, Policy.MAX, t), Policy.MAX, PolicyData.AttrsOf(p), 12);
  }

  /** The two nests of a link's kind-specific part: each length field covers exactly what is inside. */
  lemma NestedLengths(info: Link.Info)
    requires info.kind < Link.KIND_MAX
    ensures var nest, data := LinkData.LinkInfo(info), LinkData.InfoAttrs(info)[1];
      && Parse(nest.data) == LinkData.InfoAttrs(info)
      && nest.NlaLen() == NLA_HDRLEN + AttrsSize(LinkData.InfoAttrs(info))
      && Parse(data.data) == LinkData.InfoData(info) && data.NlaLen() == NLA_HDRLEN + AttrsSize(LinkData.InfoData(info))
  {
    ParseEncode(LinkData.InfoAttrs(info));
    EncodedSize(LinkData.InfoAttrs(info));
    ParseEncode(LinkData.InfoData(info));
    EncodedSize(LinkData.InfoData(info));
  }
}
