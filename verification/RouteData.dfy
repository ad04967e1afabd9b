/** Routing route messages: encoder and decoder (src/rtnl/route_data.c). */
module RouteData {
  import opened Wire
  import opened Tlv
  import opened Comparison
  import opened Contents
  import opened NlMessage
  import opened Route

  const RTM_NEWROUTE: u16 := 24
  const RTM_DELROUTE: u16 := 25
  const RTM_GETROUTE: u16 := 26

  const RTA_DST: nat := 1
  const RTA_SRC: nat := 2
  const RTA_IIF: nat := 3
  const RTA_OIF: nat := 4
  const RTA_GATEWAY: nat := 5
  const RTA_PRIORITY: nat := 6
  const RTA_MAX: nat := 30

  predicate IsRouteType(t: u16) {
    t == RTM_NEWROUTE || t == RTM_DELROUTE || t == RTM_GETROUTE
  }

  /** Properties that travel in struct rtmsg: the decoder always sets them. */
  const HEADER_PROPS: set<nat> := {FAMILY, TYPE, TABLE, PROTOCOL, SCOPE, SRC_PREFIX, DST_PREFIX}

  // ----- Encoding -----

  function HeaderField(r: Route, n: nat, k: nat, v: byte): byte {
    if k < n && k in r.props then v else 0
  }

  /** struct rtmsg after the properties below n. */
  function Header(r: Route, n: nat): RtMsg {
    RtMsg(HeaderField(r, n, FAMILY, r.family), HeaderField(r, n, DST_PREFIX, r.dstPrefix),
          HeaderField(r, n, SRC_PREFIX, r.srcPrefix), 0, HeaderField(r, n, TABLE, r.table),
          HeaderField(r, n, PROTOCOL, r.protocol), HeaderField(r, n, SCOPE, r.scope),
          HeaderField(r, n, TYPE, r.rtype))
  }

  /** The attribute property k contributes. */
  function AttrOf(r: Route, k: nat): Option<Attr> {
    if k !in r.props then None
    else if k == PRIORITY then Some(Attr(RTA_PRIORITY, LE4(r.priority)))
    else if k == OIFINDEX then Some(Attr(RTA_OIF, LE4(r.oifIndex)))
    else if k == IIFINDEX then Some(Attr(RTA_IIF, LE4(r.iifIndex)))
    else if k == SRC then Some(Attr(RTA_SRC, r.src[..AddrSize(r.family)]))
    else if k == DST then Some(Attr(RTA_DST, r.dst[..AddrSize(r.family)]))
    else if k == GATEWAY then Some(Attr(RTA_GATEWAY, r.gateway[..AddrSize(r.family)]))
    else None
  }

  function AttrsOf(r: Route): nat -> Option<Attr> {
    (k: nat) => AttrOf(r, k)
  }

  function Encode(r: Route, nlType: u16): Packet {
    Packet(nlType, false, Typed(RouteTemplate(Header(r, MAX)), EncodeAttrs(Emit(MAX, AttrsOf(r)))))
  }

  // ----- Decoding -----

  function NewRoute(h: RtMsg): (r: Route)
    requires IpFamily(h.family)
  {
    NEW.(props := HEADER_PROPS, family := h.family, protocol := h.protocol, table := h.table,
         rtype := h.rtype, scope := h.scope, dstPrefix := h.dstLen, srcPrefix := h.srcLen)
  }

  /** One round of the attribute loop. */
  function Step(family: byte, r: Route, a: Attr): Option<Route> {
    var kind := a.Kind();
    if kind > RTA_MAX then Some(r)
    else if kind == RTA_DST then
      if a.Holds(AddrSize(family)) then r.SetDst(family, LoadAddr(a.data)) else None
    else if kind == RTA_SRC then
      if a.Holds(AddrSize(family)) then r.SetSrc(family, LoadAddr(a.data)) else None
    else if kind == RTA_GATEWAY then
      if a.Holds(AddrSize(family)) then r.SetGateway(family, LoadAddr(a.data)) else None
    else if kind == RTA_PRIORITY then
      if a.Holds(4) then r.SetU32(PRIORITY, a.U32()) else None
    else if kind == RTA_OIF then
      if a.Holds(4) then r.SetU32(OIFINDEX, a.U32()) else None
    else if kind == RTA_IIF then
      if a.Holds(4) then r.SetU32(IIFINDEX, a.U32()) else None
    else Some(r)
  }

  function Steps(family: byte): (Route, Attr) -> Option<Route> {
    (r: Route, a: Attr) => Step(family, r, a)
  }

  predicate Readable(p: Packet) {
    IsRouteType(p.nlType) ==> p.body.Typed? && p.body.tmpl.RouteTemplate?
  }

  function Decode(p: Packet): Decoded<Route>
    requires Readable(p)
  {
    if !IsRouteType(p.nlType) then Rejected
    else if !IpFamily(p.body.tmpl.rtm.family) then Skipped
    else
      var h := p.body.tmpl.rtm;
      var r := Fold(NewRoute(h), Parse(p.body.attrs), Steps(h.family));
      if r.None? then Rejected else Accepted(r.value)
  }

  // ----- Decoding is the lookup of the last attribute of each kind -----

  ghost predicate Acceptable(family: byte, a: Attr) {
    var kind := a.Kind();
    && (kind in {RTA_DST, RTA_SRC, RTA_GATEWAY} ==> a.Holds(AddrSize(family)))
    && (kind in {RTA_PRIORITY, RTA_OIF, RTA_IIF} ==> a.Holds(4))
  }

  /** A destination other than the default one. */
  function RealDst(family: byte): Attr -> bool {
    (a: Attr) => a.Kind() == RTA_DST && !IsAnyAddr(family, LoadAddr(a.data))
  }

  ghost function AddrFrom(found: Option<Attr>): InetAddr {
    if found.Some? then LoadAddr(found.value.data) else NO_ADDR
  }

  ghost function U32From(found: Option<Attr>): u32 {
    if found.Some? && found.value.Holds(4) then found.value.U32() else 0
  }

  /** The attributes a route is read from. */
  datatype Found = Found(
    dst: Option<Attr>, src: Option<Attr>, gateway: Option<Attr>,
    priority: Option<Attr>, oif: Option<Attr>, iif: Option<Attr>)

  /** Each property comes from the last attribute of its kind; DST from the last real destination. */
  function Find(family: byte, attrs: seq<Attr>): Found {
    Found(LastWhere(attrs, RealDst(family)), Last(attrs, RTA_SRC), Last(attrs, RTA_GATEWAY),
          Last(attrs, RTA_PRIORITY), Last(attrs, RTA_OIF), Last(attrs, RTA_IIF))
  }

  /** Whether the message sets property k. */
  ghost predicate Given(f: Found, k: nat) {
    if k == DST then f.dst.Some?
    else if k == SRC then f.src.Some?
    else if k == GATEWAY then f.gateway.Some?
    else if k == PRIORITY then f.priority.Some?
    else if k == OIFINDEX then f.oif.Some?
    else if k == IIFINDEX then f.iif.Some?
    else k < MAX
  }

  ghost function RouteFrom(h: RtMsg, f: Found): Route
    requires IpFamily(h.family)
  {
    NewRoute(h).(
      props := (set k: nat | k < MAX && Given(f, k)),
      dst := AddrFrom(f.dst), src := AddrFrom(f.src), gateway := AddrFrom(f.gateway),
      priority := U32From(f.priority), oifIndex := U32From(f.oif), iifIndex := U32From(f.iif))
  }

  /** The simple reading of a message: no loop over records, no order among kinds. */
  ghost function Lookup(h: RtMsg, attrs: seq<Attr>): Option<Route>
    requires IpFamily(h.family)
  {
    if exists a | a in attrs :: !Acceptable(h.family, a) then None
    else Some(RouteFrom(h, Find(h.family, attrs)))
  }

  ghost function Replace(family: byte, f: Found, a: Attr): Found {
    var kind := a.Kind();
    if kind == RTA_DST then (if RealDst(family)(a) then f.(dst := Some(a)) else f)
    else if kind == RTA_SRC then f.(src := Some(a))
    else if kind == RTA_GATEWAY then f.(gateway := Some(a))
    else if kind == RTA_PRIORITY then f.(priority := Some(a))
    else if kind == RTA_OIF then f.(oif := Some(a))
    else if kind == RTA_IIF then f.(iif := Some(a))
    else f
  }

  lemma FindSnoc(family: byte, attrs: seq<Attr>, a: Attr)
    ensures Find(family, attrs + [a]) == Replace(family, Find(family, attrs), a)
  {
    LastSnoc(attrs, a, RealDst(family));
    LastSnoc(attrs, a, OfKind(RTA_SRC));
    LastSnoc(attrs, a, OfKind(RTA_GATEWAY));
    LastSnoc(attrs, a, OfKind(RTA_PRIORITY));
    LastSnoc(attrs, a, OfKind(RTA_OIF));
    LastSnoc(attrs, a, OfKind(RTA_IIF));
  }

  /** The property an attribute sets; MAX when it sets none. */
  function PropOf(family: byte, a: Attr): nat {
    var kind := a.Kind();
    if kind == RTA_DST then (if RealDst(family)(a) then DST else MAX)
    else if kind == RTA_SRC then SRC
    else if kind == RTA_GATEWAY then GATEWAY
    else if kind == RTA_PRIORITY then PRIORITY
    else if kind == RTA_OIF then OIFINDEX
    else if kind == RTA_IIF then IIFINDEX
    else MAX
  }

  lemma GivenReplaced(family: byte, f: Found, a: Attr, k: nat)
    requires k < MAX
    ensures Given(Replace(family, f, a), k) <==> Given(f, k) || k == PropOf(family, a)
  {
  }

  lemma PropsReplaced(h: RtMsg, f: Found, a: Attr)
    requires IpFamily(h.family)
    ensures RouteFrom(h, Replace(h.family, f, a)).props
      == RouteFrom(h, f).props + (if PropOf(h.family, a) < MAX then {PropOf(h.family, a)} else {})
  {
    forall k: nat | k < MAX {
      GivenReplaced(h.family, f, a, k);
    }
  }

  lemma AddrStepReplaces(h: RtMsg, f: Found, a: Attr)
    requires IpFamily(h.family) && a.Kind() in {RTA_DST, RTA_SRC, RTA_GATEWAY}
    ensures Step(h.family, RouteFrom(h, f), a)
      == if Acceptable(h.family, a) then Some(RouteFrom(h, Replace(h.family, f, a))) else None
  {
    PropsReplaced(h, f, a);
  }

  /** An acceptable attribute replaces what is known of its property and nothing else. */
  lemma StepReplaces(h: RtMsg, f: Found, a: Attr)
    requires IpFamily(h.family)
    ensures Step(h.family, RouteFrom(h, f), a)
      == if Acceptable(h.family, a) then Some(RouteFrom(h, Replace(h.family, f, a))) else None
  {
    if a.Kind() in {RTA_DST, RTA_SRC, RTA_GATEWAY} {
      AddrStepReplaces(h, f, a);
    } else {
      PropsReplaced(h, f, a);
    }
  }

  lemma {:induction false} FoldIsLookup(h: RtMsg, attrs: seq<Attr>)
    requires IpFamily(h.family)
    ensures Fold(NewRoute(h), attrs, Steps(h.family)) == Lookup(h, attrs)
    decreases |attrs|
  {
    if attrs != [] {
      var n := |attrs| - 1;
      var init, a := attrs[..n], attrs[n];
      assert attrs == init + [a];
      FoldIsLookup(h, init);
      FoldSnoc(NewRoute(h), init, a, Steps(h.family));
      FindSnoc(h.family, init, a);
      StepReplaces(h, Find(h.family, init), a);
      assert forall x :: x in attrs <==> x in init || x == a;
    } else {
      assert RouteFrom(h, Find(h.family, attrs)).props == HEADER_PROPS;
    }
  }

  /** The decoder's loop is the lookup, failures included. */
  lemma DecodeIsLookup(p: Packet)
    requires IsRouteType(p.nlType) && Readable(p) && IpFamily(p.body.tmpl.rtm.family)
    ensures Decode(p) == var r := Lookup(p.body.tmpl.rtm, Parse(p.body.attrs));
                         if r.None? then Rejected else Accepted(r.value)
  {
    FoldIsLookup(p.body.tmpl.rtm, Parse(p.body.attrs));
  }

  lemma FindPermuted(family: byte, a: seq<Attr>, b: seq<Attr>)
    requires DistinctKinds(a) && multiset(a) == multiset(b)
    ensures Find(family, a) == Find(family, b)
  {
    LastPermuted(a, b, RTA_DST, RealDst(family));
    LastPermuted(a, b, RTA_SRC, OfKind(RTA_SRC));
    LastPermuted(a, b, RTA_GATEWAY, OfKind(RTA_GATEWAY));
    LastPermuted(a, b, RTA_PRIORITY, OfKind(RTA_PRIORITY));
    LastPermuted(a, b, RTA_OIF, OfKind(RTA_OIF));
    LastPermuted(a, b, RTA_IIF, OfKind(RTA_IIF));
  }

  /** Attributes of pairwise different kinds may come in any order. */
  lemma DecodeIgnoresOrder(nlType: u16, h: RtMsg, a: seq<Attr>, b: seq<Attr>)
    requires IsRouteType(nlType)
    requires DistinctKinds(a) && multiset(a) == multiset(b)
    ensures Decode(Packet(nlType, false, Typed(RouteTemplate(h), EncodeAttrs(a))))
         == Decode(Packet(nlType, false, Typed(RouteTemplate(h), EncodeAttrs(b))))
  {
    ParseEncode(a);
    ParseEncode(b);
    if IpFamily(h.family) {
      FoldIsLookup(h, a);
      FoldIsLookup(h, b);
      FindPermuted(h.family, a, b);
      SameMembers(a, b);
    }
  }

  // ----- Round trip -----

  /** The attribute kind a property travels in; 0 when it has none. */
  function KindOf(k: nat): nat {
    if k == DST then RTA_DST
    else if k == SRC then RTA_SRC
    else if k == GATEWAY then RTA_GATEWAY
    else if k == PRIORITY then RTA_PRIORITY
    else if k == OIFINDEX then RTA_OIF
    else if k == IIFINDEX then RTA_IIF
    else 0
  }

  lemma AttrHasKind(r: Route, k: nat)
    ensures AttrOf(r, k).Some? ==> AttrOf(r, k).value.Kind() == KindOf(k) != 0
  {
  }

  lemma LastOfKind(r: Route, k: nat)
    requires KindOf(k) != 0
    ensures Last(Emit(MAX, AttrsOf(r)), KindOf(k)) == AttrOf(r, k)
  {
    forall i: nat | AttrsOf(r)(i).Some?
      ensures AttrsOf(r)(i).value.Kind() == KindOf(k) <==> i == k
    {
      AttrHasKind(r, i);
    }
    LastEmitted(MAX, AttrsOf(r), OfKind(KindOf(k)), k);
  }

  lemma LastRealDst(r: Route)
    requires r.Consistent()
    ensures LastWhere(Emit(MAX, AttrsOf(r)), RealDst(r.family)) == AttrOf(r, DST)
  {
    forall i: nat | AttrsOf(r)(i).Some?
      ensures RealDst(r.family)(AttrsOf(r)(i).value) <==> i == DST
    {
      AttrHasKind(r, i);
      LoadOfPrefix(r.family, r.dst);
    }
    LastEmitted(MAX, AttrsOf(r), RealDst(r.family), DST);
  }

  lemma FindEmitted(r: Route)
    requires r.Consistent()
    ensures Find(r.family, Emit(MAX, AttrsOf(r)))
      == Found(AttrOf(r, DST), AttrOf(r, SRC), AttrOf(r, GATEWAY),
               AttrOf(r, PRIORITY), AttrOf(r, OIFINDEX), AttrOf(r, IIFINDEX))
  {
    LastRealDst(r);
    LastOfKind(r, SRC);
    LastOfKind(r, GATEWAY);
    LastOfKind(r, PRIORITY);
    LastOfKind(r, OIFINDEX);
    LastOfKind(r, IIFINDEX);
  }

  lemma {:induction false} EmittedAcceptable(r: Route, n: nat)
    requires r.Consistent()
    ensures forall a | a in Emit(n, AttrsOf(r)) :: Acceptable(r.family, a)
  {
    if n > 0 {
      EmittedAcceptable(r, n - 1);
    }
  }

  /** The record decoding rebuilds. */
  ghost function Rebuilt(r: Route): Route
    requires r.Consistent() && FAMILY in r.props
  {
    RouteFrom(Header(r, MAX),
              Found(AttrOf(r, DST), AttrOf(r, SRC), AttrOf(r, GATEWAY),
                    AttrOf(r, PRIORITY), AttrOf(r, OIFINDEX), AttrOf(r, IIFINDEX)))
  }

  lemma DecodeEncode(r: Route, nlType: u16)
    requires r.Sound() && IsRouteType(nlType)
    ensures Decode(Encode(r, nlType)) == if FAMILY in r.props then Accepted(Rebuilt(r)) else Skipped
  {
    if FAMILY in r.props {
      var attrs := Emit(MAX, AttrsOf(r));
      ParseEncode(attrs);
      FindEmitted(r);
      EmittedAcceptable(r, MAX);
      FoldIsLookup(Header(r, MAX), attrs);
    }
  }

  lemma RebuiltAgrees(r: Route, k: nat)
    requires r.Consistent() && FAMILY in r.props
    ensures k in Rebuilt(r).props <==> k in HEADER_PROPS || k in r.props
    ensures k in r.props ==> Same(Rebuilt(r), r, k)
  {
    LE4RoundTrip(r.priority);
    LE4RoundTrip(r.iifIndex);
    LE4RoundTrip(r.oifIndex);
    LoadOfPrefix(r.family, r.src);
    LoadOfPrefix(r.family, r.dst);
    LoadOfPrefix(r.family, r.gateway);
  }

  /** What a route encodes to decodes to a record that matches it, exactly when its family is set. */
  lemma RoundTrip(r: Route, nlType: u16)
    requires r.Sound() && IsRouteType(nlType)
    ensures Decode(Encode(r, nlType)).Accepted? <==> FAMILY in r.props
    ensures FAMILY in r.props ==> MatchCode(Decode(Encode(r, nlType)).record, r) == 0
  {
    DecodeEncode(r, nlType);
    if FAMILY in r.props {
      forall k | 0 <= k < MAX && k in r.props
        ensures Agreement(Rebuilt(r), r)(k)
      {
        RebuiltAgrees(r, k);
      }
    }
  }

  // ----- Normal form -----

  lemma FromConsistent(h: RtMsg, f: Found)
    requires IpFamily(h.family) && (f.dst.Some? ==> RealDst(h.family)(f.dst.value))
    ensures RouteFrom(h, f).Consistent() && HEADER_PROPS <= RouteFrom(h, f).props
  {
  }

  /** Every record the decoder delivers satisfies what the setters keep. */
  lemma DecodedConsistent(p: Packet)
    requires Readable(p) && Decode(p).Accepted?
    ensures Decode(p).record.Consistent() && HEADER_PROPS <= Decode(p).record.props
  {
    var h, attrs := p.body.tmpl.rtm, Parse(p.body.attrs);
    FoldIsLookup(h, attrs);
    LastIsMember(attrs, RealDst(h.family));
    FromConsistent(h, Find(h.family, attrs));
  }

  /** Decoding what a delivered record encodes to yields the same record, property by property. */
  lemma NormalForm(p: Packet, nlType: u16, all: set<nat>)
    requires Readable(p) && Decode(p).Accepted? && IsRouteType(nlType)
    ensures var q := Decode(p).record;
      var again := Decode(Encode(q, nlType));
      again.Accepted? && CompareCode(again.record, q, all) == 0
  {
    DecodedConsistent(p);
    var q := Decode(p).record;
    DecodeEncode(q, nlType);
    forall k | 0 <= k < MAX && k in all
      ensures Agreement(Rebuilt(q), q)(k)
    {
      RebuiltAgrees(q, k);
    }
  }

  // ----- The message, byte by byte -----

  /** The attribute of a property: its length, its type, its value. */
  function BlockOf(r: Route, k: nat): bytes {
    if k !in r.props then []
    else if k == PRIORITY then [8, 0, 6, 0] + Bytes4(r.priority)
    else if k == IIFINDEX then [8, 0, 3, 0] + Bytes4(r.iifIndex)
    else if k == OIFINDEX then [8, 0, 4, 0] + Bytes4(r.oifIndex)
    else if k == SRC then AddressBlock(2, r.family, r.src)
    else if k == DST then AddressBlock(1, r.family, r.dst)
    else if k == GATEWAY then AddressBlock(5, r.family, r.gateway)
    else []
  }

  lemma AttrIsBlock(r: Route, k: nat)
    ensures BlockOf(r, k) == if AttrOf(r, k).Some? then EncodeAttr(AttrOf(r, k).value) else []
  {
    if AttrOf(r, k).Some? {
      EncodedIsBlock(AttrOf(r, k).value);
      LowByteFirst(0, r.priority);
      LowByteFirst(0, r.iifIndex);
      LowByteFirst(0, r.oifIndex);
    }
  }

  /** What the getters give is what is sent: in the struct, or as one attribute each, in property order. */
  lemma Sent(r: Route, nlType: u16)
    ensures var m := Encode(r, nlType).body.tmpl.rtm;
      && m.family == NumberOr0(r.Get(FAMILY)) && m.table == NumberOr0(r.Get(TABLE))
      && m.rtype == NumberOr0(r.Get(TYPE)) && m.protocol == NumberOr0(r.Get(PROTOCOL))
      && m.scope == NumberOr0(r.Get(SCOPE)) && m.tos == 0
      && m.srcLen == NumberOr0(r.Get(SRC_PREFIX)) && m.dstLen == NumberOr0(r.Get(DST_PREFIX))
    ensures Encode(r, nlType).nlType == nlType
    ensures Encode(r, nlType).body.attrs == Blocks(MAX, (k: nat) => BlockOf(r, k))
  {
    forall k: nat {
      AttrIsBlock(r, k);
    }
    hide EncodeAttr, BlockOf, AttrOf;
    EmittedIsBlocks(MAX, AttrsOf(r), (k: nat) => BlockOf(r, k));
  }

  /** What is received is what the getters give: from the struct, or from the last attribute of its type. */
  lemma Delivered(p: Packet)
    requires Readable(p) && Decode(p).Accepted?
    ensures var q, h := Decode(p).record, p.body.tmpl.rtm;
      && q.Get(FAMILY) == Some(Number(h.family)) && q.Get(TABLE) == Some(Number(h.table))
      && q.Get(TYPE) == Some(Number(h.rtype)) && q.Get(PROTOCOL) == Some(Number(h.protocol))
      && q.Get(SCOPE) == Some(Number(h.scope))
      && q.Get(SRC_PREFIX) == Some(Number(h.srcLen)) && q.Get(DST_PREFIX) == Some(Number(h.dstLen))
    ensures var q, attrs, n := Decode(p).record, Parse(p.body.attrs), Width(p.body.tmpl.rtm.family);
      && q.Get(PRIORITY) == NumberIn(Last(attrs, RTA_PRIORITY))
      && q.Get(IIFINDEX) == NumberIn(Last(attrs, RTA_IIF)) && q.Get(OIFINDEX) == NumberIn(Last(attrs, RTA_OIF))
      && Cut(q.Get(SRC), n) == BytesIn(Last(attrs, RTA_SRC), n)
      && Cut(q.Get(GATEWAY), n) == BytesIn(Last(attrs, RTA_GATEWAY), n)
      && Cut(q.Get(DST), n) == BytesIn(LastWhere(attrs, SomeDst(n)), n)
  {
    var h, attrs := p.body.tmpl.rtm, Parse(p.body.attrs);
    DecodeIsLookup(p);
    AcceptedFound(h.family, attrs);
    SameDst(h.family, attrs);
    hide Decode, Parse, Last, LastWhere, Acceptable, LongEnough, RouteFrom;
    var f := Find(h.family, attrs);
    FoundNumbers(h, f);
    FoundAddress(h, f, SRC, f.src);
    FoundAddress(h, f, DST, f.dst);
    FoundAddress(h, f, GATEWAY, f.gateway);
  }

  /** A destination with a byte other than zero among the first n. */
  function SomeDst(n: nat): Attr -> bool {
    (a: Attr) => a.Kind() == RTA_DST && exists i | 0 <= i < n :: i < |a.data| && a.data[i] != 0
  }

  lemma {:induction false} SameDst(family: byte, attrs: seq<Attr>)
    ensures LastWhere(attrs, RealDst(family)) == LastWhere(attrs, SomeDst(Width(family)))
    decreases |attrs|
  {
    if attrs != [] {
      var n := |attrs| - 1;
      SameDst(family, attrs[..n]);
      AnyIsZero(family, LoadAddr(attrs[n].data));
      Loaded(attrs[n].data, 0);
    }
  }

  /** What the lookup finds in an acceptable message is long enough. */
  predicate LongEnough(family: byte, f: Found) {
    && (f.priority.Some? ==> f.priority.value.Holds(4)) && (f.oif.Some? ==> f.oif.value.Holds(4))
    && (f.iif.Some? ==> f.iif.value.Holds(4)) && (f.src.Some? ==> f.src.value.Holds(AddrSize(family)))
    && (f.dst.Some? ==> f.dst.value.Holds(AddrSize(family)))
    && (f.gateway.Some? ==> f.gateway.value.Holds(AddrSize(family)))
  }

  lemma AcceptedFound(family: byte, attrs: seq<Attr>)
    requires forall a | a in attrs :: Acceptable(family, a)
    ensures LongEnough(family, Find(family, attrs))
  {
    LastIsMember(attrs, RealDst(family));
    LastIsMember(attrs, OfKind(RTA_SRC));
    LastIsMember(attrs, OfKind(RTA_GATEWAY));
    LastIsMember(attrs, OfKind(RTA_PRIORITY));
    LastIsMember(attrs, OfKind(RTA_OIF));
    LastIsMember(attrs, OfKind(RTA_IIF));
  }

  lemma FoundNumbers(h: RtMsg, f: Found)
    requires IpFamily(h.family) && LongEnough(h.family, f)
    ensures var q := RouteFrom(h, f);
      && q.Get(FAMILY) == Some(Number(h.family)) && q.Get(TABLE) == Some(Number(h.table))
      && q.Get(TYPE) == Some(Number(h.rtype)) && q.Get(PROTOCOL) == Some(Number(h.protocol))
      && q.Get(SCOPE) == Some(Number(h.scope))
      && q.Get(SRC_PREFIX) == Some(Number(h.srcLen)) && q.Get(DST_PREFIX) == Some(Number(h.dstLen))
      && q.Get(PRIORITY) == NumberIn(f.priority)
      && q.Get(IIFINDEX) == NumberIn(f.iif) && q.Get(OIFINDEX) == NumberIn(f.oif)
  {
  }

  lemma FoundAddress(h: RtMsg, f: Found, k: nat, found: Option<Attr>)
    requires IpFamily(h.family) && LongEnough(h.family, f)
    requires (k == SRC && found == f.src) || (k == DST && found == f.dst) || (k == GATEWAY && found == f.gateway)
    ensures Cut(RouteFrom(h, f).Get(k), Width(h.family)) == BytesIn(found, Width(h.family))
  {
    if found.Some? {
      Loaded(found.value.data, Width(h.family));
    }
    hide LoadAddr, FromLE4, FromLE2;
  }

  /** What the decoder passes over, and what it refuses. */
  lemma Refused(p: Packet)
    requires IsRouteType(p.nlType) && Readable(p)
    ensures var family, attrs := p.body.tmpl.rtm.family, Parse(p.body.attrs);
      && (Decode(p).Skipped? <==> family != AF_INET && family != AF_INET6)
      && (Decode(p).Rejected? <==>
            && (family == AF_INET || family == AF_INET6)
            && exists a | a in attrs ::
                 || (a.Kind() in {RTA_DST, RTA_SRC, RTA_GATEWAY} && |a.data| < Width(family))
                 || (a.Kind() in {RTA_PRIORITY, RTA_OIF, RTA_IIF} && |a.data| < 4))
  {
    if IpFamily(p.body.tmpl.rtm.family) {
      DecodeIsLookup(p);
    }
  }

  lemma AttrFits(r: Route)
    ensures forall k: nat | AttrsOf(r)(k).Some? :: Align(AttrsOf(r)(k).value.NlaLen()) <= 20
  {
  }

  /** A route whose family is not set is passed over by the decoder. */
  lemma NoFamilySkipped(nlType: u16) returns (r: Route)
    requires IsRouteType(nlType)
    ensures r == Run([U8(TABLE, 254)]) && TABLE in r.props && Decode(Encode(r, nlType)) == Skipped
  {
    r := Run([U8(TABLE, 254)]);
    assert [U8(TABLE, 254)][..0] == [];
    RunConsistent([U8(TABLE, 254)]);
    hide Decode, Encode;
    DecodeEncode(r, nlType);
  }
}
