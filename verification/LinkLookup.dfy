/** The link decoder's loop against the simple reading of a message. */
module LinkLookup {
  import opened Bits
  import opened Wire
  import opened Tlv
  import opened NlMessage
  import opened Link
  import opened LinkData
  import LinkNest

  // ----- A known parent is only carried along by the kind-specific part -----

  /** The same state with its parent known to be p. */
  function Pin(s: InfoState, p: u32): InfoState {
    s.(hasParent := true, parent := p)
  }

  function Pinning(p: u32): InfoState -> InfoState {
    (s: InfoState) => Pin(s, p)
  }

  function PinningTun(p: u32): TunScan -> TunScan {
    (t: TunScan) => t.(state := Pin(t.state, p))
  }

  function PinningScan(p: u32): InfoScan -> InfoScan {
    (i: InfoScan) => i.(state := Pin(i.state, p))
  }

  lemma KindDataPinned(s: InfoState, kind: Option<nat>, data: bytes, p: u32)
    ensures KindData(Pin(s, p), kind, data) == Mapped(KindData(s, kind, data), Pinning(p))
  {
    if kind == Some(KIND_VLAN) {
      FoldMapped(s, Parse(data), VlanStep, Pinning(p));
    } else if kind == Some(KIND_XFRM) {
      FoldMapped(s, Parse(data), XfrmStep, Pinning(p));
    } else if kind == Some(KIND_TUN) {
      FoldMapped(TunScan(s, {}), Parse(data), TunStep, PinningTun(p));
    }
  }

  /** With the parent known, decoding IFLA_LINKINFO does everything else as it would without. */
  lemma InfoAttrPinned(s: InfoState, data: bytes, p: u32)
    ensures InfoAttr(Pin(s, p), data) == Mapped(InfoAttr(s, data), Pinning(p))
  {
    var start := Scanned(s, None, None);
    FoldMapped(start, Parse(data), InfoStep, PinningScan(p));
    var i := Fold(start, Parse(data), InfoStep);
    if i.Some? && i.value.Scanned? && i.value.data.Some? {
      KindDataPinned(i.value.state, i.value.kind, i.value.data.value, p);
    }
  }

  // ----- Knowledge is never taken back, and the setter invariant is kept -----

  ghost predicate Above(s: InfoState, t: InfoState) {
    && (s.has ==> t.has)
    && (s.hasParent ==> t.hasParent)
    && (s.Consistent() ==> t.Consistent())
  }

  ghost function AboveState(s: InfoState): InfoState -> bool {
    (t: InfoState) => Above(s, t)
  }

  ghost function AboveTun(s: InfoState): TunScan -> bool {
    (t: TunScan) => Above(s, t.state)
  }

  ghost function AboveScan(s: InfoState): InfoScan -> bool {
    (i: InfoScan) => Above(s, i.state)
  }

  lemma TunDataAbove(s: InfoState, t: InfoState, data: bytes)
    requires Above(s, t)
    ensures TunData(t, data).Some? ==> Above(s, TunData(t, data).value)
  {
    FoldKeeps(TunScan(t, {}), Parse(data), TunStep, AboveTun(s));
  }

  lemma XfrmDataAbove(s: InfoState, t: InfoState, data: bytes)
    requires Above(s, t)
    ensures var u := Fold(t, Parse(data), XfrmStep); u.Some? ==> Above(s, u.value)
  {
    FoldKeeps(t, Parse(data), XfrmStep, AboveState(s));
  }

  lemma KindDataAbove(s: InfoState, t: InfoState, kind: Option<nat>, data: bytes)
    requires Above(s, t)
    ensures KindData(t, kind, data).Some? ==> Above(s, KindData(t, kind, data).value)
  {
    if kind == Some(KIND_VLAN) {
      FoldKeeps(t, Parse(data), VlanStep, AboveState(s));
    } else if kind == Some(KIND_XFRM) {
      XfrmDataAbove(s, t, data);
    } else if kind == Some(KIND_TUN) {
      TunDataAbove(s, t, data);
    }
  }

  lemma InfoAttrAbove(s: InfoState, data: bytes)
    ensures InfoAttr(s, data).Some? ==> Above(s, InfoAttr(s, data).value)
  {
    var start := Scanned(s, None, None);
    FoldKeeps(start, Parse(data), InfoStep, AboveScan(s));
    var i := Fold(start, Parse(data), InfoStep);
    if i.Some? && i.value.Scanned? && i.value.data.Some? {
      KindDataAbove(s, i.value.state, i.value.kind, i.value.data.value);
    }
  }

  // ----- The lookup -----

  /** The attributes the scalar properties are read from. */
  datatype Found = Found(
    name: Option<Attr>, mac: Option<Attr>, mtu: Option<Attr>, mtuMin: Option<Attr>, mtuMax: Option<Attr>,
    master: Option<Attr>, state: Option<Attr>, parent: Option<Attr>)

  function Find(attrs: seq<Attr>): Found {
    Found(Last(attrs, IFLA_IFNAME), Last(attrs, IFLA_ADDRESS), Last(attrs, IFLA_MTU), Last(attrs, IFLA_MIN_MTU),
          Last(attrs, IFLA_MAX_MTU), Last(attrs, IFLA_MASTER), Last(attrs, IFLA_OPERSTATE), Last(attrs, IFLA_LINK))
  }

  /** Validity of an attribute by itself; IFLA_LINKINFO is judged by its content. */
  ghost predicate Acceptable(a: Attr) {
    var kind := a.Kind();
    && (kind in {IFLA_MTU, IFLA_MIN_MTU, IFLA_MAX_MTU, IFLA_MASTER, IFLA_LINK} ==> a.Holds(4))
    && (kind == IFLA_IFNAME ==> a.IsString() && |a.Str()| < IF_NAMESIZE)
    && (kind == IFLA_ADDRESS ==> a.Holds(6))
    && (kind == IFLA_OPERSTATE ==> a.Holds(1))
  }

  ghost function U32Of(found: Option<Attr>): u32 {
    if found.Some? && found.value.Holds(4) then found.value.U32() else 0
  }

  ghost function NameOf(found: Option<Attr>): ifname {
    if found.Some? && |found.value.Str()| < IF_NAMESIZE then found.value.Str() else []
  }

  ghost function MacOf(found: Option<Attr>): EthAddr {
    if found.Some? && found.value.Holds(6) then found.value.data[..6] else NO_MAC
  }

  ghost function ByteOf(found: Option<Attr>): byte {
    if found.Some? && found.value.Holds(1) then found.value.data[0] else 0
  }

  ghost predicate Given(f: Found, s: InfoState, k: nat) {
    if k == NAME then f.name.Some?
    else if k == HWADDR then f.mac.Some?
    else if k == MTU then f.mtu.Some?
    else if k == MTU_MIN then f.mtuMin.Some?
    else if k == MTU_MAX then f.mtuMax.Some?
    else if k == MASTER then f.master.Some?
    else if k == STATE then f.state.Some?
    else if k == PARENT then f.parent.Some? || s.hasParent
    else if k == INFO then s.has
    else k in HEADER_PROPS
  }

  /** IFLA_LINK wins over the parent the kind-specific part suggests. */
  ghost function LinkFrom(h: IfInfoMsg, f: Found, s: InfoState): Link {
    NewLink(h).(
      props := (set k: nat | k < MAX && Given(f, s, k)),
      name := NameOf(f.name), mac := MacOf(f.mac), mtu := U32Of(f.mtu), mtuMin := U32Of(f.mtuMin),
      mtuMax := U32Of(f.mtuMax), master := U32Of(f.master), state := ByteOf(f.state),
      parent := if f.parent.Some? then U32Of(f.parent) else s.parent, info := s.info)
  }

  /** Only the IFLA_LINKINFO attributes, each read as a nest. */
  ghost function InfoOnly(s: InfoState, a: Attr): Option<InfoState> {
    if a.Kind() == IFLA_LINKINFO then LinkNest.ReadNest(s, Parse(a.data)) else Some(s)
  }

  ghost function Lookup(h: IfInfoMsg, attrs: seq<Attr>): Option<Link> {
    var s := Fold(NO_STATE, attrs, InfoOnly);
    if s.None? || exists a | a in attrs :: !Acceptable(a) then None
    else Some(LinkFrom(h, Find(attrs), s.value))
  }

  ghost function Replace(f: Found, a: Attr): Found {
    var kind := a.Kind();
    if kind == IFLA_IFNAME then f.(name := Some(a))
    else if kind == IFLA_ADDRESS then f.(mac := Some(a))
    else if kind == IFLA_MTU then f.(mtu := Some(a))
    else if kind == IFLA_MIN_MTU then f.(mtuMin := Some(a))
    else if kind == IFLA_MAX_MTU then f.(mtuMax := Some(a))
    else if kind == IFLA_MASTER then f.(master := Some(a))
    else if kind == IFLA_OPERSTATE then f.(state := Some(a))
    else if kind == IFLA_LINK then f.(parent := Some(a))
    else f
  }

  lemma FindSnoc(attrs: seq<Attr>, a: Attr)
    ensures Find(attrs + [a]) == Replace(Find(attrs), a)
  {
    LastSnoc(attrs, a, OfKind(IFLA_IFNAME));
    LastSnoc(attrs, a, OfKind(IFLA_ADDRESS));
    LastSnoc(attrs, a, OfKind(IFLA_MTU));
    LastSnoc(attrs, a, OfKind(IFLA_MIN_MTU));
    LastSnoc(attrs, a, OfKind(IFLA_MAX_MTU));
    LastSnoc(attrs, a, OfKind(IFLA_MASTER));
    LastSnoc(attrs, a, OfKind(IFLA_OPERSTATE));
    LastSnoc(attrs, a, OfKind(IFLA_LINK));
  }

  /** The property an attribute kind sets. */
  function PropOf(kind: nat): nat {
    if kind == IFLA_IFNAME then NAME
    else if kind == IFLA_ADDRESS then HWADDR
    else if kind == IFLA_MTU then MTU
    else if kind == IFLA_MIN_MTU then MTU_MIN
    else if kind == IFLA_MAX_MTU then MTU_MAX
    else if kind == IFLA_MASTER then MASTER
    else if kind == IFLA_OPERSTATE then STATE
    else if kind == IFLA_LINK then PARENT
    else MAX
  }

  lemma GivenReplaced(f: Found, s: InfoState, a: Attr, k: nat)
    requires k < MAX
    ensures Given(Replace(f, a), s, k) <==> Given(f, s, k) || k == PropOf(a.Kind())
  {
  }

  lemma PropsReplaced(h: IfInfoMsg, f: Found, s: InfoState, a: Attr)
    ensures PropOf(a.Kind()) < MAX ==>
      LinkFrom(h, Replace(f, a), s).props == LinkFrom(h, f, s).props + {PropOf(a.Kind())}
  {
    forall k: nat | k < MAX {
      GivenReplaced(f, s, a, k);
    }
  }

  lemma MtuStepReplaces(h: IfInfoMsg, f: Found, s: InfoState, a: Attr)
    requires a.Kind() in {IFLA_MTU, IFLA_MIN_MTU, IFLA_MAX_MTU, IFLA_MASTER}
    ensures Step(LinkFrom(h, f, s), a) == if Acceptable(a) then Some(LinkFrom(h, Replace(f, a), s)) else None
  {
    PropsReplaced(h, f, s, a);
  }

  /** A scalar attribute replaces what is known of its property and nothing else. */
  lemma ScalarStepReplaces(h: IfInfoMsg, f: Found, s: InfoState, a: Attr)
    requires a.Kind() != IFLA_LINKINFO
    ensures Step(LinkFrom(h, f, s), a) == if Acceptable(a) then Some(LinkFrom(h, Replace(f, a), s)) else None
  {
    if a.Kind() in {IFLA_MTU, IFLA_MIN_MTU, IFLA_MAX_MTU, IFLA_MASTER} {
      MtuStepReplaces(h, f, s, a);
    } else {
      PropsReplaced(h, f, s, a);
    }
  }

  lemma WithInfo(h: IfInfoMsg, f: Found, s: InfoState, t: InfoState)
    requires Above(s, t)
    ensures LinkFrom(h, f, s).With(if f.parent.Some? then Pin(t, U32Of(f.parent)) else t) == LinkFrom(h, f, t)
  {
    var l := LinkFrom(h, f, s).With(if f.parent.Some? then Pin(t, U32Of(f.parent)) else t);
    forall k: nat
      ensures k in l.props <==> k < MAX && Given(f, t, k)
    {
      assert k in LinkFrom(h, f, s).props <==> k < MAX && Given(f, s, k);
    }
    assert l.props == LinkFrom(h, f, t).props;
  }

  /** IFLA_LINKINFO is decoded as if no IFLA_LINK had come before. */
  lemma InfoStepReplaces(h: IfInfoMsg, f: Found, s: InfoState, a: Attr)
    requires a.Kind() == IFLA_LINKINFO
    ensures var next := InfoAttr(s, a.data);
      Step(LinkFrom(h, f, s), a) == if next.None? then None else Some(LinkFrom(h, f, next.value))
  {
    InfoAttrAbove(s, a.data);
    if f.parent.Some? {
      assert LinkFrom(h, f, s).State() == Pin(s, U32Of(f.parent));
      InfoAttrPinned(s, a.data, U32Of(f.parent));
    } else {
      assert LinkFrom(h, f, s).State() == s;
    }
    if InfoAttr(s, a.data).Some? {
      WithInfo(h, f, s, InfoAttr(s, a.data).value);
    }
  }

  lemma NothingFound(h: IfInfoMsg)
    ensures LinkFrom(h, Find([]), NO_STATE) == NewLink(h)
  {
    assert LinkFrom(h, Find([]), NO_STATE).props == HEADER_PROPS;
  }

  lemma {:induction false} FoldIsLookup(h: IfInfoMsg, attrs: seq<Attr>)
    ensures Fold(NewLink(h), attrs, Step) == Lookup(h, attrs)
    decreases |attrs|
  {
    hide LinkNest.ReadNest;
    if attrs == [] {
      NothingFound(h);
    } else {
      var init, a := attrs[..|attrs| - 1], attrs[|attrs| - 1];
      assert attrs == init + [a];
      FoldIsLookup(h, init);
      FoldSnoc(NewLink(h), init, a, Step);
      FoldSnoc(NO_STATE, init, a, InfoOnly);
      FindSnoc(init, a);
      assert forall x :: x in attrs <==> x in init || x == a;
      var s := Fold(NO_STATE, init, InfoOnly);
      if s.Some? {
        if a.Kind() == IFLA_LINKINFO {
          LinkNest.NestIsRead(s.value, a.data);
          InfoStepReplaces(h, Find(init), s.value, a);
        } else {
          ScalarStepReplaces(h, Find(init), s.value, a);
        }
      }
    }
  }

  /**
   * The link decoder's loop is the lookup: every scalar from the last attribute of its
   * kind, the kind-specific part from the IFLA_LINKINFO attributes alone, and the parent
   * from IFLA_LINK when there is one, before or after IFLA_LINKINFO.
   */
  lemma DecodeIsLookup(p: Packet)
    requires IsLinkType(p.nlType) && Readable(p)
    ensures Decode(p) == var l := Lookup(p.body.tmpl.ifm, Parse(p.body.attrs));
                         if l.None? then Rejected else Accepted(l.value)
  {
    FoldIsLookup(p.body.tmpl.ifm, Parse(p.body.attrs));
  }

  // ----- What a decoded link satisfies -----

  /** The kind is a known one, and a parent without IFLA_LINK comes from an XFRM interface only. */
  ghost predicate Explained(s: InfoState) {
    && (s.has ==> s.info.kind < KIND_MAX)
    && (s.hasParent ==> s.has && s.info.kind == KIND_XFRM && XFRM_IFINDEX in s.info.props)
  }

  lemma KindDataExplained(s: InfoState, kind: Option<nat>, data: bytes)
    requires Explained(s)
    ensures KindData(s, kind, data).Some? ==> Explained(KindData(s, kind, data).value)
  {
    if kind == Some(KIND_VLAN) {
      FoldKeeps(s, Parse(data), VlanStep, (t: InfoState) => Explained(t));
    } else if kind == Some(KIND_XFRM) {
      FoldKeeps(s, Parse(data), XfrmStep, (t: InfoState) => Explained(t));
    } else if kind == Some(KIND_TUN) {
      FoldKeeps(TunScan(s, {}), Parse(data), TunStep, (t: TunScan) => Explained(t.state));
    }
  }

  lemma InfoAttrExplained(s: InfoState, data: bytes)
    requires Explained(s)
    ensures InfoAttr(s, data).Some? ==> Explained(InfoAttr(s, data).value)
  {
    var start := Scanned(s, None, None);
    FoldKeeps(start, Parse(data), InfoStep, (i: InfoScan) => Explained(i.state));
    var i := Fold(start, Parse(data), InfoStep);
    if i.Some? && i.value.Scanned? && i.value.data.Some? {
      KindDataExplained(i.value.state, i.value.kind, i.value.data.value);
    }
  }

  lemma {:induction false} InfoOnlyKeeps(attrs: seq<Attr>)
    ensures var s := Fold(NO_STATE, attrs, InfoOnly);
      s.Some? ==> s.value.Consistent() && Explained(s.value)
    decreases |attrs|
  {
    hide LinkNest.ReadNest, InfoAttr;
    if attrs != [] {
      var init, a := attrs[..|attrs| - 1], attrs[|attrs| - 1];
      assert attrs == init + [a];
      InfoOnlyKeeps(init);
      FoldSnoc(NO_STATE, init, a, InfoOnly);
      var s := Fold(NO_STATE, init, InfoOnly);
      if s.Some? {
        LinkNest.NestIsRead(s.value, a.data);
        InfoAttrAbove(s.value, a.data);
        InfoAttrExplained(s.value, a.data);
      }
    }
  }

  lemma FromConsistent(h: IfInfoMsg, f: Found, s: InfoState)
    requires s.Consistent() && Explained(s)
    ensures var q := LinkFrom(h, f, s);
      q.Consistent() && HEADER_PROPS <= q.props && (INFO in q.props ==> q.info.kind < KIND_MAX)
  {
    AllFlagsMatter();
  }

  /** Every link the decoder delivers satisfies what the setters keep, and its kind is a known one. */
  lemma DecodedConsistent(p: Packet)
    requires Readable(p) && Decode(p).Accepted?
    ensures var q := Decode(p).record;
      q.Consistent() && HEADER_PROPS <= q.props && (INFO in q.props ==> q.info.kind < KIND_MAX)
  {
    var h, attrs := p.body.tmpl.ifm, Parse(p.body.attrs);
    FoldIsLookup(h, attrs);
    InfoOnlyKeeps(attrs);
    FromConsistent(h, Find(attrs), Fold(NO_STATE, attrs, InfoOnly).value);
  }

  // ----- Where the parent comes from -----

  /** The attributes of one kind, in order. */
  function Select(attrs: seq<Attr>, kind: nat): seq<Attr> {
    if attrs == [] then []
    else
      var init, a := attrs[..|attrs| - 1], attrs[|attrs| - 1];
      if a.Kind() == kind then Select(init, kind) + [a] else Select(init, kind)
  }

  /** Whether IFLA_LINKINFO names a kind the library does not know; its data is then left alone. */
  predicate HasUnknownKind(attrs: seq<Attr>) {
    exists a | a in attrs :: a.Kind() == IFLA_INFO_KIND && KindOfName(a.Str()).None?
  }

  /** The kind IFLA_LINKINFO names: the last one, if any. */
  function KindIn(attrs: seq<Attr>): Option<nat> {
    var found := Last(attrs, IFLA_INFO_KIND);
    if found.None? then None else KindOfName(found.value.Str())
  }

  function DataIn(attrs: seq<Attr>): Option<bytes> {
    var found := Last(attrs, IFLA_INFO_DATA);
    if found.None? then None else Some(found.value.data)
  }

  /** The underlying interfaces inside IFLA_LINKINFO: those of its last data, when its kind is XFRM. */
  function Underlying(attrs: seq<Attr>): seq<Attr> {
    if !HasUnknownKind(attrs) && KindIn(attrs) == Some(KIND_XFRM) && DataIn(attrs).Some?
    then Select(Parse(DataIn(attrs).value), IFLA_XFRM_LINK)
    else []
  }

  /** All underlying interfaces of a message, in order. */
  function AllUnderlying(attrs: seq<Attr>): seq<Attr> {
    if attrs == [] then []
    else
      var init, a := attrs[..|attrs| - 1], attrs[|attrs| - 1];
      AllUnderlying(init) + if a.Kind() == IFLA_LINKINFO then Underlying(Parse(a.data)) else []
  }

  /** What a run of underlying interfaces leaves: the first one as the parent, the last one as itself. */
  ghost predicate ParentFrom(s: InfoState, t: InfoState, all: seq<Attr>) {
    if all == [] then
      t.hasParent == s.hasParent && t.parent == s.parent && t.info.xfrmIfIndex == s.info.xfrmIfIndex
    else
      && all[0].Holds(4) && all[|all| - 1].Holds(4) && t.hasParent
      && t.parent == (if s.hasParent then s.parent else all[0].U32())
      && t.info.xfrmIfIndex == all[|all| - 1].U32()
  }

  lemma ParentChains(s: InfoState, t: InfoState, u: InfoState, first: seq<Attr>, second: seq<Attr>)
    requires ParentFrom(s, t, first) && ParentFrom(t, u, second)
    ensures ParentFrom(s, u, first + second)
  {
    if first == [] {
      assert first + second == second;
    } else if second == [] {
      assert first + second == first;
    }
  }

  lemma XfrmStepParent(t: InfoState, a: Attr)
    requires t.has && t.info.kind == KIND_XFRM && XfrmStep(t, a).Some?
    ensures ParentFrom(t, XfrmStep(t, a).value, if a.Kind() == IFLA_XFRM_LINK then [a] else [])
  {
  }

  /**
   * Repeated underlying interfaces: the first one stays the parent, the last one is
   * recorded as the underlying interface.
   */
  lemma {:induction false} XfrmParentIsFirst(s: InfoState, attrs: seq<Attr>)
    requires s.has && s.info.kind == KIND_XFRM && Fold(s, attrs, XfrmStep).Some?
    ensures ParentFrom(s, Fold(s, attrs, XfrmStep).value, Select(attrs, IFLA_XFRM_LINK))
    decreases |attrs|
  {
    hide XfrmStep;
    if attrs != [] {
      var init, a := attrs[..|attrs| - 1], attrs[|attrs| - 1];
      assert attrs == init + [a];
      FoldSnoc(s, init, a, XfrmStep);
      XfrmParentIsFirst(s, init);
      XfrmKindStays(s, init);
      var t := Fold(s, init, XfrmStep).value;
      XfrmStepParent(t, a);
      ParentChains(s, t, XfrmStep(t, a).value, Select(init, IFLA_XFRM_LINK),
                   if a.Kind() == IFLA_XFRM_LINK then [a] else []);
    }
  }

  lemma XfrmKindStays(s: InfoState, attrs: seq<Attr>)
    requires s.has && s.info.kind == KIND_XFRM
    ensures var t := Fold(s, attrs, XfrmStep); t.Some? ==> t.value.has && t.value.info.kind == KIND_XFRM
  {
    FoldKeeps(s, attrs, XfrmStep, (t: InfoState) => t.has && t.info.kind == KIND_XFRM);
  }

  /** Nothing but the underlying interface of an XFRM link touches the parent. */
  ghost predicate SameParent(s: InfoState, t: InfoState) {
    ParentFrom(s, t, [])
  }

  lemma KindDataParent(s: InfoState, kind: Option<nat>, data: bytes)
    requires kind == Some(KIND_XFRM) ==> s.has && s.info.kind == KIND_XFRM
    requires KindData(s, kind, data).Some?
    ensures ParentFrom(s, KindData(s, kind, data).value,
                       if kind == Some(KIND_XFRM) then Select(Parse(data), IFLA_XFRM_LINK) else [])
  {
    if kind == Some(KIND_VLAN) {
      FoldKeeps(s, Parse(data), VlanStep, (t: InfoState) => SameParent(s, t));
    } else if kind == Some(KIND_XFRM) {
      XfrmParentIsFirst(s, Parse(data));
    } else if kind == Some(KIND_TUN) {
      FoldKeeps(TunScan(s, {}), Parse(data), TunStep, (t: TunScan) => SameParent(s, t.state));
    }
  }

  /** The loop over IFLA_LINKINFO reads the last kind and the last data, unless it meets an unknown kind. */
  lemma {:induction false} ScanIsLookup(s: InfoState, attrs: seq<Attr>)
    requires Fold(Scanned(s, None, None), attrs, InfoStep).Some?
    ensures var i := Fold(Scanned(s, None, None), attrs, InfoStep).value;
      && SameParent(s, i.state)
      && (if HasUnknownKind(attrs) then i.Unknown?
          else i.Scanned? && i.kind == KindIn(attrs) && i.data == DataIn(attrs)
               && (i.kind.Some? ==> i.state.has && i.state.info.kind == i.kind.value))
    decreases |attrs|
  {
    hide KindOfName;
    if attrs != [] {
      var init, a := attrs[..|attrs| - 1], attrs[|attrs| - 1];
      assert attrs == init + [a];
      FoldSnoc(Scanned(s, None, None), init, a, InfoStep);
      ScanIsLookup(s, init);
      LastSnoc(init, a, OfKind(IFLA_INFO_KIND));
      LastSnoc(init, a, OfKind(IFLA_INFO_DATA));
      assert forall x :: x in attrs <==> x in init || x == a;
    }
  }

  lemma InfoAttrParent(s: InfoState, data: bytes)
    requires InfoAttr(s, data).Some?
    ensures ParentFrom(s, InfoAttr(s, data).value, Underlying(Parse(data)))
  {
    ScanIsLookup(s, Parse(data));
    var i := Fold(Scanned(s, None, None), Parse(data), InfoStep).value;
    if i.Scanned? && i.data.Some? {
      KindDataParent(i.state, i.kind, i.data.value);
      ParentChains(s, i.state, InfoAttr(s, data).value, [], Underlying(Parse(data)));
      assert [] + Underlying(Parse(data)) == Underlying(Parse(data));
    }
  }

  lemma {:induction false} InfoOnlyParent(attrs: seq<Attr>)
    requires Fold(NO_STATE, attrs, InfoOnly).Some?
    ensures ParentFrom(NO_STATE, Fold(NO_STATE, attrs, InfoOnly).value, AllUnderlying(attrs))
    decreases |attrs|
  {
    hide InfoAttr, Underlying, LinkNest.ReadNest;
    if attrs != [] {
      var init, a := attrs[..|attrs| - 1], attrs[|attrs| - 1];
      assert attrs == init + [a];
      FoldSnoc(NO_STATE, init, a, InfoOnly);
      InfoOnlyParent(init);
      if a.Kind() == IFLA_LINKINFO {
        var s := Fold(NO_STATE, init, InfoOnly).value;
        LinkNest.NestIsRead(s, a.data);
        InfoAttrParent(s, a.data);
        ParentChains(NO_STATE, s, InfoAttr(s, a.data).value, AllUnderlying(init), Underlying(Parse(a.data)));
      }
    }
  }

  lemma FromParent(h: IfInfoMsg, f: Found, s: InfoState)
    requires s.Consistent() && Explained(s)
    ensures var q := LinkFrom(h, f, s);
      && q.info == s.info
      && (f.parent.Some? ==> PARENT in q.props && q.parent == U32Of(f.parent))
      && (f.parent.None? ==>
            && q.parent == s.parent && (PARENT in q.props <==> s.hasParent)
            && (PARENT in q.props <==> INFO in q.props && q.info.kind == KIND_XFRM && XFRM_IFINDEX in q.info.props))
  {
  }

  /**
   * The parent is the last IFLA_LINK.  Without one it is the first underlying interface of
   * an XFRM link, and set exactly when there is one; the last underlying interface is the
   * one the link records.
   */
  ghost predicate ParentExact(q: Link, link: Option<Attr>, all: seq<Attr>) {
    && (link.Some? ==> PARENT in q.props && link.value.Holds(4) && q.parent == link.value.U32())
    && (link.None? ==>
          && (PARENT in q.props <==> all != [])
          && (PARENT in q.props <==> INFO in q.props && q.info.kind == KIND_XFRM && XFRM_IFINDEX in q.info.props)
          && (PARENT in q.props ==> all[0].Holds(4) && q.parent == all[0].U32()))
    && (all != [] ==> all[|all| - 1].Holds(4) && q.info.xfrmIfIndex == all[|all| - 1].U32())
  }

  lemma ParentRule(p: Packet)
    requires Readable(p) && Decode(p).Accepted?
    ensures var attrs := Parse(p.body.attrs);
      ParentExact(Decode(p).record, Last(attrs, IFLA_LINK), AllUnderlying(attrs))
  {
    var h, attrs := p.body.tmpl.ifm, Parse(p.body.attrs);
    hide Decode, Fold, Parse, AllUnderlying, LinkFrom, InfoOnly, Explained;
    DecodeIsLookup(p);
    InfoOnlyKeeps(attrs);
    InfoOnlyParent(attrs);
    LastIsMember(attrs, OfKind(IFLA_LINK));
    assert Last(attrs, IFLA_LINK).Some? ==> Acceptable(Last(attrs, IFLA_LINK).value);
    FromParent(h, Find(attrs), Fold(NO_STATE, attrs, InfoOnly).value);
  }

  /** No attribute kind repeats, at any of the three levels. */
  ghost predicate NoRepeats(attrs: seq<Attr>) {
    && DistinctKinds(attrs)
    && forall a | a in attrs && a.Kind() == IFLA_LINKINFO ::
         && DistinctKinds(Parse(a.data))
         && forall d | d in Parse(a.data) && d.Kind() == IFLA_INFO_DATA :: DistinctKinds(Parse(d.data))
  }

  lemma {:induction false} SelectOne(attrs: seq<Attr>, kind: nat)
    requires DistinctKinds(attrs)
    ensures |Select(attrs, kind)| <= 1
    ensures (forall a | a in attrs :: a.Kind() != kind) ==> Select(attrs, kind) == []
    decreases |attrs|
  {
    if attrs != [] {
      var n := |attrs| - 1;
      assert attrs == attrs[..n] + [attrs[n]];
      SelectOne(attrs[..n], kind);
    }
  }

  lemma UnderlyingOne(attrs: seq<Attr>)
    requires forall d | d in attrs && d.Kind() == IFLA_INFO_DATA :: DistinctKinds(Parse(d.data))
    ensures |Underlying(attrs)| <= 1
  {
    LastIsMember(attrs, OfKind(IFLA_INFO_DATA));
    if DataIn(attrs).Some? {
      SelectOne(Parse(DataIn(attrs).value), IFLA_XFRM_LINK);
    }
  }

  lemma {:induction false} AllUnderlyingOne(attrs: seq<Attr>)
    requires NoRepeats(attrs)
    ensures |AllUnderlying(attrs)| <= 1
    ensures (forall a | a in attrs :: a.Kind() != IFLA_LINKINFO) ==> AllUnderlying(attrs) == []
    decreases |attrs|
  {
    hide Underlying;
    if attrs != [] {
      var n := |attrs| - 1;
      assert attrs == attrs[..n] + [attrs[n]];
      AllUnderlyingOne(attrs[..n]);
      if attrs[n].Kind() == IFLA_LINKINFO {
        UnderlyingOne(Parse(attrs[n].data));
      }
    }
  }

  lemma OneParent(q: Link, all: seq<Attr>)
    requires ParentExact(q, None, all) && |all| <= 1
    ensures PARENT in q.props ==> q.parent == q.info.xfrmIfIndex
  {
  }

  /** Without IFLA_LINK and without repetitions, the parent is the underlying interface of the link itself. */
  lemma ParentIsUnderlying(p: Packet)
    requires Readable(p) && Decode(p).Accepted? && NoRepeats(Parse(p.body.attrs))
    requires Last(Parse(p.body.attrs), IFLA_LINK).None?
    ensures PARENT in Decode(p).record.props ==> Decode(p).record.parent == Decode(p).record.info.xfrmIfIndex
  {
    var attrs := Parse(p.body.attrs);
    hide Decode, Parse, AllUnderlying, NoRepeats, ParentExact, LastWhere;
    ParentRule(p);
    AllUnderlyingOne(attrs);
    OneParent(Decode(p).record, AllUnderlying(attrs));
  }

  // ----- Order independence -----

  lemma InfoOnlyCommutes()
    ensures Commutes(InfoOnly)
  {
    hide LinkNest.ReadNest;
  }

  lemma FindPermuted(a: seq<Attr>, b: seq<Attr>)
    requires DistinctKinds(a) && multiset(a) == multiset(b)
    ensures Find(a) == Find(b)
  {
    LastPermuted(a, b, IFLA_IFNAME, OfKind(IFLA_IFNAME));
    LastPermuted(a, b, IFLA_ADDRESS, OfKind(IFLA_ADDRESS));
    LastPermuted(a, b, IFLA_MTU, OfKind(IFLA_MTU));
    LastPermuted(a, b, IFLA_MIN_MTU, OfKind(IFLA_MIN_MTU));
    LastPermuted(a, b, IFLA_MAX_MTU, OfKind(IFLA_MAX_MTU));
    LastPermuted(a, b, IFLA_MASTER, OfKind(IFLA_MASTER));
    LastPermuted(a, b, IFLA_OPERSTATE, OfKind(IFLA_OPERSTATE));
    LastPermuted(a, b, IFLA_LINK, OfKind(IFLA_LINK));
  }

  /** The same attributes in some order, no kind twice. */
  ghost predicate Shuffled(a: seq<Attr>, b: seq<Attr>) {
    DistinctKinds(a) && multiset(a) == multiset(b)
  }

  lemma FoldShuffled(h: IfInfoMsg, a: seq<Attr>, b: seq<Attr>)
    requires Shuffled(a, b)
    ensures Fold(NewLink(h), a, Step) == Fold(NewLink(h), b, Step)
  {
    FoldIsLookup(h, a);
    FoldIsLookup(h, b);
    InfoOnlyCommutes();
    FoldPermuted(NO_STATE, a, b, InfoOnly);
    FindPermuted(a, b);
    SameMembers(a, b);
  }

  /** Attributes of pairwise different kinds may come in any order. */
  lemma DecodeIgnoresOrder(nlType: u16, h: IfInfoMsg, a: seq<Attr>, b: seq<Attr>)
    requires IsLinkType(nlType) && Shuffled(a, b)
    ensures Decode(Packet(nlType, false, Typed(LinkTemplate(h), EncodeAttrs(a))))
         == Decode(Packet(nlType, false, Typed(LinkTemplate(h), EncodeAttrs(b))))
  {
    ParseEncode(a);
    ParseEncode(b);
    FoldShuffled(h, a, b);
  }

  lemma InfoStepsCommute()
    ensures Commutes(InfoStep)
  {
    forall i: InfoScan, a: Attr, b: Attr | a.Kind() != b.Kind()
      ensures Bind(InfoStep(i, a), b, InfoStep) == Bind(InfoStep(i, b), a, InfoStep)
    {
      if a.Kind() == IFLA_INFO_KIND && b.Kind() == IFLA_INFO_DATA {
        KindAndData(i, a, b);
      } else if b.Kind() == IFLA_INFO_KIND && a.Kind() == IFLA_INFO_DATA {
        KindAndData(i, b, a);
      }
    }
  }

  lemma KindAndData(i: InfoScan, a: Attr, b: Attr)
    requires a.Kind() == IFLA_INFO_KIND && b.Kind() == IFLA_INFO_DATA
    ensures Bind(InfoStep(i, a), b, InfoStep) == Bind(InfoStep(i, b), a, InfoStep)
  {
  }

  lemma ScanShuffled(s: InfoState, a: seq<Attr>, b: seq<Attr>)
    requires Shuffled(a, b)
    ensures Fold(Scanned(s, None, None), a, InfoStep) == Fold(Scanned(s, None, None), b, InfoStep)
  {
    InfoStepsCommute();
    FoldPermuted(Scanned(s, None, None), a, b, InfoStep);
  }

  /** Inside IFLA_LINKINFO too: the kind may come before or after the data it explains. */
  lemma InfoAttrIgnoresOrder(s: InfoState, x: bytes, y: bytes)
    requires Shuffled(Parse(x), Parse(y))
    ensures InfoAttr(s, x) == InfoAttr(s, y)
  {
    ScanShuffled(s, Parse(x), Parse(y));
  }

  lemma VlanStepsCommute()
    ensures Commutes(VlanStep)
  {
  }

  lemma XfrmSettersCommute(s: InfoState, x: u32, y: u32)
    ensures var p, q := s.SetXfrmIfindex(x), s.SetXfrmId(y);
      p.Some? == q.Some? && (p.Some? ==> p.value.SetXfrmId(y) == q.value.SetXfrmIfindex(x))
  {
    var p := s.info.props;
    assert p + {XFRM_IFINDEX} + {XFRM_ID} == p + {XFRM_ID} + {XFRM_IFINDEX};
  }

  lemma XfrmStepsCommute()
    ensures Commutes(XfrmStep)
  {
    forall s: InfoState, a: Attr, b: Attr | a.Kind() != b.Kind()
      ensures Bind(XfrmStep(s, a), b, XfrmStep) == Bind(XfrmStep(s, b), a, XfrmStep)
    {
      if a.Holds(4) && b.Holds(4) {
        XfrmSettersCommute(s, a.U32(), b.U32());
        XfrmSettersCommute(s, b.U32(), a.U32());
      }
    }
  }

  lemma TunSettersCommute(s: InfoState, uid: u32, gid: u32, t: byte)
    ensures var p, q, r := s.SetTunUid(uid), s.SetTunGid(gid), s.SetTunType(t);
      && (p.Some? && q.Some? ==> p.value.SetTunGid(gid) == q.value.SetTunUid(uid))
      && (p.Some? ==> p.value.SetTunType(t).Some? == r.Some?)
      && (q.Some? ==> q.value.SetTunType(t).Some? == r.Some?)
      && (p.Some? && r.Some? ==> p.value.SetTunType(t) == r.value.SetTunUid(uid))
      && (q.Some? && r.Some? ==> q.value.SetTunType(t) == r.value.SetTunGid(gid))
      && p.Some? == q.Some? && (r.Some? ==> p.Some?)
  {
    var p := s.info.props;
    assert p + {TUN_UID} + {TUN_GID} == p + {TUN_GID} + {TUN_UID};
    assert p + {TUN_UID} + {TUN_TYPE} == p + {TUN_TYPE} + {TUN_UID};
    assert p + {TUN_GID} + {TUN_TYPE} == p + {TUN_TYPE} + {TUN_GID};
    assert p + {TUN_UID} - {TUN_TYPE} == p - {TUN_TYPE} + {TUN_UID};
    assert p + {TUN_GID} - {TUN_TYPE} == p - {TUN_TYPE} + {TUN_GID};
  }

  /** What a valid TUN attribute does to the record, and which ones only collect a flag. */
  function TunSet(s: InfoState, a: Attr): Option<InfoState> {
    if a.Kind() == IFLA_TUN_OWNER then if a.Holds(4) then s.SetTunUid(a.U32()) else None
    else if a.Kind() == IFLA_TUN_GROUP then if a.Holds(4) then s.SetTunGid(a.U32()) else None
    else if a.Kind() == IFLA_TUN_TYPE then if a.Holds(1) then s.SetTunType(a.data[0]) else None
    else Some(s)
  }

  function TunCollect(flags: flags32, a: Attr): Option<flags32> {
    if TunFlag(a.Kind()).None? then Some(flags)
    else if !a.Holds(1) then None
    else Some(if a.data[0] != 0 then flags + {TunFlag(a.Kind()).value} else flags)
  }

  lemma TunStepSplits(t: TunScan, a: Attr)
    ensures TunStep(t, a) ==
      var s, f := TunSet(t.state, a), TunCollect(t.flags, a);
      if s.None? || f.None? then None else Some(TunScan(s.value, f.value))
  {
  }

  lemma TunSetCommutes(s: InfoState, a: Attr, b: Attr)
    requires a.Kind() != b.Kind()
    ensures Bind(TunSet(s, a), b, TunSet) == Bind(TunSet(s, b), a, TunSet)
  {
    var x: u32, y: u32 := if a.Holds(4) then a.U32() else 0, if b.Holds(4) then b.U32() else 0;
    var t: byte := if a.Kind() == IFLA_TUN_TYPE then (if a.Holds(1) then a.data[0] else 0)
                   else if b.Holds(1) then b.data[0] else 0;
    TunSettersCommute(s, x, y, t);
    TunSettersCommute(s, y, x, t);
  }

  lemma TunCollectCommutes(f: flags32, a: Attr, b: Attr)
    ensures Bind(TunCollect(f, a), b, TunCollect) == Bind(TunCollect(f, b), a, TunCollect)
  {
    var x, y := TunFlag(a.Kind()), TunFlag(b.Kind());
    if x.Some? && y.Some? {
      assert f + {x.value} + {y.value} == f + {y.value} + {x.value};
    }
  }

  lemma TunStepsCommute()
    ensures Commutes(TunStep)
  {
    forall t: TunScan, a: Attr, b: Attr | a.Kind() != b.Kind()
      ensures Bind(TunStep(t, a), b, TunStep) == Bind(TunStep(t, b), a, TunStep)
    {
      TunPair(t, a, b);
    }
  }

  lemma TunPair(t: TunScan, a: Attr, b: Attr)
    requires a.Kind() != b.Kind()
    ensures Bind(TunStep(t, a), b, TunStep) == Bind(TunStep(t, b), a, TunStep)
  {
    TunSetCommutes(t.state, a, b);
    TunCollectCommutes(t.flags, a, b);
    TunStepSplits(t, a);
    TunStepSplits(t, b);
    if TunStep(t, a).Some? {
      TunStepSplits(TunStep(t, a).value, b);
    }
    if TunStep(t, b).Some? {
      TunStepSplits(TunStep(t, b).value, a);
    }
  }

  /** And inside IFLA_INFO_DATA. */
  lemma KindDataIgnoresOrder(s: InfoState, kind: Option<nat>, x: bytes, y: bytes)
    requires Shuffled(Parse(x), Parse(y))
    ensures KindData(s, kind, x) == KindData(s, kind, y)
  {
    if kind == Some(KIND_VLAN) {
      VlanStepsCommute();
      FoldPermuted(s, Parse(x), Parse(y), VlanStep);
    } else if kind == Some(KIND_XFRM) {
      XfrmStepsCommute();
      FoldPermuted(s, Parse(x), Parse(y), XfrmStep);
    } else if kind == Some(KIND_TUN) {
      TunStepsCommute();
      FoldPermuted(TunScan(s, {}), Parse(x), Parse(y), TunStep);
    }
  }

  // ----- Order at all three levels at once -----

  /** Equal, or IFLA_INFO_DATA attributes with the same content in another order. */
  ghost predicate SameData(x: Attr, y: Attr) {
    x == y || (x.Kind() == y.Kind() == IFLA_INFO_DATA && Shuffled(Parse(x.data), Parse(y.data)))
  }

  ghost predicate AllSameData(a: seq<Attr>, b: seq<Attr>) {
    |a| == |b| && forall i | 0 <= i < |a| :: SameData(a[i], b[i])
  }

  /** Equal, or IFLA_LINKINFO attributes whose content differs in order only, at both inner levels. */
  ghost predicate SameInfo(x: Attr, y: Attr) {
    || x == y
    || (&& x.Kind() == y.Kind() == IFLA_LINKINFO
        && exists middle :: AllSameData(Parse(x.data), middle) && Shuffled(middle, Parse(y.data)))
  }

  ghost predicate AllSameInfo(a: seq<Attr>, b: seq<Attr>) {
    |a| == |b| && forall i | 0 <= i < |a| :: SameInfo(a[i], b[i])
  }

  /** The messages differ in the order of attributes only, at all three levels. */
  ghost predicate SameUpToOrder(a: seq<Attr>, b: seq<Attr>) {
    exists middle :: AllSameInfo(a, middle) && Shuffled(middle, b)
  }

  /** Scans that differ in the order inside the data only. */
  ghost predicate SameScan(i: Option<InfoScan>, j: Option<InfoScan>) {
    || i == j
    || (&& i.Some? && j.Some? && i.value.Scanned? && j.value.Scanned?
        && i.value.state == j.value.state && i.value.kind == j.value.kind
        && i.value.data.Some? && j.value.data.Some?
        && Shuffled(Parse(i.value.data.value), Parse(j.value.data.value)))
  }

  lemma SameScanStep(i: InfoScan, j: InfoScan, x: Attr, y: Attr)
    requires SameScan(Some(i), Some(j)) && SameData(x, y)
    ensures SameScan(InfoStep(i, x), InfoStep(j, y))
  {
  }

  lemma {:induction false} SameScans(i: InfoScan, a: seq<Attr>, b: seq<Attr>)
    requires AllSameData(a, b)
    ensures SameScan(Fold(i, a, InfoStep), Fold(i, b, InfoStep))
    decreases |a|
  {
    hide InfoStep, SameData;
    if a != [] {
      var n := |a| - 1;
      assert a == a[..n] + [a[n]] && b == b[..n] + [b[n]];
      SameScans(i, a[..n], b[..n]);
      FoldSnoc(i, a[..n], a[n], InfoStep);
      FoldSnoc(i, b[..n], b[n], InfoStep);
      var x, y := Fold(i, a[..n], InfoStep), Fold(i, b[..n], InfoStep);
      if x.Some? {
        SameScanStep(x.value, y.value, a[n], b[n]);
      }
    }
  }

  lemma SameResult(i: Option<InfoScan>, j: Option<InfoScan>)
    requires SameScan(i, j)
    ensures i.Some? == j.Some? && (i.Some? ==> InfoResult(i.value) == InfoResult(j.value))
  {
    if i != j {
      KindDataIgnoresOrder(i.value.state, i.value.kind, i.value.data.value, j.value.data.value);
    }
  }

  lemma InfoAttrSame(s: InfoState, x: Attr, y: Attr)
    requires SameInfo(x, y)
    ensures InfoAttr(s, x.data) == InfoAttr(s, y.data)
  {
    hide Shuffled, AllSameData, SameScan, InfoResult, InfoStep, Parse, Fold;
    if x != y {
      var middle :| AllSameData(Parse(x.data), middle) && Shuffled(middle, Parse(y.data));
      var start := Scanned(s, None, None);
      SameScans(start, Parse(x.data), middle);
      ScanShuffled(s, middle, Parse(y.data));
      SameResult(Fold(start, Parse(x.data), InfoStep), Fold(start, middle, InfoStep));
    }
  }

  lemma StepSame(l: Link, x: Attr, y: Attr)
    requires SameInfo(x, y)
    ensures Step(l, x) == Step(l, y)
  {
    hide SameInfo, InfoAttr;
    InfoAttrSame(l.State(), x, y);
    SameInfoKind(x, y);
  }

  lemma SameInfoKind(x: Attr, y: Attr)
    requires SameInfo(x, y)
    ensures x == y || x.Kind() == y.Kind() == IFLA_LINKINFO
  {
  }

  lemma {:induction false} StepsSame(l: Link, a: seq<Attr>, b: seq<Attr>)
    requires AllSameInfo(a, b)
    ensures Fold(l, a, Step) == Fold(l, b, Step)
    decreases |a|
  {
    hide Step, SameInfo;
    if a != [] {
      StepSame(l, a[0], b[0]);
      if Step(l, a[0]).Some? {
        StepsSame(Step(l, a[0]).value, a[1..], b[1..]);
      }
    }
  }

  /** Messages that differ in the order of attributes only, at all three levels, decode alike. */
  lemma DecodeIgnoresEveryOrder(p: Packet, q: Packet)
    requires IsLinkType(p.nlType) && q.nlType == p.nlType && Readable(p) && Readable(q)
    requires q.body.tmpl == p.body.tmpl && SameUpToOrder(Parse(p.body.attrs), Parse(q.body.attrs))
    ensures Decode(p) == Decode(q)
  {
    var h, a, b := p.body.tmpl.ifm, Parse(p.body.attrs), Parse(q.body.attrs);
    var middle :| AllSameInfo(a, middle) && Shuffled(middle, b);
    StepsSame(NewLink(h), a, middle);
    FoldShuffled(h, middle, b);
  }
}
