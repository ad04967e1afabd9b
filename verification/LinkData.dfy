/** Link messages: nested encoding and decoding (src/rtnl/link_data.c and its kind-specific parts). */
module LinkData {
  import opened Bits
  import opened Wire
  import opened Tlv
  import opened Comparison
  import opened NlMessage
  import opened Link

  const RTM_NEWLINK: u16 := 16
  const RTM_DELLINK: u16 := 17
  const RTM_GETLINK: u16 := 18
  const RTM_SETLINK: u16 := 19

  const IFLA_ADDRESS: nat := 1
  const IFLA_IFNAME: nat := 3
  const IFLA_MTU: nat := 4
  const IFLA_LINK: nat := 5
  const IFLA_MASTER: nat := 10
  const IFLA_OPERSTATE: nat := 16
  const IFLA_LINKINFO: nat := 18
  const IFLA_MIN_MTU: nat := 50
  const IFLA_MAX_MTU: nat := 51
  const IFLA_MAX: nat := 60

  const IFLA_INFO_KIND: nat := 1
  const IFLA_INFO_DATA: nat := 2

  const IFLA_VLAN_ID: nat := 1
  const IFLA_XFRM_LINK: nat := 1
  const IFLA_XFRM_IF_ID: nat := 2
  const IFLA_TUN_OWNER: nat := 1
  const IFLA_TUN_GROUP: nat := 2
  const IFLA_TUN_TYPE: nat := 3
  const IFLA_TUN_PI: nat := 4
  const IFLA_TUN_VNET_HDR: nat := 5
  const IFLA_TUN_PERSIST: nat := 6
  const IFLA_TUN_MULTI_QUEUE: nat := 7

  predicate IsLinkType(t: u16) {
    t == RTM_NEWLINK || t == RTM_DELLINK || t == RTM_GETLINK || t == RTM_SETLINK
  }

  /** Properties that travel in struct ifinfomsg: the decoder always sets them. */
  const HEADER_PROPS: set<nat> := {FAMILY, TYPE, INDEX, FLAGS}

  // ----- Kind names -----

  const BRIDGE: cstring := [98, 114, 105, 100, 103, 101]
  const VLAN: cstring := [118, 108, 97, 110]
  const BOND: cstring := [98, 111, 110, 100]
  const TUN: cstring := [116, 117, 110]
  const XFRM: cstring := [120, 102, 114, 109]

  /** info_kinds */
  function KindName(kind: nat): (s: cstring)
    requires kind < KIND_MAX
    ensures 0 < |s| <= 6
  {
    if kind == KIND_BR then BRIDGE
    else if kind == KIND_VLAN then VLAN
    else if kind == KIND_BOND then BOND
    else if kind == KIND_TUN then TUN
    else XFRM
  }

  /** The first kind from i on with the given name. */
  function KindFrom(name: cstring, i: nat): (found: Option<nat>)
    ensures found.Some? ==> found.value < KIND_MAX
    decreases KIND_MAX - i
  {
    if i >= KIND_MAX then None
    else if name == KindName(i) then Some(i)
    else KindFrom(name, i + 1)
  }

  function KindOfName(name: cstring): (found: Option<nat>)
    ensures found.Some? ==> found.value < KIND_MAX
  {
    KindFrom(name, 0)
  }

  /** Names and kinds correspond one to one. */
  lemma KindNames(kind: nat)
    requires kind < KIND_MAX
    ensures KindOfName(KindName(kind)) == Some(kind)
  {
    assert forall i: nat | i < KIND_MAX && i != kind :: KindName(i) != KindName(kind) by {
      assert BRIDGE[0] == 98 && BOND[0] == 98 && BRIDGE[1] == 114 && BOND[1] == 111;
      assert VLAN[0] == 118 && TUN[0] == 116 && XFRM[0] == 120;
    }
    KindSearch(KindName(kind), kind, 0);
  }

  lemma {:induction false} KindSearch(name: cstring, kind: nat, i: nat)
    requires i <= kind < KIND_MAX && name == KindName(kind)
    requires forall j: nat | j < KIND_MAX && j != kind :: KindName(j) != name
    ensures KindFrom(name, i) == Some(kind)
    decreases kind - i
  {
    if i < kind {
      KindSearch(name, kind, i + 1);
    }
  }

  // ----- Encoding -----

  /** The kind-specific attributes; TUN devices have none to write. */
  function InfoData(info: Info): seq<Attr> {
    if info.kind == KIND_VLAN then
      if VLAN_ID in info.props then [Attr(IFLA_VLAN_ID, LE2(info.vlanId))] else []
    else if info.kind == KIND_XFRM then
      (if XFRM_ID in info.props then [Attr(IFLA_XFRM_IF_ID, LE4(info.xfrmId))] else [])
      + (if XFRM_IFINDEX in info.props then [Attr(IFLA_XFRM_LINK, LE4(info.xfrmIfIndex))] else [])
    else []
  }

  lemma InfoDataSize(info: Info)
    ensures |EncodeAttrs(InfoData(info))| <= 16 && |EncodeAttrs(InfoData(info))| % 4 == 0
  {
    var attrs := InfoData(info);
    EncodedSize(attrs);
    if |attrs| == 1 {
      EncodeOne(attrs[0]);
    } else if |attrs| == 2 {
      EncodeTwo(attrs[0], attrs[1]);
      assert attrs == [attrs[0], attrs[1]];
    }
  }

  /** The content of IFLA_LINKINFO. */
  function InfoAttrs(info: Info): seq<Attr>
    requires info.kind < KIND_MAX
  {
    InfoDataSize(info);
    [Attr(IFLA_INFO_KIND, KindName(info.kind)), Attr(NLA_F_NESTED + IFLA_INFO_DATA, EncodeAttrs(InfoData(info)))]
  }

  lemma InfoAttrsSize(info: Info)
    requires info.kind < KIND_MAX
    ensures |EncodeAttrs(InfoAttrs(info))| <= 32 && |EncodeAttrs(InfoAttrs(info))| % 4 == 0
  {
    InfoDataSize(info);
    var attrs := InfoAttrs(info);
    EncodeTwo(attrs[0], attrs[1]);
    EncodedSize(attrs);
  }

  function LinkInfo(info: Info): Attr
    requires info.kind < KIND_MAX
  {
    InfoAttrsSize(info);
    Attr(NLA_F_NESTED + IFLA_LINKINFO, EncodeAttrs(InfoAttrs(info)))
  }

  /** struct ifinfomsg after the properties below n. */
  function Header(l: Link, n: nat): IfInfoMsg {
    IfInfoMsg(if FAMILY < n && FAMILY in l.props then l.family else 0,
              if TYPE < n && TYPE in l.props then l.ltype else 0,
              if INDEX < n && INDEX in l.props then l.index else 0,
              if FLAGS < n && FLAGS in l.props then l.flags else {},
              if FLAGS < n && FLAGS in l.props then l.flagMask else {})
  }

  /** The attribute property k contributes; the MTU limits are read-only and never written. */
  function AttrOf(l: Link, k: nat): Option<Attr> {
    if k !in l.props then None
    else if k == NAME then Some(Attr(IFLA_IFNAME, l.name))
    else if k == HWADDR then Some(Attr(IFLA_ADDRESS, l.mac))
    else if k == MTU then Some(Attr(IFLA_MTU, LE4(l.mtu)))
    else if k == MASTER then Some(Attr(IFLA_MASTER, LE4(l.master)))
    else if k == STATE then Some(Attr(IFLA_OPERSTATE, LE4(l.state)))
    else if k == PARENT then Some(Attr(IFLA_LINK, LE4(l.parent)))
    else if k == INFO && l.info.kind < KIND_MAX then Some(LinkInfo(l.info))
    else None
  }

  function AttrsOf(l: Link): nat -> Option<Attr> {
    (k: nat) => AttrOf(l, k)
  }

  function Encode(l: Link, nlType: u16): Packet {
    Packet(nlType, false, Typed(LinkTemplate(Header(l, MAX)), EncodeAttrs(Emit(MAX, AttrsOf(l)))))
  }

  // ----- Decoding the kind-specific part -----

  function VlanStep(s: InfoState, a: Attr): Option<InfoState> {
    if a.Kind() == IFLA_VLAN_ID then
      // read as four bytes, kept as two
      if a.Holds(2) then s.SetVlanId(LoadU32(a.data) % 0x1_0000) else None
    else Some(s)
  }

  function XfrmStep(s: InfoState, a: Attr): Option<InfoState> {
    if a.Kind() == IFLA_XFRM_LINK then
      if a.Holds(4) then s.SetXfrmIfindex(a.U32()) else None
    else if a.Kind() == IFLA_XFRM_IF_ID then
      if a.Holds(4) then s.SetXfrmId(a.U32()) else None
    else Some(s)
  }

  /** The TUN loop collects flags on the side and stores them at the end. */
  datatype TunScan = TunScan(state: InfoState, flags: flags32)

  /** The flag a boolean TUN attribute stands for. */
  function TunFlag(kind: nat): Option<bit> {
    if kind == IFLA_TUN_PI then Some(0)
    else if kind == IFLA_TUN_VNET_HDR then Some(1)
    else if kind == IFLA_TUN_PERSIST then Some(2)
    else if kind == IFLA_TUN_MULTI_QUEUE then Some(3)
    else None
  }

  function TunWith(t: TunScan, s: Option<InfoState>): Option<TunScan> {
    if s.None? then None else Some(t.(state := s.value))
  }

  function TunStep(t: TunScan, a: Attr): Option<TunScan> {
    var kind := a.Kind();
    if kind == IFLA_TUN_OWNER then
      if a.Holds(4) then TunWith(t, t.state.SetTunUid(a.U32())) else None
    else if kind == IFLA_TUN_GROUP then
      if a.Holds(4) then TunWith(t, t.state.SetTunGid(a.U32())) else None
    else if kind == IFLA_TUN_TYPE then
      if a.Holds(1) then TunWith(t, t.state.SetTunType(a.data[0])) else None
    else if TunFlag(kind).Some? then
      if !a.Holds(1) then None
      else if a.data[0] != 0 then Some(t.(flags := t.flags + {TunFlag(kind).value}))
      else Some(t)
    else Some(t)
  }

  function TunData(s: InfoState, data: bytes): Option<InfoState> {
    var t := Fold(TunScan(s, {}), Parse(data), TunStep);
    if t.None? then None else t.value.state.SetTunFlags(t.value.flags)
  }

  /** The content of IFLA_INFO_DATA, once the kind is known. */
  function KindData(s: InfoState, kind: Option<nat>, data: bytes): Option<InfoState> {
    if kind == Some(KIND_VLAN) then Fold(s, Parse(data), VlanStep)
    else if kind == Some(KIND_XFRM) then Fold(s, Parse(data), XfrmStep)
    else if kind == Some(KIND_TUN) then TunData(s, data)
    else if kind == Some(KIND_BR) || kind == Some(KIND_BOND) then Some(s)
    else None
  }

  /** The loop over IFLA_LINKINFO: an unknown kind ends it, and the data is kept for later. */
  datatype InfoScan =
    | Unknown(state: InfoState)
    | Scanned(state: InfoState, kind: Option<nat>, data: Option<bytes>)

  function InfoStep(i: InfoScan, a: Attr): Option<InfoScan> {
    if i.Unknown? then Some(i)
    else if a.Kind() == IFLA_INFO_KIND then
      var kind := KindOfName(a.Str());
      if !a.IsString() then None
      else if kind.None? then Some(Unknown(i.state))
      else
        var s := i.state.SetKind(kind.value);
        if s.None? then None else Some(i.(state := s.value, kind := kind))
    else if a.Kind() == IFLA_INFO_DATA then Some(i.(data := Some(a.data)))
    else Some(i)
  }

  function InfoResult(i: InfoScan): Option<InfoState> {
    if i.Unknown? || i.data.None? then Some(i.state)
    else KindData(i.state, i.kind, i.data.value)
  }

  function InfoAttr(s: InfoState, data: bytes): Option<InfoState> {
    var i := Fold(Scanned(s, None, None), Parse(data), InfoStep);
    if i.None? then None else InfoResult(i.value)
  }

  // ----- Decoding a link -----

  function NewLink(h: IfInfoMsg): Link {
    NEW.(props := HEADER_PROPS, flags := h.flags, flagMask := ALL_FLAGS, index := h.index,
         ltype := h.itype, family := h.family)
  }

  /** One round of the attribute loop. */
  function Step(l: Link, a: Attr): Option<Link> {
    var kind := a.Kind();
    if kind > IFLA_MAX then Some(l)
    else if kind == IFLA_MTU then if a.Holds(4) then l.SetU32(MTU, a.U32()) else None
    else if kind == IFLA_MIN_MTU then if a.Holds(4) then l.SetU32(MTU_MIN, a.U32()) else None
    else if kind == IFLA_MAX_MTU then if a.Holds(4) then l.SetU32(MTU_MAX, a.U32()) else None
    else if kind == IFLA_IFNAME then if a.IsString() then l.SetName(a.Str()) else None
    else if kind == IFLA_ADDRESS then if a.Holds(6) then Some(l.SetMac(a.data[..6])) else None
    else if kind == IFLA_LINK then if a.Holds(4) then l.SetU32(PARENT, a.U32()) else None
    else if kind == IFLA_OPERSTATE then if a.Holds(1) then l.SetU8(STATE, a.data[0]) else None
    else if kind == IFLA_MASTER then if a.Holds(4) then l.SetU32(MASTER, a.U32()) else None
    else if kind == IFLA_LINKINFO then l.Lift(InfoAttr(l.State(), a.data))
    else Some(l)
  }

  predicate Readable(p: Packet) {
    IsLinkType(p.nlType) ==> p.body.Typed? && p.body.tmpl.LinkTemplate?
  }

  function Decode(p: Packet): Decoded<Link>
    requires Readable(p)
  {
    if !IsLinkType(p.nlType) then Rejected
    else
      var l := Fold(NewLink(p.body.tmpl.ifm), Parse(p.body.attrs), Step);
      if l.None? then Rejected else Accepted(l.value)
  }

  lemma AttrFits(l: Link)
    ensures forall k: nat | AttrsOf(l)(k).Some? :: Align(AttrsOf(l)(k).value.NlaLen()) <= 36
  {
    forall k: nat | AttrsOf(l)(k).Some?
      ensures Align(AttrsOf(l)(k).value.NlaLen()) <= 36
    {
      if k == INFO {
        InfoAttrsSize(l.info);
      }
    }
  }
}
