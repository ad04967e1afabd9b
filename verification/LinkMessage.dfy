/** Link messages byte by byte, and what they do: to an interface when sent, to a record when received. */
module LinkMessage {
  import opened Bits
  import opened Wire
  import opened Tlv
  import opened Contents
  import opened NlMessage
  import opened Link
  import opened LinkData
  import opened LinkNest
  import LinkLookup

  // ----- Sending -----

  /** The kind-specific attributes. */
  function DataBytes(info: Info): bytes {
    if info.kind == KIND_VLAN then
      if VLAN_ID in info.props then [6, 0, 1, 0] + Bytes2(info.vlanId) + [0, 0] else []
    else if info.kind == KIND_XFRM then
      (if XFRM_ID in info.props then [8, 0, 2, 0] + Bytes4(info.xfrmId) else [])
      + (if XFRM_IFINDEX in info.props then [8, 0, 1, 0] + Bytes4(info.xfrmIfIndex) else [])
    else []
  }

  /** The kind by its name, and the nest of its attributes. */
  function NestBytes(info: Info): (s: bytes)
    requires info.kind < KIND_MAX
    ensures |s| <= 32
  {
    Block(1, KindName(info.kind)) + Block(0x8002, DataBytes(info))
  }

  lemma OneIsBytes(a: Attr)
    requires |a.data| < 0x100 - 4
    ensures EncodeAttrs([a]) == Block(a.wire, a.data)
  {
    EncodeOne(a);
    EncodedIsBlock(a);
  }

  lemma DataIsBytes(info: Info)
    ensures EncodeAttrs(InfoData(info)) == DataBytes(info)
  {
    LowByteFirst(info.vlanId, info.xfrmId);
    LowByteFirst(0, info.xfrmIfIndex);
    hide EncodeAttr, LE4, LE2, Bytes4, Bytes2, EncodeAttrs;
    var vlan, id := Attr(IFLA_VLAN_ID, LE2(info.vlanId)), Attr(IFLA_XFRM_IF_ID, LE4(info.xfrmId));
    var index := Attr(IFLA_XFRM_LINK, LE4(info.xfrmIfIndex));
    OneIsBytes(vlan);
    OneIsBytes(id);
    OneIsBytes(index);
    EncodeAppend([id], [index]);
    NothingEncoded();
    hide Block;
    BlocksOfTwo(info);
    assert [] + [index] == [index] && [id] + [] == [id];
  }

  lemma NothingEncoded()
    ensures EncodeAttrs([]) == []
  {
  }

  /** The attributes of two and of four bytes, spelled out. */
  lemma BlocksOfTwo(info: Info)
    ensures Block(1, Bytes2(info.vlanId)) == [6, 0, 1, 0] + Bytes2(info.vlanId) + [0, 0]
    ensures Block(2, Bytes4(info.xfrmId)) == [8, 0, 2, 0] + Bytes4(info.xfrmId)
    ensures Block(1, Bytes4(info.xfrmIfIndex)) == [8, 0, 1, 0] + Bytes4(info.xfrmIfIndex)
  {
  }

  lemma NestIsBytes(info: Info)
    requires info.kind < KIND_MAX
    ensures EncodeAttr(LinkInfo(info)) == Block(0x8012, NestBytes(info))
  {
    InfoDataSize(info);
    InfoAttrsSize(info);
    DataIsBytes(info);
    var attrs := InfoAttrs(info);
    hide EncodeAttr, InfoData, DataBytes, KindName, EncodeAttrs;
    EncodeTwo(attrs[0], attrs[1]);
    EncodedIsBlock(attrs[0]);
    EncodedIsBlock(attrs[1]);
    assert attrs == [attrs[0], attrs[1]];
    EncodedIsBlock(LinkInfo(info));
  }

  /** The attribute of a property: its length, its type, its value. */
  function BlockOf(l: Link, k: nat): bytes {
    if k !in l.props then []
    else if k == NAME then Block(3, l.name)
    else if k == HWADDR then [10, 0, 1, 0] + l.mac + [0, 0]
    else if k == MTU then [8, 0, 4, 0] + Bytes4(l.mtu)
    else if k == MASTER then [8, 0, 10, 0] + Bytes4(l.master)
    else if k == STATE then [8, 0, 16, 0] + Bytes4(l.state)
    else if k == PARENT then [8, 0, 5, 0] + Bytes4(l.parent)
    else if k == INFO && l.info.kind < KIND_MAX then Block(0x8012, NestBytes(l.info))
    else []
  }

  lemma AttrIsBlock(l: Link, k: nat)
    ensures BlockOf(l, k) == if AttrOf(l, k).Some? then EncodeAttr(AttrOf(l, k).value) else []
  {
    if AttrOf(l, k).Some? {
      hide EncodeAttr, LE4, LinkInfo, NestBytes, Bytes4;
      if k == INFO {
        NestIsBytes(l.info);
      } else {
        EncodedIsBlock(AttrOf(l, k).value);
        LowByteFirst(0, l.mtu);
        LowByteFirst(0, l.master);
        LowByteFirst(0, l.state);
        LowByteFirst(0, l.parent);
      }
    }
  }

  /** What the getters give is what is sent: in the struct, or as one attribute each, in property order. */
  lemma Sent(l: Link, nlType: u16)
    ensures var m := Encode(l, nlType).body.tmpl.ifm;
      && m.family == NumberOr0(l.Get(FAMILY)) && m.itype == NumberOr0(l.Get(TYPE))
      && m.index == NumberOr0(l.Get(INDEX))
      && m.flags == (if FLAGS in l.props then l.flags else {})
      && m.change == (if FLAGS in l.props then l.flagMask else {})
    ensures Encode(l, nlType).nlType == nlType
    ensures Encode(l, nlType).body.attrs == Blocks(MAX, (k: nat) => BlockOf(l, k))
  {
    forall k: nat {
      AttrIsBlock(l, k);
    }
    hide EncodeAttr, BlockOf, AttrOf;
    EmittedIsBlocks(MAX, AttrsOf(l), (k: nat) => BlockOf(l, k));
  }

  /**
   * What the message does to an interface with the given flags: a flag some call selected
   * becomes what the last such call said, and every other flag stays as it was.
   */
  lemma SwitchesAsCalled(ops: seq<Op>, nlType: u16, was: flags32)
    ensures var m := Encode(Run(ops), nlType).body.tmpl.ifm;
      var becomes := (was - m.change) + m.flags * m.change;
      forall f: bit :: f in becomes <==> if FlagOf(ops, f).Some? then FlagOf(ops, f).value else f in was
  {
    var l := Run(ops);
    RunConsistent(ops);
    var m := Encode(l, nlType).body.tmpl.ifm;
    hide Run, Encode, FlagOf;
    var becomes := (was - m.change) + m.flags * m.change;
    forall f: bit
      ensures f in becomes <==> if FlagOf(ops, f).Some? then FlagOf(ops, f).value else f in was
    {
      FlagsAreMap(ops, f);
    }
  }

  // ----- Receiving -----

  /** What the nests of a message say, one after the other. */
  ghost function NestsOf(attrs: seq<Attr>): Option<InfoState> {
    Fold(NO_STATE, attrs, LinkLookup.InfoOnly)
  }

  /** The attributes found are as long as they have to be. */
  predicate LongEnough(f: LinkLookup.Found) {
    && (f.name.Some? ==> |f.name.value.Str()| <= 15) && Long(f.mac, 6)
    && Long(f.mtu, 4) && Long(f.mtuMin, 4) && Long(f.mtuMax, 4) && Long(f.master, 4) && Long(f.parent, 4)
    && Long(f.state, 1)
  }

  lemma FoundNumbers(h: IfInfoMsg, f: LinkLookup.Found, s: InfoState)
    requires LongEnough(f)
    ensures var q := LinkLookup.LinkFrom(h, f, s);
      && q.Get(FAMILY) == Some(Number(h.family)) && q.Get(TYPE) == Some(Number(h.itype))
      && q.Get(INDEX) == Some(Number(h.index)) && q.Get(FLAGS) == Some(Flags(h.flags, ALL_FLAGS))
      && q.Get(MTU) == NumberIn(f.mtu) && q.Get(MTU_MIN) == NumberIn(f.mtuMin)
      && q.Get(MTU_MAX) == NumberIn(f.mtuMax) && q.Get(MASTER) == NumberIn(f.master)
      && q.Get(STATE) == ByteIn(f.state)
  {
    hide CStr;
    Read4(f.mtu);
    Read4(f.mtuMin);
    Read4(f.mtuMax);
    Read4(f.master);
    hide FromLE4, Number4;
  }

  lemma Read4(found: Option<Attr>)
    ensures found.Some? && |found.value.data| >= 4 ==> FromLE4(found.value.data) == Number4(found.value.data)
  {
  }

  lemma FoundOthers(h: IfInfoMsg, f: LinkLookup.Found, s: InfoState)
    requires LongEnough(f)
    ensures var q := LinkLookup.LinkFrom(h, f, s);
      && q.Get(NAME) == TextIn(f.name, 15) && Cut(q.Get(HWADDR), 6) == BytesIn(f.mac, 6)
      && q.Get(PARENT) == (if f.parent.Some? then NumberIn(f.parent)
                           else if s.hasParent then Some(Number(s.parent)) else None)
      && q.Get(INFO) == (if s.has then Some(Number(s.info.kind)) else None) && q.info == s.info
  {
    hide CStr;
    Read4(f.parent);
    hide FromLE4, Number4;
    assert f.mac.Some? ==> f.mac.value.data[..6][..6] == f.mac.value.data[..6];
  }

  lemma AcceptedFound(attrs: seq<Attr>)
    requires forall a | a in attrs :: LinkLookup.Acceptable(a)
    ensures LongEnough(LinkLookup.Find(attrs))
  {
    LastIsMember(attrs, OfKind(IFLA_IFNAME));
    LastIsMember(attrs, OfKind(IFLA_ADDRESS));
    LastIsMember(attrs, OfKind(IFLA_MTU));
    LastIsMember(attrs, OfKind(IFLA_MIN_MTU));
    LastIsMember(attrs, OfKind(IFLA_MAX_MTU));
    LastIsMember(attrs, OfKind(IFLA_MASTER));
    LastIsMember(attrs, OfKind(IFLA_OPERSTATE));
    LastIsMember(attrs, OfKind(IFLA_LINK));
  }

  /**
   * What is received is what the getters give: from the struct, from the last attribute of
   * its type, and of the kind from the nests.
   */
  lemma Delivered(p: Packet)
    requires IsLinkType(p.nlType) && Readable(p) && Decode(p).Accepted?
    ensures NestsOf(Parse(p.body.attrs)).Some?
    ensures var q, h, attrs := Decode(p).record, p.body.tmpl.ifm, Parse(p.body.attrs);
      && q.Get(FAMILY) == Some(Number(h.family)) && q.Get(TYPE) == Some(Number(h.itype))
      && q.Get(INDEX) == Some(Number(h.index)) && q.Get(FLAGS) == Some(Flags(h.flags, ALL_FLAGS))
      && q.Get(NAME) == TextIn(Last(attrs, IFLA_IFNAME), 15)
      && Cut(q.Get(HWADDR), 6) == BytesIn(Last(attrs, IFLA_ADDRESS), 6)
      && q.Get(MTU) == NumberIn(Last(attrs, IFLA_MTU)) && q.Get(MTU_MIN) == NumberIn(Last(attrs, IFLA_MIN_MTU))
      && q.Get(MTU_MAX) == NumberIn(Last(attrs, IFLA_MAX_MTU)) && q.Get(MASTER) == NumberIn(Last(attrs, IFLA_MASTER))
      && q.Get(STATE) == ByteIn(Last(attrs, IFLA_OPERSTATE))
    ensures var q, attrs := Decode(p).record, Parse(p.body.attrs);
      var s := NestsOf(attrs).value;
      && q.Get(PARENT) == (if Last(attrs, IFLA_LINK).Some? then NumberIn(Last(attrs, IFLA_LINK))
                           else if s.hasParent then Some(Number(s.parent)) else None)
      && q.Get(INFO) == (if s.has then Some(Number(s.info.kind)) else None) && q.info == s.info
  {
    var h, attrs := p.body.tmpl.ifm, Parse(p.body.attrs);
    LinkLookup.DecodeIsLookup(p);
    hide Decode, Parse, Last, LinkLookup.LinkFrom, LinkLookup.InfoOnly, Fold;
    AcceptedFound(attrs);
    hide LongEnough;
    FoundNumbers(h, LinkLookup.Find(attrs), NestsOf(attrs).value);
    FoundOthers(h, LinkLookup.Find(attrs), NestsOf(attrs).value);
  }

  /** What the decoder refuses: short attributes, names that are empty or too long, and nests. */
  lemma Refused(p: Packet)
    requires IsLinkType(p.nlType) && Readable(p)
    ensures !Decode(p).Skipped?
    ensures var attrs := Parse(p.body.attrs);
      Decode(p).Rejected? <==>
        || NestsOf(attrs).None?
        || exists a | a in attrs ::
             || (a.Kind() in {IFLA_MTU, IFLA_MIN_MTU, IFLA_MAX_MTU, IFLA_MASTER, IFLA_LINK} && |a.data| < 4)
             || (a.Kind() == IFLA_IFNAME && (a.data == [] || |a.Str()| > 15))
             || (a.Kind() == IFLA_ADDRESS && |a.data| < 6) || (a.Kind() == IFLA_OPERSTATE && a.data == [])
  {
    LinkLookup.DecodeIsLookup(p);
    hide Decode, Parse, Fold, LinkLookup.InfoOnly, LinkLookup.LinkFrom;
  }

  // ----- A message with one nest -----

  /** Attribute i is the only IFLA_LINKINFO. */
  ghost predicate OnlyNest(attrs: seq<Attr>, i: nat) {
    i < |attrs| && forall j | 0 <= j < |attrs| :: attrs[j].Kind() == IFLA_LINKINFO <==> j == i
  }

  lemma OneNest(attrs: seq<Attr>, i: nat)
    requires OnlyNest(attrs, i)
    ensures NestsOf(attrs) == ReadNest(NO_STATE, Parse(attrs[i].data))
  {
    var before, a, after := attrs[..i], attrs[i], attrs[i + 1..];
    hide ReadNest;
    assert attrs == before + ([a] + after);
    FoldJoins(NO_STATE, before, [a] + after, LinkLookup.InfoOnly);
    FoldIdle(NO_STATE, before, LinkLookup.InfoOnly);
    FoldCons(NO_STATE, a, after, LinkLookup.InfoOnly);
    var s := LinkLookup.InfoOnly(NO_STATE, a);
    if s.Some? {
      FoldIdle(s.value, after, LinkLookup.InfoOnly);
    }
  }

  lemma {:induction false} FoldJoins<R>(r: R, a: seq<Attr>, b: seq<Attr>, step: (R, Attr) -> Option<R>)
    ensures Fold(r, a + b, step) == FoldOn(Fold(r, a, step), b, step)
    decreases |a|
  {
    if a == [] {
      assert a + b == b;
    } else {
      assert a + b == [a[0]] + (a[1..] + b);
      FoldCons(r, a[0], a[1..] + b, step);
      if step(r, a[0]).Some? {
        FoldJoins(step(r, a[0]).value, a[1..], b, step);
      }
    }
  }

  /** The nest names the kind, throughout, and has data. */
  ghost predicate SaysKind(nest: seq<Attr>, kind: nat) {
    && kind < KIND_MAX && Last(nest, IFLA_INFO_DATA).Some? && FirstWhere(nest, OfKind(IFLA_INFO_KIND)).Some?
    && forall a | a in nest && a.Kind() == IFLA_INFO_KIND :: a.data != [] && a.Str() == KindName(kind)
  }

  lemma KindSaid(nest: seq<Attr>, kind: nat)
    requires SaysKind(nest, kind)
    ensures ReadNest(NO_STATE, nest)
      == ReadData(Named(NO_STATE, kind), Parse(Last(nest, IFLA_INFO_DATA).value.data))
  {
    hide KindOfName, ReadData, Parse, Last, FirstWhere;
    FirstIsMember(nest, OfKind(IFLA_INFO_KIND));
    FirstIsMember(nest, Odd(Some(kind)));
    KindNamed(KindName(kind), kind);
  }

  lemma LongVlan(data: seq<Attr>)
    requires !Any(data, VlanShort())
    ensures Long(Last(data, IFLA_VLAN_ID), 2)
  {
    LastIsMember(data, OfKind(IFLA_VLAN_ID));
  }

  /** The attributes inside the data of the nest at i; none where there is no data. */
  ghost function DataOf(p: Packet, i: nat): seq<Attr>
    requires p.body.Typed?
  {
    var attrs := Parse(p.body.attrs);
    if i >= |attrs| then []
    else
      var found := Last(Parse(attrs[i].data), IFLA_INFO_DATA);
      if found.None? then [] else Parse(found.value.data)
  }

  lemma DataDelivered(p: Packet, i: nat, kind: nat)
    requires IsLinkType(p.nlType) && Readable(p) && Decode(p).Accepted? && OnlyNest(Parse(p.body.attrs), i)
    requires SaysKind(Parse(Parse(p.body.attrs)[i].data), kind)
    ensures !DataBad(kind, DataOf(p, i))
    ensures ReadData(Named(NO_STATE, kind), DataOf(p, i)).Some?
    ensures var s := ReadData(Named(NO_STATE, kind), DataOf(p, i)).value;
      && Decode(p).record.info == s.info && s.has && s.info.kind == kind
      && Decode(p).record.Get(INFO) == Some(Number(kind))
  {
    Delivered(p);
    OneNest(Parse(p.body.attrs), i);
    KindSaid(Parse(Parse(p.body.attrs)[i].data), kind);
    hide Decode, Parse, Last, ReadNest, OnlyNest, SaysKind, NestsOf, DataBad;
    DataKept(Named(NO_STATE, kind), DataOf(p, i));
  }

  lemma DataKept(t: InfoState, attrs: seq<Attr>)
    requires t.has && ReadData(t, attrs).Some?
    ensures ReadData(t, attrs).value.has && ReadData(t, attrs).value.info.kind == t.info.kind
  {
    hide Any, FlagsSet;
  }

  lemma LongXfrm(data: seq<Attr>)
    requires !Any(data, XfrmShort())
    ensures XfrmFind(data).Valid()
  {
    LastIsMember(data, OfKind(IFLA_XFRM_LINK));
    LastIsMember(data, OfKind(IFLA_XFRM_IF_ID));
    FirstIsMember(data, OfKind(IFLA_XFRM_LINK));
  }

  lemma LongTun(data: seq<Attr>)
    requires !Any(data, TunBad())
    ensures TunFind(data).Valid()
  {
    LastIsMember(data, OfKind(IFLA_TUN_OWNER));
    LastIsMember(data, OfKind(IFLA_TUN_GROUP));
    LastIsMember(data, OfKind(IFLA_TUN_TYPE));
  }

  lemma VlanData(data: seq<Attr>)
    requires !DataBad(KIND_VLAN, data)
    ensures var info, id := ReadData(Named(NO_STATE, KIND_VLAN), data).value.info, Last(data, IFLA_VLAN_ID);
      && (id.None? ==> VLAN_ID !in info.props)
      && (id.Some? ==> |id.value.data| >= 2 && Bytes2(info.vlanId) == id.value.data[..2] && VLAN_ID in info.props)
  {
    LongVlan(data);
    hide Any, Last;
  }

  /** A VLAN: the id is in the last attribute of type 1, low byte first. */
  lemma VlanDelivered(p: Packet, i: nat)
    requires IsLinkType(p.nlType) && Readable(p) && Decode(p).Accepted? && OnlyNest(Parse(p.body.attrs), i)
    requires SaysKind(Parse(Parse(p.body.attrs)[i].data), KIND_VLAN)
    ensures var q, id := Decode(p).record, Last(DataOf(p, i), IFLA_VLAN_ID);
      && q.Get(INFO) == Some(Number(KIND_VLAN))
      && (id.None? ==> VLAN_ID !in q.info.props)
      && (id.Some? ==> |id.value.data| >= 2 && Bytes2(q.info.vlanId) == id.value.data[..2] && VLAN_ID in q.info.props)
  {
    DataDelivered(p, i, KIND_VLAN);
    hide Decode, DataOf, OnlyNest, SaysKind, Last, Parse, ReadData, DataBad, Bytes2;
    VlanData(DataOf(p, i));
  }

  lemma XfrmData(data: seq<Attr>)
    requires !DataBad(KIND_XFRM, data)
    ensures var info := ReadData(Named(NO_STATE, KIND_XFRM), data).value.info;
      && InfoGet(info, XFRM_ID) == NumberIn(Last(data, IFLA_XFRM_IF_ID))
      && InfoGet(info, XFRM_IFINDEX) == NumberIn(Last(data, IFLA_XFRM_LINK))
  {
    LongXfrm(data);
    Read4(Last(data, IFLA_XFRM_IF_ID));
    Read4(Last(data, IFLA_XFRM_LINK));
    hide Any, Last, FromLE4, Number4, FirstWhere;
  }

  /** An XFRM link: the id is in the last attribute of type 2, the underlying interface in the last one of type 1. */
  lemma XfrmDelivered(p: Packet, i: nat)
    requires IsLinkType(p.nlType) && Readable(p) && Decode(p).Accepted? && OnlyNest(Parse(p.body.attrs), i)
    requires SaysKind(Parse(Parse(p.body.attrs)[i].data), KIND_XFRM)
    ensures var q, data := Decode(p).record, DataOf(p, i);
      && q.Get(INFO) == Some(Number(KIND_XFRM))
      && InfoGet(q.info, XFRM_ID) == NumberIn(Last(data, IFLA_XFRM_IF_ID))
      && InfoGet(q.info, XFRM_IFINDEX) == NumberIn(Last(data, IFLA_XFRM_LINK))
  {
    DataDelivered(p, i, KIND_XFRM);
    hide Decode, DataOf, OnlyNest, SaysKind, Last, Parse, ReadData, DataBad, InfoGet, NumberIn;
    XfrmData(DataOf(p, i));
  }

  /** The boolean attribute of a flag occurs with a byte other than zero. */
  ghost predicate Switched(data: seq<Attr>, f: bit) {
    f < 4 && exists a :: a in data && a.Kind() == IFLA_TUN_PI + f && a.data != [] && a.data[0] != 0
  }

  lemma SwitchedSet(data: seq<Attr>, f: bit)
    ensures f in FlagsSet(data) <==> Switched(data, f)
  {
    if f < 4 {
      assert Any(data, Sets(f)) <==> exists a :: a in data && Sets(f)(a);
    }
  }

  lemma TunData(data: seq<Attr>)
    requires !DataBad(KIND_TUN, data)
    ensures var info, ttype := ReadData(Named(NO_STATE, KIND_TUN), data).value.info, Last(data, IFLA_TUN_TYPE);
      && InfoGet(info, TUN_UID) == NumberIn(Last(data, IFLA_TUN_OWNER))
      && InfoGet(info, TUN_GID) == NumberIn(Last(data, IFLA_TUN_GROUP))
      && (ttype.Some? ==> ttype.value.data != [])
      && InfoGet(info, TUN_TYPE)
           == (if ttype.None? || ttype.value.data[0] == 0 then None else Some(Number(ttype.value.data[0])))
      && info.tunFlags == FlagsSet(data)
      && InfoGet(info, TUN_FLAGS) == if info.tunFlags == {} then None else Some(Flags(info.tunFlags, info.tunFlags))
  {
    LongTun(data);
    Read4(Last(data, IFLA_TUN_OWNER));
    Read4(Last(data, IFLA_TUN_GROUP));
    hide Any, Last, FromLE4, Number4, FlagsSet;
  }

  /**
   * A TUN device: user, group and type are in the last attributes of types 1, 2 and 3, where
   * type 0 says that there is none; the flags are those of the boolean attributes of types 4
   * to 7 that occur with a byte other than zero, and set exactly when there is one.
   */
  lemma TunDelivered(p: Packet, i: nat)
    requires IsLinkType(p.nlType) && Readable(p) && Decode(p).Accepted? && OnlyNest(Parse(p.body.attrs), i)
    requires SaysKind(Parse(Parse(p.body.attrs)[i].data), KIND_TUN)
    ensures var q, data := Decode(p).record, DataOf(p, i);
      var ttype := Last(data, IFLA_TUN_TYPE);
      && q.Get(INFO) == Some(Number(KIND_TUN))
      && InfoGet(q.info, TUN_UID) == NumberIn(Last(data, IFLA_TUN_OWNER))
      && InfoGet(q.info, TUN_GID) == NumberIn(Last(data, IFLA_TUN_GROUP))
      && (ttype.Some? ==> ttype.value.data != [])
      && InfoGet(q.info, TUN_TYPE)
           == (if ttype.None? || ttype.value.data[0] == 0 then None else Some(Number(ttype.value.data[0])))
    ensures var q := Decode(p).record;
      && (forall f: bit :: f in q.info.tunFlags <==> Switched(DataOf(p, i), f))
      && InfoGet(q.info, TUN_FLAGS)
           == if q.info.tunFlags == {} then None else Some(Flags(q.info.tunFlags, q.info.tunFlags))
  {
    DataDelivered(p, i, KIND_TUN);
    var data := DataOf(p, i);
    hide Decode, DataOf, OnlyNest, SaysKind, Last, Parse, ReadData, DataBad, InfoGet, NumberIn, Switched, FlagsSet;
    TunData(data);
    forall f: bit {
      SwitchedSet(data, f);
    }
  }
}
