/** Link records in memory: src/rtnl/link.c, link_vlan.c, link_xfrm.c, link_tun.c and their data files as they run. */
module LinkRecords {
  import opened Bits
  import opened Wire
  import opened Tlv
  import opened Comparison
  import opened NlMessage
  import opened MessageList
  import opened Link
  import opened LinkData
  import LinkLookup

  /** Presence bits after a kind-specific setter that made sure of the kind. */
  lemma KindBits(l: Link, s: InfoState, flags: set<nat>)
    requires s.has && (l.State().hasParent ==> s.hasParent)
    requires flags == l.props + {INFO} + (if s.hasParent then {PARENT} else {})
    ensures l.With(s).props == flags
  {
  }

  class LinkRecord {
    var propFlags: set<nat>
    var ltype: u16
    var family: byte
    var state: byte
    var mac: EthAddr
    var name: ifname
    var index: u32
    var flags: flags32
    var flagMask: flags32
    var mtu: u32
    var mtuMin: u32
    var mtuMax: u32
    var master: u32
    var parent: u32
    var infoKind: nat
    var infoFlags: set<nat>
    var vlanId: u16
    var xfrmIfIndex: u32
    var xfrmId: u32
    var tunType: byte
    var tunFlags: flags32
    var tunUid: u32
    var tunGid: u32

    ghost function Value(): Link
      reads this
    {
      Link(propFlags, ltype, family, state, mac, name, index, flags, flagMask, mtu, mtuMin, mtuMax, master, parent,
           Info(infoKind, infoFlags, vlanId, xfrmIfIndex, xfrmId, tunType, tunFlags, tunUid, tunGid))
    }

    constructor ()
      ensures Value() == NEW
    {
      propFlags, ltype, family, state, mac, name, index := {}, 0, 0, 0, NO_MAC, [], 0;
      flags, flagMask, mtu, mtuMin, mtuMax, master, parent := {}, {}, 0, 0, 0, 0, 0;
      infoKind, infoFlags, vlanId, xfrmIfIndex, xfrmId := 0, {}, 0, 0, 0;
      tunType, tunFlags, tunUid, tunGid := 0, {}, 0, 0;
    }

    /** A copy of every field, with only some of the presence bits. */
    constructor Copy(from: LinkRecord, props: set<nat>)
      ensures Value() == old(from.Value()).(props := props)
    {
      propFlags, ltype, family, state, mac := props, from.ltype, from.family, from.state, from.mac;
      name, index, flags, flagMask := from.name, from.index, from.flags, from.flagMask;
      mtu, mtuMin, mtuMax, master, parent := from.mtu, from.mtuMin, from.mtuMax, from.master, from.parent;
      infoKind, infoFlags, vlanId := from.infoKind, from.infoFlags, from.vlanId;
      xfrmIfIndex, xfrmId := from.xfrmIfIndex, from.xfrmId;
      tunType, tunFlags, tunUid, tunGid := from.tunType, from.tunFlags, from.tunUid, from.tunGid;
    }

    static method Clone(from: LinkRecord?, filter: set<nat>) returns (to: LinkRecord?)
      ensures to == null <==> from == null
      ensures to != null ==> fresh(to) && to.Value() == from.Value().Clone(filter)
    {
      if from == null {
        to := null;
      } else if filter != {} {
        to := new LinkRecord.Copy(from, from.propFlags * filter);
      } else {
        to := new LinkRecord();
      }
    }

    // ----- Setters of plain properties -----

    method SetU8(data: nat, v: byte) returns (rc: int)
      modifies this`family, this`state, this`propFlags
      ensures Effect(old(Value()), old(Value()).SetU8(data, v), rc, Value())
    {
      rc := 0;
      match data {
        case FAMILY => family := v;
        case STATE => state := v;
        case _ => return -1;
      }
      propFlags := propFlags + {data};
    }

    method SetType(v: u16) returns (rc: int)
      modifies this`ltype, this`propFlags
      ensures rc == 0 && Value() == old(Value()).SetType(v)
    {
      ltype := v;
      propFlags := propFlags + {TYPE};
      rc := 0;
    }

    method SetU32(data: nat, v: u32) returns (rc: int)
      modifies this`index, this`mtu, this`mtuMin, this`mtuMax, this`master, this`parent, this`propFlags
      ensures Effect(old(Value()), old(Value()).SetU32(data, v), rc, Value())
    {
      rc := 0;
      match data {
        case INDEX => index := v;
        case MTU => mtu := v;
        case MTU_MIN => mtuMin := v;
        case MTU_MAX => mtuMax := v;
        case MASTER => master := v;
        case PARENT => parent := v;
        case _ => return -1;
      }
      propFlags := propFlags + {data};
    }

    method SetHwaddr(v: EthAddr) returns (rc: int)
      modifies this`mac, this`propFlags
      ensures rc == 0 && Value() == old(Value()).SetMac(v)
    {
      mac := v;
      propFlags := propFlags + {HWADDR};
      rc := 0;
    }

    method SetName(v: cstring) returns (rc: int)
      modifies this`name, this`propFlags
      ensures Effect(old(Value()), old(Value()).SetName(v), rc, Value())
    {
      rc := -1;
      if |v| < IF_NAMESIZE {
        propFlags := propFlags + {NAME};
        name := v;
        rc := 0;
      }
    }

    method SetFlags(v: flags32) returns (rc: int)
      modifies this`flags, this`flagMask, this`propFlags
      ensures rc == 0 && Value() == old(Value()).SetFlags(v)
    {
      flags := v;
      propFlags := propFlags + {FLAGS};
      flagMask := ALL_FLAGS;
      rc := 0;
    }

    method SetSelectedFlags(v: flags32, on: bool) returns (rc: int)
      modifies this`flags, this`flagMask, this`propFlags
      ensures Effect(old(Value()), old(Value()).SetSelectedFlags(v, on), rc, Value())
    {
      rc := -1;
      if v != {} {
        if on {
          flags := flags + v;
        } else {
          flags := flags - v;
        }
        flagMask := flagMask + v;
        propFlags := propFlags + {FLAGS};
        rc := 0;
      }
    }

    // ----- Kind-specific setters -----

    /** rc is 1 when no kind is set. */
    method GetInfoKind() returns (rc: int, kind: nat)
      ensures rc == (if INFO in propFlags then 0 else 1) && (rc == 0 ==> kind == infoKind)
    {
      kind := 0;
      if INFO !in propFlags {
        rc := 1;
      } else {
        kind := infoKind;
        rc := 0;
      }
    }

    method SetInfoKind(newKind: nat) returns (rc: int)
      modifies this`infoKind, this`propFlags
      ensures Effect(old(Value()), old(Value()).Lift(old(Value()).State().SetKind(newKind)), rc, Value())
      ensures rc == 0 ==> propFlags == old(propFlags) + {INFO} && infoKind == newKind
    {
      var kind;
      rc, kind := GetInfoKind();
      if rc == 0 && kind != newKind {
        rc := -1;
      } else if rc == 1 {
        infoKind := newKind;
        propFlags := propFlags + {INFO};
        rc := 0;
      }
      assert rc == 0 ==> old(Value()).State().SetKind(newKind) == Some(Value().State());
      if rc == 0 {
        KindBits(old(Value()), Value().State(), propFlags);
      }
    }

    method SetVlanId(id: u16) returns (rc: int)
      modifies this`infoKind, this`infoFlags, this`vlanId, this`propFlags
      ensures Effect(old(Value()), old(Value()).Lift(old(Value()).State().SetVlanId(id)), rc, Value())
    {
      rc := SetInfoKind(KIND_VLAN);
      if rc == 0 {
        infoFlags := infoFlags + {VLAN_ID};
        vlanId := id;
        KindBits(old(Value()), Value().State(), propFlags);
      }
    }

    method SetXfrmIfindex(index: u32) returns (rc: int)
      modifies this`infoKind, this`infoFlags, this`xfrmIfIndex, this`propFlags
      modifies this`index, this`mtu, this`mtuMin, this`mtuMax, this`master, this`parent
      ensures Effect(old(Value()), old(Value()).Lift(old(Value()).State().SetXfrmIfindex(index)), rc, Value())
    {
      rc := SetInfoKind(KIND_XFRM);
      if rc == 0 {
        infoFlags := infoFlags + {XFRM_IFINDEX};
        xfrmIfIndex := index;
        if PARENT !in propFlags {
          rc := SetU32(PARENT, index);
        }
        KindBits(old(Value()), Value().State(), propFlags);
      }
    }

    method SetXfrmId(id: u32) returns (rc: int)
      modifies this`infoKind, this`infoFlags, this`xfrmId, this`propFlags
      ensures Effect(old(Value()), old(Value()).Lift(old(Value()).State().SetXfrmId(id)), rc, Value())
    {
      rc := SetInfoKind(KIND_XFRM);
      if rc == 0 {
        infoFlags := infoFlags + {XFRM_ID};
        xfrmId := id;
        KindBits(old(Value()), Value().State(), propFlags);
      }
    }

    method SetTunType(t: byte) returns (rc: int)
      modifies this`infoKind, this`infoFlags, this`tunType, this`propFlags
      ensures Effect(old(Value()), old(Value()).Lift(old(Value()).State().SetTunType(t)), rc, Value())
    {
      rc := -1;
      if !(t % 2 == 1 && t / 2 % 2 == 1) {
        rc := SetInfoKind(KIND_TUN);
        if rc == 0 {
          tunType := t;
          if t == 0 {
            infoFlags := infoFlags - {TUN_TYPE};
          } else {
            infoFlags := infoFlags + {TUN_TYPE};
          }
          KindBits(old(Value()), Value().State(), propFlags);
        }
      }
    }

    method SetTunFlags(v: flags32) returns (rc: int)
      modifies this`infoKind, this`infoFlags, this`tunFlags, this`propFlags
      ensures Effect(old(Value()), old(Value()).Lift(old(Value()).State().SetTunFlags(v)), rc, Value())
    {
      rc := SetInfoKind(KIND_TUN);
      if rc == 0 {
        tunFlags := v;
        if v == {} {
          infoFlags := infoFlags - {TUN_FLAGS};
        } else {
          infoFlags := infoFlags + {TUN_FLAGS};
        }
        KindBits(old(Value()), Value().State(), propFlags);
      }
    }

    method SetTunUid(uid: u32) returns (rc: int)
      modifies this`infoKind, this`infoFlags, this`tunUid, this`propFlags
      ensures Effect(old(Value()), old(Value()).Lift(old(Value()).State().SetTunUid(uid)), rc, Value())
    {
      rc := SetInfoKind(KIND_TUN);
      if rc == 0 {
        tunUid := uid;
        infoFlags := infoFlags + {TUN_UID};
        KindBits(old(Value()), Value().State(), propFlags);
      }
    }

    method SetTunGid(gid: u32) returns (rc: int)
      modifies this`infoKind, this`infoFlags, this`tunGid, this`propFlags
      ensures Effect(old(Value()), old(Value()).Lift(old(Value()).State().SetTunGid(gid)), rc, Value())
    {
      rc := SetInfoKind(KIND_TUN);
      if rc == 0 {
        tunGid := gid;
        infoFlags := infoFlags + {TUN_GID};
        KindBits(old(Value()), Value().State(), propFlags);
      }
    }

    method SetUpDown(up: bool) returns (rc: int)
      modifies this`flags, this`flagMask, this`propFlags
      ensures Effect(old(Value()), old(Value()).SetSelectedFlags(IFF_UP, up), rc, Value())
    {
      rc := SetSelectedFlags(IFF_UP, up);
    }

    // ----- Comparison -----

    method Cmp(other: LinkRecord, data: nat) returns (same: bool)
      ensures same == Same(Value(), other.Value(), data)
    {
      same := true;
      match data {
        case FAMILY => same := family == other.family;
        case TYPE => same := ltype == other.ltype;
        case NAME => same := name == other.name;
        case INDEX => same := index == other.index;
        case FLAGS =>
          var common := flagMask * other.flagMask;
          same := flags * common == other.flags * common;
        case HWADDR => same := mac == other.mac;
        case MTU => same := mtu == other.mtu;
        case MTU_MIN => same := mtuMin == other.mtuMin;
        case MTU_MAX => same := mtuMax == other.mtuMax;
        case MASTER => same := master == other.master;
        case STATE => same := state == other.state;
        case PARENT => same := parent == other.parent;
        case INFO => same := infoKind == other.infoKind;
        case _ =>
      }
    }

    static method Compare(l1: LinkRecord?, l2: LinkRecord?, filter: set<nat>) returns (rc: int)
      ensures rc == if l1 == null || l2 == null then -1 else CompareCode(l1.Value(), l2.Value(), filter)
    {
      if l1 == null || l2 == null {
        return -1;
      }
      ghost var agree := Agreement(l1.Value(), l2.Value());
      var i := 0;
      while i < MAX
        invariant i <= MAX
        invariant Scan(MAX, filter, agree, 0) == Scan(MAX, filter, agree, i)
      {
        if i in filter {
          if i !in l1.propFlags {
            if i in l2.propFlags {
              return i + 1;
            }
          } else if i !in l2.propFlags {
            return i + 1;
          } else {
            var same := l1.Cmp(l2, i);
            if !same {
              return i + 1;
            }
          }
        }
        i := i + 1;
      }
      rc := 0;
    }

    ghost function InfoValue(): Info
      reads this
    {
      Value().info
    }

    method VlanCmp(other: LinkRecord, filter: set<nat>) returns (rc: int)
      ensures rc == Scan(VLAN_MAX, filter, VlanAgreement(InfoValue(), other.InfoValue()), 0)
    {
      var i := 0;
      while i < VLAN_MAX
        invariant i <= VLAN_MAX
        invariant var agree := VlanAgreement(InfoValue(), other.InfoValue());
          Scan(VLAN_MAX, filter, agree, 0) == Scan(VLAN_MAX, filter, agree, i)
      {
        if i in filter {
          if i !in infoFlags {
            if i in other.infoFlags {
              return i + 1;
            }
          } else if i !in other.infoFlags {
            return i + 1;
          } else if i == VLAN_ID && vlanId != other.vlanId {
            return i + 1;
          }
        }
        i := i + 1;
      }
      rc := 0;
    }

    method XfrmCmp(other: LinkRecord, filter: set<nat>) returns (rc: int)
      ensures rc == Scan(XFRM_MAX, filter, XfrmAgreement(InfoValue(), other.InfoValue()), 0)
    {
      var i := 0;
      while i < XFRM_MAX
        invariant i <= XFRM_MAX
        invariant var agree := XfrmAgreement(InfoValue(), other.InfoValue());
          Scan(XFRM_MAX, filter, agree, 0) == Scan(XFRM_MAX, filter, agree, i)
      {
        if i in filter {
          if i !in infoFlags {
            if i in other.infoFlags {
              return i + 1;
            }
          } else if i !in other.infoFlags {
            return i + 1;
          } else {
            match i {
              case XFRM_IFINDEX => if xfrmIfIndex != other.xfrmIfIndex { return i + 1; }
              case XFRM_ID => if xfrmId != other.xfrmId { return i + 1; }
              case _ =>
            }
          }
        }
        i := i + 1;
      }
      rc := 0;
    }

    method TunCmp(other: LinkRecord, filter: set<nat>) returns (rc: int)
      ensures rc == Scan(TUN_MAX, filter, TunAgreement(InfoValue(), other.InfoValue()), 0)
    {
      var i := 0;
      while i < TUN_MAX
        invariant i <= TUN_MAX
        invariant var agree := TunAgreement(InfoValue(), other.InfoValue());
          Scan(TUN_MAX, filter, agree, 0) == Scan(TUN_MAX, filter, agree, i)
      {
        if i in filter {
          if i !in infoFlags {
            if i in other.infoFlags {
              return i + 1;
            }
          } else if i !in other.infoFlags {
            return i + 1;
          } else {
            match i {
              case TUN_TYPE => if tunType != other.tunType { return i + 1; }
              case TUN_FLAGS => if tunFlags != other.tunFlags { return i + 1; }
              case TUN_UID => if tunUid != other.tunUid { return i + 1; }
              case TUN_GID => if tunUid != other.tunUid { return i + 1; }
              case _ =>
            }
          }
        }
        i := i + 1;
      }
      rc := 0;
    }

    method InfoCmp(other: LinkRecord, filter: set<nat>) returns (rc: int)
      ensures rc == InfoCode(InfoValue(), other.InfoValue(), filter)
    {
      rc := 0;
      if infoKind >= KIND_MAX {
        rc := -1;
      } else if infoKind != other.infoKind {
        rc := 1;
      } else {
        match infoKind {
          case KIND_VLAN => rc := VlanCmp(other, filter);
          case KIND_TUN => rc := TunCmp(other, filter);
          case KIND_XFRM => rc := XfrmCmp(other, filter);
          case _ =>
        }
      }
    }

    static method Match(link: LinkRecord?, pattern: LinkRecord?) returns (rc: int)
      ensures rc == if link == null || pattern == null then -1 else MatchCode(link.Value(), pattern.Value())
    {
      rc := -1;
      if pattern != null {
        rc := Compare(link, pattern, pattern.propFlags);
        if rc == 0 && INFO in pattern.propFlags {
          rc := link.InfoCmp(pattern, pattern.infoFlags);
          if 0 < rc {
            rc := INFO + 1;
          }
        }
      }
    }
  }

  // ----- The encoder -----

  /** mnlxt_rt_link_vlan_info_put */
  method VlanInfoPut(nlh: Builder, link: LinkRecord)
    requires nlh.Valid() && nlh.Used() + 16 <= nlh.buf.Length && link.infoKind == KIND_VLAN
    modifies nlh`nlmsgLen, nlh.buf
    ensures nlh.Valid() && nlh.Contents() == old(nlh.Contents()) + EncodeAttrs(InfoData(link.InfoValue()))
  {
    ghost var attrs := InfoData(link.InfoValue());
    if VLAN_ID in link.infoFlags {
      EncodeOne(attrs[0]);
      nlh.AttrPut(Attr(IFLA_VLAN_ID, LE2(link.vlanId)));
    }
  }

  lemma XfrmInfoBytes(info: Info, id: Attr, index: Attr)
    requires info.kind == KIND_XFRM
    requires id == Attr(IFLA_XFRM_IF_ID, LE4(info.xfrmId)) && index == Attr(IFLA_XFRM_LINK, LE4(info.xfrmIfIndex))
    ensures Align(id.NlaLen()) == 8 && Align(index.NlaLen()) == 8
    ensures EncodeAttrs(InfoData(info))
      == (if XFRM_ID in info.props then EncodeAttr(id) else [])
       + (if XFRM_IFINDEX in info.props then EncodeAttr(index) else [])
  {
    EncodeOne(id);
    EncodeOne(index);
    EncodeTwo(id, index);
    assert [id] + [index] == [id, index];
    assert [id] + [] == [id] && [] + [index] == [index];
  }

  /** mnlxt_rt_link_xfrm_info_put */
  method XfrmInfoPut(nlh: Builder, link: LinkRecord)
    requires nlh.Valid() && nlh.Used() + 16 <= nlh.buf.Length && link.infoKind == KIND_XFRM
    modifies nlh`nlmsgLen, nlh.buf
    ensures nlh.Valid() && nlh.Contents() == old(nlh.Contents()) + EncodeAttrs(InfoData(link.InfoValue()))
  {
    var id, index := Attr(IFLA_XFRM_IF_ID, LE4(link.xfrmId)), Attr(IFLA_XFRM_LINK, LE4(link.xfrmIfIndex));
    XfrmInfoBytes(link.InfoValue(), id, index);
    hide EncodeAttrs, EncodeAttr, InfoData, LE4, Align;
    ghost var before := nlh.Contents();
    if XFRM_ID in link.infoFlags {
      nlh.AttrPut(id);
    }
    ghost var middle := nlh.Contents();
    assert middle == before + (if XFRM_ID in link.infoFlags then EncodeAttr(id) else []);
    if XFRM_IFINDEX in link.infoFlags {
      nlh.AttrPut(index);
    }
  }

  /** The kind-specific attributes inside IFLA_INFO_DATA. */
  method KindInfoPut(nlh: Builder, link: LinkRecord)
    requires nlh.Valid() && nlh.Used() + 16 <= nlh.buf.Length
    modifies nlh`nlmsgLen, nlh.buf
    ensures nlh.Valid() && nlh.Contents() == old(nlh.Contents()) + EncodeAttrs(InfoData(link.InfoValue()))
  {
    match link.infoKind {
      case KIND_VLAN => VlanInfoPut(nlh, link);
      case KIND_XFRM => XfrmInfoPut(nlh, link);
      case _ =>
    }
  }

  /** The nest IFLA_INFO_DATA. */
  method InfoDataPut(nlh: Builder, link: LinkRecord)
    requires nlh.Valid() && nlh.Used() + 20 <= nlh.buf.Length && link.infoKind < KIND_MAX
    modifies nlh`nlmsgLen, nlh.buf
    ensures nlh.Valid() && nlh.Contents() == old(nlh.Contents()) + EncodeAttr(InfoAttrs(link.InfoValue())[1])
  {
    ghost var before := nlh.Contents();
    InfoDataSize(link.InfoValue());
    var nestData := nlh.NestStart(NLA_F_NESTED + IFLA_INFO_DATA);
    KindInfoPut(nlh, link);
    nlh.NestEnd(nestData, NLA_F_NESTED + IFLA_INFO_DATA, before, EncodeAttrs(InfoData(link.InfoValue())));
  }

  lemma InfoBytes(info: Info)
    requires info.kind < KIND_MAX
    ensures EncodeAttrs(InfoAttrs(info)) == EncodeAttr(InfoAttrs(info)[0]) + EncodeAttr(InfoAttrs(info)[1])
    ensures |EncodeAttrs(InfoAttrs(info))| <= 32 && |EncodeAttrs(InfoAttrs(info))| % 4 == 0
  {
    EncodeTwo(InfoAttrs(info)[0], InfoAttrs(info)[1]);
    InfoAttrsSize(info);
  }

  method InfoKindPut(nlh: Builder, link: LinkRecord)
    requires nlh.Valid() && nlh.Used() + 12 <= nlh.buf.Length && link.infoKind < KIND_MAX
    modifies nlh`nlmsgLen, nlh.buf
    ensures nlh.Valid() && nlh.Contents() == old(nlh.Contents()) + EncodeAttr(InfoAttrs(link.InfoValue())[0])
  {
    nlh.AttrPut(Attr(IFLA_INFO_KIND, KindName(link.infoKind)));
  }

  /** Everything inside IFLA_LINKINFO. */
  method InfoAttrsPut(nlh: Builder, link: LinkRecord)
    requires nlh.Valid() && nlh.Used() + 32 <= nlh.buf.Length && link.infoKind < KIND_MAX
    modifies nlh`nlmsgLen, nlh.buf
    ensures nlh.Valid() && nlh.Contents() == old(nlh.Contents()) + EncodeAttrs(InfoAttrs(link.InfoValue()))
  {
    hide EncodeAttr;
    ghost var before, attrs := nlh.Contents(), InfoAttrs(link.InfoValue());
    InfoBytes(link.InfoValue());
    InfoKindPut(nlh, link);
    assert nlh.Contents() == before + EncodeAttr(attrs[0]);
    InfoDataPut(nlh, link);
    assert nlh.Contents() == before + EncodeAttr(attrs[0]) + EncodeAttr(attrs[1]);
    assert before + EncodeAttr(attrs[0]) + EncodeAttr(attrs[1])
      == before + (EncodeAttr(attrs[0]) + EncodeAttr(attrs[1]));
  }

  /** mnlxt_rt_link_info_put: two nests whose lengths are patched once their content is known. */
  method InfoPut(nlh: Builder, link: LinkRecord) returns (rc: int)
    requires nlh.Valid() && nlh.Used() + 36 <= nlh.buf.Length && INFO in link.propFlags
    modifies nlh`nlmsgLen, nlh.buf
    ensures nlh.Valid() && rc == if link.infoKind < KIND_MAX then 0 else -1
    ensures nlh.Contents() == old(nlh.Contents())
      + if link.infoKind < KIND_MAX then EncodeAttr(LinkInfo(link.InfoValue())) else []
  {
    var kind;
    rc, kind := link.GetInfoKind();
    if kind >= KIND_MAX {
      return -1;
    }
    ghost var before := nlh.Contents();
    InfoAttrsSize(link.InfoValue());
    var nestInfo := nlh.NestStart(NLA_F_NESTED + IFLA_LINKINFO);
    InfoAttrsPut(nlh, link);
    nlh.NestEnd(nestInfo, NLA_F_NESTED + IFLA_LINKINFO, before, EncodeAttrs(InfoAttrs(link.InfoValue())));
  }

  /** One round of the encoder's property loop. */
  method PutProperty(nlh: Builder, link: LinkRecord, i: nat)
    requires nlh.Valid() && nlh.tmpl == LinkTemplate(Header(link.Value(), i)) && i in link.propFlags && i < MAX
    requires nlh.Used() + 36 <= nlh.buf.Length
    modifies nlh`tmpl, nlh`nlmsgLen, nlh.buf
    ensures nlh.Valid() && nlh.tmpl == LinkTemplate(Header(link.Value(), i + 1))
    ensures var a := AttrOf(link.Value(), i);
      nlh.Contents() == old(nlh.Contents()) + if a.Some? then EncodeAttr(a.value) else []
  {
    hide EncodeAttr;
    match i {
      case FAMILY => nlh.tmpl := LinkTemplate(nlh.tmpl.ifm.(family := link.family));
      case TYPE => nlh.tmpl := LinkTemplate(nlh.tmpl.ifm.(itype := link.ltype));
      case NAME => nlh.AttrPut(Attr(IFLA_IFNAME, link.name));
      case INDEX => nlh.tmpl := LinkTemplate(nlh.tmpl.ifm.(index := link.index));
      case FLAGS => nlh.tmpl := LinkTemplate(nlh.tmpl.ifm.(flags := link.flags, change := link.flagMask));
      case HWADDR => nlh.AttrPut(Attr(IFLA_ADDRESS, link.mac));
      case MTU => nlh.AttrPut(Attr(IFLA_MTU, LE4(link.mtu)));
      case MASTER => nlh.AttrPut(Attr(IFLA_MASTER, LE4(link.master)));
      case STATE => nlh.AttrPut(Attr(IFLA_OPERSTATE, LE4(link.state)));
      case PARENT => nlh.AttrPut(Attr(IFLA_LINK, LE4(link.parent)));
      case INFO => var _ := InfoPut(nlh, link);
      case _ => // read-only limits
    }
  }

  /** A property that is not set leaves the message as it is. */
  lemma Idle(l: Link, i: nat)
    requires i !in l.props
    ensures AttrsOf(l)(i).None? && Header(l, i + 1) == Header(l, i)
  {
  }

  lemma Round(l: Link, i: nat)
    ensures EncodeAttrs(Emit(i + 1, AttrsOf(l)))
      == EncodeAttrs(Emit(i, AttrsOf(l))) + (if AttrOf(l, i).Some? then EncodeAttr(AttrOf(l, i).value) else [])
    ensures |EncodeAttrs(Emit(i, AttrsOf(l)))| <= 36 * i
  {
    AttrFits(l);
    EmitStep(i, AttrsOf(l), 36);
  }

  /** The encoder's property loop. */
  method PutProperties(nlh: Builder, link: LinkRecord)
    requires nlh.Valid() && nlh.tmpl == LinkTemplate(Header(link.Value(), 0))
    requires nlh.Contents() == [] && nlh.buf.Length >= ATTR_ROOM
    modifies nlh`tmpl, nlh`nlmsgLen, nlh.buf
    ensures nlh.Valid() && nlh.tmpl == LinkTemplate(Header(link.Value(), MAX))
    ensures nlh.Contents() == EncodeAttrs(Emit(MAX, AttrsOf(link.Value())))
  {
    hide Header, AttrOf, EncodeAttr;
    ghost var l := link.Value();
    var i := 0;
    while i < MAX
      invariant i <= MAX && nlh.Valid() && nlh.tmpl == LinkTemplate(Header(l, i))
      invariant nlh.Contents() == EncodeAttrs(Emit(i, AttrsOf(l)))
    {
      Round(l, i);
      if i in link.propFlags {
        PutProperty(nlh, link, i);
      } else {
        Idle(l, i);
      }
      i := i + 1;
    }
  }

  /** mnlxt_rt_link_put */
  method Put(nlh: Builder, link: LinkRecord?) returns (rc: int)
    requires nlh.Empty()
    modifies nlh`tmpl, nlh`nlmsgLen, nlh.buf
    ensures nlh.Valid() && rc == if link == null then -1 else 0
    ensures link != null ==> nlh.Sent() == Encode(link.Value(), nlh.nlmsgType)
  {
    hide EncodeAttrs;
    if link == null {
      return -1;
    }
    nlh.PutExtraHeader(LinkTemplate(IfInfoMsg(0, 0, 0, {}, {})));
    PutProperties(nlh, link);
    rc := 0;
  }

  // ----- The decoder -----

  /** mnlxt_rt_link_info_kind_get_enum: the first kind with the given name; -1 without one. */
  method KindEnum(name: cstring) returns (rc: int)
    ensures rc == if KindOfName(name).Some? then KindOfName(name).value else -1
  {
    var index := 0;
    while index < KIND_MAX && name != KindName(index)
      invariant index <= KIND_MAX && KindOfName(name) == KindFrom(name, index)
    {
      index := index + 1;
    }
    rc := if index < KIND_MAX then index else -1;
  }

  lemma WithOwnState(l: Link)
    ensures l.With(l.State()) == l
  {
    assert l.With(l.State()).props == l.props;
  }

  /** The record is l with at most its kind-specific part and parent changed. */
  ghost predicate Extends(l: Link, link: LinkRecord)
    reads link
  {
    link.Value() == l.With(link.Value().State())
  }

  /** What a kind-specific decoder returns and leaves behind; a failed record is dropped. */
  ghost predicate Outcome(l: Link, s: Option<InfoState>, rc: int, link: LinkRecord)
    reads link
  {
    && rc == (if s.Some? then 0 else -1)
    && (s.Some? ==> link.Value() == l.With(s.value) && link.Value().State() == s.value)
  }

  /** mnlxt_rt_link_vlan_info_data */
  method VlanInfoData(data: bytes, link: LinkRecord) returns (rc: int)
    modifies link
    ensures Outcome(old(link.Value()), Fold(old(link.Value()).State(), Parse(data), VlanStep), rc, link)
  {
    hide Fold;
    var attr := data;
    WithOwnState(link.Value());
    ghost var l := link.Value();
    while AttrOk(attr)
      invariant Extends(l, link)
      invariant Fold(l.State(), Parse(data), VlanStep) == Fold(link.Value().State(), Parse(attr), VlanStep)
      decreases |attr|
    {
      var a := Head(attr);
      FoldCons(link.Value().State(), a, Parse(Rest(attr)), VlanStep);
      if a.Kind() == IFLA_VLAN_ID {
        if !a.Holds(2) {
          return -1;
        }
        rc := link.SetVlanId(LoadU32(a.data) % 0x1_0000);
        if rc == -1 {
          return -1;
        }
      }
      attr := Rest(attr);
    }
    FoldIdle(link.Value().State(), [], VlanStep);
    rc := 0;
  }

  /** mnlxt_rt_link_xfrm_info_data */
  method XfrmInfoData(data: bytes, link: LinkRecord) returns (rc: int)
    modifies link
    ensures Outcome(old(link.Value()), Fold(old(link.Value()).State(), Parse(data), XfrmStep), rc, link)
  {
    hide Fold;
    var attr := data;
    WithOwnState(link.Value());
    ghost var l := link.Value();
    while AttrOk(attr)
      invariant Extends(l, link)
      invariant Fold(l.State(), Parse(data), XfrmStep) == Fold(link.Value().State(), Parse(attr), XfrmStep)
      decreases |attr|
    {
      var a := Head(attr);
      FoldCons(link.Value().State(), a, Parse(Rest(attr)), XfrmStep);
      match a.Kind() {
        case IFLA_XFRM_LINK =>
          if !a.Holds(4) { return -1; }
          rc := link.SetXfrmIfindex(a.U32());
          if rc == -1 { return -1; }
        case IFLA_XFRM_IF_ID =>
          if !a.Holds(4) { return -1; }
          rc := link.SetXfrmId(a.U32());
          if rc == -1 { return -1; }
        case _ =>
      }
      attr := Rest(attr);
    }
    FoldIdle(link.Value().State(), [], XfrmStep);
    rc := 0;
  }

  /** One round of the TUN loop; boolean attributes only collect a flag. */
  method ApplyTunAttr(a: Attr, link: LinkRecord, flags: flags32) returns (ok: bool, newFlags: flags32)
    modifies link
    ensures var t := TunStep(TunScan(old(link.Value()).State(), flags), a);
      ok == t.Some? && (ok ==> newFlags == t.value.flags && link.Value().State() == t.value.state)
    ensures ok ==> link.Value() == old(link.Value()).With(link.Value().State())
  {
    WithOwnState(link.Value());
    var rc := 0;
    newFlags := flags;
    match a.Kind() {
      case IFLA_TUN_OWNER =>
        if !a.Holds(4) { return false, flags; }
        rc := link.SetTunUid(a.U32());
      case IFLA_TUN_GROUP =>
        if !a.Holds(4) { return false, flags; }
        rc := link.SetTunGid(a.U32());
      case IFLA_TUN_TYPE =>
        if !a.Holds(1) { return false, flags; }
        rc := link.SetTunType(a.data[0]);
      case IFLA_TUN_PI =>
        if !a.Holds(1) { return false, flags; }
        if a.data[0] != 0 { newFlags := flags + {0}; }
      case IFLA_TUN_VNET_HDR =>
        if !a.Holds(1) { return false, flags; }
        if a.data[0] != 0 { newFlags := flags + {1}; }
      case IFLA_TUN_PERSIST =>
        if !a.Holds(1) { return false, flags; }
        if a.data[0] != 0 { newFlags := flags + {2}; }
      case IFLA_TUN_MULTI_QUEUE =>
        if !a.Holds(1) { return false, flags; }
        if a.data[0] != 0 { newFlags := flags + {3}; }
      case _ =>
    }
    ok := rc != -1;
  }

  lemma WithTwice(l: Link, s: InfoState, t: InfoState)
    requires (s.has ==> t.has) && (s.hasParent ==> t.hasParent)
    ensures l.With(s).With(t) == l.With(t)
  {
    assert l.With(s).With(t).props == l.With(t).props;
  }

  /** mnlxt_rt_link_tun_info_data */
  method TunInfoData(data: bytes, link: LinkRecord) returns (rc: int)
    modifies link
    ensures Outcome(old(link.Value()), TunData(old(link.Value()).State(), data), rc, link)
  {
    var attr, flags: flags32 := data, {};
    WithOwnState(link.Value());
    ghost var l := link.Value();
    while AttrOk(attr)
      invariant Extends(l, link)
      invariant Fold(TunScan(l.State(), {}), Parse(data), TunStep)
        == Fold(TunScan(link.Value().State(), flags), Parse(attr), TunStep)
      decreases |attr|
    {
      ghost var s := link.Value().State();
      FoldCons(TunScan(s, flags), Head(attr), Parse(Rest(attr)), TunStep);
      var ok;
      ok, flags := ApplyTunAttr(Head(attr), link, flags);
      if !ok {
        return -1;
      }
      WithTwice(l, s, link.Value().State());
      attr := Rest(attr);
    }
    ghost var s := link.Value().State();
    rc := link.SetTunFlags(flags);
    if rc != -1 {
      WithTwice(l, s, link.Value().State());
    }
  }

  /** The switch on the kind after the IFLA_LINKINFO loop; kind is -1 when none was read. */
  method KindInfoData(kind: int, data: bytes, link: LinkRecord) returns (rc: int)
    requires -1 <= kind < KIND_MAX
    modifies link
    ensures var k := if kind == -1 then None else Some(kind as nat);
      Outcome(old(link.Value()), KindData(old(link.Value()).State(), k, data), rc, link)
  {
    WithOwnState(link.Value());
    rc := -1;
    match kind {
      case KIND_BR => rc := 0;
      case KIND_VLAN => rc := VlanInfoData(data, link);
      case KIND_BOND => rc := 0;
      case KIND_TUN => rc := TunInfoData(data, link);
      case KIND_XFRM => rc := XfrmInfoData(data, link);
      case _ =>
    }
  }

  ghost function ScanOf(link: LinkRecord, kind: int, data: Option<payload>): InfoScan
    requires -1 <= kind
    reads link
  {
    Scanned(link.Value().State(), if kind == -1 then None else Some(kind as nat), data)
  }

  /** The end of mnlxt_rt_link_info_attr: the data attribute, if there was one, by the kind read. */
  method DeferredData(infoKind: int, dataAttr: Option<payload>, link: LinkRecord, ghost l: Link) returns (rc: int)
    requires Extends(l, link) && -1 <= infoKind < KIND_MAX
    requires (l.State().has ==> link.Value().State().has) && (l.State().hasParent ==> link.Value().State().hasParent)
    modifies link
    ensures Outcome(l, InfoResult(old(ScanOf(link, infoKind, dataAttr))), rc, link)
  {
    rc := 0;
    if dataAttr.Some? {
      ghost var s := link.Value().State();
      rc := KindInfoData(infoKind, dataAttr.value, link);
      if rc == 0 {
        KindDataGrows(s, infoKind, dataAttr.value);
        WithTwice(l, s, link.Value().State());
      }
    }
  }

  /**
   * mnlxt_rt_link_info_attr: an unknown kind ends the loop and counts as success; the
   * data attribute is looked at only after the loop.
   */
  method InfoAttrData(attrs: bytes, link: LinkRecord) returns (rc: int)
    modifies link
    ensures Outcome(old(link.Value()), InfoAttr(old(link.Value()).State(), attrs), rc, link)
  {
    hide Fold;
    var attr, infoKind, dataAttr: Option<payload> := attrs, -1, None;
    WithOwnState(link.Value());
    ghost var l := link.Value();
    while AttrOk(attr)
      invariant Extends(l, link) && -1 <= infoKind < KIND_MAX
      invariant (l.State().has ==> link.Value().State().has) && (l.State().hasParent ==> link.Value().State().hasParent)
      invariant Fold(Scanned(l.State(), None, None), Parse(attrs), InfoStep)
        == Fold(ScanOf(link, infoKind, dataAttr), Parse(attr), InfoStep)
      decreases |attr|
    {
      var a := Head(attr);
      ghost var scan := ScanOf(link, infoKind, dataAttr);
      ghost var s := link.Value().State();
      FoldCons(scan, a, Parse(Rest(attr)), InfoStep);
      match a.Kind() {
        case IFLA_INFO_KIND =>
          if !a.IsString() { return -1; }
          infoKind := KindEnum(a.Str());
          if infoKind == -1 {
            UnknownStays(s, Parse(Rest(attr)));
            return 0;
          }
          rc := link.SetInfoKind(infoKind);
          if rc == -1 { return -1; }
          WithTwice(l, s, link.Value().State());
        case IFLA_INFO_DATA =>
          dataAttr := Some(a.data);
        case _ =>
      }
      attr := Rest(attr);
    }
    FoldIdle(ScanOf(link, infoKind, dataAttr), [], InfoStep);
    rc := DeferredData(infoKind, dataAttr, link, l);
  }

  lemma UnknownStays(s: InfoState, attrs: seq<Attr>)
    ensures Fold(Unknown(s), attrs, InfoStep) == Some(Unknown(s))
  {
    FoldIdle(Unknown(s), attrs, InfoStep);
  }

  lemma KindDataGrows(s: InfoState, kind: int, data: bytes)
    requires -1 <= kind
    ensures var t := KindData(s, if kind == -1 then None else Some(kind as nat), data);
      t.Some? ==> (s.has ==> t.value.has) && (s.hasParent ==> t.value.hasParent)
  {
    LinkLookup.KindDataAbove(s, s, if kind == -1 then None else Some(kind as nat), data);
  }

  /** One round of the decoder's attribute loop; the record is dropped when it fails. */
  method ApplyAttr(link: LinkRecord, attr: Attr) returns (ok: bool)
    modifies link
    ensures var next := Step(old(link.Value()), attr);
      ok == next.Some? && (ok ==> link.Value() == next.value)
  {
    var kind, rc := attr.Kind(), 0;
    if kind > IFLA_MAX {
      return true;
    }
    match kind {
      case IFLA_MTU =>
        if !attr.Holds(4) { return false; }
        rc := link.SetU32(MTU, attr.U32());
      case IFLA_MIN_MTU =>
        if !attr.Holds(4) { return false; }
        rc := link.SetU32(MTU_MIN, attr.U32());
      case IFLA_MAX_MTU =>
        if !attr.Holds(4) { return false; }
        rc := link.SetU32(MTU_MAX, attr.U32());
      case IFLA_IFNAME =>
        if !attr.IsString() { return false; }
        rc := link.SetName(attr.Str());
      case IFLA_ADDRESS =>
        if !attr.Holds(6) { return false; }
        rc := link.SetHwaddr(attr.data[..6]);
      case IFLA_LINK =>
        if !attr.Holds(4) { return false; }
        rc := link.SetU32(PARENT, attr.U32());
      case IFLA_OPERSTATE =>
        if !attr.Holds(1) { return false; }
        rc := link.SetU8(STATE, attr.data[0]);
      case IFLA_MASTER =>
        if !attr.Holds(4) { return false; }
        rc := link.SetU32(MASTER, attr.U32());
      case IFLA_LINKINFO =>
        rc := InfoAttrData(attr.data, link);
      case _ =>
    }
    ok := rc != -1;
  }

  /** Fills a new record from a message, until an attribute is refused. */
  method Read(h: IfInfoMsg, attrs: bytes) returns (link: LinkRecord, ok: bool)
    ensures fresh(link)
    ensures var l := Fold(NewLink(h), Parse(attrs), Step);
      ok == l.Some? && (ok ==> link.Value() == l.value)
  {
    link := new LinkRecord();
    ok := true;
    var rc := link.SetFlags(h.flags);
    rc := link.SetU32(INDEX, h.index);
    rc := link.SetType(h.itype);
    rc := link.SetU8(FAMILY, h.family);
    assert link.Value().props == HEADER_PROPS;
    var attr := attrs;
    while AttrOk(attr)
      invariant fresh(link) && ok
      invariant Fold(NewLink(h), Parse(attrs), Step) == Fold(link.Value(), Parse(attr), Step)
      decreases |attr|
    {
      FoldCons(link.Value(), Head(attr), Parse(Rest(attr)), Step);
      ok := ApplyAttr(link, Head(attr));
      if !ok {
        return;
      }
      attr := Rest(attr);
    }
  }

  /** The message has the type and its payload is a record of that value. */
  ghost predicate Carries(msg: Message, nlType: u16, l: Link)
    reads msg`nlmsgType, msg`payload, msg.payload
  {
    && msg.nlmsgType == nlType
    && msg.payload is LinkRecord
    && (msg.payload as LinkRecord).Value() == l
  }

  /** mnlxt_rt_link_free; nothing happens to null. */
  method Free(link: LinkRecord?) returns (ghost released: seq<LinkRecord>)
    ensures released == if link == null then [] else [link]
  {
    released := if link == null then [] else [link];
  }

  /**
   * mnlxt_rt_link_data: appends one message holding exactly the decoded record, or
   * leaves the list as it was.  A record is either in the list or released, never both:
   * the one under construction when an attribute is refused is released, and no message has it.
   */
  method Data(nlh: Packet, data: MsgData)
    returns (rc: int, ghost added: seq<Message>, ghost released: seq<LinkRecord>)
    requires data.Valid() && Readable(nlh)
    modifies data, data.Nodes()`next
    ensures data.Valid() && rc == CallbackCode(Decode(nlh))
    ensures data.nodes == old(data.nodes) + added
    ensures !Decode(nlh).Accepted? ==> added == []
    ensures Decode(nlh).Accepted? ==>
      && |added| == 1 && fresh(added[0]) && fresh(added[0].payload)
      && Carries(added[0], nlh.nlType, Decode(nlh).record)
    ensures Decode(nlh).Rejected? && IsLinkType(nlh.nlType) ==>
      |released| == 1 && fresh(released[0]) && Unlisted(released[0], data.nodes)
    ensures !(Decode(nlh).Rejected? && IsLinkType(nlh.nlType)) ==> released == []
  {
    hide Fold, Parse, Chained;
    rc, added := MNL_CB_ERROR, [];
    var link: LinkRecord? := null;
    if IsLinkType(nlh.nlType) {
      var ok;
      link, ok := Read(nlh.body.tmpl.ifm, nlh.body.attrs);
      if ok {
        var msg := new Message(nlh.nlType, 0, link);
        data.Add(msg);
        added := [msg];
        link := null; // the list owns the record now
        rc := MNL_CB_OK;
      }
    }
    released := Free(link);
  }
}
